/**
 Composite metadata: entries of a MIME type, well known by number or written out, and bytes. The
 table of well-known names is a parameter.
 */
module CompositeMetadata {
  import opened Bytes
  import opened BufferedFrame
  import opened Options

  type Text = seq<byte>
  type MIME = x: int | -128 <= x < 128

  datatype Key = WellKnown(id: MIME) | Custom(name: Text)

  datatype Entry = Entry(key: Key, metadata: seq<byte>)

  /** The names of the well-known types, all of them different. */
  type Table = t: map<MIME, Text> | forall i, j :: i in t && j in t && t[i] == t[j] ==> i == j witness map[]

  function NameOf(names: Table, id: MIME): Text {
    if id in names then names[id] else []
  }

  predicate Known(names: Table, name: Text) {
    exists id :: id in names && names[id] == name
  }

  /** The MIME type that belongs to a key. */
  function Name(names: Table, k: Key): Text {
    match k
    case WellKnown(id) => NameOf(names, id)
    case Custom(name) => name
  }

  // Building

  function KeyBytes(k: Key): seq<byte> {
    match k
    case WellKnown(id) => [128 + id % 128]
    case Custom(name) => [(|name| - 1) % 256] + name
  }

  function EntryBytes(e: Entry): seq<byte> {
    KeyBytes(e.key) + PutU24(|e.metadata|) + e.metadata
  }

  function Encoded(entries: seq<Entry>): seq<byte> {
    if entries == [] then [] else EntryBytes(entries[0]) + Encoded(entries[1..])
  }

  predicate NameTooLong(e: Entry) {
    e.key.Custom? && |e.key.name| > 127
  }

  predicate MetadataTooLong(e: Entry) {
    |e.metadata| > MAX_UINT24
  }

  /** An entry that Build accepts. */
  predicate Fits(e: Entry) {
    !NameTooLong(e) && !MetadataTooLong(e)
  }

  /** Names of at most 127 bytes and metadata of at most 2^24 - 1 bytes. */
  lemma FitsExactly(e: Entry)
    ensures Fits(e) <==> |e.metadata| < 0x100_0000 && (e.key.Custom? ==> |e.key.name| <= 127)
  {
  }

  /**
   An entry on the wire: a well-known type is its number with the highest bit set, any other its length
   minus one and its name; then the length of the metadata in three bytes, and the metadata.
   */
  lemma {:induction false} EntryOnWire(e: Entry)
    requires Fits(e)
    ensures var bs, at := EntryBytes(e), if e.key.Custom? then 1 + |e.key.name| else 1;
            && |bs| == at + 3 + |e.metadata|
            && (e.key.WellKnown? && e.key.id >= 0 ==> bs[0] == 0x80 + e.key.id)
            && (e.key.Custom? && e.key.name != [] ==> bs[0] == |e.key.name| - 1)
            && (e.key.Custom? ==> bs[1..at] == e.key.name)
            && Number(bs[at..at + 3]) == |e.metadata| && bs[at + 3..] == e.metadata
  {
    BigEndian24(|e.metadata|, PutU24(|e.metadata|));
    var bs, at := EntryBytes(e), |KeyBytes(e.key)|;
    assert bs[at..at + 3] == PutU24(|e.metadata|) && bs[at + 3..] == e.metadata;
    assert e.key.Custom? ==> bs[1..at] == e.key.name;
  }

  predicate AllFit(entries: seq<Entry>) {
    forall k :: 0 <= k < |entries| ==> Fits(entries[k])
  }

  /** The first entry that does not fit decides: a long name is an error, long metadata panics. */
  function Built(entries: seq<Entry>): Outcome<Option<seq<byte>>> {
    if entries == [] then Returns(Some([]))
    else if NameTooLong(entries[0]) then Returns(None)
    else if MetadataTooLong(entries[0]) then Panics
    else match Built(entries[1..])
      case Returns(Some(rest)) => Returns(Some(EntryBytes(entries[0]) + rest))
      case other => other
  }

  class CompositeMetadataBuilder {
    const names: Table
    var entries: seq<Entry>

    constructor (names: Table)
      ensures this.names == names && entries == []
    {
      this.names := names;
      entries := [];
    }

    method PushWellKnown(mimeType: MIME, metadata: seq<byte>)
      modifies this
      ensures entries == old(entries) + [Entry(WellKnown(mimeType), metadata)]
    {
      entries := entries + [Entry(WellKnown(mimeType), metadata)];
    }

    ghost predicate Resolved(k: Key, name: Text) {
      Name(names, k) == name && (k.Custom? <==> !Known(names, name))
    }

    method Push(mimeType: Text, metadata: seq<byte>)
      modifies this
      ensures |entries| == |old(entries)| + 1 && entries[..|old(entries)|] == old(entries)
      ensures entries[|old(entries)|].metadata == metadata
      ensures Resolved(entries[|old(entries)|].key, mimeType)
    {
      var key := Custom(mimeType);
      if id :| id in names && names[id] == mimeType {
        key := WellKnown(id);
      }
      entries := entries + [Entry(key, metadata)];
    }

    method Build() returns (r: Outcome<Option<seq<byte>>>)
      ensures r == Built(entries)
    {
      var bf := [];
      for i := 0 to |entries|
        invariant AllFit(entries[..i]) && bf == Encoded(entries[..i])
      {
        r := WriteEntry(bf, entries[i]);
        Grown(entries, i);
        if r == Panics || r == Returns(None) {
          BuiltUpTo(entries, i);
          return;
        }
        bf := r.value.value;
      }
      assert entries[..|entries|] == entries;
      BuiltUpTo(entries, |entries|);
      return Returns(Some(bf));
    }

    /** One round of the loop in Build. */
    method WriteEntry(prefix: seq<byte>, e: Entry) returns (r: Outcome<Option<seq<byte>>>)
      ensures r == if NameTooLong(e) then Returns(None)
                   else if MetadataTooLong(e) then Panics
                   else Returns(Some(prefix + EntryBytes(e)))
    {
      var bf := prefix;
      match e.key {
        case WellKnown(id) => bf := bf + [128 + id % 128];
        case Custom(name) =>
          var n := |name|;
          if n > 127 {
            return Returns(None);
          }
          bf := bf + [(n - 1) % 256];
          bf := bf + name;
      }
      if |e.metadata| > MAX_UINT24 {
        return Panics;
      }
      bf := bf + PutU24(|e.metadata|);
      if |e.metadata| > 0 {
        bf := bf + e.metadata;
      }
      Pieces(prefix, e);
      assert bf == prefix + KeyBytes(e.key) + PutU24(|e.metadata|) + e.metadata;
      return Returns(Some(bf));
    }
  }

  lemma Pieces(pre: seq<byte>, e: Entry)
    ensures pre + EntryBytes(e) == pre + KeyBytes(e.key) + PutU24(|e.metadata|) + e.metadata
    ensures e.key.Custom? ==> pre + KeyBytes(e.key) == pre + [(|e.key.name| - 1) % 256] + e.key.name
  {
  }

  lemma Grown(entries: seq<Entry>, i: nat)
    requires i < |entries|
    ensures Encoded(entries[..i + 1]) == Encoded(entries[..i]) + EntryBytes(entries[i])
    ensures AllFit(entries[..i]) && Fits(entries[i]) ==> AllFit(entries[..i + 1])
  {
    assert entries[..i + 1] == entries[..i] + [entries[i]];
    EncodedSnoc(entries[..i], entries[i]);
  }

  lemma {:induction false} EncodedSnoc(entries: seq<Entry>, last: Entry)
    ensures Encoded(entries + [last]) == Encoded(entries) + EntryBytes(last)
    decreases |entries|
  {
    if entries == [] {
      assert [] + [last] == [last];
    } else {
      assert (entries + [last])[1..] == entries[1..] + [last];
      EncodedSnoc(entries[1..], last);
    }
  }

  /** The first misfit, at index i, or the end, decides what Build returns. */
  lemma {:induction false} BuiltUpTo(entries: seq<Entry>, i: nat)
    requires i <= |entries| && AllFit(entries[..i])
    ensures i == |entries| ==> Built(entries) == Returns(Some(Encoded(entries)))
    ensures i < |entries| && NameTooLong(entries[i]) ==> Built(entries) == Returns(None)
    ensures i < |entries| && !NameTooLong(entries[i]) && MetadataTooLong(entries[i]) ==> Built(entries) == Panics
    decreases i
  {
    if i > 0 {
      assert entries[..i][0] == entries[0] && entries[..i][1..] == entries[1..][..i - 1];
      BuiltUpTo(entries[1..], i - 1);
    }
  }

  // Scanning

  /** The length, MIME type and bytes of the first entry. */
  function DecodeOnce(names: Table, raw: seq<byte>): Outcome<(nat, Text, seq<byte>)> {
    var m :- U8At(raw, 0);
    var mimeType :- if m >= 128 then Returns(NameOf(names, m - 128)) else Slice(raw, 1, m + 2);
    var size: nat := if m >= 128 then 1 else m + 2;
    var field :- Slice(raw, size, size + 3);
    var length: nat := size + 3 + ReadU24(field);
    var metadata :- Slice(raw, size + 3, length);
    Returns((length, mimeType, metadata))
  }

  class CompositeMetadataScanner {
    const names: Table
    const raw: seq<byte>
    var offset: nat

    ghost predicate Valid()
      reads this
    {
      offset <= |raw|
    }

    constructor (names: Table, raw: seq<byte>)
      ensures Valid() && this.names == names && this.raw == raw && offset == 0
    {
      this.names := names;
      this.raw := raw;
      offset := 0;
    }

    predicate Scan()
      reads this
    {
      offset < |raw|
    }

    method Metadata() returns (r: Outcome<(Text, seq<byte>)>)
      requires Valid() && Scan()
      modifies this
      ensures Valid()
      ensures match DecodeOnce(names, raw[old(offset)..])
              case Panics => r == Panics && offset == old(offset)
              case Returns(d) => r == Returns((d.1, d.2)) && offset == old(offset) + d.0 && d.0 > 0
    {
      DecodedLength(names, raw[offset..]);
      match DecodeOnce(names, raw[offset..]) {
        case Panics => r := Panics;
        case Returns(d) =>
          offset := offset + d.0;
          r := Returns((d.1, d.2));
      }
    }
  }

  lemma DecodedLength(names: Table, raw: seq<byte>)
    ensures DecodeOnce(names, raw).Returns? ==> 0 < DecodeOnce(names, raw).value.0 <= |raw|
  {
  }

  /**
   The MIME type that is read for a key: the number loses its sign bit, and the length of an empty name,
   less one, looks like number 127.
   */
  function NameRead(names: Table, k: Key): Text {
    match k
    case WellKnown(id) => NameOf(names, id % 128)
    case Custom(name) => if name == [] then NameOf(names, 127) else name
  }

  /** What is read for an entry, whatever follows it. */
  lemma EntryDecodes(names: Table, e: Entry, rest: seq<byte>)
    requires Fits(e)
    ensures DecodeOnce(names, EntryBytes(e) + rest) == Returns((|EntryBytes(e)|, NameRead(names, e.key), e.metadata))
  {
    var raw := EntryBytes(e) + rest;
    var key := KeyBytes(e.key);
    EntrySlices(key, PutU24(|e.metadata|), e.metadata, rest);
    KeySays(names, e.key);
    KeyAt(key, raw);
    DecodeParts(names, raw, |key|, NameRead(names, e.key), e.metadata);
  }

  lemma KeySays(names: Table, k: Key)
    requires k.Custom? ==> |k.name| <= 127
    ensures KeyBytes(k) != []
    ensures if KeyBytes(k)[0] >= 128
            then |KeyBytes(k)| == 1 && NameRead(names, k) == NameOf(names, KeyBytes(k)[0] - 128)
            else |KeyBytes(k)| == KeyBytes(k)[0] as int + 2 && NameRead(names, k) == KeyBytes(k)[1..]
  {
  }

  lemma KeyAt(key: seq<byte>, raw: seq<byte>)
    requires 0 < |key| <= |raw| && raw[..|key|] == key
    ensures raw[0] == key[0] && raw[1..|key|] == key[1..]
  {
    assert raw[0] == raw[..|key|][0];
    assert raw[1..|key|] == raw[..|key|][1..];
  }

  lemma DecodeParts(names: Table, raw: seq<byte>, size: nat, name: Text, metadata: seq<byte>)
    requires |metadata| <= MAX_UINT24 && 0 < size && size + 3 + |metadata| <= |raw|
    requires if raw[0] >= 128 then size == 1 && name == NameOf(names, raw[0] - 128)
             else size == raw[0] as int + 2 && raw[1..size] == name
    requires raw[size..size + 3] == PutU24(|metadata|) && raw[size + 3..size + 3 + |metadata|] == metadata
    ensures DecodeOnce(names, raw) == Returns((size + 3 + |metadata|, name, metadata))
  {
  }

  lemma EntrySlices(key: seq<byte>, length: seq<byte>, metadata: seq<byte>, rest: seq<byte>)
    requires |length| == 3
    ensures var raw := key + length + metadata + rest;
            && raw[..|key|] == key
            && raw[|key|..|key| + 3] == length
            && raw[|key| + 3..|key| + 3 + |metadata|] == metadata
  {
  }

  /** The key of an entry survives: a caller can tell before the push. */
  predicate KeySurvives(names: Table, k: Key) {
    match k
    case WellKnown(id) => id >= 0 || NameOf(names, id) == NameOf(names, id + 128)
    case Custom(name) => name != [] || NameOf(names, 127) == []
  }

  /** An entry that can be built is read back exactly if its key survives. */
  lemma EntryRoundTrip(names: Table, e: Entry, rest: seq<byte>)
    requires Fits(e)
    ensures DecodeOnce(names, EntryBytes(e) + rest) == Returns((|EntryBytes(e)|, Name(names, e.key), e.metadata))
       <==> KeySurvives(names, e.key)
  {
    EntryDecodes(names, e, rest);
  }

  /** An empty name is written like the well-known type 127, and read back as that one's name. */
  lemma EmptyNameMisread(names: Table, metadata: seq<byte>, rest: seq<byte>)
    requires |metadata| <= MAX_UINT24
    ensures DecodeOnce(names, EntryBytes(Entry(Custom([]), metadata)) + rest)
         == Returns((4 + |metadata|, NameOf(names, 127), metadata))
  {
    EntryDecodes(names, Entry(Custom([]), metadata), rest);
  }

  /** What was pushed. */
  function Pushed(names: Table, entries: seq<Entry>): (found: seq<(Text, seq<byte>)>)
    ensures |found| == |entries|
  {
    if entries == [] then [] else [(Name(names, entries[0].key), entries[0].metadata)] + Pushed(names, entries[1..])
  }

  /** What is read. */
  function Read(names: Table, entries: seq<Entry>): (found: seq<(Text, seq<byte>)>)
    ensures |found| == |entries|
  {
    if entries == [] then [] else [(NameRead(names, entries[0].key), entries[0].metadata)] + Read(names, entries[1..])
  }

  lemma {:induction false} ReadIsPushed(names: Table, entries: seq<Entry>)
    ensures Read(names, entries) == Pushed(names, entries)
       <==> forall k :: 0 <= k < |entries| ==> KeySurvives(names, entries[k].key)
    decreases |entries|
  {
    if entries != [] {
      ReadIsPushed(names, entries[1..]);
      var r, p := Read(names, entries), Pushed(names, entries);
      assert r == p <==> r[0] == p[0] && r[1..] == p[1..];
      assert r[1..] == Read(names, entries[1..]) && p[1..] == Pushed(names, entries[1..]);
      assert forall k :: 1 <= k < |entries| ==> entries[k] == entries[1..][k - 1];
    }
  }

  /** Build gives bytes exactly for entries that all fit, and then their encoding. */
  lemma {:induction false} BuiltExactly(entries: seq<Entry>)
    ensures (exists bytes :: Built(entries) == Returns(Some(bytes))) <==> AllFit(entries)
    ensures AllFit(entries) ==> Built(entries) == Returns(Some(Encoded(entries)))
  {
    var i := FirstMisfit(entries);
    BuiltUpTo(entries, i);
  }

  lemma {:induction false} FirstMisfit(entries: seq<Entry>) returns (i: nat)
    ensures i <= |entries| && AllFit(entries[..i])
    ensures i < |entries| ==> !Fits(entries[i])
    ensures i == |entries| <==> AllFit(entries)
    decreases |entries|
  {
    if entries == [] || !Fits(entries[0]) {
      i := 0;
    } else {
      var j := FirstMisfit(entries[1..]);
      i := j + 1;
      assert entries[..i] == [entries[0]] + entries[1..][..j];
      assert entries == [entries[0]] + entries[1..];
    }
  }

  /**
   Scanning whatever was built stops at the end of the bytes, with one reading an entry, in order. It
   gives what was pushed exactly if every key survives.
   */
  method ScanBuilt(names: Table, ghost entries: seq<Entry>, bytes: seq<byte>) returns (found: seq<(Text, seq<byte>)>)
    requires Built(entries) == Returns(Some(bytes))
    ensures found == Read(names, entries)
    ensures found == Pushed(names, entries) <==> forall k :: 0 <= k < |entries| ==> KeySurvives(names, entries[k].key)
  {
    BuiltExactly(entries);
    ReadIsPushed(names, entries);
    var scanner := new CompositeMetadataScanner(names, bytes);
    found := [];
    ghost var left := entries;
    while scanner.Scan()
      invariant scanner.Valid() && scanner.names == names && scanner.raw == bytes
      invariant AllFit(left) && bytes[scanner.offset..] == Encoded(left)
      invariant found + Read(names, left) == Read(names, entries)
      decreases |left|
    {
      ghost var before := scanner.offset;
      NextEntry(names, left);
      var r := scanner.Metadata();
      assert bytes[scanner.offset..] == bytes[before..][scanner.offset - before..];
      OneMore(found, r.value, Read(names, left[1..]));
      found := found + [r.value];
      left := left[1..];
    }
    AtTheEnd(left);
  }

  lemma OneMore<T>(found: seq<T>, x: T, rest: seq<T>)
    ensures found + ([x] + rest) == (found + [x]) + rest
  {
  }

  lemma {:induction false} NextEntry(names: Table, entries: seq<Entry>)
    requires Encoded(entries) != [] && AllFit(entries)
    ensures entries != [] && AllFit(entries[1..])
    ensures DecodeOnce(names, Encoded(entries))
         == Returns((|EntryBytes(entries[0])|, NameRead(names, entries[0].key), entries[0].metadata))
    ensures Encoded(entries)[|EntryBytes(entries[0])|..] == Encoded(entries[1..])
    ensures Read(names, entries) == [(NameRead(names, entries[0].key), entries[0].metadata)] + Read(names, entries[1..])
  {
    assert Fits(entries[0]);
    EntryDecodes(names, entries[0], Encoded(entries[1..]));
  }

  lemma {:induction false} AtTheEnd(entries: seq<Entry>)
    ensures Encoded(entries) == [] ==> entries == []
  {
  }
}
