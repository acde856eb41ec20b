/** The SETUP frame: two printers and the accessors, which compute one offset in 16 bits. */
module SetupFrame {
  import opened BufferedFrame
  import opened Bytes
  import opened Durations
  import opened FrameHeader
  import opened Options
  import PayloadFrames

  const MIN_SETUP_FRAME_LEN := 14

  datatype Version = Version(major: uint16, minor: uint16)

  datatype Setup = Setup(
    version: Version,
    keepalive: Duration,
    lifetime: Duration,
    token: seq<byte>,
    mimeMetadata: seq<byte>,
    mimeData: seq<byte>,
    data: seq<byte>,
    metadata: seq<byte>,
    lease: bool)

  function VersionBytes(v: Version): (bs: seq<byte>)
    ensures |bs| == 4
  {
    PutU16(v.major) + PutU16(v.minor)
  }

  function SetupFlags(s: Setup): Flags {
    NO_FLAGS.(complete := s.lease, follow := s.token != [], metadata := s.metadata != [])
  }

  // The layout; the lengths are truncated to the width of their fields

  function Times(version: Version, keepalive: seq<byte>, lifetime: seq<byte>): seq<byte> {
    VersionBytes(version) + keepalive + lifetime
  }

  function TokenPart(token: seq<byte>): seq<byte> {
    if token == [] then [] else PutU16(|token| % 0x1_0000) + token
  }

  function MimePart(mime: seq<byte>): seq<byte> {
    [|mime| % 256] + mime
  }

  function Mimes(mimeMetadata: seq<byte>, mimeData: seq<byte>): seq<byte> {
    MimePart(mimeMetadata) + MimePart(mimeData)
  }

  function TimesOf(s: Setup): (bs: seq<byte>)
    ensures |bs| == 12
  {
    Times(s.version, PutU32(Millis(s.keepalive)), PutU32(Millis(s.lifetime)))
  }

  function Fixed(s: Setup): seq<byte> {
    TimesOf(s) + TokenPart(s.token) + Mimes(s.mimeMetadata, s.mimeData)
  }

  function Encode(s: Setup): Frame {
    Header(0, SETUP, SetupFlags(s)) + (Fixed(s) + PayloadBody(s.data, s.metadata))
  }

  // The parts, as both printers write them

  method WriteTimes(w: Writer, version: Version, keepalive: seq<byte>, lifetime: seq<byte>) returns (n: nat)
    modifies w
    ensures w.contents == old(w.contents) + Times(version, keepalive, lifetime)
    ensures n == 4 + |keepalive| + |lifetime|
  {
    n := w.Write(VersionBytes(version));
    var v := w.Write(keepalive);
    n := n + v;
    v := w.Write(lifetime);
    n := n + v;
  }

  method WriteToken(w: Writer, token: seq<byte>) returns (n: nat)
    requires |token| > 0
    modifies w
    ensures w.contents == old(w.contents) + TokenPart(token)
    ensures n == 2 + |token|
  {
    var _ := w.Write(PutU16(|token| % 0x1_0000));
    n := 2;
    var v := w.Write(token);
    n := n + v;
  }

  method WriteMimes(w: Writer, mimeMetadata: seq<byte>, mimeData: seq<byte>) returns (n: nat)
    modifies w
    ensures w.contents == old(w.contents) + Mimes(mimeMetadata, mimeData)
    ensures n == |mimeMetadata| + |mimeData| + 2
  {
    n := w.Write([|mimeMetadata| % 256]);
    var v := w.Write(mimeMetadata);
    n := n + v;
    v := w.Write([|mimeData| % 256]);
    n := n + v;
    v := w.Write(mimeData);
    n := n + v;
  }

  // The two printers

  method FlagsFor(s: Setup) returns (fg: Flags)
    ensures fg == SetupFlags(s)
  {
    fg := NO_FLAGS;
    if s.lease {
      fg := fg.(complete := true);
    }
    if |s.token| > 0 {
      fg := fg.(follow := true);
    }
    if |s.metadata| > 0 {
      fg := fg.(metadata := true);
    }
  }

  method NewSetupFrame(s: Setup) returns (frame: Frame)
    requires |s.metadata| <= MAX_UINT24
    ensures frame == Encode(s)
  {
    var fg := FlagsFor(s);
    frame := FillSetupFrame(Header(0, SETUP, fg), s);
  }

  method FillSetupFrame(header: seq<byte>, s: Setup) returns (frame: seq<byte>)
    requires |s.metadata| <= MAX_UINT24
    ensures frame == header + (Fixed(s) + PayloadBody(s.data, s.metadata))
  {
    var keepalive, lifetime := PutU32(Millis(s.keepalive)), PutU32(Millis(s.lifetime));
    var b := new Writer();
    var _ := b.Write(header);
    var _ := WriteTimes(b, s.version, keepalive, lifetime);
    if |s.token| > 0 {
      var _ := WriteToken(b, s.token);
    }
    assert b.contents == [] + header + Times(s.version, keepalive, lifetime) + TokenPart(s.token);
    var _ := WriteMimes(b, s.mimeMetadata, s.mimeData);
    var _ := PayloadFrames.WritePayload(b, s.data, s.metadata);
    Assemble([], header, Times(s.version, keepalive, lifetime),
             TokenPart(s.token), Mimes(s.mimeMetadata, s.mimeData), PayloadBody(s.data, s.metadata));
    frame := b.contents;
  }

  /** The frame object kept by the sending side. */
  datatype WriteableSetupFrame = WriteableSetupFrame(
    header: seq<byte>,
    version: Version,
    keepalive: seq<byte>,
    lifetime: seq<byte>,
    token: seq<byte>,
    mimeMetadata: seq<byte>,
    mimeData: seq<byte>,
    metadata: seq<byte>,
    data: seq<byte>)

  function NewWriteable(s: Setup): WriteableSetupFrame {
    WriteableSetupFrame(Header(0, SETUP, SetupFlags(s)), s.version,
                        PutU32(Millis(s.keepalive)), PutU32(Millis(s.lifetime)),
                        s.token, s.mimeMetadata, s.mimeData, s.metadata, s.data)
  }

  /** Whether WriteTo, which looks at the header, writes a token. */
  predicate Resumes(header: seq<byte>) {
    |header| == HEADER_LEN && FlagsOf(header).follow
  }

  method WriteTo(f: WriteableSetupFrame, w: Writer) returns (n: nat)
    requires |f.metadata| <= MAX_UINT24
    requires |f.header| == HEADER_LEN && |f.keepalive| == |f.lifetime| == 4
    requires Resumes(f.header) <==> f.token != []
    modifies w
    ensures w.contents == old(w.contents) + f.header + Times(f.version, f.keepalive, f.lifetime)
                          + TokenPart(f.token) + Mimes(f.mimeMetadata, f.mimeData) + PayloadBody(f.data, f.metadata)
    ensures n == Len(f)
  {
    n := w.Write(f.header);
    var v := WriteTimes(w, f.version, f.keepalive, f.lifetime);
    n := n + v;
    if Resumes(f.header) {
      v := WriteToken(w, f.token);
      n := n + v;
    }
    v := WriteMimes(w, f.mimeMetadata, f.mimeData);
    n := n + v;
    v := PayloadFrames.WritePayload(w, f.data, f.metadata);
    n := n + v;
  }

  function Len(f: WriteableSetupFrame): nat {
    MIN_SETUP_FRAME_LEN + PayloadFrames.CalcPayloadFrameSize(f.data, f.metadata)
    + |f.mimeData| + |f.mimeMetadata| + (if |f.token| > 0 then 2 + |f.token| else 0)
  }

  lemma Assemble(w: seq<byte>, h: seq<byte>, t: seq<byte>, k: seq<byte>, m: seq<byte>, p: seq<byte>)
    ensures w + h + t + k + m + p == w + (h + (t + k + m + p))
  {
  }

  lemma ResumesWithToken(s: Setup)
    ensures Resumes(Header(0, SETUP, SetupFlags(s))) <==> s.token != []
  {
    var h := Header(0, SETUP, SetupFlags(s));
    HeaderRoundTrip(0, SETUP, SetupFlags(s), []);
    assert h + [] == h;
  }

  /** Both printers give the same bytes, and Len is their number. */
  method PrintersAgree(s: Setup) returns (built: seq<byte>, written: seq<byte>, len: nat)
    requires |s.metadata| <= MAX_UINT24
    ensures built == written == Encode(s)
    ensures len == |written|
  {
    built := NewSetupFrame(s);
    var w := new Writer();
    var f := NewWriteable(s);
    ResumesWithToken(s);
    len := WriteTo(f, w);
    written := w.contents;
    Assemble([], f.header, Times(f.version, f.keepalive, f.lifetime),
             TokenPart(s.token), Mimes(s.mimeMetadata, s.mimeData), PayloadBody(s.data, s.metadata));
    LengthOf(s);
  }

  lemma LengthOf(s: Setup)
    ensures |Encode(s)| == Len(NewWriteable(s))
  {
  }

  // The accessors

  function VersionOf(frame: Frame): Outcome<Version> {
    var major :- U16At(Body(frame), 0);
    var minor :- U16At(Body(frame), 2);
    Returns(Version(major, minor))
  }

  function TimeBetweenKeepalive(frame: Frame): Outcome<Duration> {
    var n :- U32At(Body(frame), 4);
    Returns(FromMillis(n))
  }

  function MaxLifetime(frame: Frame): Outcome<Duration> {
    var n :- U32At(Body(frame), 8);
    Returns(FromMillis(n))
  }

  /** The end of the slice is computed in 16 bits. */
  function Token(frame: Frame): Outcome<seq<byte>> {
    if !FlagsOf(frame).follow then Returns([])
    else
      var tokenLength :- U16At(Body(frame), 12);
      Slice(Body(frame), 14, (14 + tokenLength) % 0x1_0000)
  }

  function SeekMIME(frame: Frame): Outcome<nat> {
    if !FlagsOf(frame).follow then Returns(12)
    else
      var l :- U16At(Body(frame), 12);
      Returns(14 + l)
  }

  function Mime(frame: Frame): Outcome<(seq<byte>, seq<byte>)> {
    var offset :- SeekMIME(frame);
    MimesAt(Body(frame), offset)
  }

  /** The walk over the two types, each behind its length. */
  function MimesAt(raw: seq<byte>, offset: nat): Outcome<(seq<byte>, seq<byte>)> {
    var l1 :- U8At(raw, offset);
    var m1 :- Slice(raw, offset + 1, offset + 1 + l1);
    var l2 :- U8At(raw, offset + 1 + l1);
    var m2 :- Slice(raw, offset + 2 + l1, offset + 2 + l1 + l2);
    Returns((m1, m2))
  }

  function PayloadOffset(frame: Frame): Outcome<nat> {
    var offset :- SeekMIME(frame);
    var m :- Mime(frame);
    Returns(offset + 2 + |m.0| + |m.1|)
  }

  function Metadata(frame: Frame): Outcome<Option<seq<byte>>> {
    if !FlagsOf(frame).metadata then Returns(None)
    else
      var offset :- PayloadOffset(frame);
      Returns(TrySliceMetadata(frame, offset))
  }

  function Data(frame: Frame): Outcome<seq<byte>> {
    var offset :- PayloadOffset(frame);
    if !FlagsOf(frame).metadata then Slice(Body(frame), offset, |Body(frame)|)
    else Returns(TrySliceData(frame, offset))
  }

  /** Validate compares the length of the whole frame, header included, with the least body. */
  predicate Valid(frame: Frame) {
    |frame| >= MIN_SETUP_FRAME_LEN
  }

  // What the accessors recover

  lemma EncodedParts(s: Setup)
    ensures var f := Encode(s);
            && StreamID(f) == 0 && Type(f) == SETUP && FlagsOf(f) == SetupFlags(s)
            && Body(f) == Fixed(s) + PayloadBody(s.data, s.metadata)
  {
    HeaderRoundTrip(0, SETUP, SetupFlags(s), Fixed(s) + PayloadBody(s.data, s.metadata));
  }

  lemma TimesRoundTrip(frame: Frame, version: Version, keepalive: Duration, lifetime: Duration, rest: seq<byte>)
    requires Body(frame) == Times(version, PutU32(Millis(keepalive)), PutU32(Millis(lifetime))) + rest
    ensures VersionOf(frame) == Returns(version)
    ensures TimeBetweenKeepalive(frame) == Returns(FromMillis(Millis(keepalive)))
    ensures MaxLifetime(frame) == Returns(FromMillis(Millis(lifetime)))
  {
    var k, l := PutU32(Millis(keepalive)), PutU32(Millis(lifetime));
    VersionRead(version, k + l + rest);
    assert Body(frame) == VersionBytes(version) + (k + l + rest);
    assert Body(frame)[4..] == k + (l + rest);
    ReadU32Prefix(k, l + rest);
    assert Body(frame)[8..] == l + rest;
    ReadU32Prefix(l, rest);
  }

  lemma VersionRead(v: Version, rest: seq<byte>)
    ensures var raw := VersionBytes(v) + rest;
            ReadU16(raw) == v.major && ReadU16(raw[2..]) == v.minor
  {
    var raw := VersionBytes(v) + rest;
    assert raw == PutU16(v.major) + (PutU16(v.minor) + rest);
    ReadU16Prefix(PutU16(v.major), PutU16(v.minor) + rest);
    assert raw[2..] == PutU16(v.minor) + rest;
    ReadU16Prefix(PutU16(v.minor), rest);
  }

  /** raw holds a non-empty token, behind the 12 bytes of version and times. */
  predicate HoldsToken(raw: seq<byte>, times: seq<byte>, token: seq<byte>, rest: seq<byte>) {
    |times| == 12 && token != [] && raw == times + (PutU16(|token| % 0x1_0000) + token + rest)
  }

  /** Its length field is at 12, and the token behind that. */
  lemma TokenLength(raw: seq<byte>, times: seq<byte>, token: seq<byte>, rest: seq<byte>)
    requires HoldsToken(raw, times, token, rest)
    ensures U16At(raw, 12) == Returns(|token| % 0x1_0000)
    ensures |raw| >= 14 + |token| && raw[14..14 + |token|] == token
  {
    var n := PutU16(|token| % 0x1_0000);
    LengthThenToken(raw, times, n, token, rest);
    ReadU16Prefix(n, token + rest);
  }

  lemma LengthThenToken(raw: seq<byte>, times: seq<byte>, n: seq<byte>, token: seq<byte>, rest: seq<byte>)
    requires |times| == 12 && |n| == 2 && raw == times + (n + token + rest)
    ensures raw[12..] == n + (token + rest)
    ensures raw[14..14 + |token|] == token
  {
  }

  lemma EncodedHoldsToken(s: Setup)
    requires s.token != []
    ensures HoldsToken(Body(Encode(s)), TimesOf(s), s.token,
                       Mimes(s.mimeMetadata, s.mimeData) + PayloadBody(s.data, s.metadata))
  {
    BodyParts(s);
  }

  lemma BodyParts(s: Setup)
    ensures var payload := PayloadBody(s.data, s.metadata);
            && Body(Encode(s)) == TimesOf(s) + TokenPart(s.token) + (Mimes(s.mimeMetadata, s.mimeData) + payload)
            && Body(Encode(s)) == TimesOf(s) + (TokenPart(s.token) + (Mimes(s.mimeMetadata, s.mimeData) + payload))
  {
    EncodedParts(s);
    Regroup(TimesOf(s), TokenPart(s.token), Mimes(s.mimeMetadata, s.mimeData), PayloadBody(s.data, s.metadata));
  }

  lemma Regroup(a: seq<byte>, b: seq<byte>, c: seq<byte>, d: seq<byte>)
    ensures a + b + c + d == a + b + (c + d) && a + b + c + d == a + (b + (c + d))
  {
  }

  /** The resume token is read back exactly up to 65521 bytes; above that its end wraps in 16 bits. */
  lemma TokenExactly(s: Setup)
    ensures Token(Encode(s)) == Returns(s.token) <==> |s.token| <= 65521
  {
    EncodedParts(s);
    BodyParts(s);
    if s.token != [] {
      var rest := Mimes(s.mimeMetadata, s.mimeData) + PayloadBody(s.data, s.metadata);
      EncodedHoldsToken(s);
      TokenLength(Body(Encode(s)), TimesOf(s), s.token, rest);
      WrappedEnd(|s.token|);
    }
  }

  lemma WrappedEnd(n: nat)
    ensures n <= 65521 ==> (14 + n % 0x1_0000) % 0x1_0000 == 14 + n
    ensures n > 65521 ==> (14 + n % 0x1_0000) % 0x1_0000 < 14 + n
  {
  }

  /** The MIME types start behind the token, of any length that its length field can hold. */
  lemma SeekMIMEFinds(s: Setup)
    requires |s.token| < 0x1_0000
    ensures SeekMIME(Encode(s)) == Returns(|TimesOf(s) + TokenPart(s.token)|)
  {
    if s.token == [] {
      EncodedParts(s);
    } else {
      SeekBehindToken(s);
    }
  }

  lemma SeekBehindToken(s: Setup)
    requires 0 < |s.token| < 0x1_0000
    ensures SeekMIME(Encode(s)) == Returns(|TimesOf(s) + TokenPart(s.token)|)
  {
    EncodedParts(s);
    EncodedHoldsToken(s);
    var rest := Mimes(s.mimeMetadata, s.mimeData) + PayloadBody(s.data, s.metadata);
    TokenLength(Body(Encode(s)), TimesOf(s), s.token, rest);
  }

  /** What the accessor finds at an offset where a MIME type was written. */
  lemma MimeAt(raw: seq<byte>, i: nat, mime: seq<byte>, rest: seq<byte>)
    requires i <= |raw| && raw[i..] == MimePart(mime) + rest
    ensures i < |raw| && raw[i] == |mime| % 256
    ensures Slice(raw, i + 1, i + 1 + |mime| % 256) == Returns(mime) <==> |mime| <= 255
    ensures |mime| <= 255 ==> i + 1 + |mime| <= |raw| && raw[i + 1 + |mime|..] == rest
  {
    assert raw[i] == raw[i..][0];
    assert |mime| <= 255 ==> raw[i + 1..i + 1 + |mime|] == raw[i..][1..1 + |mime|];
  }

  /** Both MIME types are read back exactly when their lengths fit in a byte each. */
  lemma MimeExactly(frame: Frame, pre: seq<byte>, m1: seq<byte>, m2: seq<byte>, rest: seq<byte>)
    requires Body(frame) == pre + (Mimes(m1, m2) + rest) && SeekMIME(frame) == Returns(|pre|)
    ensures Mime(frame) == Returns((m1, m2)) <==> |m1| <= 255 && |m2| <= 255
  {
    TwoParts(Body(frame), pre, MimePart(m1), MimePart(m2), rest);
    MimesAtExactly(Body(frame), |pre|, m1, m2, rest);
  }

  lemma MimesAtExactly(raw: seq<byte>, i: nat, m1: seq<byte>, m2: seq<byte>, rest: seq<byte>)
    requires i <= |raw| && raw[i..] == MimePart(m1) + (MimePart(m2) + rest)
    ensures MimesAt(raw, i) == Returns((m1, m2)) <==> |m1| <= 255 && |m2| <= 255
  {
    MimeAt(raw, i, m1, MimePart(m2) + rest);
    if |m1| <= 255 {
      MimeAt(raw, i + 1 + |m1|, m2, rest);
    } else {
      FirstRead(raw, i);
    }
  }

  /** The first type that is read is what the first slice returns. */
  lemma FirstRead(raw: seq<byte>, i: nat)
    requires i < |raw|
    ensures MimesAt(raw, i).Returns? ==> Slice(raw, i + 1, i + 1 + raw[i]) == Returns(MimesAt(raw, i).value.0)
  {
  }

  lemma TwoParts(raw: seq<byte>, pre: seq<byte>, a: seq<byte>, b: seq<byte>, rest: seq<byte>)
    requires raw == pre + (a + b + rest)
    ensures raw[|pre|..] == a + (b + rest)
  {
  }

  /**
   A SETUP frame gives back everything it was built from: the durations in whole milliseconds modulo
   2^32 of them, the token exactly when it has at most 65521 bytes.
   */
  lemma RoundTrip(s: Setup)
    requires |s.token| < 0x1_0000 && |s.mimeMetadata| <= 255 && |s.mimeData| <= 255 && |s.metadata| <= MAX_UINT24
    ensures var f := Encode(s);
            && Type(f) == SETUP && StreamID(f) == 0 && FlagsOf(f).complete == s.lease
            && VersionOf(f) == Returns(s.version)
            && TimeBetweenKeepalive(f) == Returns(FromMillis(Millis(s.keepalive)))
            && MaxLifetime(f) == Returns(FromMillis(Millis(s.lifetime)))
            && Mime(f) == Returns((s.mimeMetadata, s.mimeData))
            && Metadata(f) == Returns(NonEmpty(s.metadata)) && Data(f) == Returns(s.data)
            && (Token(f) == Returns(s.token) <==> |s.token| <= 65521)
  {
    EncodedParts(s);
    BodyParts(s);
    TokenExactly(s);
    TimesRoundTrip(Encode(s), s.version, s.keepalive, s.lifetime,
                   TokenPart(s.token) + (Mimes(s.mimeMetadata, s.mimeData) + PayloadBody(s.data, s.metadata)));
    SeekMIMEFinds(s);
    MimeExactly(Encode(s), TimesOf(s) + TokenPart(s.token), s.mimeMetadata, s.mimeData,
                PayloadBody(s.data, s.metadata));
    PayloadRead(s);
  }

  lemma PayloadRead(s: Setup)
    requires |s.metadata| <= MAX_UINT24
    requires Mime(Encode(s)) == Returns((s.mimeMetadata, s.mimeData))
    requires SeekMIME(Encode(s)) == Returns(|TimesOf(s) + TokenPart(s.token)|)
    ensures Metadata(Encode(s)) == Returns(NonEmpty(s.metadata)) && Data(Encode(s)) == Returns(s.data)
  {
    EncodedParts(s);
    PayloadBodyRoundTrip(Encode(s), Fixed(s), s.data, s.metadata);
    assert PayloadOffset(Encode(s)) == Returns(|Fixed(s)|);
    if s.metadata == [] {
      var raw := Body(Encode(s));
      assert raw[|Fixed(s)|..|raw|] == PayloadBody(s.data, []) == s.data;
    }
  }

  // Which frames the accessors can read, whoever wrote them

  predicate TokenFits(frame: Frame) {
    FlagsOf(frame).follow ==>
      && |Body(frame)| >= 14
      && ReadU16(Body(frame)[12..]) <= 65521 && 14 + ReadU16(Body(frame)[12..]) as int <= |Body(frame)|
  }

  /** Two MIME types, each behind its length, start at offset i and end within the bytes. */
  predicate MimesFitAt(raw: seq<byte>, i: nat) {
    && i < |raw|
    && i + 1 + raw[i] < |raw|
    && i + 2 + raw[i] + raw[i + 1 + raw[i]] <= |raw|
  }

  predicate MimesFit(frame: Frame) {
    if FlagsOf(frame).follow
    then |Body(frame)| >= 14 && MimesFitAt(Body(frame), 14 + ReadU16(Body(frame)[12..]) as int)
    else MimesFitAt(Body(frame), 12)
  }

  /** What a complete SETUP frame holds. */
  predicate Complete(frame: Frame) {
    TokenFits(frame) && MimesFit(frame)
  }

  lemma TokenReturnsExactly(frame: Frame)
    ensures Token(frame).Returns? <==> TokenFits(frame)
  {
  }

  lemma MimeReturnsExactly(frame: Frame)
    ensures Mime(frame).Returns? <==> MimesFit(frame)
  {
  }

  /** Metadata is not looked for unless it is claimed; data always is. */
  lemma PayloadReturnsExactly(frame: Frame)
    ensures Metadata(frame).Returns? <==> (FlagsOf(frame).metadata ==> MimesFit(frame))
    ensures Data(frame).Returns? <==> MimesFit(frame)
  {
    MimeReturnsExactly(frame);
    if MimesFit(frame) {
      MimeLengths(frame);
    }
  }

  lemma MimeLengths(frame: Frame)
    requires Mime(frame).Returns?
    ensures SeekMIME(frame).Returns?
    ensures SeekMIME(frame).value + 2 + |Mime(frame).value.0| + |Mime(frame).value.1| <= |Body(frame)|
  {
  }

  ghost predicate AccessorsReturn(frame: Frame) {
    && VersionOf(frame).Returns? && TimeBetweenKeepalive(frame).Returns? && MaxLifetime(frame).Returns?
    && Token(frame).Returns? && Mime(frame).Returns? && Metadata(frame).Returns? && Data(frame).Returns?
  }

  /** No accessor panics exactly on complete frames, and those pass validation. */
  lemma AccessorsReturnExactly(frame: Frame)
    ensures AccessorsReturn(frame) <==> Complete(frame)
    ensures Complete(frame) ==> Valid(frame)
  {
    TokenReturnsExactly(frame);
    MimeReturnsExactly(frame);
    PayloadReturnsExactly(frame);
  }

  /** Validation ensures no more than that the version and the first of the two times can be read. */
  lemma ValidExactly(frame: Frame)
    ensures Valid(frame) <==> VersionOf(frame).Returns? && TimeBetweenKeepalive(frame).Returns?
    ensures MaxLifetime(frame).Returns? <==> |Body(frame)| >= 12
  {
  }

  /** The frames that validation lets pass although some accessor panics: eight bytes, and not complete. */
  lemma ValidIsTooWeak(frame: Frame)
    ensures Valid(frame) && !AccessorsReturn(frame) <==> |Body(frame)| >= 8 && !Complete(frame)
  {
    AccessorsReturnExactly(frame);
  }

  /** There are such frames. */
  lemma PassesAndPanics()
    ensures exists f: Frame :: Valid(f) && Type(f) == SETUP && MaxLifetime(f).Panics? && Mime(f).Panics?
  {
    var h := Header(0, SETUP, NO_FLAGS);
    var f: Frame := h + [0, 0, 0, 0, 0, 0, 0, 0];
    HeaderRoundTrip(0, SETUP, NO_FLAGS, [0, 0, 0, 0, 0, 0, 0, 0]);
    assert Valid(f);
  }

  /** Every frame of the printers is complete, unless its token is too long for the accessor. */
  lemma EncodedIsComplete(s: Setup)
    requires |s.mimeMetadata| <= 255 && |s.mimeData| <= 255 && |s.metadata| <= MAX_UINT24 && |s.token| <= 65521
    ensures Complete(Encode(s))
  {
    RoundTrip(s);
    AccessorsReturnExactly(Encode(s));
  }

  /**
   On the wire: version, keepalive interval and lifetime in milliseconds; the token behind its length in
   two bytes, only if there is one; both MIME types behind their lengths in one byte; then metadata and data.
   */
  lemma OnWire(s: Setup)
    requires |s.token| <= 65535 && |s.mimeMetadata| <= 255 && |s.mimeData| <= 255
    ensures Encode(s)[6..]
         == PutU16(s.version.major) + PutU16(s.version.minor) + PutU32(Millis(s.keepalive)) + PutU32(Millis(s.lifetime))
            + (if s.token == [] then [] else PutU16(|s.token|) + s.token)
            + ([|s.mimeMetadata|] + s.mimeMetadata) + ([|s.mimeData|] + s.mimeData)
            + PayloadBody(s.data, s.metadata)
  {
    EncodedParts(s);
    TokenOnWire(s.token);
    MimeOnWire(s.mimeMetadata);
    MimeOnWire(s.mimeData);
    InARow(TimesOf(s), TokenPart(s.token), MimePart(s.mimeMetadata), MimePart(s.mimeData));
  }

  lemma TokenOnWire(token: seq<byte>)
    requires |token| <= 65535
    ensures TokenPart(token) == if token == [] then [] else PutU16(|token|) + token
  {
  }

  lemma MimeOnWire(mime: seq<byte>)
    requires |mime| <= 255
    ensures MimePart(mime) == [|mime|] + mime
  {
  }

  lemma InARow(times: seq<byte>, token: seq<byte>, mimeMetadata: seq<byte>, mimeData: seq<byte>)
    ensures times + token + (mimeMetadata + mimeData) == times + token + mimeMetadata + mimeData
  {
  }
}
