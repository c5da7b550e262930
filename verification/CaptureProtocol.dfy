/**
 The capture stream of src/capture.rs: a framed JSON header, the picture, and a framed JSON footer that
 repeats what was seen after the picture was read. JSON and SHA-256 are taken as given functions.
*/
module CaptureProtocol {
  import opened Prelude

  type byte = x: int | 0 <= x < 256

  const MAX_CAPTURE_BYTES: nat := 8 * 1024 * 1024
  const MAX_PROTOCOL_JSON_BYTES: nat := 2 * 1024
  const PROTOCOL_SCHEMA_VERSION: nat := 1
  const U32_LIMIT: nat := 0x1_0000_0000
  const MODE_0600: nat := 384
  const MODE_0640: nat := 416

  datatype CaptureMetadata = CaptureMetadata(
    inode: nat, modifiedNs: nat, size: nat, sha256: string, uid: nat, gid: nat, mode: nat, links: nat, regular: bool,
    symlink: bool)

  datatype Header = Header(schemaVersion: nat, source: CaptureMetadata, published: CaptureMetadata)
  datatype Footer = Footer(schemaVersion: nat, rechecked: CaptureMetadata)

  datatype CaptureSnapshot = CaptureSnapshot(
    source: CaptureMetadata, published: CaptureMetadata, rechecked: CaptureMetadata, bytes: seq<byte>)

  datatype CaptureError = InvalidProtocol | Changed

  /** serde_json and SHA-256. Parsing is not injective: white space and key order are free. */
  datatype Codec = Codec(
    headerJson: Header -> seq<byte>, parseHeader: seq<byte> -> Option<Header>,
    footerJson: Footer -> seq<byte>, parseFooter: seq<byte> -> Option<Footer>,
    digest: seq<byte> -> string)

  /** What is written reads back, and is never empty. */
  ghost predicate Faithful(c: Codec) {
    && (forall h: Header :: c.headerJson(h) != [] && c.parseHeader(c.headerJson(h)) == Some(h))
    && (forall f: Footer :: c.footerJson(f) != [] && c.parseFooter(c.footerJson(f)) == Some(f))
  }

  // ----- framing

  function ToBigEndian(n: nat): (b: seq<byte>)
    requires n < U32_LIMIT
    ensures |b| == 4
  {
    [n / 0x100_0000, n / 0x1_0000 % 0x100, n / 0x100 % 0x100, n % 0x100]
  }

  function FromBigEndian(b: seq<byte>): (n: nat)
    requires |b| == 4
    ensures n < U32_LIMIT
  {
    var b0: int, b1: int, b2: int, b3: int := b[0], b[1], b[2], b[3];
    b0 * 0x100_0000 + b1 * 0x1_0000 + b2 * 0x100 + b3
  }

  lemma BigEndianRoundTrips(n: nat, b: seq<byte>)
    requires n < U32_LIMIT && |b| == 4
    ensures FromBigEndian(ToBigEndian(n)) == n
    ensures ToBigEndian(FromBigEndian(b)) == b
  {
    var q1, q2, q3 := n / 0x100, n / 0x1_0000, n / 0x100_0000;
    assert q2 == q1 / 0x100 && q3 == q2 / 0x100;
    assert n == q1 * 0x100 + n % 0x100 && q1 == q2 * 0x100 + q1 % 0x100 && q2 == q3 * 0x100 + q2 % 0x100;
    var m := FromBigEndian(b);
    var b0: int, b1: int, b2: int := b[0], b[1], b[2];
    assert m / 0x100 == b0 * 0x1_0000 + b1 * 0x100 + b2;
    assert m / 0x1_0000 == b0 * 0x100 + b1;
    assert m / 0x100_0000 == b0;
  }

  /** The most significant byte comes first. */
  lemma BigEndianBytes(n: nat, b: seq<byte>)
    requires n < U32_LIMIT && |b| == 4
    ensures var w := ToBigEndian(n);
            w[0] as int * 16_777_216 + w[1] as int * 65_536 + w[2] as int * 256 + w[3] as int == n
    ensures FromBigEndian(b) == b[0] as int * 16_777_216 + b[1] as int * 65_536 + b[2] as int * 256 + b[3] as int
  {
    BigEndianRoundTrips(n, b);
  }

  function Framed(json: seq<byte>): seq<byte>
    requires |json| < U32_LIMIT
  {
    ToBigEndian(|json|) + json
  }

  /** take_framed_json: the framed bytes and what follows them. */
  function TakeFramedJson(input: seq<byte>): Option<(seq<byte>, seq<byte>)> {
    if |input| < 4 then None
    else
      var length := FromBigEndian(input[..4]);
      if length == 0 || length > MAX_PROTOCOL_JSON_BYTES || |input| < 4 + length then None
      else Some((input[4..4 + length], input[4 + length..]))
  }

  /** The frame taken is the only one the input can start with. */
  lemma FramingIsExact(input: seq<byte>, json: seq<byte>, rest: seq<byte>)
    ensures TakeFramedJson(input) == Some((json, rest)) <==>
            0 < |json| <= MAX_PROTOCOL_JSON_BYTES && input == Framed(json) + rest
  {
    if 0 < |json| <= MAX_PROTOCOL_JSON_BYTES && input == Framed(json) + rest {
      TakesFrame(json, rest);
    }
    if TakeFramedJson(input) == Some((json, rest)) {
      BigEndianRoundTrips(0, input[..4]);
      assert input == input[..4] + json + rest;
    }
  }

  lemma TakesFrame(json: seq<byte>, rest: seq<byte>)
    requires 0 < |json| <= MAX_PROTOCOL_JSON_BYTES
    ensures TakeFramedJson(Framed(json) + rest) == Some((json, rest))
  {
    hide ToBigEndian, FromBigEndian;
    var length := ToBigEndian(|json|);
    var input := Framed(json) + rest;
    BigEndianRoundTrips(|json|, length);
    assert input == length + (json + rest);
    assert input[..4] == length && input[4..] == json + rest;
    assert input[4..4 + |json|] == json && input[4 + |json|..] == rest;
  }

  // ----- metadata

  predicate LowerHex(s: string) {
    |s| == 64 && forall i :: 0 <= i < |s| ==> LowerHexDigit(s[i])
  }

  predicate ValidSource(m: CaptureMetadata) {
    && m.regular && !m.symlink && m.links == 1 && (m.mode == MODE_0600 || m.mode == MODE_0640)
    && 0 < m.size <= MAX_CAPTURE_BYTES && LowerHex(m.sha256)
  }

  predicate ValidPublished(m: CaptureMetadata) {
    && m.regular && !m.symlink && m.links == 1 && m.mode == MODE_0600
    && 0 < m.size <= MAX_CAPTURE_BYTES && LowerHex(m.sha256)
  }

  /** What a snapshot must be to be believed. */
  predicate Acceptable(c: Codec, s: CaptureSnapshot) {
    && ValidSource(s.source) && ValidPublished(s.published)
    && s.published == s.rechecked
    && s.source.sha256 == s.published.sha256 && s.source.size == s.published.size
    && |s.bytes| == s.published.size && c.digest(s.bytes) == s.published.sha256
  }

  /** Permissions are rw------- or, for the source, rw-r-----; a picture has at most eight mebibytes, and its digest
      is 64 lower-case hexadecimal digits. */
  lemma ValidityMeans(m: CaptureMetadata)
    ensures var plain := && m.regular && !m.symlink && m.links == 1 && 1 <= m.size <= 8_388_608
                         && |m.sha256| == 64
                         && forall i :: 0 <= i < 64 ==> '0' <= m.sha256[i] <= '9' || 'a' <= m.sha256[i] <= 'f';
            && (ValidSource(m) <==> plain && (m.mode == 0x180 || m.mode == 0x1A0))
            && (ValidPublished(m) <==> plain && m.mode == 0x180)
  {
    var d := m.sha256;
    assert |d| == 64 ==> (LowerHex(d) <==> forall i :: 0 <= i < 64 ==> '0' <= d[i] <= '9' || 'a' <= d[i] <= 'f') by {
      assert forall i :: 0 <= i < |d| ==> (LowerHexDigit(d[i]) <==> '0' <= d[i] <= '9' || 'a' <= d[i] <= 'f');
    }
    hide LowerHex;
  }

  // ----- encoding and parsing

  function Encoded(c: Codec, s: CaptureSnapshot): Result<seq<byte>, CaptureError> {
    var header := c.headerJson(Header(PROTOCOL_SCHEMA_VERSION, s.source, s.published));
    var footer := c.footerJson(Footer(PROTOCOL_SCHEMA_VERSION, s.rechecked));
    if |header| > MAX_PROTOCOL_JSON_BYTES || |footer| > MAX_PROTOCOL_JSON_BYTES then Err(InvalidProtocol)
    else Ok(Framed(header) + s.bytes + Framed(footer))
  }

  function ParseFooter(c: Codec, header: Header, rest: seq<byte>): Result<CaptureSnapshot, CaptureError>
    requires header.published.size <= |rest|
  {
    var bytes, footerInput := rest[..header.published.size], rest[header.published.size..];
    match TakeFramedJson(footerInput)
    case None => Err(InvalidProtocol)
    case Some((footerBytes, trailing)) =>
      if trailing != [] then Err(InvalidProtocol)
      else
        match c.parseFooter(footerBytes)
        case None => Err(InvalidProtocol)
        case Some(footer) =>
          if footer.schemaVersion != PROTOCOL_SCHEMA_VERSION || !ValidPublished(footer.rechecked) then
            Err(InvalidProtocol)
          else if || header.published != footer.rechecked
                  || header.source.sha256 != header.published.sha256
                  || header.source.size != header.published.size
                  || c.digest(bytes) != header.published.sha256 then Err(Changed)
          else Ok(CaptureSnapshot(header.source, header.published, footer.rechecked, bytes))
  }

  /** parse_snapshot_protocol */
  function ParseSnapshotProtocol(c: Codec, input: seq<byte>): Result<CaptureSnapshot, CaptureError> {
    match TakeFramedJson(input)
    case None => Err(InvalidProtocol)
    case Some((headerBytes, rest)) =>
      match c.parseHeader(headerBytes)
      case None => Err(InvalidProtocol)
      case Some(header) =>
        if header.schemaVersion != PROTOCOL_SCHEMA_VERSION || !ValidPublished(header.published)
          || !ValidSource(header.source)
        then Err(InvalidProtocol)
        else if |rest| < header.published.size then Err(InvalidProtocol)
        else ParseFooter(c, header, rest)
  }

  lemma SplitPayload(bytes: seq<byte>, tail: seq<byte>)
    ensures (bytes + tail)[..|bytes|] == bytes && (bytes + tail)[|bytes|..] == tail
  {}

  /** Any framing of an acceptable snapshot parses, whoever wrote the JSON. */
  lemma AcceptableStreamParses(c: Codec, header: seq<byte>, footer: seq<byte>, s: CaptureSnapshot)
    requires 0 < |header| <= MAX_PROTOCOL_JSON_BYTES && 0 < |footer| <= MAX_PROTOCOL_JSON_BYTES
    requires c.parseHeader(header) == Some(Header(PROTOCOL_SCHEMA_VERSION, s.source, s.published))
    requires c.parseFooter(footer) == Some(Footer(PROTOCOL_SCHEMA_VERSION, s.rechecked))
    requires Acceptable(c, s)
    ensures ParseSnapshotProtocol(c, Framed(header) + s.bytes + Framed(footer)) == Ok(s)
  {
    hide Framed, TakeFramedJson, LowerHex;
    var rest := s.bytes + Framed(footer);
    assert Framed(header) + s.bytes + Framed(footer) == Framed(header) + rest;
    TakesFrame(header, rest);
    SplitPayload(s.bytes, Framed(footer));
    TakesFrame(footer, []);
    assert Framed(footer) + [] == Framed(footer);
  }

  /** The parser believes a snapshot only if it is acceptable, and whatever it believes is the whole input: a
      frame, the picture, and a frame. */
  lemma ParsedIsAcceptable(c: Codec, input: seq<byte>)
    requires ParseSnapshotProtocol(c, input).Ok?
    ensures var s := ParseSnapshotProtocol(c, input).value;
            && Acceptable(c, s)
            && exists header, footer ::
                 && 0 < |header| <= MAX_PROTOCOL_JSON_BYTES && 0 < |footer| <= MAX_PROTOCOL_JSON_BYTES
                 && c.parseHeader(header) == Some(Header(PROTOCOL_SCHEMA_VERSION, s.source, s.published))
                 && c.parseFooter(footer) == Some(Footer(PROTOCOL_SCHEMA_VERSION, s.rechecked))
                 && input == Framed(header) + s.bytes + Framed(footer)
  {
    hide TakeFramedJson, LowerHex, Framed;
    var s := ParseSnapshotProtocol(c, input).value;
    var (header, rest) := TakeFramedJson(input).value;
    var (footer, trailing) := TakeFramedJson(rest[s.published.size..]).value;
    FramingIsExact(input, header, rest);
    FramingIsExact(rest[s.published.size..], footer, trailing);
    assert rest == s.bytes + rest[s.published.size..];
    assert Framed(footer) + trailing == Framed(footer);
    assert Framed(header) + (s.bytes + Framed(footer)) == Framed(header) + s.bytes + Framed(footer);
  }

  /** What was encoded parses back to itself exactly when it is acceptable. */
  lemma EncodedParsesBackExactly(c: Codec, s: CaptureSnapshot)
    requires Faithful(c) && Encoded(c, s).Ok?
    ensures ParseSnapshotProtocol(c, Encoded(c, s).value) == Ok(s) <==> Acceptable(c, s)
  {
    hide TakeFramedJson, LowerHex, Framed, ParseSnapshotProtocol, Acceptable;
    if Acceptable(c, s) {
      AcceptableStreamParses(c, c.headerJson(Header(PROTOCOL_SCHEMA_VERSION, s.source, s.published)),
                             c.footerJson(Footer(PROTOCOL_SCHEMA_VERSION, s.rechecked)), s);
    }
    if ParseSnapshotProtocol(c, Encoded(c, s).value) == Ok(s) {
      ParsedIsAcceptable(c, Encoded(c, s).value);
    }
  }

  /** encode_protocol: appends the five parts to one buffer. */
  method EncodeProtocol(c: Codec, s: CaptureSnapshot) returns (output: Result<seq<byte>, CaptureError>)
    ensures output == Encoded(c, s)
    ensures output.Err? <==>
            || |c.headerJson(Header(PROTOCOL_SCHEMA_VERSION, s.source, s.published))| > MAX_PROTOCOL_JSON_BYTES
            || |c.footerJson(Footer(PROTOCOL_SCHEMA_VERSION, s.rechecked))| > MAX_PROTOCOL_JSON_BYTES
    ensures Faithful(c) && output.Ok? ==> (ParseSnapshotProtocol(c, output.value) == Ok(s) <==> Acceptable(c, s))
  {
    hide ParseSnapshotProtocol, Acceptable, Faithful;
    var header := c.headerJson(Header(PROTOCOL_SCHEMA_VERSION, s.source, s.published));
    var footer := c.footerJson(Footer(PROTOCOL_SCHEMA_VERSION, s.rechecked));
    if |header| > MAX_PROTOCOL_JSON_BYTES || |footer| > MAX_PROTOCOL_JSON_BYTES {
      return Err(InvalidProtocol);
    }
    var buffer: seq<byte> := [];
    buffer := buffer + ToBigEndian(|header|);
    buffer := buffer + header;
    buffer := buffer + s.bytes;
    buffer := buffer + ToBigEndian(|footer|);
    buffer := buffer + footer;
    assert buffer == Framed(header) + s.bytes + Framed(footer);
    output := Ok(buffer);
    if Faithful(c) { EncodedParsesBackExactly(c, s); }
  }

  /** Whatever was parsed can be encoded again, within the limit, and parses to the same snapshot. */
  lemma ReencodingIsStable(c: Codec, input: seq<byte>)
    requires Faithful(c) && ParseSnapshotProtocol(c, input).Ok?
    requires Encoded(c, ParseSnapshotProtocol(c, input).value).Ok?
    ensures ParseSnapshotProtocol(c, Encoded(c, ParseSnapshotProtocol(c, input).value).value)
            == ParseSnapshotProtocol(c, input)
  {
    hide ParseSnapshotProtocol, Encoded, Acceptable;
    ParsedIsAcceptable(c, input);
    EncodedParsesBackExactly(c, ParseSnapshotProtocol(c, input).value);
  }

  /** A change behind the reader's back is told from a malformed stream: with a picture of the announced size,
      the answer is "changed" exactly when every part is well formed but they do not agree. */
  lemma DisagreementIsChanged(c: Codec, s: CaptureSnapshot)
    requires Faithful(c) && Encoded(c, s).Ok? && |s.bytes| == s.published.size
    ensures ParseSnapshotProtocol(c, Encoded(c, s).value) == Err(Changed)
       <==> ValidSource(s.source) && ValidPublished(s.published) && ValidPublished(s.rechecked) && !Acceptable(c, s)
  {
    hide TakeFramedJson, LowerHex, Framed;
    var header := c.headerJson(Header(PROTOCOL_SCHEMA_VERSION, s.source, s.published));
    var footer := c.footerJson(Footer(PROTOCOL_SCHEMA_VERSION, s.rechecked));
    var rest := s.bytes + Framed(footer);
    assert Encoded(c, s).value == Framed(header) + rest;
    TakesFrame(header, rest);
    SplitPayload(s.bytes, Framed(footer));
    TakesFrame(footer, []);
    assert Framed(footer) + [] == Framed(footer);
  }
}
