/** Reading the serial number of a PEM certificate (`src/swish/cert.rs`). */
module Certificate {
  import opened Prelude
  import opened Arithmetic
  import opened Gaps
  import opened Text
  import Base64
  import Base64Laws
  import Hex

  datatype CertError =
    | NoCertificateBlock
    | UnterminatedBlock
    | InvalidBase64(why: Base64.DecodeError)
    | NotASequence
    | TbsNotASequence
    | SerialNotAnInteger
    | MissingTag
    | MissingLength
    | UnsupportedLength
    | ShortLength
    | PastTheEnd

  const SEQUENCE: byte := 0x30
  const INTEGER: byte := 0x02
  const VERSION: byte := 0xa0

  // ---- DER lengths and elements ----

  function BigEndian(octets: seq<byte>): nat {
    if octets == [] then 0 else 256 * BigEndian(octets[..|octets| - 1]) + octets[|octets| - 1] as nat
  }

  /** The length at `pos` and where its contents start. */
  function LengthAt(buf: seq<byte>, pos: nat): Result<(nat, nat), CertError> {
    if pos >= |buf| then Err(MissingLength)
    else if buf[pos] < 0x80 then Ok((buf[pos] as nat, pos + 1))
    else
      var count := buf[pos] as nat - 0x80;
      if count == 0 || count > 4 then Err(UnsupportedLength)
      else if pos + 1 + count > |buf| then Err(ShortLength)
      else Ok((BigEndian(buf[pos + 1..pos + 1 + count]), pos + 1 + count))
  }

  method ReadLength(buf: seq<byte>, pos: nat) returns (result: Result<(nat, nat), CertError>)
    ensures result == LengthAt(buf, pos)
  {
    if pos >= |buf| {
      return Err(MissingLength);
    }
    var first, at := buf[pos], pos + 1;
    if first < 0x80 {
      return Ok((first as nat, at));
    }
    var count := first as nat - 0x80;
    if count == 0 || count > 4 {
      return Err(UnsupportedLength);
    }
    var len := 0;
    for i := 0 to count
      invariant at == pos + 1 + i <= |buf|
      invariant len == BigEndian(buf[pos + 1..at])
    {
      if at >= |buf| {
        return Err(ShortLength);
      }
      assert buf[pos + 1..at + 1][..i] == buf[pos + 1..at];
      len := 256 * len + buf[at] as nat;
      at := at + 1;
    }
    result := Ok((len, at));
  }

  datatype Element = Element(tag: byte, contents: seq<byte>, end: nat)

  /** The element at `pos`. */
  function ElementAt(buf: seq<byte>, pos: nat): Result<Element, CertError> {
    if pos >= |buf| then Err(MissingTag)
    else
      match LengthAt(buf, pos + 1)
      case Err(why) => Err(why)
      case Ok((len, start)) =>
        if start + len > |buf| then Err(PastTheEnd)
        else Ok(Element(buf[pos], buf[start..start + len], start + len))
  }

  method ReadElement(buf: seq<byte>, pos: nat) returns (result: Result<Element, CertError>)
    ensures result == ElementAt(buf, pos)
  {
    if pos >= |buf| {
      return Err(MissingTag);
    }
    var length := ReadLength(buf, pos + 1);
    if length.Err? {
      return Err(length.error);
    }
    var (len, start) := length.value;
    var end := start + len;
    if end > |buf| {
      return Err(PastTheEnd);
    }
    result := Ok(Element(buf[pos], buf[start..end], end));
  }

  /** The serial number's contents, verbatim. */
  function SerialOf(der: seq<byte>): Result<seq<byte>, CertError> {
    match ElementAt(der, 0)
    case Err(why) => Err(why)
    case Ok(certificate) =>
      if certificate.tag != SEQUENCE then Err(NotASequence)
      else
        match ElementAt(certificate.contents, 0)
        case Err(why) => Err(why)
        case Ok(tbs) =>
          if tbs.tag != SEQUENCE then Err(TbsNotASequence)
          else SerialInTbs(tbs.contents)
  }

  function SerialInTbs(tbs: seq<byte>): Result<seq<byte>, CertError> {
    if tbs != [] && tbs[0] == VERSION then
      match ElementAt(tbs, 0)
      case Err(why) => Err(why)
      case Ok(version) => SerialAt(tbs, version.end)
    else SerialAt(tbs, 0)
  }

  function SerialAt(tbs: seq<byte>, pos: nat): Result<seq<byte>, CertError> {
    match ElementAt(tbs, pos)
    case Err(why) => Err(why)
    case Ok(serial) => if serial.tag != INTEGER then Err(SerialNotAnInteger) else Ok(serial.contents)
  }

  method SerialFromDer(der: seq<byte>) returns (result: Result<seq<byte>, CertError>)
    ensures result == SerialOf(der)
  {
    var certificate := ReadElement(der, 0);
    if certificate.Err? {
      return Err(certificate.error);
    }
    if certificate.value.tag != SEQUENCE {
      return Err(NotASequence);
    }
    var tbs := ReadElement(certificate.value.contents, 0);
    if tbs.Err? {
      return Err(tbs.error);
    }
    if tbs.value.tag != SEQUENCE {
      return Err(TbsNotASequence);
    }
    var pos := 0;
    if tbs.value.contents != [] && tbs.value.contents[0] == VERSION {
      var version := ReadElement(tbs.value.contents, pos);
      if version.Err? {
        return Err(version.error);
      }
      pos := version.value.end;
    }
    var serial := ReadElement(tbs.value.contents, pos);
    if serial.Err? {
      return Err(serial.error);
    }
    if serial.value.tag != INTEGER {
      return Err(SerialNotAnInteger);
    }
    result := Ok(serial.value.contents);
  }

  // ---- PEM ----

  const BEGIN := "-----BEGIN CERTIFICATE-----"
  const END := "-----END CERTIFICATE-----"

  /** Only the first block, so a chain still yields the leaf. */
  function FirstCertificateDer(pem: string): Result<seq<byte>, CertError> {
    match Find(pem, BEGIN)
    case None => Err(NoCertificateBlock)
    case Some(begin) =>
      var rest := pem[begin + |BEGIN|..];
      match Find(rest, END)
      case None => Err(UnterminatedBlock)
      case Some(end) =>
        var body := WithoutWhitespace(rest[..end]);
        match Base64.Decoded(Utf8(body))
        case Err(why) => Err(InvalidBase64(why))
        case Ok(der) => Ok(der)
  }

  function ReadCertSerial(pem: string): Result<string, CertError> {
    match FirstCertificateDer(pem)
    case Err(why) => Err(why)
    case Ok(der) =>
      match SerialOf(der)
      case Err(why) => Err(why)
      case Ok(serial) => Ok(Hex.UpperHex(serial))
  }

  // ---- What DER allows (sections 8.1.3 and 10.1 of X.690) ----

  /** Octets in the definite form that stand for the length `n`: short, or long with up to four octets. */
  predicate IsLength(octets: seq<byte>, n: nat) {
    || (|octets| == 1 && octets[0] < 0x80 && octets[0] as nat == n)
    || (2 <= |octets| <= 5 && octets[0] as nat == 0x80 + |octets| - 1 && BigEndian(octets[1..]) == n)
  }

  /** The distinguished encoding of a length: the shortest. */
  function LengthOctets(n: nat): seq<byte>
    requires n < 0x1_0000_0000
  {
    if n < 0x80 then [n as byte]
    else if n < 0x100 then [0x81, n as byte]
    else if n < 0x1_0000 then [0x82, (n / 0x100) as byte, (n % 0x100) as byte]
    else if n < 0x100_0000 then [0x83, (n / 0x1_0000) as byte, (n / 0x100 % 0x100) as byte, (n % 0x100) as byte]
    else [0x84, (n / 0x100_0000) as byte, (n / 0x1_0000 % 0x100) as byte, (n / 0x100 % 0x100) as byte, (n % 0x100) as byte]
  }

  lemma BigEndianOf(octets: seq<byte>)
    ensures |octets| == 1 ==> BigEndian(octets) == octets[0] as nat
    ensures |octets| == 2 ==> BigEndian(octets) == octets[0] as nat * 0x100 + octets[1] as nat
    ensures |octets| == 3 ==>
              BigEndian(octets) == octets[0] as nat * 0x1_0000 + octets[1] as nat * 0x100 + octets[2] as nat
    ensures |octets| == 4 ==>
              BigEndian(octets) ==
              octets[0] as nat * 0x100_0000 + octets[1] as nat * 0x1_0000 + octets[2] as nat * 0x100 + octets[3] as nat
  {
    if 2 <= |octets| <= 4 {
      BigEndianOf(octets[..|octets| - 1]);
    }
  }

  lemma BytesOf(n: nat)
    requires n < 0x1_0000_0000
    ensures n == n / 0x100_0000 * 0x100_0000 + n / 0x1_0000 % 0x100 * 0x1_0000 + n / 0x100 % 0x100 * 0x100 + n % 0x100
    ensures 0 <= n / 0x100_0000 < 0x100
  {
    var a := n / 0x100;
    var b := a / 0x100;
    DivMod(n, 0x1_0000, b, a % 0x100 * 0x100 + n % 0x100);
    DivMod(n, 0x100_0000, b / 0x100, b % 0x100 * 0x1_0000 + a % 0x100 * 0x100 + n % 0x100);
  }

  /** The distinguished encoding stands for the length. */
  lemma LengthOctetsStandForIt(n: nat)
    requires n < 0x1_0000_0000
    ensures IsLength(LengthOctets(n), n)
  {
    BytesOf(n);
    BigEndianOf(LengthOctets(n)[1..]);
  }

  /** No encoding is shorter than the distinguished one. */
  lemma LengthOctetsAreTheShortest(n: nat, octets: seq<byte>)
    requires n < 0x1_0000_0000 && IsLength(octets, n)
    ensures |LengthOctets(n)| <= |octets|
  {
    if |octets| > 1 {
      BigEndianOf(octets[1..]);
    }
  }

  /** A length is read exactly when the buffer holds one there, and it is the length it stands for. */
  lemma LengthIsRead(buf: seq<byte>, pos: nat, n: nat, start: nat)
    ensures LengthAt(buf, pos) == Ok((n, start)) <==>
            pos < start <= |buf| && IsLength(buf[pos..start], n)
  {
    if pos < start <= |buf| {
      var octets := buf[pos..start];
      assert octets[0] == buf[pos] && octets[1..] == buf[pos + 1..start];
    }
  }

  /** An element, spelled out: tag, length octets, contents. */
  function Tlv(tag: byte, octets: seq<byte>, contents: seq<byte>): seq<byte> {
    [tag] + octets + contents
  }

  /** Where the pieces of an element are when it stands in a buffer. */
  lemma Pieces(before: seq<byte>, tag: byte, octets: seq<byte>, contents: seq<byte>, after: seq<byte>)
    ensures var buf, start := before + Tlv(tag, octets, contents) + after, |before| + 1 + |octets|;
            && |Tlv(tag, octets, contents)| == 1 + |octets| + |contents|
            && |buf| == start + |contents| + |after| && buf[|before|] == tag
            && buf[|before| + 1..start] == octets && buf[start..start + |contents|] == contents
  {
    var start := |before| + 1 + |octets|;
    var buf := before + Tlv(tag, octets, contents) + after;
    assert buf == before + [tag] + octets + contents + after;
    assert buf == (before + [tag]) + octets + (contents + after);
    assert buf == (before + [tag] + octets) + contents + after;
  }

  /** A well-formed element is read back, wherever it stands in a buffer. */
  lemma ElementIsRead(before: seq<byte>, tag: byte, octets: seq<byte>, contents: seq<byte>, after: seq<byte>)
    requires IsLength(octets, |contents|)
    ensures var buf := before + Tlv(tag, octets, contents) + after;
            ElementAt(buf, |before|) == Ok(Element(tag, contents, |before| + |Tlv(tag, octets, contents)|))
  {
    hide LengthAt, Tlv;
    Pieces(before, tag, octets, contents, after);
    var buf := before + Tlv(tag, octets, contents) + after;
    LengthIsRead(buf, |before| + 1, |contents|, |before| + 1 + |octets|);
  }

  lemma FirstElementIsRead(tag: byte, octets: seq<byte>, contents: seq<byte>, after: seq<byte>)
    requires IsLength(octets, |contents|)
    ensures var buf := Tlv(tag, octets, contents) + after;
            ElementAt(buf, 0) == Ok(Element(tag, contents, |Tlv(tag, octets, contents)|))
  {
    ElementIsRead([], tag, octets, contents, after);
    assert [] + Tlv(tag, octets, contents) + after == Tlv(tag, octets, contents) + after;
  }

  /** And nothing else is: whatever is read as an element is spelled as one. */
  lemma OnlyElementsAreRead(buf: seq<byte>, pos: nat) returns (octets: seq<byte>)
    requires ElementAt(buf, pos).Ok?
    ensures var e := ElementAt(buf, pos).value;
            && pos <= e.end <= |buf| && IsLength(octets, |e.contents|)
            && buf == buf[..pos] + Tlv(e.tag, octets, e.contents) + buf[e.end..]
  {
    var (len, start) := LengthAt(buf, pos + 1).value;
    LengthIsRead(buf, pos + 1, len, start);
    octets := buf[pos + 1..start];
  }

  /** What is wrong where no element is read: what is missing, a form that is not supported, or its size. */
  lemma ElementIsRefusedWithReason(buf: seq<byte>, pos: nat)
    ensures ElementAt(buf, pos) == Err(MissingTag) <==> pos >= |buf|
    ensures ElementAt(buf, pos) == Err(MissingLength) <==> pos + 1 == |buf|
    ensures ElementAt(buf, pos) == Err(UnsupportedLength) <==>
            pos + 1 < |buf| && (buf[pos + 1] == 0x80 || buf[pos + 1] > 0x84)
    ensures ElementAt(buf, pos) == Err(ShortLength) <==>
            pos + 1 < |buf| && 0x80 < buf[pos + 1] <= 0x84 && |buf| < pos + 2 + (buf[pos + 1] as nat - 0x80)
    ensures ElementAt(buf, pos) == Err(PastTheEnd) <==>
            exists start, n :: Overruns(buf, pos, start, n)
  {
    hide BigEndian;
    forall start: nat, n: nat | pos + 1 < start <= |buf|
      ensures LengthAt(buf, pos + 1) == Ok((n, start)) <==> IsLength(buf[pos + 1..start], n)
    {
      LengthIsRead(buf, pos + 1, n, start);
    }
    if LengthAt(buf, pos + 1).Ok? {
      var (n, start) := LengthAt(buf, pos + 1).value;
      LengthIsRead(buf, pos + 1, n, start);
      assert start + n > |buf| ==> Overruns(buf, pos, start, n);
    }
  }

  /** After the tag at `pos` stands the length of contents that run past the end. */
  predicate Overruns(buf: seq<byte>, pos: nat, start: nat, n: nat) {
    pos + 1 < start <= |buf| < start + n && IsLength(buf[pos + 1..start], n)
  }

  lemma ElementErrors(buf: seq<byte>, pos: nat)
    ensures ElementAt(buf, pos).Err? ==>
              ElementAt(buf, pos).error !in {NotASequence, TbsNotASequence, SerialNotAnInteger}
  {
  }

  /** The errors about tags: no SEQUENCE, no SEQUENCE in it, no INTEGER where the serial should be. */
  lemma SerialIsRefusedWithReason(der: seq<byte>)
    ensures SerialOf(der) == Err(NotASequence) <==>
            exists certificate :: ElementAt(der, 0) == Ok(certificate) && certificate.tag != 0x30
    ensures SerialOf(der) == Err(TbsNotASequence) <==>
            exists certificate, tbs ::
              && ElementAt(der, 0) == Ok(certificate) && certificate.tag == 0x30
              && ElementAt(certificate.contents, 0) == Ok(tbs) && tbs.tag != 0x30
    ensures SerialOf(der) == Err(SerialNotAnInteger) <==>
            exists certificate, tbs, pos, serial ::
              && ElementAt(der, 0) == Ok(certificate) && certificate.tag == 0x30
              && ElementAt(certificate.contents, 0) == Ok(tbs) && tbs.tag == 0x30
              && StandsAfterVersion(tbs.contents, pos)
              && ElementAt(tbs.contents, pos) == Ok(serial) && serial.tag != 0x02
  {
    hide ElementAt;
    ElementErrors(der, 0);
    if ElementAt(der, 0).Ok? {
      var contents := ElementAt(der, 0).value.contents;
      ElementErrors(contents, 0);
      if ElementAt(contents, 0).Ok? {
        var tbs := ElementAt(contents, 0).value.contents;
        ElementErrors(tbs, 0);
        if ElementAt(tbs, 0).Ok? {
          ElementErrors(tbs, ElementAt(tbs, 0).value.end);
        }
      }
    }
    if SerialOf(der) == Err(SerialNotAnInteger) {
      var tbs := ElementAt(ElementAt(der, 0).value.contents, 0).value;
      var pos := if tbs.contents != [] && tbs.contents[0] == 0xA0 then ElementAt(tbs.contents, 0).value.end else 0;
      assert StandsAfterVersion(tbs.contents, pos);
    }
  }

  /** The place of the serial number: after the version if there is one, first otherwise. */
  predicate StandsAfterVersion(tbs: seq<byte>, pos: nat) {
    if tbs != [] && tbs[0] == 0xA0 then ElementAt(tbs, 0).Ok? && pos == ElementAt(tbs, 0).value.end
    else pos == 0
  }

  // ---- Certificates (section 4.1 of RFC 5280) ----

  datatype Version = Version(octets: seq<byte>, contents: seq<byte>)

  /**
   * The parts of a certificate this code looks at: the lengths of the two nested sequences, the
   * version if there is one, the serial number, and whatever follows at each level.
   */
  datatype Parts = Parts(
    length: seq<byte>, tbsLength: seq<byte>, version: Option<Version>, serialLength: seq<byte>,
    serial: seq<byte>, tbsRest: seq<byte>, rest: seq<byte>, trailing: seq<byte>)

  function VersionBytes(version: Option<Version>): seq<byte> {
    match version
    case None => []
    case Some(v) => Tlv(0xA0, v.octets, v.contents)
  }

  function TbsBytes(p: Parts): seq<byte> {
    VersionBytes(p.version) + Tlv(0x02, p.serialLength, p.serial) + p.tbsRest
  }

  function CertificateBytes(p: Parts): seq<byte> {
    Tlv(0x30, p.tbsLength, TbsBytes(p)) + p.rest
  }

  function DerBytes(p: Parts): seq<byte> {
    Tlv(0x30, p.length, CertificateBytes(p)) + p.trailing
  }

  ghost predicate WellFormed(p: Parts) {
    && IsLength(p.length, |CertificateBytes(p)|)
    && IsLength(p.tbsLength, |TbsBytes(p)|)
    && (p.version.Some? ==> IsLength(p.version.value.octets, |p.version.value.contents|))
    && IsLength(p.serialLength, |p.serial|)
  }

  lemma SerialIsReadInTbs(p: Parts)
    requires WellFormed(p)
    ensures SerialInTbs(TbsBytes(p)) == Ok(p.serial)
  {
    hide LengthAt, IsLength;
    match p.version
    case None =>
      FirstElementIsRead(INTEGER, p.serialLength, p.serial, p.tbsRest);
      assert TbsBytes(p) == Tlv(INTEGER, p.serialLength, p.serial) + p.tbsRest;
    case Some(v) =>
      var after := Tlv(INTEGER, p.serialLength, p.serial) + p.tbsRest;
      FirstElementIsRead(VERSION, v.octets, v.contents, after);
      assert TbsBytes(p) == Tlv(VERSION, v.octets, v.contents) + after;
      ElementIsRead(Tlv(VERSION, v.octets, v.contents), INTEGER, p.serialLength, p.serial, p.tbsRest);
  }

  /** The serial of every well-formed certificate is read, version or no version. */
  lemma SerialIsRead(p: Parts)
    requires WellFormed(p)
    ensures SerialOf(DerBytes(p)) == Ok(p.serial)
  {
    hide ElementAt, IsLength, SerialInTbs, Tlv, TbsBytes;
    FirstElementIsRead(SEQUENCE, p.length, CertificateBytes(p), p.trailing);
    FirstElementIsRead(SEQUENCE, p.tbsLength, TbsBytes(p), p.rest);
    SerialIsReadInTbs(p);
  }

  lemma TbsOfSerial(tbs: seq<byte>) returns (version: Option<Version>, octets: seq<byte>, rest: seq<byte>)
    requires SerialInTbs(tbs).Ok?
    ensures var serial := SerialInTbs(tbs).value;
            && IsLength(octets, |serial|)
            && (version.Some? ==> IsLength(version.value.octets, |version.value.contents|))
            && tbs == VersionBytes(version) + Tlv(INTEGER, octets, serial) + rest
  {
    hide LengthAt, IsLength;
    version := None;
    var pos := 0;
    if tbs != [] && tbs[0] == VERSION {
      var o := OnlyElementsAreRead(tbs, 0);
      var e := ElementAt(tbs, 0).value;
      version := Some(Version(o, e.contents));
      pos := e.end;
      assert tbs[..pos] == VersionBytes(version);
    }
    octets := OnlyElementsAreRead(tbs, pos);
    rest := tbs[ElementAt(tbs, pos).value.end..];
  }

  lemma PartsOf(der: seq<byte>) returns (p: Parts)
    requires SerialOf(der).Ok?
    ensures WellFormed(p) && der == DerBytes(p) && SerialOf(der) == Ok(p.serial)
  {
    hide ElementAt, IsLength, SerialInTbs, Tlv;
    var length := OnlyElementsAreRead(der, 0);
    var certificate := ElementAt(der, 0).value;
    var tbsLength := OnlyElementsAreRead(certificate.contents, 0);
    var tbs := ElementAt(certificate.contents, 0).value;
    var version, serialLength, tbsRest := TbsOfSerial(tbs.contents);
    p := Parts(length, tbsLength, version, serialLength, SerialInTbs(tbs.contents).value, tbsRest,
               certificate.contents[tbs.end..], der[certificate.end..]);
    assert TbsBytes(p) == tbs.contents;
    assert CertificateBytes(p) == certificate.contents;
    assert DerBytes(p) == der;
  }

  /** A serial is read from exactly the bytes that start with a certificate, and it is that one's. */
  lemma SerialsAreReadFromCertificates(der: seq<byte>, serial: seq<byte>)
    ensures SerialOf(der) == Ok(serial) <==>
            exists p :: WellFormed(p) && der == DerBytes(p) && serial == p.serial
  {
    if SerialOf(der) == Ok(serial) {
      var p := PartsOf(der);
    }
    if p :| WellFormed(p) && der == DerBytes(p) && serial == p.serial {
      SerialIsRead(p);
    }
  }

  // ---- The whole way (section 5 of RFC 7468) ----

  /** A base64 text spread by whitespace has no dash in it, so no marker either. */
  lemma BodyHasNoDash(der: seq<byte>, body: string, gaps: seq<string>)
    requires IsSpread(body, Chars(Base64.Encoded(der)), gaps)
    ensures WithoutWhitespace(body) == Chars(Base64.Encoded(der))
    ensures '-' !in body
  {
    hide Base64.Encoded;
    var text := Chars(Base64.Encoded(der));
    Base64Laws.EncodedHasNoDash(der);
    forall c | c in text
      ensures !IsWhitespace(c) && c != '-'
    {
      var i :| 0 <= i < |text| && text[i] == c;
      assert Base64.Encoded(der)[i] in Base64.Encoded(der);
    }
    SpreadDropped(text, gaps);
    if '-' in body {
      WithoutWhitespaceKeeps(body, '-');
    }
  }

  /** `before` is followed by the first begin marker, and `body` by the first end marker after it. */
  ghost predicate IsFirstBlock(pem: string, before: string, body: string, after: string) {
    && pem == before + "-----BEGIN CERTIFICATE-----" + body + "-----END CERTIFICATE-----" + after
    && (forall j: nat | j < |before| :: !OccursAt(pem, "-----BEGIN CERTIFICATE-----", j))
    && (forall j: nat | j < |body| :: !OccursAt(body + "-----END CERTIFICATE-----" + after, "-----END CERTIFICATE-----", j))
  }

  lemma FirstBlockIsFound(pem: string, before: string, body: string, after: string)
    requires IsFirstBlock(pem, before, body, after)
    ensures Find(pem, BEGIN) == Some(|before|)
    ensures Find(pem[|before| + |BEGIN|..], END) == Some(|body|)
    ensures pem[|before| + |BEGIN|..][..|body|] == body
  {
    hide Find;
    assert pem[|before|..|before| + |BEGIN|] == BEGIN;
    FindIs(pem, BEGIN, |before|);
    var rest := pem[|before| + |BEGIN|..];
    assert rest == body + END + after;
    assert rest[|body|..|body| + |END|] == END;
    FindIs(rest, END, |body|);
  }

  lemma OnlyTheFirstBlockIsFound(pem: string, begin: nat, end: nat)
    requires Find(pem, BEGIN) == Some(begin) && Find(pem[begin + |BEGIN|..], END) == Some(end)
    ensures var rest := pem[begin + |BEGIN|..];
            IsFirstBlock(pem, pem[..begin], rest[..end], rest[end + |END|..])
  {
    hide Find;
    var rest := pem[begin + |BEGIN|..];
    assert OccursAt(pem, BEGIN, begin) && OccursAt(rest, END, end);
    assert rest == rest[..end] + END + rest[end + |END|..];
    assert pem == pem[..begin] + BEGIN + rest;
    assert pem == pem[..begin] + BEGIN + rest[..end] + END + rest[end + |END|..];
  }

  /**
   * The DER is what the characters of the first block decode to, in their order and without the
   * whitespace between them.
   */
  lemma FirstBlockIsRead(pem: string, der: seq<byte>)
    ensures FirstCertificateDer(pem) == Ok(der) <==>
            exists before, body, after, text, gaps ::
              && IsFirstBlock(pem, before, body, after)
              && IsSpread(body, text, gaps)
              && (forall c | c in text :: !IsWhitespace(c))
              && Base64.Decoded(Utf8(text)) == Ok(der)
  {
    hide Find, Spread, WithoutWhitespace, Utf8, IsWhitespace, IsFirstBlock, Base64.Decoded;
    if FirstCertificateDer(pem) == Ok(der) {
      var begin := Find(pem, BEGIN).value;
      var rest := pem[begin + |BEGIN|..];
      var end := Find(rest, END).value;
      OnlyTheFirstBlockIsFound(pem, begin, end);
      var gaps := GapsOf(rest[..end]);
      WithoutWhitespaceIsVisible(rest[..end]);
      assert IsSpread(rest[..end], WithoutWhitespace(rest[..end]), gaps);
    }
    if before, body, after, text, gaps :|
      && IsFirstBlock(pem, before, body, after)
      && IsSpread(body, text, gaps)
      && (forall c | c in text :: !IsWhitespace(c))
      && Base64.Decoded(Utf8(text)) == Ok(der)
    {
      FirstBlockIsFound(pem, before, body, after);
      SpreadDropped(text, gaps);
    }
  }

  /** And a PEM file without such a block is refused for the marker that is missing. */
  lemma MissingMarkers(pem: string)
    ensures FirstCertificateDer(pem) == Err(NoCertificateBlock) <==>
            forall j: nat :: !OccursAt(pem, "-----BEGIN CERTIFICATE-----", j)
    ensures FirstCertificateDer(pem) == Err(UnterminatedBlock) <==>
            && (exists j: nat :: OccursAt(pem, "-----BEGIN CERTIFICATE-----", j))
            && !exists before, body, after :: IsFirstBlock(pem, before, body, after)
  {
    hide WithoutWhitespace, Utf8, Base64.Decoded, IsFirstBlock;
    if Find(pem, BEGIN).Some? {
      var begin := Find(pem, BEGIN).value;
      assert OccursAt(pem, BEGIN, begin);
      if Find(pem[begin + |BEGIN|..], END).Some? {
        OnlyTheFirstBlockIsFound(pem, begin, Find(pem[begin + |BEGIN|..], END).value);
      } else if before, body, after :| IsFirstBlock(pem, before, body, after) {
        FirstBlockIsFound(pem, before, body, after);
      }
    }
  }

  lemma NoMarkerWithoutDash(body: string, after: string)
    requires '-' !in body
    ensures forall j: nat | j < |body| ::
              !OccursAt(body + "-----END CERTIFICATE-----" + after, "-----END CERTIFICATE-----", j)
  {
    var rest := body + END + after;
    forall j: nat | j < |body|
      ensures !OccursAt(rest, END, j)
    {
      if j + |END| <= |rest| {
        assert rest[j..j + |END|][0] == rest[j] == body[j];
        assert body[j] in body && END[0] == '-';
      }
    }
  }

  /** What may stand between the characters of the text. */
  predicate AreGaps(gaps: seq<string>) {
    forall i, c | 0 <= i < |gaps| && c in gaps[i] ::
      c == ' ' || c == '\t' || c == '\r' || c == '\n' || IsWhitespace(c)
  }

  lemma GapsAreWhitespace(gaps: seq<string>)
    requires AreGaps(gaps)
    ensures forall i | 0 <= i < |gaps| :: AllWhitespace(gaps[i])
  {
  }

  /**
   * From PEM to the payload: for every well-formed certificate whose base64 text stands between the
   * markers with whitespace before, between and after its characters, after any text without a begin
   * marker and before any text at all, the serial is the uppercase hex of the leaf's serial contents.
   */
  lemma SerialOfThePem(pem: string, before: string, gaps: seq<string>, after: string, p: Parts)
    requires WellFormed(p) && |gaps| == |Base64.Encoded(DerBytes(p))| + 1 && AreGaps(gaps)
    requires pem == before + "-----BEGIN CERTIFICATE-----" + Spread(Chars(Base64.Encoded(DerBytes(p))), gaps)
                    + "-----END CERTIFICATE-----" + after
    requires forall j: nat | j < |before| :: !OccursAt(pem, "-----BEGIN CERTIFICATE-----", j)
    ensures ReadCertSerial(pem) == Ok(Hex.UpperHex(p.serial))
  {
    hide WellFormed, DerBytes, SerialOf, ReadCertSerial, FirstCertificateDer, IsFirstBlock, IsSpread, Spread, AreGaps;
    hide Base64.Encoded, Chars, OccursAt, WithoutWhitespace;
    var der := DerBytes(p);
    var text := Chars(Base64.Encoded(der));
    CharsLength(Base64.Encoded(der));
    var body := Spread(text, gaps);
    BlockIsSpread(text, body, gaps);
    BodyHasNoDash(der, body, gaps);
    IsTheFirstBlock(pem, before, body, after);
    BlockIsDecoded(pem, before, body, after, der);
    SerialIsRead(p);
    SerialFollows(pem, der, p.serial);
  }

  lemma BlockIsSpread(text: string, body: string, gaps: seq<string>)
    requires |gaps| == |text| + 1 && AreGaps(gaps) && body == Spread(text, gaps)
    ensures IsSpread(body, text, gaps)
  {
    GapsAreWhitespace(gaps);
  }

  lemma IsTheFirstBlock(pem: string, before: string, body: string, after: string)
    requires pem == before + "-----BEGIN CERTIFICATE-----" + body + "-----END CERTIFICATE-----" + after
    requires forall j: nat | j < |before| :: !OccursAt(pem, "-----BEGIN CERTIFICATE-----", j)
    requires '-' !in body
    ensures IsFirstBlock(pem, before, body, after)
  {
    hide OccursAt;
    NoMarkerWithoutDash(body, after);
  }

  lemma BlockIsDecoded(pem: string, before: string, body: string, after: string, der: seq<byte>)
    requires IsFirstBlock(pem, before, body, after)
    requires WithoutWhitespace(body) == Chars(Base64.Encoded(der))
    ensures FirstCertificateDer(pem) == Ok(der)
  {
    hide IsFirstBlock, Utf8, Base64.Encoded, Base64.Decoded, Chars, WithoutWhitespace, Find;
    FirstBlockIsFound(pem, before, body, after);
    EncodedIsRead(der);
  }

  lemma SerialFollows(pem: string, der: seq<byte>, serial: seq<byte>)
    requires FirstCertificateDer(pem) == Ok(der) && SerialOf(der) == Ok(serial)
    ensures ReadCertSerial(pem) == Ok(Hex.UpperHex(serial))
  {
    hide FirstCertificateDer, SerialOf;
  }

  lemma CharsLength(bytes: seq<byte>)
    ensures |Chars(bytes)| == |bytes|
  {
  }

  lemma EncodedIsRead(der: seq<byte>)
    ensures Base64.Decoded(Utf8(Chars(Base64.Encoded(der)))) == Ok(der)
  {
    hide Base64.Encoded, Base64.Decoded, Utf8;
    Base64Laws.EncodedHasNoDash(der);
    AsciiIsItself(Base64.Encoded(der));
    Base64Laws.PlainRoundTrip(der);
  }
}
