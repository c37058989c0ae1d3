/** The OpenSSH key revocation list: the encoder as it writes, and a decoder of
    PROTOCOL.krl as its specification. */
module Krl {
  import opened Common

  const WORD: nat := 0x1_0000_0000

  // ----- the wire types of RFC 4251, section 5 -----

  function Pow256(k: nat): (p: nat)
    ensures p > 0
  {
    if k == 0 then 1 else 256 * Pow256(k - 1)
  }

  /** The low k bytes of an integer, most significant first. */
  function BigEndian(v: int, k: nat): (b: Bytes)
    ensures |b| == k
    decreases k
  {
    if k == 0 then [] else BigEndian(v / 256, k - 1) + [v % 256]
  }

  function FromBigEndian(b: Bytes): nat {
    if b == [] then 0 else FromBigEndian(b[..|b| - 1]) * 256 + b[|b| - 1]
  }

  function WireString(data: Bytes): Bytes {
    BigEndian(|data|, 4) + data
  }

  function ReadUint(b: Bytes, k: nat): Option<(nat, Bytes)> {
    if |b| < k then None else Some((FromBigEndian(b[..k]), b[k..]))
  }

  function ReadString(b: Bytes): Option<(Bytes, Bytes)> {
    match ReadUint(b, 4)
    case None => None
    case Some((n, rest)) => if |rest| < n then None else Some((rest[..n], rest[n..]))
  }

  lemma WrapStep(v: int, p: nat)
    requires p > 0
    ensures v % (256 * p) == (v / 256) % p * 256 + v % 256
  {
    var q := v / 256;
    var t, u := q / p, q % p;
    assert q == t * p + u;
    assert v == 256 * (t * p + u) + v % 256;
    assert 256 * (t * p) == t * (256 * p);
    QuotientUnique(v, 256 * p, t, 256 * u + v % 256);
  }

  /** Writing then reading k bytes keeps the integer modulo 256^k. */
  lemma {:induction false} BigEndianRoundTrip(v: int, k: nat)
    ensures FromBigEndian(BigEndian(v, k)) == v % Pow256(k)
    decreases k
  {
    if k > 0 {
      BigEndianRoundTrip(v / 256, k - 1);
      WrapStep(v, Pow256(k - 1));
      assert BigEndian(v, k)[..k - 1] == BigEndian(v / 256, k - 1);
    }
  }

  lemma Sizes()
    ensures Pow256(4) == WORD && Pow256(8) == WORD * WORD
  {
    assert Pow256(2) == 0x1_0000 && Pow256(4) == 0x1_0000 * Pow256(2);
    assert Pow256(6) == 0x1_0000 * Pow256(4) && Pow256(8) == 0x1_0000 * Pow256(6);
  }

  lemma ReadUintRoundTrip(v: int, k: nat, rest: Bytes)
    ensures ReadUint(BigEndian(v, k) + rest, k) == Some((v % Pow256(k), rest))
  {
    hide BigEndian, FromBigEndian;
    BigEndianRoundTrip(v, k);
    var b := BigEndian(v, k) + rest;
    assert b[..k] == BigEndian(v, k) && b[k..] == rest;
  }

  /** A string is read back whole exactly when its length fits 32 bits. */
  lemma StringRoundTrip(data: Bytes, rest: Bytes)
    ensures ReadString(WireString(data) + rest) == Some((data, rest)) <==> |data| < WORD
    ensures |data| >= WORD && ReadString(WireString(data) + rest).Some? ==>
              var (read, after) := ReadString(WireString(data) + rest).value;
              |after| > 0
  {
    hide BigEndian, FromBigEndian, Pow256;
    var b := BigEndian(|data|, 4) + (data + rest);
    assert WireString(data) + rest == b;
    ReadUintRoundTrip(|data|, 4, data + rest);
    Sizes();
    var n := |data| % WORD;
    if |data| < WORD {
      assert (data + rest)[..n] == data && (data + rest)[n..] == rest;
    }
  }

  // ----- the encoder -----

  const MAGIC: Bytes := [0x53, 0x53, 0x48, 0x4B, 0x52, 0x4C, 0x0A, 0x00]
  const FORMAT_VERSION: nat := 1
  const SECTION_CERTIFICATES: Byte := 1
  const CERT_SERIAL_LIST: Byte := 0x20
  const COMMENT: Bytes := [0x67, 0x72, 0x75, 0x66, 0x66]

  /** time.Time.Unix, with instants counted from the Unix epoch. */
  function Unix(t: Time): int {
    t / SECOND
  }

  function SerialBytes(serials: seq<nat>): Bytes {
    if serials == [] then [] else BigEndian(serials[0], 8) + SerialBytes(serials[1..])
  }

  function CertSection(serials: seq<nat>, key: Bytes): Bytes {
    WireString(key) + (WireString([])
      + if serials == [] then [] else [CERT_SERIAL_LIST] + WireString(SerialBytes(serials)))
  }

  function KrlBytes(serials: seq<nat>, key: Bytes, generated: Time): Bytes {
    MAGIC + (BigEndian(FORMAT_VERSION, 4) + (BigEndian(Unix(generated), 8) + (BigEndian(Unix(generated), 8)
      + (BigEndian(0, 8) + (WireString([]) + (WireString(COMMENT)
      + ([SECTION_CERTIFICATES] + WireString(CertSection(serials, key)))))))))
  }

  lemma {:induction false} SerialBytesSnoc(serials: seq<nat>, s: nat)
    ensures SerialBytes(serials + [s]) == SerialBytes(serials) + BigEndian(s, 8)
  {
    hide BigEndian;
    if serials == [] {
      assert serials + [s] == [s] && [s][1..] == [];
      assert SerialBytes([]) == [];
    } else {
      SerialBytesSnoc(serials[1..], s);
      assert (serials + [s])[1..] == serials[1..] + [s];
    }
  }

  /** CA.KRL: refuse serial 0, otherwise write the list. */
  method Encode(serials: seq<nat>, key: Bytes, generated: Time) returns (r: Result<Bytes>)
    ensures r.Err? <==> 0 in serials
    ensures r.Ok? ==> r.value == KrlBytes(serials, key, generated)
  {
    hide BigEndian, SerialBytes, WireString;
    var certs := WireString(key);
    certs := certs + WireString([]);
    if |serials| > 0 {
      var list: Bytes := [];
      assert SerialBytes(serials[..0]) == [] by { NoSerials(); }
      for i := 0 to |serials|
        invariant 0 !in serials[..i]
        invariant list == SerialBytes(serials[..i])
      {
        if serials[i] == 0 {
          return Err("cannot revoke serial 0");
        }
        SerialBytesSnoc(serials[..i], serials[i]);
        assert serials[..i + 1] == serials[..i] + [serials[i]];
        list := list + BigEndian(serials[i], 8);
      }
      assert serials[..|serials|] == serials;
      certs := certs + [CERT_SERIAL_LIST];
      certs := certs + WireString(list);
      assert certs == CertSection(serials, key);
    } else {
      assert certs + [] == certs;
      assert certs == CertSection(serials, key);
    }
    var krl := MAGIC;
    krl := krl + BigEndian(FORMAT_VERSION, 4);
    krl := krl + BigEndian(Unix(generated), 8);
    krl := krl + BigEndian(Unix(generated), 8);
    krl := krl + BigEndian(0, 8);
    krl := krl + WireString([]);
    krl := krl + WireString(COMMENT);
    krl := krl + [SECTION_CERTIFICATES];
    krl := krl + WireString(certs);
    assert krl == KrlBytes(serials, key, generated);
    r := Ok(krl);
  }

  lemma NoSerials()
    ensures SerialBytes([]) == []
  {
  }

  // ----- the decoder: PROTOCOL.krl, sections 1 and 2 -----

  /** A certificate section: the CA it is scoped to and the serials it revokes. */
  datatype Section = Certificates(caKey: Bytes, reserved: Bytes, serials: seq<nat>)

  datatype Document = Document(
    krlVersion: nat,
    generated: nat,
    flags: nat,
    reserved: Bytes,
    comment: Bytes,
    sections: seq<Section>)

  /** A list of non-zero serials, filling the bytes given. */
  function DecodeSerials(b: Bytes): Option<seq<nat>> {
    if b == [] then Some([])
    else if |b| < 8 || FromBigEndian(b[..8]) == 0 then None
    else
      match DecodeSerials(b[8..])
      case None => None
      case Some(more) => Some([FromBigEndian(b[..8])] + more)
  }

  /** The sub-sections of a certificate section; only serial lists are known. */
  function DecodeParts(b: Bytes): Option<seq<nat>>
    decreases |b|
  {
    if b == [] then Some([])
    else if b[0] != CERT_SERIAL_LIST then None
    else
      match ReadString(b[1..])
      case None => None
      case Some((data, rest)) =>
        if DecodeSerials(data).None? || DecodeParts(rest).None? then None
        else Some(DecodeSerials(data).value + DecodeParts(rest).value)
  }

  function DecodeCertificates(b: Bytes): Option<Section> {
    match ReadString(b)
    case None => None
    case Some((key, rest)) =>
      match ReadString(rest)
      case None => None
      case Some((reserved, parts)) =>
        match DecodeParts(parts)
        case None => None
        case Some(serials) => Some(Certificates(key, reserved, serials))
  }

  function DecodeSections(b: Bytes): Option<seq<Section>>
    decreases |b|
  {
    if b == [] then Some([])
    else if b[0] != SECTION_CERTIFICATES then None
    else
      match ReadString(b[1..])
      case None => None
      case Some((data, rest)) =>
        if DecodeCertificates(data).None? || DecodeSections(rest).None? then None
        else Some([DecodeCertificates(data).value] + DecodeSections(rest).value)
  }

  function DecodeStrings(b: Bytes, krlVersion: nat, generated: nat, flags: nat): Option<Document> {
    match ReadString(b)
    case None => None
    case Some((reserved, b1)) =>
      match ReadString(b1)
      case None => None
      case Some((comment, b2)) =>
        match DecodeSections(b2)
        case None => None
        case Some(sections) => Some(Document(krlVersion, generated, flags, reserved, comment, sections))
  }

  function DecodeNumbers(b: Bytes): Option<Document> {
    match ReadUint(b, 8)
    case None => None
    case Some((krlVersion, b1)) =>
      match ReadUint(b1, 8)
      case None => None
      case Some((generated, b2)) =>
        match ReadUint(b2, 8)
        case None => None
        case Some((flags, b3)) => DecodeStrings(b3, krlVersion, generated, flags)
  }

  /** The whole file, which every byte must belong to. */
  function Decode(b: Bytes): Option<Document> {
    if !(MAGIC <= b) then None
    else
      match ReadUint(b[8..], 4)
      case None => None
      case Some((version, rest)) => if version != FORMAT_VERSION then None else DecodeNumbers(rest)
  }

  // ----- the round trip -----

  ghost predicate Serials(serials: seq<nat>) {
    forall i: nat | i < |serials| :: 0 < serials[i] < WORD * WORD
  }

  lemma {:induction false} SerialsRoundTrip(serials: seq<nat>)
    requires Serials(serials)
    ensures DecodeSerials(SerialBytes(serials)) == Some(serials)
    ensures |SerialBytes(serials)| == 8 * |serials|
  {
    hide BigEndian, FromBigEndian, Pow256;
    if serials != [] {
      SerialsRoundTrip(serials[1..]);
      var b := SerialBytes(serials);
      assert b[..8] == BigEndian(serials[0], 8) && b[8..] == SerialBytes(serials[1..]);
      BigEndianRoundTrip(serials[0], 8);
      Sizes();
      assert [serials[0]] + serials[1..] == serials;
    }
  }

  /** What the nested sections of a list occupy. */
  function SectionSize(serials: seq<nat>, key: Bytes): nat {
    |key| + 8 + if serials == [] then 0 else 5 + 8 * |serials|
  }

  lemma CertSectionSize(serials: seq<nat>, key: Bytes)
    requires Serials(serials)
    ensures |CertSection(serials, key)| == SectionSize(serials, key)
  {
    SerialsRoundTrip(serials);
  }

  lemma PartsRoundTrip(serials: seq<nat>)
    requires Serials(serials) && serials != [] && 8 * |serials| < WORD
    ensures DecodeParts([CERT_SERIAL_LIST] + WireString(SerialBytes(serials))) == Some(serials)
  {
    hide WireString, ReadString, DecodeSerials, SerialBytes;
    SerialsRoundTrip(serials);
    var list := WireString(SerialBytes(serials));
    StringRoundTrip(SerialBytes(serials), []);
    assert list + [] == list;
    assert ([CERT_SERIAL_LIST] + list)[1..] == list;
    assert serials + [] == serials;
  }

  lemma CertificatesRoundTrip(serials: seq<nat>, key: Bytes)
    requires Serials(serials) && SectionSize(serials, key) < WORD
    ensures DecodeCertificates(CertSection(serials, key)) == Some(Certificates(key, [], serials))
  {
    hide WireString, ReadString, DecodeParts, SerialBytes;
    var parts := if serials == [] then [] else [CERT_SERIAL_LIST] + WireString(SerialBytes(serials));
    StringRoundTrip(key, WireString([]) + parts);
    StringRoundTrip([], parts);
    assert DecodeParts(parts) == Some(serials) by {
      if serials == [] { NoParts(); } else { PartsRoundTrip(serials); }
    }
  }

  lemma NoParts()
    ensures DecodeParts([]) == Some([])
  {
  }

  /** The outermost string decides: its contents come back if and only if their
      length fits; a wrapped length leaves bytes over, read as more sections. */
  lemma SectionsRoundTrip(serials: seq<nat>, key: Bytes)
    requires Serials(serials)
    ensures DecodeSections([SECTION_CERTIFICATES] + WireString(CertSection(serials, key)))
              == Some([Certificates(key, [], serials)])
       <==> SectionSize(serials, key) < WORD
  {
    hide WireString, ReadString, DecodeCertificates, CertSection;
    var certs := CertSection(serials, key);
    var b := [SECTION_CERTIFICATES] + WireString(certs);
    CertSectionSize(serials, key);
    StringRoundTrip(certs, []);
    assert WireString(certs) + [] == WireString(certs) == b[1..];
    if |certs| < WORD {
      CertificatesRoundTrip(serials, key);
      assert DecodeSections([]) == Some([]);
      assert [Certificates(key, [], serials)] + [] == [Certificates(key, [], serials)];
    } else if DecodeSections(b).Some? {
      var (data, rest) := ReadString(b[1..]).value;
      assert |DecodeSections(rest).value| > 0;
    }
  }

  /** What should be read back. */
  function Expected(serials: seq<nat>, key: Bytes, generated: Time): Document {
    Document(Unix(generated) % (WORD * WORD), Unix(generated) % (WORD * WORD), 0, [], COMMENT,
             [Certificates(key, [], serials)])
  }

  lemma StringsRoundTrip(tail: Bytes, krlVersion: nat, generated: nat, flags: nat)
    ensures DecodeStrings(WireString([]) + (WireString(COMMENT) + tail), krlVersion, generated, flags)
         == match DecodeSections(tail)
            case None => None
            case Some(sections) => Some(Document(krlVersion, generated, flags, [], COMMENT, sections))
  {
    hide WireString, ReadString, DecodeSections;
    StringRoundTrip([], WireString(COMMENT) + tail);
    StringRoundTrip(COMMENT, tail);
  }

  lemma NumbersRoundTrip(unix: int, tail: Bytes)
    ensures DecodeNumbers(BigEndian(unix, 8) + (BigEndian(unix, 8) + (BigEndian(0, 8) + tail)))
         == DecodeStrings(tail, unix % (WORD * WORD), unix % (WORD * WORD), 0)
  {
    hide BigEndian, ReadUint, DecodeStrings, Pow256;
    Sizes();
    ReadUintRoundTrip(unix, 8, BigEndian(unix, 8) + (BigEndian(0, 8) + tail));
    ReadUintRoundTrip(unix, 8, BigEndian(0, 8) + tail);
    ReadUintRoundTrip(0, 8, tail);
  }

  /** A decoder recovers the CA key, version, date, flags, comment and serials, in
      order and consuming every byte, exactly when the section's length fits its
      32-bit prefix. The empty list is included. */
  lemma KrlRoundTrip(serials: seq<nat>, key: Bytes, generated: Time)
    requires Serials(serials)
    ensures Decode(KrlBytes(serials, key, generated)) == Some(Expected(serials, key, generated))
       <==> SectionSize(serials, key) < WORD
  {
    hide BigEndian, WireString, ReadUint, DecodeStrings, DecodeNumbers, DecodeSections, CertSection, Pow256;
    var unix := Unix(generated);
    var sections := [SECTION_CERTIFICATES] + WireString(CertSection(serials, key));
    var strings := WireString([]) + (WireString(COMMENT) + sections);
    var numbers := BigEndian(unix, 8) + (BigEndian(unix, 8) + (BigEndian(0, 8) + strings));
    var b := KrlBytes(serials, key, generated);
    assert b == MAGIC + (BigEndian(FORMAT_VERSION, 4) + numbers);
    assert b[8..] == BigEndian(FORMAT_VERSION, 4) + numbers;
    Sizes();
    ReadUintRoundTrip(FORMAT_VERSION, 4, numbers);
    NumbersRoundTrip(unix, strings);
    StringsRoundTrip(sections, unix % (WORD * WORD), unix % (WORD * WORD), 0);
    SectionsRoundTrip(serials, key);
  }

  /** One list, byte for byte: serial 258 revoked under the key [0xAB], three seconds
      after the epoch. */
  lemma KnownList()
    ensures KrlBytes([258], [0xAB], 3_500_000_000)
         == [0x53, 0x53, 0x48, 0x4B, 0x52, 0x4C, 0x0A, 0x00]
            + ([0, 0, 0, 1]
            + ([0, 0, 0, 0, 0, 0, 0, 3]
            + ([0, 0, 0, 0, 0, 0, 0, 3]
            + ([0, 0, 0, 0, 0, 0, 0, 0]
            + ([0, 0, 0, 0]
            + ([0, 0, 0, 5, 0x67, 0x72, 0x75, 0x66, 0x66]
            + ([1] + ([0, 0, 0, 22]
            + [0, 0, 0, 1, 0xAB, 0, 0, 0, 0, 0x20, 0, 0, 0, 8, 0, 0, 0, 0, 0, 0, 1, 2]))))))))
  {
    Words();
    KnownSection();
    assert Unix(3_500_000_000) == 3;
    assert WireString(COMMENT) == [0, 0, 0, 5, 0x67, 0x72, 0x75, 0x66, 0x66];
    assert WireString([]) == [0, 0, 0, 0];
    hide BigEndian, Unix, CertSection;
  }

  lemma KnownSection()
    ensures CertSection([258], [0xAB]) == [
      0, 0, 0, 1, 0xAB, 0, 0, 0, 0, 0x20, 0, 0, 0, 8, 0, 0, 0, 0, 0, 0, 1, 2]
  {
    Words();
    hide BigEndian;
    assert SerialBytes([258]) == [0, 0, 0, 0, 0, 0, 1, 2] by {
      assert [258][1..] == [];
      assert SerialBytes([]) == [];
    }
  }

  lemma Words()
    ensures BigEndian(0, 4) == [0, 0, 0, 0] && BigEndian(1, 4) == [0, 0, 0, 1] && BigEndian(5, 4) == [0, 0, 0, 5]
    ensures BigEndian(8, 4) == [0, 0, 0, 8] && BigEndian(22, 4) == [0, 0, 0, 22]
    ensures BigEndian(0, 8) == [0, 0, 0, 0, 0, 0, 0, 0] && BigEndian(3, 8) == [0, 0, 0, 0, 0, 0, 0, 3]
    ensures BigEndian(258, 8) == [0, 0, 0, 0, 0, 0, 1, 2]
  {
  }
}
