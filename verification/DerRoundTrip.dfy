/**
 Keys in the distinguished encoding, with lengths in the short or a long form, and what the parsers
 of firmware/src/at_cmd_engine/at_cmds/at_cmd_pkcs.c find in them.
 */
module DerRoundTrip {
  import opened Bytes
  import opened Der

  // ----- Encoding -----

  /** How a length is written: in one byte, or in a given number of further bytes. */
  datatype Form = Short | Long(bytes: nat)

  function Pow256(n: nat): (p: nat)
    ensures p >= 1
  {
    if n == 0 then 1 else 256 * Pow256(n - 1)
  }

  /** The whole element, header and contents, has a size an `int` holds. */
  predicate Fits(n: nat, form: Form) {
    match form
    case Short => n < 0x80
    case Long(k) => 1 <= k < 0x7F && n < Pow256(k) && 2 + k + n < INT_LIMIT
  }

  function Bytes256(n: nat, k: nat): (t: seq<byte>)
    requires n < Pow256(k)
    ensures |t| == k
    decreases k
  {
    if k == 0 then [] else Bytes256(n / 256, k - 1) + [n % 256]
  }

  function LengthBytes(n: nat, form: Form): (t: seq<byte>)
    requires Fits(n, form)
    ensures |t| > 0
  {
    if form.Short? then [n] else [0x80 + form.bytes] + Bytes256(n, form.bytes)
  }

  function Element(tag: byte, contents: seq<byte>, form: Form): (t: seq<byte>)
    requires Fits(|contents|, form)
    ensures |t| > |contents|
  {
    [tag] + LengthBytes(|contents|, form) + contents
  }

  /** A non-negative integer: its bytes, most significant first, without leading zeros. */
  predicate Magnitude(m: seq<byte>) {
    m != [] && (m[0] == 0 ==> |m| == 1)
  }

  /** A zero in front keeps the number from being negative. */
  function IntegerContents(m: seq<byte>): seq<byte>
    requires Magnitude(m)
  {
    if m[0] >= 0x80 then [0] + m else m
  }

  // ----- Headers read back -----

  lemma {:induction false} BigEndianSnoc(t: seq<byte>, b: byte, acc: nat)
    requires acc < LENGTH_LIMIT
    ensures BigEndian(t + [b], acc) == (BigEndian(t, acc) * 256 + b) % LENGTH_LIMIT
    decreases |t|
  {
    if t == [] {
      assert [b][1..] == [];
    } else {
      assert (t + [b])[1..] == t[1..] + [b];
      BigEndianSnoc(t[1..], b, (acc * 256 + t[0]) % LENGTH_LIMIT);
    }
  }

  lemma {:induction false} LengthReadsBack(n: nat, k: nat)
    requires n < Pow256(k) && n < LENGTH_LIMIT
    ensures BigEndian(Bytes256(n, k), 0) == n
    decreases k
  {
    if k > 0 {
      LengthReadsBack(n / 256, k - 1);
      BigEndianSnoc(Bytes256(n / 256, k - 1), n % 256, 0);
    }
  }

  lemma ShortHeader(d: seq<byte>, at: nat, tag: byte, n: nat)
    requires n < 0x80 && At(d, at, [tag, n])
    ensures HeaderFits(d, at) && DecodedTag(d, at) == Header(tag, n, at + 2, 2 + n)
  {
    AtIndex(d, at, [tag, n], 0);
    AtIndex(d, at, [tag, n], 1);
  }

  lemma LongHeader(d: seq<byte>, at: nat, tag: byte, n: nat, k: nat)
    requires Fits(n, Long(k)) && At(d, at, [tag, 0x80 + k] + Bytes256(n, k))
    ensures HeaderFits(d, at) && DecodedTag(d, at) == Header(tag, n, at + 2 + k, 2 + k + n)
  {
    hide Bytes256, BigEndian;
    AtConcat(d, at, [tag, 0x80 + k], Bytes256(n, k));
    AtIndex(d, at, [tag, 0x80 + k], 0);
    AtIndex(d, at, [tag, 0x80 + k], 1);
    LengthReadsBack(n, k);
  }

  lemma HeaderReadsBack(d: seq<byte>, at: nat, tag: byte, n: nat, form: Form)
    requires Fits(n, form) && At(d, at, [tag] + LengthBytes(n, form))
    ensures HeaderFits(d, at)
    ensures DecodedTag(d, at) == Header(tag, n, at + 1 + |LengthBytes(n, form)|, 1 + |LengthBytes(n, form)| + n)
  {
    hide Bytes256, DecodedTag, HeaderFits, At;
    match form
    case Short =>
      assert [tag] + [n] == [tag, n];
      ShortHeader(d, at, tag, n);
    case Long(k) =>
      assert [tag] + ([0x80 + k] + Bytes256(n, k)) == [tag, 0x80 + k] + Bytes256(n, k);
      LongHeader(d, at, tag, n, k);
  }

  /** Where an element stands, its header says where its contents are and how long. */
  lemma ElementReadsBack(d: seq<byte>, at: nat, tag: byte, contents: seq<byte>, form: Form)
    requires Fits(|contents|, form) && At(d, at, Element(tag, contents, form))
    ensures HeaderFits(d, at)
    ensures DecodedTag(d, at) == Header(tag, |contents|, at + |Element(tag, contents, form)| - |contents|, |Element(tag, contents, form)|)
    ensures At(d, at + |Element(tag, contents, form)| - |contents|, contents) && Sized(d, at)
  {
    hide LengthBytes, DecodedTag, HeaderFits, At;
    AtConcat(d, at, [tag] + LengthBytes(|contents|, form), contents);
    HeaderReadsBack(d, at, tag, |contents|, form);
    TotalIsHeaderAndContents(d, at);
  }

  // ----- Integers -----

  datatype Integer = Integer(magnitude: seq<byte>, form: Form)

  predicate Encodable(i: Integer) {
    Magnitude(i.magnitude) && Fits(|IntegerContents(i.magnitude)|, i.form)
  }

  function IntegerText(i: Integer): seq<byte>
    requires Encodable(i)
  {
    Element(INTEGER, IntegerContents(i.magnitude), i.form)
  }

  /** The slice is exactly this number's bytes. */
  ghost predicate Holds(d: seq<byte>, s: Slice, m: seq<byte>) {
    s.length == |m| && At(d, s.start, m)
  }

  /** The sign's zero is dropped, and nothing else. */
  lemma IntegerReadsBack(d: seq<byte>, at: nat, i: Integer)
    requires Encodable(i) && At(d, at, IntegerText(i))
    ensures HeaderFits(d, at) && DecodedTag(d, at).tag == INTEGER && DecodedTag(d, at).total == |IntegerText(i)|
    ensures DecodedTag(d, at).contents + DecodedTag(d, at).length <= |d| && Sized(d, at) && DecodedTag(d, at).total > 0
    ensures Holds(d, Unsigned(d, DecodedTag(d, at)), i.magnitude)
  {
    hide DecodedTag, HeaderFits, Element;
    var m, contents := i.magnitude, IntegerContents(i.magnitude);
    ElementReadsBack(d, at, INTEGER, contents, i.form);
    var p := DecodedTag(d, at).contents;
    AtIndex(d, p, contents, 0);
    if |contents| > 1 {
      AtIndex(d, p, contents, 1);
    }
    if m[0] >= 0x80 {
      AtConcat(d, p, [0], m);
    }
  }

  ghost predicate AllEncodable(ints: seq<Integer>) {
    forall i | 0 <= i < |ints| :: Encodable(ints[i])
  }

  ghost function IntegersText(ints: seq<Integer>): seq<byte>
    requires AllEncodable(ints)
  {
    if ints == [] then [] else IntegerText(ints[0]) + IntegersText(ints[1..])
  }

  /** One slice for every number, in order. */
  ghost predicate HoldAll(d: seq<byte>, slices: seq<Slice>, ints: seq<Integer>) {
    |slices| == |ints| && forall i | 0 <= i < |ints| :: Holds(d, slices[i], ints[i].magnitude)
  }

  lemma {:induction false} IntegersReadBack(d: seq<byte>, at: nat, ints: seq<Integer>)
    requires ints != [] && AllEncodable(ints) && At(d, at, IntegersText(ints))
    ensures Tiled(d, at, |IntegersText(ints)|)
    ensures HoldAll(d, Integers(d, at, |IntegersText(ints)|), ints)
    decreases |ints|
  {
    hide DecodedTag, HeaderFits, IntegerText, Unsigned, Encodable, Holds;
    var first, rest := IntegerText(ints[0]), IntegersText(ints[1..]);
    AtConcat(d, at, first, rest);
    IntegerReadsBack(d, at, ints[0]);
    TotalIsHeaderAndContents(d, at);
    assert d[at..at + |first + rest|] == first + rest;
    var s := Unsigned(d, DecodedTag(d, at));
    if |ints| == 1 {
      assert rest == [] && IntegersText(ints) == first;
      assert Integers(d, at, |first|) == [s] + [];
    } else {
      IntegersReadBack(d, at + |first|, ints[1..]);
      FirstElement(d, at + |first|, |rest|);
      HoldMore(d, s, Integers(d, at + |first|, |rest|), ints);
    }
  }

  lemma HoldMore(d: seq<byte>, s: Slice, slices: seq<Slice>, ints: seq<Integer>)
    requires ints != [] && Holds(d, s, ints[0].magnitude) && HoldAll(d, slices, ints[1..])
    ensures HoldAll(d, [s] + slices, ints)
  {
    hide Holds;
    forall i | 0 < i < |ints|
      ensures Holds(d, ([s] + slices)[i], ints[i].magnitude)
    {
      assert Holds(d, slices[i - 1], ints[1..][i - 1].magnitude);
    }
  }

  // ----- Keys -----

  /** RSAPrivateKey: the sequence of the numbers. */
  ghost function KeyText(ints: seq<Integer>, form: Form): seq<byte>
    requires AllEncodable(ints) && Fits(|IntegersText(ints)|, form)
  {
    Element(SEQUENCE, IntegersText(ints), form)
  }

  /** A key parses to its numbers: the sequence is consumed exactly, and slice i is the magnitude of number i. */
  lemma KeyReadsBack(d: seq<byte>, at: nat, ints: seq<Integer>, form: Form)
    requires ints != [] && AllEncodable(ints) && Fits(|IntegersText(ints)|, form) && At(d, at, KeyText(ints, form))
    ensures Readable(d, at, |KeyText(ints, form)|)
    ensures RsaIntegers(d, at, |KeyText(ints, form)|).Some?
    ensures HoldAll(d, RsaIntegers(d, at, |KeyText(ints, form)|).value, ints)
    ensures DecodedTag(d, at).total == |KeyText(ints, form)|
  {
    hide DecodedTag, HeaderFits, At, Holds, Tiled, Integers;
    ElementReadsBack(d, at, SEQUENCE, IntegersText(ints), form);
    IntegersReadBack(d, DecodedTag(d, at).contents, ints);
  }

  /** Nine numbers fill the nine parts of the key. */
  lemma NineNumbersFillTheKey(d: seq<byte>, at: nat, ints: seq<Integer>, form: Form)
    requires |ints| == PARTS && AllEncodable(ints) && Fits(|IntegersText(ints)|, form) && At(d, at, KeyText(ints, form))
    ensures Readable(d, at, |KeyText(ints, form)|)
    ensures RsaIntegers(d, at, |KeyText(ints, form)|).Some?
    ensures HoldAll(d, PartsOf(RsaIntegers(d, at, |KeyText(ints, form)|).value), ints)
  {
    hide RsaIntegers, Readable, Holds;
    KeyReadsBack(d, at, ints, form);
    var slices := RsaIntegers(d, at, |KeyText(ints, form)|).value;
    assert PartsOf(slices) == slices;
  }

  // ----- The envelope -----

  /** PrivateKeyInfo: a version, the algorithm rsaEncryption with its parameters, the key, and attributes. */
  datatype Envelope8 = Envelope8(version: Integer, oidForm: Form, parameters: seq<byte>, algorithmForm: Form,
                                 keyForm: Form, attributes: seq<byte>, form: Form)

  ghost predicate Wraps(e: Envelope8, key: seq<byte>) {
    && Encodable(e.version)
    && Fits(|RSA_ENCRYPTION|, e.oidForm) && Fits(|AlgorithmContents(e)|, e.algorithmForm)
    && Fits(|key|, e.keyForm) && Fits(|InfoContents(e, key)|, e.form)
  }

  function AlgorithmContents(e: Envelope8): seq<byte>
    requires Fits(|RSA_ENCRYPTION|, e.oidForm)
  {
    Element(OBJECT_IDENTIFIER, RSA_ENCRYPTION, e.oidForm) + e.parameters
  }

  function InfoContents(e: Envelope8, key: seq<byte>): seq<byte>
    requires Encodable(e.version)
    requires Fits(|RSA_ENCRYPTION|, e.oidForm) && Fits(|AlgorithmContents(e)|, e.algorithmForm) && Fits(|key|, e.keyForm)
  {
    IntegerText(e.version)
    + (Element(SEQUENCE, AlgorithmContents(e), e.algorithmForm)
       + (Element(OCTET_STRING, key, e.keyForm) + e.attributes))
  }

  ghost function InfoText(e: Envelope8, key: seq<byte>): seq<byte>
    requires Wraps(e, key)
  {
    Element(SEQUENCE, InfoContents(e, key), e.form)
  }

  lemma AlgorithmReadsBack(d: seq<byte>, at: nat, e: Envelope8)
    requires Fits(|RSA_ENCRYPTION|, e.oidForm) && Fits(|AlgorithmContents(e)|, e.algorithmForm)
    requires At(d, at, Element(SEQUENCE, AlgorithmContents(e), e.algorithmForm))
    ensures HeaderFits(d, at) && DecodedTag(d, at).tag == SEQUENCE
    ensures DecodedTag(d, at).total == |Element(SEQUENCE, AlgorithmContents(e), e.algorithmForm)| && Sized(d, at)
    ensures HeaderFits(d, DecodedTag(d, at).contents)
    ensures IsRsaEncryption(d, DecodedTag(d, DecodedTag(d, at).contents))
  {
    hide DecodedTag, HeaderFits, At, Element;
    ElementReadsBack(d, at, SEQUENCE, AlgorithmContents(e), e.algorithmForm);
    var p, oid := DecodedTag(d, at).contents, Element(OBJECT_IDENTIFIER, RSA_ENCRYPTION, e.oidForm);
    AtConcat(d, p, oid, e.parameters);
    ElementReadsBack(d, p, OBJECT_IDENTIFIER, RSA_ENCRYPTION, e.oidForm);
  }

  /** The envelope gives back the octet string it holds. */
  lemma EnvelopeReadsBack(d: seq<byte>, at: nat, e: Envelope8, key: seq<byte>)
    requires Wraps(e, key) && At(d, at, InfoText(e, key))
    ensures Walkable(d, at) && Envelope(d, at).Some?
    ensures Envelope(d, at).value.length == |key| && At(d, Envelope(d, at).value.contents, key)
  {
    hide DecodedTag, HeaderFits, At, Element, IsRsaEncryption, IntegerText, AlgorithmContents, Encodable;
    ElementReadsBack(d, at, SEQUENCE, InfoContents(e, key), e.form);
    var p := DecodedTag(d, at).contents;
    var version, algorithm := IntegerText(e.version), Element(SEQUENCE, AlgorithmContents(e), e.algorithmForm);
    var octets := Element(OCTET_STRING, key, e.keyForm);
    AtConcat(d, p, version, algorithm + (octets + e.attributes));
    AtConcat(d, p + |version|, algorithm, octets + e.attributes);
    AtConcat(d, p + |version| + |algorithm|, octets, e.attributes);
    IntegerReadsBack(d, p, e.version);
    AlgorithmReadsBack(d, p + |version|, e);
    ElementReadsBack(d, p + |version| + |algorithm|, OCTET_STRING, key, e.keyForm);
  }

  /** Nine numbers in an envelope: the same result as without it. */
  lemma WrappedKeyReadsBack(d: seq<byte>, at: nat, e: Envelope8, ints: seq<Integer>, form: Form)
    requires |ints| == PARTS && AllEncodable(ints) && Fits(|IntegersText(ints)|, form)
    requires Wraps(e, KeyText(ints, form)) && At(d, at, InfoText(e, KeyText(ints, form)))
    ensures Walkable(d, at) && Envelope(d, at).Some?
    ensures var key := Envelope(d, at).value;
            && Readable(d, key.contents, key.length)
            && RsaIntegers(d, key.contents, key.length).Some?
            && HoldAll(d, PartsOf(RsaIntegers(d, key.contents, key.length).value), ints)
  {
    hide Walkable, Envelope, Readable, RsaIntegers, HoldAll, Wraps, InfoText, KeyText;
    EnvelopeReadsBack(d, at, e, KeyText(ints, form));
    NineNumbersFillTheKey(d, Envelope(d, at).value.contents, ints, form);
  }
}
