/**
 DER elements (X.690) and RSA private keys (Appendix A.1.2 of RFC 8017, section 5 of RFC 5208) as
 firmware/src/at_cmd_engine/at_cmds/at_cmd_pkcs.c walks over them.
 */
module Der {
  import opened Bytes

  const SEQUENCE: byte := 0x30
  const INTEGER: byte := 0x02
  const OCTET_STRING: byte := 0x04
  const OBJECT_IDENTIFIER: byte := 0x06
  /** 1.2.840.113549.1.1.1, rsaEncryption. */
  const RSA_ENCRYPTION: seq<byte> := [0x2A, 0x86, 0x48, 0x86, 0xF7, 0x0D, 0x01, 0x01, 0x01]
  const LENGTH_LIMIT := 0x1_0000_0000
  const PARTS := 9

  // ----- One header -----

  /** Tag, length of the contents, where they begin, and the size of the whole element as an `int`. */
  datatype Header = Header(tag: byte, length: nat, contents: nat, total: int)

  const INT_LIMIT := 0x8000_0000

  /** A sum kept in 32 bits and read as an `int`. */
  function AsInt(n: nat): (i: int)
    ensures -INT_LIMIT <= i < INT_LIMIT
    ensures i == n <==> n < INT_LIMIT
  {
    (n + INT_LIMIT) % LENGTH_LIMIT - INT_LIMIT
  }

  function BigEndian(d: seq<byte>, acc: nat): (n: nat) {
    if d == [] then acc else BigEndian(d[1..], (acc * 256 + d[0]) % LENGTH_LIMIT)
  }

  /** The bytes of the header at `at` are there to be read. */
  predicate HeaderFits(d: seq<byte>, at: nat) {
    at + 1 < |d| && (d[at + 1] >= 0x80 ==> at + 2 + (d[at + 1] - 0x80) <= |d|)
  }

  function DecodedTag(d: seq<byte>, at: nat): Header
    requires HeaderFits(d, at)
  {
    if d[at + 1] >= 0x80 then
      var n := d[at + 1] - 0x80;
      var length := BigEndian(d[at + 2..at + 2 + n], 0);
      Header(d[at], length, at + 2 + n, AsInt(2 + n + length))
    else
      Header(d[at], d[at + 1], at + 2, AsInt(2 + d[at + 1]))
  }

  /** The size has not wrapped around. */
  predicate Sized(d: seq<byte>, at: nat)
    requires HeaderFits(d, at)
  {
    DecodedTag(d, at).contents - at + DecodedTag(d, at).length < INT_LIMIT
  }

  method DecodeTag(d: seq<byte>, at: nat) returns (h: Header)
    requires HeaderFits(d, at)
    ensures h == DecodedTag(d, at)
  {
    var tag := d[at];
    var p: nat, numTagBytes: nat, length: nat := at + 1, 1, 0;
    if d[p] >= 0x80 {
      var numLenBytes := d[p] - 0x80;
      p := p + 1;
      numTagBytes := numTagBytes + 1 + numLenBytes;
      ghost var n := numLenBytes;
      assert d[p..p + n] == d[at + 2..at + 2 + n];
      while numLenBytes > 0
        invariant 0 <= numLenBytes && p + numLenBytes == at + 2 + n
        invariant BigEndian(d[p..at + 2 + n], length) == BigEndian(d[at + 2..at + 2 + n], 0)
      {
        assert d[p..at + 2 + n][1..] == d[p + 1..at + 2 + n];
        length := (length * 256 + d[p]) % LENGTH_LIMIT;
        p := p + 1;
        numLenBytes := numLenBytes - 1;
      }
      assert d[p..at + 2 + n] == [];
    } else {
      numTagBytes := numTagBytes + 1;
      length := d[p];
      p := p + 1;
    }
    h := Header(tag, length, p, AsInt(numTagBytes + length));
  }

  // ----- The elements of a sequence -----

  datatype Slice = Slice(start: nat, length: nat)

  const NO_SLICE := Slice(0, 0)

  /** Elements one behind the other fill the space exactly; the source relies on it and always reads one. */
  predicate Tiled(d: seq<byte>, p: nat, space: nat)
    decreases space
  {
    && HeaderFits(d, p) && Sized(d, p)
    && 0 < DecodedTag(d, p).total <= space && p + space <= |d|
    && (DecodedTag(d, p).total == space || Tiled(d, p + DecodedTag(d, p).total, space - DecodedTag(d, p).total))
  }

  /** The contents of an integer without the zero that keeps it from being negative. */
  function Unsigned(d: seq<byte>, h: Header): Slice
    requires h.contents + h.length <= |d|
  {
    if h.length > 1 && d[h.contents] == 0 && d[h.contents + 1] >= 0x80 then Slice(h.contents + 1, h.length - 1)
    else Slice(h.contents, h.length)
  }

  lemma TotalIsHeaderAndContents(d: seq<byte>, p: nat)
    requires HeaderFits(d, p)
    ensures DecodedTag(d, p).total == AsInt(DecodedTag(d, p).contents - p + DecodedTag(d, p).length)
    ensures Sized(d, p) <==> DecodedTag(d, p).total == DecodedTag(d, p).contents - p + DecodedTag(d, p).length
    ensures DecodedTag(d, p).contents >= p + 2
  {
  }

  /** The slice of the element at p if it is an integer. */
  function OwnInteger(d: seq<byte>, p: nat): seq<Slice>
    requires HeaderFits(d, p) && Sized(d, p) && p + DecodedTag(d, p).total <= |d|
  {
    TotalIsHeaderAndContents(d, p);
    if DecodedTag(d, p).tag == INTEGER then [Unsigned(d, DecodedTag(d, p))] else []
  }

  /** The integers among the elements. */
  function Integers(d: seq<byte>, p: nat, space: nat): seq<Slice>
    requires Tiled(d, p, space)
    decreases space
  {
    var total := DecodedTag(d, p).total;
    OwnInteger(d, p) + if total == space then [] else Integers(d, p + total, space - total)
  }

  /** The nine parts of a key: the first nine integers, and nothing where there are fewer. */
  function PartsOf(slices: seq<Slice>): (parts: seq<Slice>)
    ensures |parts| == PARTS
  {
    seq(PARTS, i requires 0 <= i < PARTS => if i < |slices| then slices[i] else NO_SLICE)
  }

  // ----- Keys -----

  /** What `PKCS1_ParseRSAPrivateKeyDER` may be given: if it is a sequence of the size announced, one that is well formed. */
  predicate Readable(d: seq<byte>, at: nat, keyLength: nat) {
    && HeaderFits(d, at) && keyLength < INT_LIMIT
    && var h := DecodedTag(d, at);
       h.tag == SEQUENCE && h.total <= keyLength ==> Sized(d, at) && Tiled(d, h.contents, h.length)
  }

  /** The integers of the sequence, or none if it is not one of the size announced. */
  function RsaIntegers(d: seq<byte>, at: nat, keyLength: nat): Option<seq<Slice>>
    requires Readable(d, at, keyLength)
  {
    var h := DecodedTag(d, at);
    if h.tag != SEQUENCE || keyLength < h.total then None
    else Some(Integers(d, h.contents, h.length))
  }

  method ParseRsaPrivateKey(d: seq<byte>, at: nat, keyLength: nat, parts: array<Slice>) returns (ok: bool)
    requires Readable(d, at, keyLength) && parts.Length == PARTS
    modifies parts
    ensures ok <==> RsaIntegers(d, at, keyLength).Some?
    ensures parts[..] == PartsOf(if ok then RsaIntegers(d, at, keyLength).value else [])
  {
    hide DecodedTag, HeaderFits, Tiled, Integers, Unsigned;
    Clear(parts);
    var h := DecodeTag(d, at);
    if h.tag != SEQUENCE {
      return false;
    }
    if keyLength < h.total {
      return false;
    }
    var p: nat, left: nat, next: nat := h.contents, h.length, 0;
    ghost var all, done := Integers(d, p, left), [];
    ok := true;
    assert [] + Integers(d, p, left) == all;
    while true
      invariant Tiled(d, p, left)
      invariant done + Integers(d, p, left) == all
      invariant next == (if |done| < PARTS then |done| else PARTS) && parts[..] == PartsOf(done)
      decreases left
    {
      FirstElement(d, p, left);
      h := DecodeTag(d, p);
      if h.tag == INTEGER {
        var start: nat, length: nat := h.contents, h.length;
        if length > 1 && d[start] == 0x00 && d[start + 1] >= 0x80 {
          start, length := start + 1, length - 1;
        }
        assert Slice(start, length) == Unsigned(d, h) by { UnsignedIs(d, h); }
        PartsMore(done, Slice(start, length));
        if next < PARTS {
          parts[next] := Slice(start, length);
          next := next + 1;
        }
        done := done + [Slice(start, length)];
      }
      if h.total == left {
        assert done == all;
        return;
      }
      p, left := p + h.total, left - h.total;
    }
  }

  method Clear(parts: array<Slice>)
    requires parts.Length == PARTS
    modifies parts
    ensures parts[..] == PartsOf([])
  {
    for i := 0 to PARTS
      invariant forall k | 0 <= k < i :: parts[k] == NO_SLICE
    {
      parts[i] := NO_SLICE;
    }
  }

  lemma PartsMore(done: seq<Slice>, s: Slice)
    ensures PartsOf(done + [s]) == if |done| < PARTS then PartsOf(done)[|done| := s] else PartsOf(done)
  {
  }

  lemma UnsignedIs(d: seq<byte>, h: Header)
    requires h.contents + h.length <= |d|
    ensures Unsigned(d, h)
         == if h.length > 1 && d[h.contents] == 0 && d[h.contents + 1] >= 0x80 then Slice(h.contents + 1, h.length - 1)
            else Slice(h.contents, h.length)
  {
  }

  lemma FirstElement(d: seq<byte>, p: nat, space: nat)
    requires Tiled(d, p, space)
    ensures HeaderFits(d, p) && 0 < DecodedTag(d, p).total <= space && p + space <= |d|
    ensures DecodedTag(d, p).contents + DecodedTag(d, p).length <= |d|
    ensures DecodedTag(d, p).total == space ==> Integers(d, p, space) == OwnInteger(d, p)
    ensures DecodedTag(d, p).total < space ==>
              && Tiled(d, p + DecodedTag(d, p).total, space - DecodedTag(d, p).total)
              && Integers(d, p, space)
                 == OwnInteger(d, p) + Integers(d, p + DecodedTag(d, p).total, space - DecodedTag(d, p).total)
  {
    hide Unsigned;
    TotalIsHeaderAndContents(d, p);
  }

  // ----- The PKCS #8 envelope -----

  predicate IsRsaEncryption(d: seq<byte>, h: Header) {
    h.length == |RSA_ENCRYPTION| && At(d, h.contents, RSA_ENCRYPTION)
  }

  /** The headers on the way to the private key are there to be read, as far as the source goes. */
  predicate Walkable(d: seq<byte>, at: nat) {
    && HeaderFits(d, at)
    && (DecodedTag(d, at).tag == SEQUENCE ==> WalkableVersion(d, DecodedTag(d, at).contents))
  }

  predicate WalkableVersion(d: seq<byte>, p: nat) {
    && HeaderFits(d, p)
    && (DecodedTag(d, p).tag == INTEGER ==> Sized(d, p) && WalkableAlgorithm(d, p + DecodedTag(d, p).total))
  }

  predicate WalkableAlgorithm(d: seq<byte>, p: nat) {
    && HeaderFits(d, p)
    && (DecodedTag(d, p).tag == SEQUENCE ==>
          && HeaderFits(d, DecodedTag(d, p).contents)
          && (IsRsaEncryption(d, DecodedTag(d, DecodedTag(d, p).contents)) ==> Sized(d, p) && HeaderFits(d, p + DecodedTag(d, p).total)))
  }

  /** The octet string that holds the RSA key, if this is an envelope around one. */
  function Envelope(d: seq<byte>, at: nat): Option<Header>
    requires Walkable(d, at)
  {
    var whole := DecodedTag(d, at);
    if whole.tag != SEQUENCE then None
    else
      var version := DecodedTag(d, whole.contents);
      if version.tag != INTEGER then None
      else
        var p := whole.contents + version.total;
        var algorithm := DecodedTag(d, p);
        if algorithm.tag != SEQUENCE || !IsRsaEncryption(d, DecodedTag(d, algorithm.contents)) then None
        else
          var key := DecodedTag(d, p + algorithm.total);
          if key.tag != OCTET_STRING then None else Some(key)
  }

  method ParsePrivateKey(d: seq<byte>, at: nat, keyLength: nat, parts: array<Slice>) returns (ok: bool)
    requires Walkable(d, at) && parts.Length == PARTS
    requires Envelope(d, at).Some? ==> Readable(d, Envelope(d, at).value.contents, Envelope(d, at).value.length)
    modifies parts
    ensures ok <==> Envelope(d, at).Some? && RsaIntegers(d, Envelope(d, at).value.contents, Envelope(d, at).value.length).Some?
    ensures parts[..] == PartsOf(if ok then RsaIntegers(d, Envelope(d, at).value.contents, Envelope(d, at).value.length).value else [])
  {
    hide DecodedTag, HeaderFits, Readable, RsaIntegers, Sized;
    Clear(parts);
    var h := DecodeTag(d, at);
    if h.tag != SEQUENCE {
      return false;
    }
    var p := h.contents;
    h := DecodeTag(d, p);
    if h.tag != INTEGER {
      return false;
    }
    TotalIsHeaderAndContents(d, p);
    p := p + h.total;
    h := DecodeTag(d, p);
    if h.tag != SEQUENCE {
      return false;
    }
    var oid := DecodeTag(d, h.contents);
    if oid.length == |RSA_ENCRYPTION| && At(d, oid.contents, RSA_ENCRYPTION) {
      TotalIsHeaderAndContents(d, p);
      p := p + h.total;
      h := DecodeTag(d, p);
      if h.tag != OCTET_STRING {
        return false;
      }
      ok := ParseRsaPrivateKey(d, h.contents, h.length, parts);
      return;
    }
    return false;
  }
}
