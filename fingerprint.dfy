/**
 * The document fingerprint of `generatePDFId`: a rolling hash over at most the
 * first 20 bytes of the uploaded file, kept in a signed 32-bit accumulator,
 * rendered as "pdf_" followed by the accumulator's decimal value.
 */
module Fingerprint {
  import Decimal
  import opened Wrappers

  type byte = x: int | 0 <= x < 256

  const TWO_31: int := 0x8000_0000
  const TWO_32: int := 0x1_0000_0000

  /** Number of leading bytes read (`file.slice(0, 20)` and `Math.min(20, ...)`). */
  const PREFIX_LEN: nat := 20

  /** The only prefix of the file the hash sees. */
  function Prefix(bytes: seq<byte>): (p: seq<byte>)
    ensures |p| == if |bytes| < PREFIX_LEN then |bytes| else PREFIX_LEN
    ensures p <= bytes
  {
    if |bytes| < PREFIX_LEN then bytes else bytes[..PREFIX_LEN]
  }

  /**
   * ECMAScript ToInt32: the unique value in [-2^31, 2^31) congruent to x
   * modulo 2^32.
   */
  function ToInt32(x: int): (r: int)
    ensures -TWO_31 <= r < TWO_31
    ensures (x - r) % TWO_32 == 0
  {
    var r := (x + TWO_31) % TWO_32 - TWO_31;
    assert x - r == (x + TWO_31) / TWO_32 * TWO_32;
    r
  }

  /** Two values congruent modulo 2^32 have the same ToInt32. */
  lemma ToInt32Congruent(x: int, y: int)
    requires (x - y) % TWO_32 == 0
    ensures ToInt32(x) == ToInt32(y)
  {
    var k := (x - y) / TWO_32;
    assert x == y + k * TWO_32;
    assert (x + TWO_31) % TWO_32 == (y + TWO_31 + k * TWO_32) % TWO_32;
    ModAddMultiple(y + TWO_31, k);
  }

  lemma ModAddMultiple(a: int, k: int)
    ensures (a + k * TWO_32) % TWO_32 == a % TWO_32
  {
    var q := a / TWO_32;
    var m := a % TWO_32;
    assert a + k * TWO_32 == (q + k) * TWO_32 + m;
  }

  /** JavaScript's `x << 5`: the operand converted by ToInt32, shifted, and truncated to 32 bits. */
  function ShiftLeft5(x: int): (r: int)
    ensures -TWO_31 <= r < TWO_31
    ensures (32 * x - r) % TWO_32 == 0
  {
    var t := ToInt32(x);
    var r := ToInt32(t * 32);
    ScaleBy32(x, t);
    SumCongruent(32 * x, t * 32, r);
    r
  }

  lemma ScaleBy32(x: int, t: int)
    requires (x - t) % TWO_32 == 0
    ensures (32 * x - t * 32) % TWO_32 == 0
  {
    var k := (x - t) / TWO_32;
    assert x - t == k * TWO_32;
    assert 32 * x - t * 32 == 0 + (32 * k) * TWO_32;
    ModAddMultiple(0, 32 * k);
  }

  /** Congruence modulo 2^32 is transitive. */
  lemma SumCongruent(a: int, b: int, c: int)
    requires (a - b) % TWO_32 == 0 && (b - c) % TWO_32 == 0
    ensures (a - c) % TWO_32 == 0
  {
    var k1 := (a - b) / TWO_32;
    var k2 := (b - c) / TWO_32;
    assert a - b == k1 * TWO_32;
    assert b - c == k2 * TWO_32;
    assert a - c == 0 + (k1 + k2) * TWO_32;
    ModAddMultiple(0, k1 + k2);
  }

  /** One loop iteration: `hash = ((hash << 5) - hash) + b; hash |= 0`. */
  function Step(hash: int, b: byte): (r: int)
    ensures -TWO_31 <= r < TWO_31
    ensures (31 * hash + b - r) % TWO_32 == 0
  {
    var s := ShiftLeft5(hash);
    var r := ToInt32((s - hash) + b);
    assert (31 * hash + b) - ((s - hash) + b) == 32 * hash - s;
    SumCongruent(31 * hash + b, (s - hash) + b, r);
    r
  }

  /** Each step multiplies by 31, adds the byte and wraps to signed 32 bits. */
  lemma StepIsMul31(hash: int, b: byte)
    ensures Step(hash, b) == ToInt32(31 * hash + b)
  {
    var r := Step(hash, b);
    ToInt32InRange(r);
    ToInt32Congruent(31 * hash + b, r);
  }

  /** The accumulator after hashing every byte of s, starting from 0. */
  function HashOf(s: seq<byte>): (h: int)
    ensures -TWO_31 <= h < TWO_31
  {
    if s == [] then 0 else Step(HashOf(s[..|s| - 1]), s[|s| - 1])
  }

  /** The unwrapped polynomial hash: sum of s[i] * 31^(|s|-1-i). */
  function Poly31(s: seq<byte>): int {
    if s == [] then 0 else 31 * Poly31(s[..|s| - 1]) + s[|s| - 1]
  }

  /** The rolling hash is the base-31 polynomial of the bytes reduced to signed 32 bits. */
  lemma {:induction false} HashIsPolynomial(s: seq<byte>)
    ensures HashOf(s) == ToInt32(Poly31(s))
  {
    if s != [] {
      var init := s[..|s| - 1];
      var b := s[|s| - 1];
      HashIsPolynomial(init);
      StepIsMul31(HashOf(init), b);
      var h := HashOf(init);
      var p := Poly31(init);
      ScaleCongruent(p, h, b);
      ToInt32Congruent(31 * p + b, 31 * h + b);
    }
  }

  lemma ScaleCongruent(p: int, h: int, b: int)
    requires (p - h) % TWO_32 == 0
    ensures ((31 * p + b) - (31 * h + b)) % TWO_32 == 0
  {
    var k := (p - h) / TWO_32;
    assert p - h == k * TWO_32;
    assert (31 * p + b) - (31 * h + b) == 31 * (p - h);
    assert 31 * (p - h) == 0 + (31 * k) * TWO_32;
    ModAddMultiple(0, 31 * k);
  }

  /** The accumulator `generatePDFId` ends with. */
  function Accumulator(bytes: seq<byte>): int {
    HashOf(Prefix(bytes))
  }

  /** The identifier `generatePDFId` resolves with. */
  function PdfId(bytes: seq<byte>): (id: string)
    ensures |id| >= 5 && id[..4] == "pdf_"
    ensures id[4] == '-' <==> Accumulator(bytes) < 0
  {
    "pdf_" + Decimal.ToDecimal(Accumulator(bytes))
  }

  /** The loop of `generatePDFId`, over the bytes the file reader delivers. */
  method GeneratePdfId(bytes: seq<byte>) returns (id: string)
    ensures id == PdfId(bytes)
  {
    var hash := 0;
    var i := 0;
    while i < (if PREFIX_LEN < |bytes| then PREFIX_LEN else |bytes|)
      invariant 0 <= i <= |Prefix(bytes)|
      invariant hash == HashOf(bytes[..i])
    {
      assert bytes[..i + 1][..i] == bytes[..i];
      hash := (ShiftLeft5(hash) - hash) + bytes[i];
      hash := ToInt32(hash);
      i := i + 1;
    }
    assert bytes[..i] == Prefix(bytes);
    id := "pdf_" + Decimal.ToDecimal(hash);
  }

  /** Every identifier starts with "pdf_" and carries the accumulator in decimal. */
  lemma PdfIdShape(bytes: seq<byte>)
    ensures |PdfId(bytes)| >= 5 && PdfId(bytes)[..4] == "pdf_"
    ensures Decimal.Parse(PdfId(bytes)[4..]) == Some(Accumulator(bytes))
    ensures -TWO_31 <= Accumulator(bytes) < TWO_31
  {
    assert PdfId(bytes)[4..] == Decimal.ToDecimal(Accumulator(bytes));
    Decimal.DecimalRoundTrip(Accumulator(bytes));
  }

  /** Two files get the same identifier exactly when their accumulators agree. */
  lemma PdfIdInjective(a: seq<byte>, b: seq<byte>)
    ensures PdfId(a) == PdfId(b) <==> Accumulator(a) == Accumulator(b)
  {
    if PdfId(a) == PdfId(b) {
      assert PdfId(a)[4..] == Decimal.ToDecimal(Accumulator(a));
      assert PdfId(b)[4..] == Decimal.ToDecimal(Accumulator(b));
      Decimal.DecimalInjective(Accumulator(a), Accumulator(b));
    }
  }

  /** Bytes after the twentieth never influence the identifier. */
  lemma PdfIdIgnoresTail(a: seq<byte>, b: seq<byte>)
    requires |a| >= PREFIX_LEN && |b| >= PREFIX_LEN
    requires a[..PREFIX_LEN] == b[..PREFIX_LEN]
    ensures PdfId(a) == PdfId(b)
  {
  }

  /** A file and its first twenty bytes get the same identifier. */
  lemma PdfIdOfPrefix(bytes: seq<byte>)
    ensures PdfId(bytes) == PdfId(Prefix(bytes))
  {
    assert Prefix(Prefix(bytes)) == Prefix(bytes);
  }

  /** A zero-length file gets the constant identifier "pdf_0". */
  lemma EmptyFileId()
    ensures PdfId([]) == "pdf_0"
  {
    assert Decimal.ToDecimal(0) == ['0'];
  }

  /** ToInt32 leaves a value already in the signed 32-bit range unchanged. */
  lemma ToInt32InRange(x: int)
    requires -TWO_31 <= x < TWO_31
    ensures ToInt32(x) == x
  {
    assert 0 <= x + TWO_31 < TWO_32;
  }

  lemma HashOneZero()
    ensures HashOf([1, 0]) == 31
  {
    var s: seq<byte> := [1, 0];
    assert s[..1] == [1] && [1][..0] == [];
    HashIsPolynomial(s);
    assert Poly31(s) == 31;
    ToInt32InRange(31);
  }

  lemma HashZeroThirtyOne()
    ensures HashOf([0, 31]) == 31
  {
    var s: seq<byte> := [0, 31];
    assert s[..1] == [0] && [0][..0] == [];
    HashIsPolynomial(s);
    assert Poly31(s) == 31;
    ToInt32InRange(31);
  }

  /** The hash is collision-prone: [1, 0] and [0, 31] both hash to 31. */
  lemma ShortCollision()
    ensures PdfId([1, 0]) == PdfId([0, 31])
    ensures Accumulator([1, 0]) == 31
  {
    assert Prefix([1, 0]) == [1, 0];
    assert Prefix([0, 31]) == [0, 31];
    HashOneZero();
    HashZeroThirtyOne();
  }
}
