/**
  The bit-packed encoder of the error-code generator: the field widths, the masks derived from
  them and the packing of a (module id, submodule id, error id) triple into one integer.

  Python integers are unbounded, so ids and codes are `nat`. The operators `<<`, `>>`, `|` and
  `&` on non-negative integers are written out below (ShiftLeft, ShiftRight, BitOr, BitAnd) so that
  the encoder is modelled with the operators it uses, and their arithmetic meaning is proved.
*/
module Encoder {
  import opened Wrappers

  /** The three bit fields of a code, named as in the source's error messages. */
  datatype Field = ModuleId | SubmoduleId | ErrorId

  /** Why generation fails: an id that does not fit its field, or (in the renderer) no records at all. */
  datatype Failure =
    | EncodingOverflow(field: Field, value: nat, bits: nat)
    | EmptyRecordList

  // Field widths (EC_BITS) and the total code width (EC_SIZE_BITS).
  const MODULE_BITS: nat := 5
  const SUBMODULE_BITS: nat := 5
  const ERROR_ID_BITS: nat := 6
  const EC_SIZE_BITS: nat := MODULE_BITS + SUBMODULE_BITS + ERROR_ID_BITS

  // Counter start values and steps. ERROR_ID_INCREMENT is declared by the source but never used:
  // error ids come from `enumerate`, which always steps by one.
  const START_MODULE_ID: nat := 1
  const START_SUBMODULE_ID: nat := 1
  const START_ERROR_ID: nat := 1
  const MODULE_ID_INCREMENT: nat := 1
  const SUBMODULE_ID_INCREMENT: nat := 1
  const ERROR_ID_INCREMENT: nat := 1

  /** The width of a field, as the EC_BITS table gives it. */
  function Bits(f: Field): nat
  {
    match f
    case ModuleId => MODULE_BITS
    case SubmoduleId => SUBMODULE_BITS
    case ErrorId => ERROR_ID_BITS
  }

  function Pow2(k: nat): (r: nat)
    ensures r >= 1
  {
    if k == 0 then 1 else 2 * Pow2(k - 1)
  }

  /** `x << k` on a non-negative integer: k single-bit shifts. */
  function ShiftLeft(x: nat, k: nat): nat
  {
    if k == 0 then x else 2 * ShiftLeft(x, k - 1)
  }

  /** `x >> k` on a non-negative integer. */
  function ShiftRight(x: nat, k: nat): nat
  {
    if k == 0 then x else ShiftRight(x, k - 1) / 2
  }

  /** `a | b` on non-negative integers, bit by bit from the lowest bit. */
  function BitOr(a: nat, b: nat): nat
  {
    if a == 0 then b
    else if b == 0 then a
    else 2 * BitOr(a / 2, b / 2) + (if a % 2 == 1 || b % 2 == 1 then 1 else 0)
  }

  /** `a & b` on non-negative integers, bit by bit from the lowest bit. */
  function BitAnd(a: nat, b: nat): nat
  {
    if a == 0 || b == 0 then 0
    else 2 * BitAnd(a / 2, b / 2) + (if a % 2 == 1 && b % 2 == 1 then 1 else 0)
  }

  /** calculate_mask: `(1 << bits) - 1`, the number whose low `bits` bits are all one. */
  function CalculateMask(bits: nat): (r: nat)
    ensures r + 1 == Pow2(bits)
  {
    ShiftLeftOne(bits);
    ShiftLeft(1, bits) - 1
  }

  /** A mask of `bits` ones has its lowest bit set and, shifted right once, is the mask of `bits - 1` ones. */
  lemma MaskHalves(bits: nat)
    requires bits > 0
    ensures CalculateMask(bits) % 2 == 1 && CalculateMask(bits) / 2 == CalculateMask(bits - 1)
  {
    assert Pow2(bits) == 2 * Pow2(bits - 1);
  }

  /** The packing `(m << (submodule bits + error bits)) | (s << error bits) | e`. */
  function Pack(m: nat, s: nat, e: nat): (r: nat)
    requires s < 32 && e < 64
    ensures r == m * 2048 + s * 64 + e
  {
    Pow2Values();
    ShiftLeftAdd(m, 5, 6);
    OrShifted(ShiftLeft(m, 5), s, 6);
    OrDisjoint(m, s, 5);
    OrDisjoint(ShiftLeft(m, 5) + s, e, 6);
    ShiftLeftIsMul(m, 5);
    ShiftLeftIsMul(s, 6);
    ShiftLeftIsMul(ShiftLeft(m, 5) + s, 6);
    BitOr(BitOr(ShiftLeft(m, SUBMODULE_BITS + ERROR_ID_BITS), ShiftLeft(s, ERROR_ID_BITS)), e)
  }

  // The three masks encode_error_code derives from the widths (the same on every call).
  const MODULE_MASK: nat := CalculateMask(Bits(ModuleId))
  const SUBMODULE_MASK: nat := CalculateMask(Bits(SubmoduleId))
  const ERROR_MASK: nat := CalculateMask(Bits(ErrorId))

  /**
    encode_error_code: each field is checked against its mask in the order module, submodule,
    error id, and the first that exceeds its mask is reported; otherwise the fields are packed.
  */
  function EncodeErrorCode(moduleId: nat, submoduleId: nat, errorId: nat): (r: Result<nat, Failure>)
    ensures r.Ok? <==> moduleId <= 31 && submoduleId <= 31 && errorId <= 63
    ensures moduleId > 31 ==> r == Err(EncodingOverflow(ModuleId, moduleId, 5))
    ensures moduleId <= 31 && submoduleId > 31 ==> r == Err(EncodingOverflow(SubmoduleId, submoduleId, 5))
    ensures moduleId <= 31 && submoduleId <= 31 && errorId > 63 ==> r == Err(EncodingOverflow(ErrorId, errorId, 6))
    ensures r.Ok? ==> r.value == moduleId * 2048 + submoduleId * 64 + errorId
    ensures r.Ok? ==> r.value < Pow2(EC_SIZE_BITS)
  {
    MaskValues();
    if moduleId > MODULE_MASK then Err(EncodingOverflow(ModuleId, moduleId, Bits(ModuleId)))
    else if submoduleId > SUBMODULE_MASK then Err(EncodingOverflow(SubmoduleId, submoduleId, Bits(SubmoduleId)))
    else if errorId > ERROR_MASK then Err(EncodingOverflow(ErrorId, errorId, Bits(ErrorId)))
    else Ok(Pack(moduleId, submoduleId, errorId))
  }

  /** Decoding by shift and mask: `((c >> 11) & 31, (c >> 6) & 31, c & 63)`. */
  function Decode(code: nat): (nat, nat, nat)
  {
    (BitAnd(ShiftRight(code, SUBMODULE_BITS + ERROR_ID_BITS), CalculateMask(MODULE_BITS)),
     BitAnd(ShiftRight(code, ERROR_ID_BITS), CalculateMask(SUBMODULE_BITS)),
     BitAnd(code, CalculateMask(ERROR_ID_BITS)))
  }

  lemma Pow2Values()
    ensures Pow2(5) == 32 && Pow2(6) == 64 && Pow2(11) == 2048 && Pow2(16) == 65536
  {
    assert Pow2(6) == 2 * Pow2(5);
    assert Pow2(11) == 32 * Pow2(6) by {
      assert Pow2(11) == 2 * Pow2(10) == 4 * Pow2(9) == 8 * Pow2(8) == 16 * Pow2(7) == 32 * Pow2(6);
    }
    assert Pow2(16) == 32 * Pow2(11) by {
      assert Pow2(16) == 2 * Pow2(15) == 4 * Pow2(14) == 8 * Pow2(13) == 16 * Pow2(12) == 32 * Pow2(11);
    }
  }

  /** The masks of the configured widths: 31 for module and submodule ids, 63 for error ids. */
  lemma MaskValues()
    ensures CalculateMask(Bits(ModuleId)) == 31
    ensures CalculateMask(Bits(SubmoduleId)) == 31
    ensures CalculateMask(Bits(ErrorId)) == 63
    ensures Pow2(EC_SIZE_BITS) == 65536
  {
    Pow2Values();
  }

  /** Doubling one factor doubles the product. */
  lemma DoubleFactor(a: int, b: int)
    ensures 2 * (a * b) == a * (2 * b)
  {
  }

  /** Division with remainder: x is the quotient times the divisor plus the remainder. */
  lemma DivModSplit(x: nat, d: nat)
    requires d > 0
    ensures x == (x / d) * d + x % d && x % d < d
  {
  }

  /** A positive multiple of a positive number is at least that number. */
  lemma MultipleAtLeast(k: int, d: int)
    requires k >= 1 && d > 0
    ensures k * d >= d
  {
    assert k * d == (k - 1) * d + d;
  }

  /** The quotient and remainder of a division are determined by any decomposition x == q * d + r with r < d. */
  lemma DivModOf(x: nat, d: nat, q: nat, r: nat)
    requires d > 0 && r < d && x == q * d + r
    ensures x / d == q && x % d == r
  {
    var q', r' := x / d, x % d;
    assert x == q' * d + r';
    if q' > q {
      assert (q' - q) * d == q' * d - q * d;
      MultipleAtLeast(q' - q, d);
    } else if q' < q {
      assert (q - q') * d == q * d - q' * d;
      MultipleAtLeast(q - q', d);
    }
  }

  /** Halving a quotient by `a` is the quotient by `2a`. */
  lemma HalveQuotient(x: nat, a: nat)
    requires a > 0
    ensures (x / a) / 2 == x / (2 * a)
  {
    var q, r := x / a, x % a;
    DivModSplit(x, a);
    var q2, r2 := q / 2, q % 2;
    DivModSplit(q, 2);
    assert x == q2 * (2 * a) + (r2 * a + r) by {
      DoubleFactor(q2, a);
      assert q * a == (q2 * 2 + r2) * a;
    }
    DivModOf(x, 2 * a, q2, r2 * a + r);
  }

  /** `x >> k` is the quotient by 2^k. */
  lemma {:induction false} ShiftRightIsDiv(x: nat, k: nat)
    ensures ShiftRight(x, k) == x / Pow2(k)
  {
    if k == 0 {
      DivModOf(x, 1, x, 0);
    } else {
      ShiftRightIsDiv(x, k - 1);
      HalveQuotient(x, Pow2(k - 1));
    }
  }

  /** Shifting 1 left by k gives 2^k. */
  lemma {:induction false} ShiftLeftOne(k: nat)
    ensures ShiftLeft(1, k) == Pow2(k)
  {
    if k > 0 {
      ShiftLeftOne(k - 1);
    }
  }

  /** Shifting by a + b is shifting by a, then by b. */
  lemma {:induction false} ShiftLeftAdd(x: nat, a: nat, b: nat)
    ensures ShiftLeft(x, a + b) == ShiftLeft(ShiftLeft(x, a), b)
  {
    if b > 0 {
      ShiftLeftAdd(x, a, b - 1);
    }
  }

  /** Shifting left by k multiplies by 2^k. */
  lemma {:induction false} ShiftLeftIsMul(x: nat, k: nat)
    ensures ShiftLeft(x, k) == x * Pow2(k)
  {
    if k > 0 {
      ShiftLeftIsMul(x, k - 1);
      DoubleFactor(x, Pow2(k - 1));
    }
  }

  /** Or-ing two values shifted by the same amount is shifting their or. */
  lemma {:induction false} OrShifted(x: nat, y: nat, k: nat)
    ensures BitOr(ShiftLeft(x, k), ShiftLeft(y, k)) == ShiftLeft(BitOr(x, y), k)
  {
    if k > 0 {
      OrShifted(x, y, k - 1);
      var a, b := ShiftLeft(x, k - 1), ShiftLeft(y, k - 1);
      if a != 0 && b != 0 {
        OrDoubled(a, b);
      }
    }
  }

  /** Or-ing two even numbers: the lowest bit stays clear and the rest is the or of the halves. */
  lemma OrDoubled(a: nat, b: nat)
    requires a != 0 && b != 0
    ensures BitOr(2 * a, 2 * b) == 2 * BitOr(a, b)
  {
  }

  /** Or-ing a shifted value with one narrower than the shift is addition: the bits do not overlap. */
  lemma {:induction false} OrDisjoint(x: nat, a: nat, k: nat)
    requires a < Pow2(k)
    ensures BitOr(ShiftLeft(x, k), a) == ShiftLeft(x, k) + a
  {
    if k > 0 {
      var h := ShiftLeft(x, k - 1);
      if h != 0 && a != 0 {
        OrDisjoint(x, a / 2, k - 1);
        OrOddEven(h, a);
      }
    }
  }

  /** Or-ing an even number with any other: the lowest bit is the other's and the rest is or-ed. */
  lemma OrOddEven(h: nat, a: nat)
    requires h != 0 && a != 0
    ensures BitOr(2 * h, a) == 2 * BitOr(h, a / 2) + a % 2
  {
  }

  /** The remainder modulo 2p is twice the remainder of the half modulo p, plus the lowest bit. */
  lemma ModDouble(x: nat, p: nat, q: nat)
    requires p > 0 && q == 2 * p
    ensures x % q == 2 * ((x / 2) % p) + x % 2
  {
    var h := x / 2;
    var t, u := h / p, h % p;
    DivModSplit(h, p);
    DivModSplit(x, 2);
    assert x == t * (2 * p) + (2 * u + x % 2) by {
      DoubleFactor(t, p);
    }
    DivModOf(x, 2 * p, t, 2 * u + x % 2);
  }

  /** And-ing with an odd number keeps the lowest bit and and-s the rest. */
  lemma AndOdd(x: nat, m: nat)
    requires x != 0 && m % 2 == 1
    ensures BitAnd(x, m) == 2 * BitAnd(x / 2, m / 2) + x % 2
  {
  }

  /** And-ing with the mask of `bits` keeps exactly the low `bits` bits. */
  lemma {:induction false} MaskSelectsLowBits(x: nat, bits: nat)
    ensures BitAnd(x, CalculateMask(bits)) == x % Pow2(bits)
  {
    if bits == 0 {
      DivModOf(x, 1, x, 0);
    } else if x == 0 {
      DivModOf(0, Pow2(bits), 0, 0);
    } else {
      var p := Pow2(bits - 1);
      assert Pow2(bits) == 2 * p;
      MaskHalves(bits);
      AndOdd(x, CalculateMask(bits));
      MaskSelectsLowBits(x / 2, bits - 1);
      ModDouble(x, p, Pow2(bits));
    }
  }

  /** `(c >> 11) & 31` recovers the module id of m·2048 + s·64 + e. */
  lemma ModuleField(c: nat, m: nat, s: nat, e: nat)
    requires m <= 31 && s <= 31 && e <= 63 && c == m * 2048 + s * 64 + e
    ensures BitAnd(ShiftRight(c, 11), CalculateMask(5)) == m
  {
    Pow2Values();
    ShiftRightIsDiv(c, 11);
    DivModOf(c, 2048, m, s * 64 + e);
    MaskSelectsLowBits(m, 5);
    DivModOf(m, 32, 0, m);
  }

  /** `(c >> 6) & 31` recovers the submodule id of m·2048 + s·64 + e. */
  lemma SubmoduleField(c: nat, m: nat, s: nat, e: nat)
    requires m <= 31 && s <= 31 && e <= 63 && c == m * 2048 + s * 64 + e
    ensures BitAnd(ShiftRight(c, 6), CalculateMask(5)) == s
  {
    Pow2Values();
    ShiftRightIsDiv(c, 6);
    assert c == (m * 32 + s) * 64 + e;
    DivModOf(c, 64, m * 32 + s, e);
    MaskSelectsLowBits(m * 32 + s, 5);
    DivModOf(m * 32 + s, 32, m, s);
  }

  /** `c & 63` recovers the error id of m·2048 + s·64 + e. */
  lemma ErrorField(c: nat, m: nat, s: nat, e: nat)
    requires m <= 31 && s <= 31 && e <= 63 && c == m * 2048 + s * 64 + e
    ensures BitAnd(c, CalculateMask(6)) == e
  {
    Pow2Values();
    assert c == (m * 32 + s) * 64 + e;
    MaskSelectsLowBits(c, 6);
    DivModOf(c, 64, m * 32 + s, e);
  }

  /** Round trip: decoding a successfully encoded code by shift and mask gives back the triple. */
  lemma DecodeEncode(m: nat, s: nat, e: nat)
    requires EncodeErrorCode(m, s, e).Ok?
    ensures Decode(EncodeErrorCode(m, s, e).value) == (m, s, e)
  {
    var c := EncodeErrorCode(m, s, e).value;
    ModuleField(c, m, s, e);
    SubmoduleField(c, m, s, e);
    ErrorField(c, m, s, e);
  }

  /** Encoding is injective: two triples that both encode give the same code only if they are equal. */
  lemma EncodeInjective(m1: nat, s1: nat, e1: nat, m2: nat, s2: nat, e2: nat)
    requires EncodeErrorCode(m1, s1, e1).Ok? && EncodeErrorCode(m2, s2, e2).Ok?
    requires EncodeErrorCode(m1, s1, e1).value == EncodeErrorCode(m2, s2, e2).value
    ensures m1 == m2 && s1 == s2 && e1 == e2
  {
    DecodeEncode(m1, s1, e1);
    DecodeEncode(m2, s2, e2);
  }

  /** Boundary of the module field: 31 encodes, 32 is reported as a module overflow of a 5-bit field. */
  lemma ModuleBoundary(s: nat, e: nat)
    requires s <= 31 && e <= 63
    ensures EncodeErrorCode(31, s, e).Ok?
    ensures EncodeErrorCode(32, s, e) == Err(EncodingOverflow(ModuleId, 32, 5))
  {
  }
}
