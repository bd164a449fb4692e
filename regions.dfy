/**
 * The integer branches of the in-place region operations of
 * src/photo/utils.c. A REGION is a grid of pixels of one type; each pixel is
 * held here as the integer it denotes, and every store into a pixel converts
 * the C int result to the pixel type as C does (wrapping modulo the width).
 *
 * PIX, the type of photo's "PIX" regions, is taken to be U16.
 */
module Regions {
  import opened Names

  class Region {
    const ptype: PixType
    const row0: int
    const col0: int
    const rows: array2<int>

    constructor (ptype: PixType, nrow: nat, ncol: nat)
      ensures this.ptype == ptype && row0 == 0 && col0 == 0
      ensures rows.Length0 == nrow && rows.Length1 == ncol
      ensures fresh(rows)
    {
      this.ptype := ptype;
      row0 := 0;
      col0 := 0;
      rows := new int[nrow, ncol];
    }

    function NRow(): nat { rows.Length0 }
    function NCol(): nat { rows.Length1 }

    /** Every pixel holds a value of the region's type. */
    ghost predicate Valid()
      reads rows
    {
      forall i, j :: 0 <= i < NRow() && 0 <= j < NCol() ==> InRange(ptype, rows[i, j])
    }
  }

  datatype RetCode = Success | GenericError

  const MaxU16 := 0xFFFF

  /** The values of each integer pixel type. */
  predicate InRange(t: PixType, v: int)
  {
    match t
    case U8 => 0 <= v < 0x100
    case S8 => -0x80 <= v < 0x80
    case U16 => 0 <= v < 0x1_0000
    case S16 => -0x8000 <= v < 0x8000
    case U32 => 0 <= v < 0x1_0000_0000
    case S32 => -0x8000_0000 <= v < 0x8000_0000
    case FL32 => true
  }

  /**
   * Storing an int into a pixel: the value modulo 2^width, read back as
   * signed for the signed types (two's complement, as the compilers the
   * code was written for do; for S32 this also stands for signed overflow).
   */
  function Wrap(t: PixType, v: int): (r: int)
    ensures InRange(t, r)
  {
    match t
    case U8 => v % 0x100
    case S8 => (v + 0x80) % 0x100 - 0x80
    case U16 => v % 0x1_0000
    case S16 => (v + 0x8000) % 0x1_0000 - 0x8000
    case U32 => v % 0x1_0000_0000
    case S32 => (v + 0x8000_0000) % 0x1_0000_0000 - 0x8000_0000
    case FL32 => v
  }

  /** A value the type can hold is stored unchanged. */
  lemma WrapKeepsInRange(t: PixType, v: int)
    requires InRange(t, v)
    ensures Wrap(t, v) == v
  {
  }

  // ---------------------------------------------------------------- shRegIntAdd

  /**
   * shRegIntAdd: reg1 += reg2, pixel by pixel, for regions of the same type
   * and size; a type or size mismatch is an error and changes nothing. The
   * FL32 branch adds floats and is not modelled.
   */
  method ShRegIntAdd(reg1: Region, reg2: Region) returns (r: RetCode)
    requires !(reg1.ptype == FL32 && reg2.ptype == FL32)
    modifies reg1.rows
    ensures r == Success <==> reg1.ptype == reg2.ptype && reg1.NRow() == reg2.NRow() && reg1.NCol() == reg2.NCol()
    ensures r == GenericError ==> unchanged(reg1.rows)
    ensures r == Success ==> forall i, j :: 0 <= i < reg1.NRow() && 0 <= j < reg1.NCol() ==>
      reg1.rows[i, j] == Wrap(reg1.ptype, old(reg1.rows[i, j]) + old(reg2.rows[i, j]))
    ensures r == Success ==> reg1.Valid()
    ensures r == Success ==> forall i, j ::
      (0 <= i < reg1.NRow() && 0 <= j < reg1.NCol() && InRange(reg1.ptype, old(reg1.rows[i, j]) + old(reg2.rows[i, j]))) ==>
      reg1.rows[i, j] == old(reg1.rows[i, j]) + old(reg2.rows[i, j])
    ensures (r == Success && old(reg1.Valid()) &&
      forall i, j :: 0 <= i < reg2.NRow() && 0 <= j < reg2.NCol() ==> old(reg2.rows[i, j]) == 0) ==>
      forall i, j :: 0 <= i < reg1.NRow() && 0 <= j < reg1.NCol() ==> reg1.rows[i, j] == old(reg1.rows[i, j])
  {
    if reg1.ptype != reg2.ptype {
      return GenericError;
    }
    var ncol, nrow := reg1.NCol(), reg1.NRow();
    if reg2.NCol() != ncol || reg2.NRow() != nrow {
      return GenericError;
    }
    AddPixels(reg1, reg2);
    forall p, q | 0 <= p < nrow && 0 <= q < ncol && InRange(reg1.ptype, old(reg1.rows[p, q]) + old(reg2.rows[p, q]))
      ensures reg1.rows[p, q] == old(reg1.rows[p, q]) + old(reg2.rows[p, q])
    {
      WrapKeepsInRange(reg1.ptype, old(reg1.rows[p, q]) + old(reg2.rows[p, q]));
    }
    return Success;
  }

  /** The two loops of shRegIntAdd's integer branches: reg1[i][j] += reg2[i][j], stored into the pixel type. */
  method AddPixels(reg1: Region, reg2: Region)
    requires reg1.NRow() == reg2.NRow() && reg1.NCol() == reg2.NCol()
    modifies reg1.rows
    ensures forall i, j :: 0 <= i < reg1.NRow() && 0 <= j < reg1.NCol() ==>
      reg1.rows[i, j] == Wrap(reg1.ptype, old(reg1.rows[i, j]) + old(reg2.rows[i, j]))
  {
    var ncol, nrow := reg1.NCol(), reg1.NRow();
    var i := 0;
    while i < nrow
      invariant 0 <= i <= nrow
      invariant forall p, q :: 0 <= p < nrow && 0 <= q < ncol ==>
        reg1.rows[p, q] == if p < i then Wrap(reg1.ptype, old(reg1.rows[p, q]) + old(reg2.rows[p, q])) else old(reg1.rows[p, q])
      invariant forall p, q :: i <= p < nrow && 0 <= q < ncol ==> reg2.rows[p, q] == old(reg2.rows[p, q])
    {
      var j := 0;
      while j < ncol
        invariant 0 <= j <= ncol
        invariant forall p, q :: 0 <= p < nrow && 0 <= q < ncol ==>
          reg1.rows[p, q] == if p < i || (p == i && q < j) then Wrap(reg1.ptype, old(reg1.rows[p, q]) + old(reg2.rows[p, q])) else old(reg1.rows[p, q])
        invariant forall p, q :: 0 <= p < nrow && 0 <= q < ncol && (p > i || (p == i && q >= j)) ==> reg2.rows[p, q] == old(reg2.rows[p, q])
      {
        reg1.rows[i, j] := Wrap(reg1.ptype, reg1.rows[i, j] + reg2.rows[i, j]);
        j := j + 1;
      }
      i := i + 1;
    }
  }

  // ------------------------------------------------------------- shRegIntLogand

  function Pow2(w: nat): (r: nat)
    ensures r >= 1
  {
    if w == 0 then 1 else 2 * Pow2(w - 1)
  }

  /** Bitwise AND of the low w bits of two non-negative numbers, bit by bit from the lowest. */
  function AndBits(a: nat, b: nat, w: nat): (r: nat)
    ensures r <= a && r <= b
  {
    if w == 0 then 0
    else 2 * AndBits(a / 2, b / 2, w - 1) + (if a % 2 == 1 && b % 2 == 1 then 1 else 0)
  }

  /** An all-ones mask of w bits keeps every w-bit number. */
  lemma {:induction false} AndAllOnes(a: nat, w: nat)
    requires a < Pow2(w)
    ensures AndBits(a, Pow2(w) - 1, w) == a
    decreases w
  {
    if w > 0 {
      AndAllOnes(a / 2, w - 1);
      assert (Pow2(w) - 1) / 2 == Pow2(w - 1) - 1;
    }
  }

  /** A zero mask clears every number. */
  lemma {:induction false} AndZero(a: nat, w: nat)
    ensures AndBits(a, 0, w) == 0
    decreases w
  {
    if w > 0 {
      AndZero(a / 2, w - 1);
    }
  }

  /** ANDing twice with the same mask is ANDing once. */
  lemma {:induction false} AndIdempotent(a: nat, b: nat, w: nat)
    ensures AndBits(AndBits(a, b, w), b, w) == AndBits(a, b, w)
    decreases w
  {
    if w > 0 {
      var r := AndBits(a, b, w);
      AndIdempotent(a / 2, b / 2, w - 1);
      assert r / 2 == AndBits(a / 2, b / 2, w - 1);
    }
  }

  /** The unsigned int of the source: the 32-bit pattern of an int. */
  function ToUnsigned(v: int): (r: nat)
    ensures r < 0x1_0000_0000
    ensures 0 <= v < 0x1_0000_0000 ==> r == v
  {
    v % 0x1_0000_0000
  }

  lemma Pow2Of32()
    ensures Pow2(32) == 0x1_0000_0000
  {
    assert Pow2(8) == 0x100;
    assert Pow2(16) == 0x1_0000;
    assert Pow2(24) == 0x100_0000;
  }

  /**
   * `*ptr &= mask`: the pixel, taken as a 32-bit pattern, ANDed with the
   * unsigned mask and stored back into the pixel type.
   */
  function AndPixel(t: PixType, v: int, mask: nat): (r: int)
    ensures InRange(t, r)
  {
    Wrap(t, AndBits(ToUnsigned(v), mask, 32))
  }

  /** An all-ones mask keeps every pixel; a zero mask clears it. */
  lemma AndPixelMasks(t: PixType, v: int)
    requires t != FL32 && InRange(t, v)
    ensures AndPixel(t, v, 0xFFFF_FFFF) == v
    ensures AndPixel(t, v, 0) == 0
  {
    var u := ToUnsigned(v);
    assert AndPixel(t, v, 0xFFFF_FFFF) == v by {
      Pow2Of32();
      AndAllOnes(u, 32);
      assert AndBits(u, 0xFFFF_FFFF, 32) == u;
      WrapOfUnsigned(t, v);
    }
    assert AndPixel(t, v, 0) == 0 by {
      AndZero(u, 32);
      assert Wrap(t, 0) == 0;
    }
  }

  /** Reading a pixel's 32-bit pattern back into its type gives the pixel. */
  lemma WrapOfUnsigned(t: PixType, v: int)
    requires t != FL32 && InRange(t, v)
    ensures Wrap(t, ToUnsigned(v)) == v
  {
    if v >= 0 {
      WrapKeepsInRange(t, v);
    } else {
      match t {
        case S8 => WrapNegative(v, 0x80);
        case S16 => WrapNegative(v, 0x8000);
        case S32 => WrapNegative(v, 0x8000_0000);
      }
    }
  }

  /**
   * A negative value of a signed type of half-range h survives the trip
   * through its 32-bit pattern: (v + 2^32 + h) mod 2h == v + h.
   */
  lemma WrapNegative(v: int, h: int)
    requires h == 0x80 || h == 0x8000 || h == 0x8000_0000
    requires -h <= v < 0
    ensures (ToUnsigned(v) + h) % (2 * h) - h == v
  {
    var u := v + 0x1_0000_0000;
    assert ToUnsigned(v) == u;
    assert (u + h) / (2 * h) == 0x8000_0000 / h;
  }

  /** On the unsigned types ANDing can only clear bits: no pixel grows. */
  lemma AndPixelShrinks(t: PixType, v: int, mask: nat)
    requires (t == U8 || t == U16 || t == U32) && InRange(t, v)
    ensures 0 <= AndPixel(t, v, mask) <= v
  {
    WrapKeepsInRange(t, AndBits(ToUnsigned(v), mask, 32));
  }

  /** On U32 pixels shRegIntLogand is idempotent. */
  lemma AndPixelIdempotentU32(v: int, mask: nat)
    requires InRange(U32, v) && mask < 0x1_0000_0000
    ensures AndPixel(U32, AndPixel(U32, v, mask), mask) == AndPixel(U32, v, mask)
  {
    var a := AndBits(v, mask, 32);
    assert AndPixel(U32, v, mask) == a by {
      assert ToUnsigned(v) == v;
      WrapKeepsInRange(U32, a);
    }
    assert AndPixel(U32, a, mask) == a by {
      assert ToUnsigned(a) == a;
      AndIdempotent(v, mask, 32);
      WrapKeepsInRange(U32, a);
    }
  }

  /**
   * shRegIntLogand: AND every pixel with mask; FL32 regions are an error and
   * are left as they were.
   */
  method ShRegIntLogand(reg: Region, mask: nat) returns (r: RetCode)
    requires mask < 0x1_0000_0000
    modifies reg.rows
    ensures r == Success <==> reg.ptype != FL32
    ensures r == GenericError ==> unchanged(reg.rows)
    ensures r == Success ==> forall i, j :: 0 <= i < reg.NRow() && 0 <= j < reg.NCol() ==>
      reg.rows[i, j] == AndPixel(reg.ptype, old(reg.rows[i, j]), mask)
    ensures r == Success ==> reg.Valid()
  {
    if reg.ptype == FL32 {
      return GenericError;
    }
    var i := 0;
    while i < reg.NRow()
      invariant 0 <= i <= reg.NRow()
      invariant forall p, q :: 0 <= p < reg.NRow() && 0 <= q < reg.NCol() ==>
        reg.rows[p, q] == if p < i then AndPixel(reg.ptype, old(reg.rows[p, q]), mask) else old(reg.rows[p, q])
    {
      var j := 0;
      while j < reg.NCol()
        invariant 0 <= j <= reg.NCol()
        invariant forall p, q :: 0 <= p < reg.NRow() && 0 <= q < reg.NCol() ==>
          reg.rows[p, q] == if p < i || (p == i && q < j) then AndPixel(reg.ptype, old(reg.rows[p, q]), mask) else old(reg.rows[p, q])
      {
        reg.rows[i, j] := AndPixel(reg.ptype, reg.rows[i, j], mask);
        j := j + 1;
      }
      i := i + 1;
    }
    return Success;
  }

  // -------------------------------------------------- shRegIntConstMultAndShift

  /** `1 << shift` for the shifts that fit a C int without overflow. */
  lemma Pow2Monotone(a: nat, b: nat)
    requires a <= b
    ensures Pow2(a) <= Pow2(b)
    decreases b
  {
    if a < b {
      Pow2Monotone(a, b - 1);
    }
  }

  /**
   * `x >> s` on a C int, as an arithmetic shift: s halvings, each rounding
   * down. The result is x divided by 2^s, rounded down.
   */
  function ShiftRight(x: int, s: nat): (r: int)
    ensures x >= 0 ==> 0 <= r <= x
    ensures x < 0 ==> x <= r < 0
    decreases s
  {
    if s == 0 then x else ShiftRight(x / 2, s - 1)
  }

  /** x doubled s times, i.e. `x << s` without overflow. */
  function Scaled(x: int, s: nat): int
  {
    if s == 0 then x else 2 * Scaled(x, s - 1)
  }

  /** Doubling s times is multiplying by 2^s. */
  lemma {:induction false} ScaledIsProduct(x: int, s: nat)
    ensures Scaled(x, s) == Pow2(s) * x
    decreases s
  {
    if s > 0 {
      ScaledIsProduct(x, s - 1);
      assert Pow2(s) * x == 2 * (Pow2(s - 1) * x);
    }
  }

  /** The shift is the division by 2^s that rounds down. */
  lemma {:induction false} ShiftRightIsFloorDivision(x: int, s: nat)
    ensures Scaled(ShiftRight(x, s), s) <= x < Scaled(ShiftRight(x, s), s) + Pow2(s)
    decreases s
  {
    if s > 0 {
      ShiftRightIsFloorDivision(x / 2, s - 1);
      ScaledOfShift(ShiftRight(x / 2, s - 1), s);
    }
  }

  /** Scaled unfolded at the top: Scaled(r, s) is twice Scaled(r, s - 1). */
  lemma ScaledOfShift(r: int, s: nat)
    requires s > 0
    ensures Scaled(r, s) == 2 * Scaled(r, s - 1) && Pow2(s) == 2 * Pow2(s - 1)
  {
  }

  /**
   * One pixel of shRegIntConstMultAndShift: `(val*pix + half) >> shift` in
   * C int arithmetic (a product or sum that overflows wraps modulo 2^32),
   * stored into the pixel: U8 keeps the low byte, U16 first clamps at
   * MAX_U16, S32 keeps the int.
   */
  function MultShift(t: PixType, val: int, v: int, shift: nat): (r: int)
    requires t == U8 || t == U16 || t == S32
    ensures InRange(t, r)
    ensures t == U16 ==> r <= MaxU16
  {
    var half := Pow2(shift) / 2;
    var pval := ShiftRight(Wrap(S32, Wrap(S32, val * v) + half), shift);
    match t
    case U8 => Wrap(U8, pval)
    case U16 => Wrap(U16, if pval > MaxU16 then MaxU16 else pval)
    case S32 => pval
  }

  /** Shifting back what was scaled by 2^s, plus less than 2^s, recovers it. */
  lemma {:induction false} ShiftRightOfScaled(v: int, h: int, s: nat)
    requires 0 <= h < Pow2(s)
    ensures ShiftRight(Scaled(v, s) + h, s) == v
    decreases s
  {
    if s > 0 {
      ScaledOfShift(v, s);
      ShiftRightOfScaled(v, h / 2, s - 1);
    }
  }

  /**
   * Without int overflow, a pixel's new value is the rounded scaled value,
   * stored into the pixel type (U16 clamping first).
   */
  lemma MultShiftWithoutOverflow(t: PixType, val: int, v: int, shift: nat, prod: int)
    requires t == U8 || t == U16 || t == S32
    requires prod == val * v && 0 <= prod + Pow2(shift) / 2 && InRange(S32, prod) && InRange(S32, prod + Pow2(shift) / 2)
    ensures var exact := ShiftRight(prod + Pow2(shift) / 2, shift);
      MultShift(t, val, v, shift) == match t
        case U8 => Wrap(U8, exact)
        case U16 => Wrap(U16, if exact > MaxU16 then MaxU16 else exact)
        case S32 => exact
  {
    WrapKeepsInRange(S32, prod);
    WrapKeepsInRange(S32, prod + Pow2(shift) / 2);
  }

  /**
   * The source's own remark, `(half >> shift) == 0.5`: multiplying by
   * 2^shift and shifting back by shift leaves every U8 and U16 pixel as it
   * was (for shifts small enough that the product stays within an int).
   */
  lemma MultShiftByPowerIsIdentity(t: PixType, v: int, shift: nat)
    requires (t == U8 || t == U16) && InRange(t, v) && shift <= 15
    ensures MultShift(t, Pow2(shift), v, shift) == v
  {
    var p := Pow2(shift);
    var prod := p * v;
    ScaledPixelFitsInt(v, shift);
    var exact := ShiftRight(prod + p / 2, shift);
    assert exact == v by {
      ScaledIsProduct(v, shift);
      ShiftRightOfScaled(v, p / 2, shift);
    }
    assert MultShift(t, p, v, shift) == Wrap(t, v) by {
      MultShiftWithoutOverflow(t, p, v, shift, prod);
    }
    WrapKeepsInRange(t, v);
  }

  /** A U16 value scaled by at most 2^15, plus half that, is still an int. */
  lemma ScaledPixelFitsInt(v: int, shift: nat)
    requires InRange(U16, v) && shift <= 15
    ensures 0 <= Pow2(shift) * v && Pow2(shift) * v + Pow2(shift) / 2 < 0x8000_0000
  {
    Pow2Monotone(shift, 15);
    assert Pow2(15) == 0x8000 by {
      assert Pow2(8) == 0x100;
    }
    MulMonotone(Pow2(shift), 0x8000, v);
  }

  lemma MulMonotone(a: nat, b: nat, c: nat)
    requires a <= b
    ensures 0 <= a * c <= b * c
  {
  }

  /**
   * On U16 the result saturates instead of wrapping: for a non-negative
   * multiplier and no int overflow it is the rounded scaled value, capped
   * at MAX_U16.
   */
  lemma MultShiftU16Saturates(val: int, v: int, shift: nat)
    requires InRange(U16, v) && val >= 0
    requires val * v + Pow2(shift) / 2 < 0x8000_0000
    ensures var exact := ShiftRight(val * v + Pow2(shift) / 2, shift);
      MultShift(U16, val, v, shift) == if exact > MaxU16 then MaxU16 else exact
  {
    var prod := val * v;
    assert 0 <= prod by {
      MulMonotone(0, val, v);
    }
    var exact := ShiftRight(prod + Pow2(shift) / 2, shift);
    var clamped := if exact > MaxU16 then MaxU16 else exact;
    assert MultShift(U16, val, v, shift) == Wrap(U16, clamped) by {
      MultShiftWithoutOverflow(U16, val, v, shift, prod);
    }
    assert 0 <= clamped;
    WrapKeepsInRange(U16, clamped);
  }

  /**
   * shRegIntConstMultAndShift, integer branches: every U8, U16 or S32 pixel
   * becomes MultShift of its value; any other integer type is an error that
   * changes nothing. The FL32 branch multiplies floats and is not modelled.
   * `1 << shift` must not overflow an int, so 0 <= shift <= 30.
   */
  method ShRegIntConstMultAndShift(reg: Region, val: int, shift: int) returns (r: RetCode)
    requires reg.ptype != FL32
    requires InRange(S32, val) && 0 <= shift <= 30
    modifies reg.rows
    ensures r == Success <==> reg.ptype in {U8, U16, S32}
    ensures r == GenericError ==> unchanged(reg.rows)
    ensures r == Success ==> forall i, j :: 0 <= i < reg.NRow() && 0 <= j < reg.NCol() ==>
      reg.rows[i, j] == MultShift(reg.ptype, val, old(reg.rows[i, j]), shift)
    ensures r == Success ==> reg.Valid()
  {
    if !(reg.ptype == U8 || reg.ptype == U16 || reg.ptype == S32) {
      return GenericError;
    }
    var i := 0;
    while i < reg.NRow()
      invariant 0 <= i <= reg.NRow()
      invariant forall p, q :: 0 <= p < reg.NRow() && 0 <= q < reg.NCol() ==>
        reg.rows[p, q] == if p < i then MultShift(reg.ptype, val, old(reg.rows[p, q]), shift) else old(reg.rows[p, q])
    {
      var j := 0;
      while j < reg.NCol()
        invariant 0 <= j <= reg.NCol()
        invariant forall p, q :: 0 <= p < reg.NRow() && 0 <= q < reg.NCol() ==>
          reg.rows[p, q] == if p < i || (p == i && q < j) then MultShift(reg.ptype, val, old(reg.rows[p, q]), shift) else old(reg.rows[p, q])
      {
        reg.rows[i, j] := MultShift(reg.ptype, val, reg.rows[i, j], shift);
        j := j + 1;
      }
      i := i + 1;
    }
    return Success;
  }

  // ------------------------------------------------------- phRegS32ToU16Convert

  /**
   * phRegS32ToU16Convert (which, despite its name, widens U16 to S32): copy
   * every pixel of the U16 region into an S32 region of the same size,
   * either the one supplied or, when that is NULL, a new one; return it.
   */
  method PhRegS32ToU16Convert(regS32: Region?, regU16: Region) returns (out: Region)
    requires regU16.ptype == U16 && regU16.Valid()
    requires regS32 != null ==> regS32.ptype == S32 && regS32.NRow() == regU16.NRow() && regS32.NCol() == regU16.NCol()
    requires regS32 != null ==> regS32.rows != regU16.rows
    modifies if regS32 != null then {regS32.rows} else {}
    ensures regS32 != null ==> out == regS32
    ensures regS32 == null ==> fresh(out) && fresh(out.rows)
    ensures out.ptype == S32 && out.NRow() == regU16.NRow() && out.NCol() == regU16.NCol()
    ensures forall i, j :: 0 <= i < out.NRow() && 0 <= j < out.NCol() ==> out.rows[i, j] == regU16.rows[i, j]
    ensures out.Valid()
  {
    var nrow, ncol := regU16.NRow(), regU16.NCol();
    if regS32 == null {
      out := new Region(S32, nrow, ncol);
    } else {
      out := regS32;
    }
    var i := 0;
    while i < nrow
      invariant 0 <= i <= nrow
      invariant forall p, q :: 0 <= p < i && 0 <= q < ncol ==> out.rows[p, q] == regU16.rows[p, q]
    {
      var j := 0;
      while j < ncol
        invariant 0 <= j <= ncol
        invariant forall p, q :: 0 <= p < nrow && 0 <= q < ncol && (p < i || (p == i && q < j)) ==>
          out.rows[p, q] == regU16.rows[p, q]
      {
        out.rows[i, j] := regU16.rows[i, j];
        j := j + 1;
      }
      i := i + 1;
    }
  }

  // ----------------------------------------------------------------- phRegFloor

  /** One pixel of phRegFloor: the larger of the pixel and the floor. */
  function FloorPixel(v: int, minpix: int): (r: int)
    ensures r >= v && r >= minpix
    ensures r == v || r == minpix
  {
    if v > minpix then v else minpix
  }

  /**
   * phRegFloor on a PIX region: every pixel below minpix is raised to it,
   * every other pixel is kept. The floor is given as the PIX value
   * FLT2PIX(min) already computed.
   */
  method PhRegFloor(reg: Region, minpix: int)
    requires reg.ptype == U16 && InRange(U16, minpix) && reg.Valid()
    modifies reg.rows
    ensures forall i, j :: 0 <= i < reg.NRow() && 0 <= j < reg.NCol() ==>
      reg.rows[i, j] == FloorPixel(old(reg.rows[i, j]), minpix)
    ensures forall i, j :: 0 <= i < reg.NRow() && 0 <= j < reg.NCol() && old(reg.rows[i, j]) < minpix ==>
      reg.rows[i, j] == minpix
    ensures forall i, j :: 0 <= i < reg.NRow() && 0 <= j < reg.NCol() && old(reg.rows[i, j]) >= minpix ==>
      reg.rows[i, j] == old(reg.rows[i, j])
    ensures (forall i, j :: 0 <= i < reg.NRow() && 0 <= j < reg.NCol() ==> old(reg.rows[i, j]) >= minpix) ==>
      forall i, j :: 0 <= i < reg.NRow() && 0 <= j < reg.NCol() ==> reg.rows[i, j] == old(reg.rows[i, j])
    ensures reg.Valid()
  {
    var i := 0;
    while i < reg.NRow()
      invariant 0 <= i <= reg.NRow()
      invariant forall p, q :: 0 <= p < reg.NRow() && 0 <= q < reg.NCol() ==>
        reg.rows[p, q] == if p < i then FloorPixel(old(reg.rows[p, q]), minpix) else old(reg.rows[p, q])
    {
      var j := 0;
      while j < reg.NCol()
        invariant 0 <= j <= reg.NCol()
        invariant forall p, q :: 0 <= p < reg.NRow() && 0 <= q < reg.NCol() ==>
          reg.rows[p, q] == if p < i || (p == i && q < j) then FloorPixel(old(reg.rows[p, q]), minpix) else old(reg.rows[p, q])
      {
        reg.rows[i, j] := if reg.rows[i, j] > minpix then reg.rows[i, j] else minpix;
        j := j + 1;
      }
      i := i + 1;
    }
  }

  // --------------------------------------------------- phRegIntClipValInObjmask

  /** A span of an object mask: row y, columns x1 to x2 inclusive. */
  datatype Span = Span(y: int, x1: int, x2: int)

  /** The pixel (y, x), in the mask's coordinates, lies in one of the spans. */
  ghost predicate InMask(om: seq<Span>, y: int, x: int)
  {
    exists i :: 0 <= i < |om| && om[i].y == y && om[i].x1 <= x <= om[i].x2
  }

  /**
   * One pixel of the clip: a value above val is replaced by val stored as a
   * PIX (so a negative val wraps to a large value).
   */
  function ClipPixel(v: int, val: int): (r: int)
    ensures InRange(U16, v) ==> InRange(U16, r)
    ensures InRange(U16, v) && 0 <= val ==> r <= v && r <= val && (r == v || r == val)
    ensures InRange(U16, v) && -0x1_0000 <= val < 0 ==> r == val + 0x1_0000
  {
    if v > val then Wrap(U16, val) else v
  }

  /** Clipping a PIX twice at the same value is clipping it once. */
  lemma ClipIdempotent(v: int, val: int)
    requires InRange(U16, v)
    ensures ClipPixel(ClipPixel(v, val), val) == ClipPixel(v, val)
  {
  }

  /**
   * The pixels of region row p that the loop visits for span s: the span's
   * row less rowOrg must be a row of the region, and the columns run from
   * x1 - colOrg to x2 - endOrg, clamped to the region. The source computes
   * the end with endOrg the row origin; the intent is the column origin.
   */
  predicate SpanCovers(s: Span, rowOrg: int, colOrg: int, endOrg: int, nrow: int, ncol: int, p: int, q: int)
  {
    p == s.y - rowOrg && 0 <= p < nrow && 0 <= q < ncol && s.x1 - colOrg <= q < s.x2 - endOrg + 1
  }

  /** Some span among `spans` covers region pixel (p, q). */
  predicate AnyCovers(spans: seq<Span>, rowOrg: int, colOrg: int, endOrg: int, nrow: int, ncol: int, p: int, q: int)
    decreases |spans|
  {
    |spans| > 0 &&
    (AnyCovers(spans[..|spans| - 1], rowOrg, colOrg, endOrg, nrow, ncol, p, q) ||
     SpanCovers(spans[|spans| - 1], rowOrg, colOrg, endOrg, nrow, ncol, p, q))
  }

  /**
   * With the column origin used for both ends, the clipped pixels are
   * exactly the region pixels that lie under the mask.
   */
  lemma {:induction false} AnyCoversIsInMask(spans: seq<Span>, rowOrg: int, colOrg: int, nrow: int, ncol: int, p: int, q: int)
    requires 0 <= p < nrow && 0 <= q < ncol
    ensures AnyCovers(spans, rowOrg, colOrg, colOrg, nrow, ncol, p, q) <==> InMask(spans, p + rowOrg, q + colOrg)
    decreases |spans|
  {
    if |spans| > 0 {
      var init := spans[..|spans| - 1];
      var last := |spans| - 1;
      AnyCoversIsInMask(init, rowOrg, colOrg, nrow, ncol, p, q);
      if InMask(spans, p + rowOrg, q + colOrg) {
        var i :| 0 <= i < |spans| && spans[i].y == p + rowOrg && spans[i].x1 <= q + colOrg <= spans[i].x2;
        if i < last {
          assert init[i] == spans[i];
        }
      }
      if InMask(init, p + rowOrg, q + colOrg) {
        var i :| 0 <= i < |init| && init[i].y == p + rowOrg && init[i].x1 <= q + colOrg <= init[i].x2;
        assert spans[i] == init[i];
      }
    }
  }

  /**
   * The loop of phRegIntClipValInObjmask, with the origin subtracted from
   * x2 as a parameter: every pixel some span covers is clipped at val, every
   * other pixel is kept.
   */
  method ClipSpans(reg: Region, spans: seq<Span>, rowOrg: int, colOrg: int, endOrg: int, val: int)
    requires reg.ptype == U16 && reg.Valid()
    modifies reg.rows
    ensures forall p, q :: 0 <= p < reg.NRow() && 0 <= q < reg.NCol() ==>
      reg.rows[p, q] == if AnyCovers(spans, rowOrg, colOrg, endOrg, reg.NRow(), reg.NCol(), p, q)
                        then ClipPixel(old(reg.rows[p, q]), val) else old(reg.rows[p, q])
    ensures reg.Valid()
  {
    var nrow, ncol := reg.NRow(), reg.NCol();
    var i := 0;
    while i < |spans|
      invariant 0 <= i <= |spans|
      invariant forall p, q :: 0 <= p < nrow && 0 <= q < ncol ==>
        reg.rows[p, q] == if AnyCovers(spans[..i], rowOrg, colOrg, endOrg, nrow, ncol, p, q)
                          then ClipPixel(old(reg.rows[p, q]), val) else old(reg.rows[p, q])
    {
      var s := spans[i];
      assert spans[..i + 1][..i] == spans[..i];
      if s.y - rowOrg < 0 || s.y - rowOrg >= nrow {
        forall p, q | 0 <= p < nrow && 0 <= q < ncol
          ensures AnyCovers(spans[..i + 1], rowOrg, colOrg, endOrg, nrow, ncol, p, q) <==>
            AnyCovers(spans[..i], rowOrg, colOrg, endOrg, nrow, ncol, p, q)
        {
          assert spans[..i + 1][i] == s;
        }
        i := i + 1;
        continue;
      }
      var prow := s.y - rowOrg;
      var j0, j1 := s.x1 - colOrg, s.x2 - endOrg + 1;
      if j0 < 0 {
        j0 := 0;
      }
      if j1 > ncol {
        j1 := ncol;
      }
      var j := j0;
      while j < j1
        invariant j0 <= j <= if j0 <= j1 then j1 else j0
        invariant forall p, q :: 0 <= p < nrow && 0 <= q < ncol ==>
          reg.rows[p, q] == if AnyCovers(spans[..i], rowOrg, colOrg, endOrg, nrow, ncol, p, q) || (p == prow && j0 <= q < j)
                            then ClipPixel(old(reg.rows[p, q]), val) else old(reg.rows[p, q])
      {
        ClipIdempotent(old(reg.rows[prow, j]), val);
        if reg.rows[prow, j] > val {
          reg.rows[prow, j] := Wrap(U16, val);
        }
        j := j + 1;
      }
      forall p, q | 0 <= p < nrow && 0 <= q < ncol
        ensures AnyCovers(spans[..i + 1], rowOrg, colOrg, endOrg, nrow, ncol, p, q) <==>
          AnyCovers(spans[..i], rowOrg, colOrg, endOrg, nrow, ncol, p, q) || (p == prow && j0 <= q < j)
      {
        assert spans[..i + 1][i] == s;
        assert spans[..i + 1][..i] == spans[..i];
        assert SpanCovers(s, rowOrg, colOrg, endOrg, nrow, ncol, p, q) <==> (p == prow && j0 <= q < j);
      }
      i := i + 1;
    }
    assert spans[..|spans|] == spans;
  }

  /**
   * phRegIntClipValInObjmask as written: the end of each span's column range
   * is computed from the region's row origin (`j1 = x2 - row0 + 1`).
   */
  method PhRegIntClipValInObjmaskAsWritten(reg: Region, om: seq<Span>, drow: int, dcol: int, val: int)
    requires reg.ptype == U16 && reg.Valid()
    modifies reg.rows
    ensures forall p, q :: 0 <= p < reg.NRow() && 0 <= q < reg.NCol() ==>
      reg.rows[p, q] == if AnyCovers(om, reg.row0 - drow, reg.col0 - dcol, reg.row0 - drow, reg.NRow(), reg.NCol(), p, q)
                        then ClipPixel(old(reg.rows[p, q]), val) else old(reg.rows[p, q])
    ensures reg.Valid()
  {
    ClipSpans(reg, om, reg.row0 - drow, reg.col0 - dcol, reg.row0 - drow, val);
  }

  /**
   * In a region whose column origin differs from its row origin, the
   * as-written range reaches past the span: with row origin 0 and column
   * origin 5, the one-pixel span (0, 5, 5) also covers region pixel (0, 1).
   */
  lemma ClipAsWrittenOverreaches()
    ensures AnyCovers([Span(0, 5, 5)], 0, 5, 0, 1, 2, 0, 1)
    ensures !InMask([Span(0, 5, 5)], 0 + 0, 1 + 5)
  {
    assert [Span(0, 5, 5)][..0] == [];
  }

  /**
   * phRegIntClipValInObjmask with the column origin used at both ends:
   * every region pixel lying under a span of the mask, offset by (drow,
   * dcol), is clipped to val; every other pixel is kept.
   */
  method PhRegIntClipValInObjmask(reg: Region, om: seq<Span>, drow: int, dcol: int, val: int)
    requires reg.ptype == U16 && reg.Valid()
    modifies reg.rows
    ensures forall p, q :: 0 <= p < reg.NRow() && 0 <= q < reg.NCol() ==>
      reg.rows[p, q] == if InMask(om, p + reg.row0 - drow, q + reg.col0 - dcol)
                        then ClipPixel(old(reg.rows[p, q]), val) else old(reg.rows[p, q])
    ensures reg.Valid()
  {
    var rowOrg, colOrg := reg.row0 - drow, reg.col0 - dcol;
    ClipSpans(reg, om, rowOrg, colOrg, colOrg, val);
    forall p, q | 0 <= p < reg.NRow() && 0 <= q < reg.NCol()
      ensures AnyCovers(om, rowOrg, colOrg, colOrg, reg.NRow(), reg.NCol(), p, q) <==> InMask(om, p + rowOrg, q + colOrg)
    {
      AnyCoversIsInMask(om, rowOrg, colOrg, reg.NRow(), reg.NCol(), p, q);
    }
  }
}
