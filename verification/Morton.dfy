// geo/geohash.c: interleaving two 32-bit indices into one 64-bit Morton code, taking it
// apart again, and stepping one cell east, west, north or south on the interleaved bits.
module Morton {
  import opened Arith
  import opened Words

  // ---------- the magic-mask code ----------

  /** One coordinate of interleave64: its low 32 bits moved to the even positions. */
  function Spread(v: bv64): bv64 {
    var x := v;
    var x := (x | (x << 16)) & 0x0000FFFF0000FFFF;
    var x := (x | (x << 8)) & 0x00FF00FF00FF00FF;
    var x := (x | (x << 4)) & 0x0F0F0F0F0F0F0F0F;
    var x := (x | (x << 2)) & 0x3333333333333333;
    (x | (x << 1)) & 0x5555555555555555
  }

  /** One coordinate of deinterleave64: the even bits gathered into the low 32. */
  function Gather(v: bv64): bv64 {
    var x := v;
    var x := (x | (x >> 0)) & 0x5555555555555555;
    var x := (x | (x >> 1)) & 0x3333333333333333;
    var x := (x | (x >> 2)) & 0x0F0F0F0F0F0F0F0F;
    var x := (x | (x >> 4)) & 0x00FF00FF00FF00FF;
    var x := (x | (x >> 8)) & 0x0000FFFF0000FFFF;
    (x | (x >> 16)) & 0x00000000FFFFFFFF
  }

  predicate Is32(x: bv64) { x <= 0xFFFF_FFFF }

  function Weave(x: bv64, y: bv64): bv64 { x | (y << 1) }

  function Interleave64(xlo: bv64, ylo: bv64): bv64
    requires Is32(xlo) && Is32(ylo)
  {
    Weave(Spread(xlo), Spread(ylo))
  }

  function Deinterleave64(interleaved: bv64): bv64 {
    Gather(interleaved) | (Gather(interleaved >> 1) << 32)
  }

  /** `uint32_t ilato = hash_sep`. */
  function LatIndex(bits: bv64): bv64 { Deinterleave64(bits) & 0xFFFF_FFFF }

  /** `uint32_t ilono = hash_sep >> 32`. */
  function LonIndex(bits: bv64): bv64 { Deinterleave64(bits) >> 32 }

  lemma IndexIsGather(bits: bv64)
    ensures LatIndex(bits) == Gather(bits) && Is32(LatIndex(bits))
    ensures LonIndex(bits) == Gather(Half(bits)) && Is32(LonIndex(bits))
  {
  }

  /** deinterleave64 undoes interleave64 on all pairs of 32-bit indices. */
  lemma DeinterleaveInterleave(x: bv64, y: bv64)
    requires Is32(x) && Is32(y)
    ensures LatIndex(Interleave64(x, y)) == x && LonIndex(Interleave64(x, y)) == y
  {
  }

  /** interleave64 undoes deinterleave64 on all 64-bit words. */
  lemma InterleaveDeinterleave(w: bv64)
    ensures Is32(LatIndex(w)) && Is32(LonIndex(w))
    ensures Interleave64(LatIndex(w), LonIndex(w)) == w
  {
  }

  // ---------- the bitwise meaning ----------

  lemma HalvesStay32(x: bv64)
    requires Is32(x)
    ensures Is32(Half(x))
  {
  }

  lemma SpreadHalf(x: bv64)
    requires Is32(x)
    ensures Spread(Half(x)) == Half(Half(Spread(x)))
    ensures Spread(x) & 0xaaaaaaaaaaaaaaaa == 0
  {
  }

  lemma EvenOddHalves(a: bv64, b: bv64, a': bv64, b': bv64)
    requires a & 0xaaaaaaaaaaaaaaaa == 0 && b & 0xaaaaaaaaaaaaaaaa == 0
    requires a' == Half(Half(a)) && b' == Half(Half(b))
    ensures Half(Half(Weave(a, b))) == Weave(a', b')
  {
  }

  lemma InterleaveStep(x: bv64, y: bv64)
    requires Is32(x) && Is32(y)
    ensures Is32(Half(x)) && Is32(Half(y))
    ensures Half(Half(Interleave64(x, y))) == Interleave64(Half(x), Half(y))
  {
    HalvesStay32(x);
    HalvesStay32(y);
    SpreadHalf(x);
    SpreadHalf(y);
    EvenOddHalves(Spread(x), Spread(y), Spread(Half(x)), Spread(Half(y)));
  }

  lemma InterleaveLow(x: bv64, y: bv64)
    requires Is32(x) && Is32(y)
    ensures Bit0(Interleave64(x, y)) == Bit0(x)
    ensures Bit0(Half(Interleave64(x, y))) == Bit0(y)
  {
  }

  lemma {:induction false} ShrStays32(x: bv64, k: nat)
    requires Is32(x)
    ensures Is32(Shr(x, k))
  {
    if k > 0 {
      ShrStays32(x, k - 1);
      HalvesStay32(Shr(x, k - 1));
    }
  }

  lemma {:induction false} InterleaveShr(x: bv64, y: bv64, k: nat)
    requires Is32(x) && Is32(y)
    ensures Is32(Shr(x, k)) && Is32(Shr(y, k))
    ensures Shr(Interleave64(x, y), 2 * k) == Interleave64(Shr(x, k), Shr(y, k))
  {
    ShrStays32(x, k);
    ShrStays32(y, k);
    if k > 0 {
      InterleaveShr(x, y, k - 1);
      InterleaveStep(Shr(x, k - 1), Shr(y, k - 1));
      assert Shr(Interleave64(x, y), 2 * k - 1) == Half(Shr(Interleave64(x, y), 2 * (k - 1)));
    }
  }

  /** Bit 2k of the code is bit k of x; bit 2k+1 is bit k of y. */
  lemma InterleaveBits(x: bv64, y: bv64, k: nat)
    requires Is32(x) && Is32(y)
    ensures Bit0(Shr(Interleave64(x, y), 2 * k)) == Bit0(Shr(x, k))
    ensures Bit0(Shr(Interleave64(x, y), 2 * k + 1)) == Bit0(Shr(y, k))
  {
    InterleaveShr(x, y, k);
    InterleaveLow(Shr(x, k), Shr(y, k));
  }

  // ---------- the same code on numbers ----------

  /** The number whose base-4 digits are made of the binary digits of i (low) and j (high). */
  function MortonCode(i: nat, j: nat): nat
    decreases i + j
  {
    if i == 0 && j == 0 then 0
    else (i % 2) + 2 * (j % 2) + 4 * MortonCode(i / 2, j / 2)
  }

  lemma BitIsParity(x: bv64)
    ensures Val(x) % 2 == BitNat(Bit0(x)) && Val(x) / 2 == Val(Half(x))
  {
    ValUnfold(x);
  }

  lemma ZeroCode(x: bv64, y: bv64)
    requires Is32(x) && Is32(y)
    ensures Interleave64(x, y) == 0 <==> x == 0 && y == 0
  {
  }

  lemma InterleaveDigits(x: bv64, y: bv64)
    requires Is32(x) && Is32(y)
    ensures Is32(Half(x)) && Is32(Half(y))
    ensures Val(Interleave64(x, y))
         == BitNat(Bit0(x)) + 2 * BitNat(Bit0(y)) + 4 * Val(Interleave64(Half(x), Half(y)))
  {
    InterleaveStep(x, y);
    InterleaveLow(x, y);
    ValUnfold(Interleave64(x, y));
    ValUnfold(Half(Interleave64(x, y)));
  }

  lemma {:induction false} InterleaveVal(x: bv64, y: bv64)
    requires Is32(x) && Is32(y)
    ensures Val(Interleave64(x, y)) == MortonCode(Val(x), Val(y))
    decreases Val(x) + Val(y)
  {
    ZeroCode(x, y);
    if Val(x) == 0 && Val(y) == 0 {
      ValZero(x);
      ValZero(y);
    } else {
      BitIsParity(x);
      BitIsParity(y);
      InterleaveDigits(x, y);
      HalvesStay32(x);
      HalvesStay32(y);
      InterleaveVal(Half(x), Half(y));
      MortonDigits(Val(x), Val(y));
    }
  }

  /** Dropping k base-4 digits of a code drops k bits of each index. */
  lemma {:induction false} MortonPrefix(i: nat, j: nat, k: nat)
    ensures Drop(MortonCode(i, j), 2 * k) == MortonCode(Drop(i, k), Drop(j, k))
  {
    if k > 0 {
      MortonPrefix(i, j, k - 1);
      assert Drop(MortonCode(i, j), 2 * k - 1) == Drop(MortonCode(i, j), 2 * (k - 1)) / 2;
      MortonDigits(Drop(i, k - 1), Drop(j, k - 1));
    }
  }

  lemma {:induction false} MortonInjective(i: nat, j: nat, i': nat, j': nat)
    requires MortonCode(i, j) == MortonCode(i', j')
    ensures i == i' && j == j'
    decreases i + j + i' + j'
  {
    if i + j + i' + j' > 0 {
      MortonDigits(i, j);
      MortonDigits(i', j');
      MortonInjective(i / 2, j / 2, i' / 2, j' / 2);
    }
  }

  lemma MortonDigits(i: nat, j: nat)
    ensures MortonCode(i, j) == (i % 2) + 2 * (j % 2) + 4 * MortonCode(i / 2, j / 2)
  {
  }

  /** Row r can hold the cell whose code comes just before that of cell (i, j). */
  predicate RowPrecedes(r: nat, i: nat, j: nat) {
    if i % 2 == 1 then r + 1 == i
    else if j % 2 == 1 then r == i + 1
    else r + 1 == i || r > i
  }

  lemma {:induction false} RowBefore(i: nat, j: nat, i': nat, j': nat)
    requires MortonCode(i', j') + 1 == MortonCode(i, j)
    ensures RowPrecedes(i', i, j)
    decreases i + j
  {
    hide MortonCode;
    MortonDigits(i, j);
    MortonDigits(i', j');
    if i % 2 == 1 || j % 2 == 1 {
      MortonInjective(i / 2, j / 2, i' / 2, j' / 2);
    } else {
      if i == 0 && j == 0 {
        CodeIsZero(i, j);
      }
      RowBefore(i / 2, j / 2, i' / 2, j' / 2);
    }
  }

  /** Codes are numbers below 4^n exactly when both indices are below 2^n. */
  lemma MortonBound(i: nat, j: nat, n: nat)
    ensures MortonCode(i, j) < Pow2(2 * n) <==> i < Pow2(n) && j < Pow2(n)
  {
    MortonPrefix(i, j, n);
    DropZero(MortonCode(i, j), 2 * n);
    DropZero(i, n);
    DropZero(j, n);
    CodeIsZero(Drop(i, n), Drop(j, n));
  }

  lemma CodeIsZero(i: nat, j: nat)
    ensures MortonCode(i, j) == 0 <==> i == 0 && j == 0
  {
    if MortonCode(i, j) == 0 {
      MortonInjective(i, j, 0, 0);
    }
  }

  /** The number made of the bits 0, 2, 4, ... of n: the latitude index of a code. */
  function EvenDigits(n: nat): nat {
    if n == 0 then 0 else n % 2 + 2 * EvenDigits(n / 4)
  }

  /** The number made of the bits 1, 3, 5, ... of n: the longitude index of a code. */
  function OddDigits(n: nat): nat {
    if n == 0 then 0 else n / 2 % 2 + 2 * OddDigits(n / 4)
  }

  lemma FirstDigit(b: nat, t: nat)
    requires b < 2
    ensures (b + 2 * t) % 2 == b && (b + 2 * t) / 2 == t
  {
  }

  lemma JoinDigits(b: nat, c: nat, i: nat, j: nat)
    requires b < 2 && c < 2
    ensures MortonCode(b + 2 * i, c + 2 * j) == b + 2 * c + 4 * MortonCode(i, j)
  {
    FirstDigit(b, i);
    FirstDigit(c, j);
    MortonDigits(b + 2 * i, c + 2 * j);
  }

  lemma BaseFour(n: nat)
    ensures n == n % 2 + 2 * (n / 2 % 2) + 4 * (n / 4)
  {
    assert n / 4 == n / 2 / 2;
  }

  lemma {:induction false} DigitsOfCode(n: nat)
    ensures MortonCode(EvenDigits(n), OddDigits(n)) == n
  {
    if n > 0 {
      hide MortonCode;
      DigitsOfCode(n / 4);
      JoinDigits(n % 2, n / 2 % 2, EvenDigits(n / 4), OddDigits(n / 4));
      BaseFour(n);
    } else {
      MortonDigits(0, 0);
    }
  }

  /** The two indices of a word, as numbers. */
  function Row(bits: bv64): nat { Val(LatIndex(bits)) }

  function Col(bits: bv64): nat { Val(LonIndex(bits)) }

  lemma CodeOfRowCol(bits: bv64)
    ensures Val(bits) == MortonCode(Row(bits), Col(bits))
  {
    InterleaveDeinterleave(bits);
    InterleaveVal(LatIndex(bits), LonIndex(bits));
  }

  lemma RowColOfInterleave(i: nat, j: nat)
    requires i < Pow2(32) && j < Pow2(32)
    ensures Is32(ToWord(i)) && Is32(ToWord(j))
    ensures Row(Interleave64(ToWord(i), ToWord(j))) == i
    ensures Col(Interleave64(ToWord(i), ToWord(j))) == j
    ensures Val(Interleave64(ToWord(i), ToWord(j))) == MortonCode(i, j)
  {
    ToWord32(i);
    ToWord32(j);
    DeinterleaveInterleave(ToWord(i), ToWord(j));
    InterleaveVal(ToWord(i), ToWord(j));
  }

  // ---------- stepping on interleaved bits ----------

  const ODD: bv64 := 0xaaaaaaaaaaaaaaaa
  const EVEN: bv64 := 0x5555555555555555

  function OddBits(w: bv64): bv64 { w & ODD }

  function EvenBits(w: bv64): bv64 { w & EVEN }

  /** x = x + (zz + 1), masked. */
  function Up(x: bv64, zz: bv64, mask: bv64): bv64 { And(Plus(x, Inc(zz)), mask) }

  /** x = x | zz, then x = x - (zz + 1), masked. */
  function Down(x: bv64, zz: bv64, mask: bv64): bv64 { And(Minus(Or(x, zz), Inc(zz)), mask) }

  /** geohash_move_x. */
  function MovedX(bits: bv64, step: nat, d: int): bv64
    requires 1 <= step <= 32
  {
    var even, odd := Shr(EVEN, 64 - step * 2), Shr(ODD, 64 - step * 2);
    if d == 0 then bits
    else
      var x := if d > 0 then Up(OddBits(bits), even, odd) else Down(OddBits(bits), even, odd);
      Or(x, EvenBits(bits))
  }

  /** geohash_move_y. */
  function MovedY(bits: bv64, step: nat, d: int): bv64
    requires 1 <= step <= 32
  {
    var even, odd := Shr(EVEN, 64 - step * 2), Shr(ODD, 64 - step * 2);
    if d == 0 then bits
    else
      var y := if d > 0 then Up(EvenBits(bits), odd, even) else Down(EvenBits(bits), odd, even);
      Or(OddBits(bits), y)
  }

  /** All the bits below a set bit are set. */
  predicate LowMask(m: bv64) { (m >> 1) & m == m >> 1 }

  /** f and a are the even and odd bits of a mask of 2n ones; m is the mask of n ones. */
  predicate MaskTriple(f: bv64, a: bv64, m: bv64) {
    f & ODD == 0 && a == f << 1 && LowMask(f | a) && m == Gather(f)
  }

  // What each step does to the bits of one coordinate.

  lemma OddUp(o: bv64, f: bv64, a: bv64, m: bv64)
    requires MaskTriple(f, a, m) && EvenBits(o) == 0
    ensures Gather(Half(Up(o, f, a))) == And(Inc(Gather(Half(o))), m)
  {
  }

  lemma OddDown(o: bv64, f: bv64, a: bv64, m: bv64)
    requires MaskTriple(f, a, m) && EvenBits(o) == 0
    ensures Gather(Half(Down(o, f, a))) == And(Dec(Gather(Half(o))), m)
  {
  }

  lemma EvenUp(e: bv64, f: bv64, a: bv64, m: bv64)
    requires MaskTriple(f, a, m) && OddBits(e) == 0
    ensures Gather(Up(e, a, f)) == And(Inc(Gather(e)), m)
  {
  }

  lemma EvenDown(e: bv64, f: bv64, a: bv64, m: bv64)
    requires MaskTriple(f, a, m) && OddBits(e) == 0
    ensures Gather(Down(e, a, f)) == And(Dec(Gather(e)), m)
  {
  }

  lemma StaysOdd(x: bv64, zz: bv64, f: bv64, a: bv64, m: bv64)
    requires MaskTriple(f, a, m)
    ensures EvenBits(Up(x, zz, a)) == 0 && EvenBits(Down(x, zz, a)) == 0
  {
  }

  lemma StaysEven(x: bv64, zz: bv64, f: bv64, a: bv64, m: bv64)
    requires MaskTriple(f, a, m)
    ensures OddBits(Up(x, zz, f)) == 0 && OddBits(Down(x, zz, f)) == 0
  {
  }

  // How the two coordinates are told apart and put together again.

  lemma GatherEven(x: bv64, y: bv64)
    requires EvenBits(x) == EvenBits(y)
    ensures Gather(x) == Gather(y)
  {
  }

  lemma EvenPart(t: bv64, u: bv64)
    requires EvenBits(t) == 0
    ensures EvenBits(Or(t, u)) == EvenBits(u)
  {
  }

  lemma OddPart(t: bv64, u: bv64)
    requires OddBits(u) == 0
    ensures EvenBits(Half(Or(t, u))) == EvenBits(Half(t))
  {
  }

  lemma TakeEven(x: bv64)
    ensures EvenBits(EvenBits(x)) == EvenBits(x) && OddBits(EvenBits(x)) == 0
  {
  }

  lemma TakeOdd(x: bv64)
    ensures EvenBits(Half(OddBits(x))) == EvenBits(Half(x)) && EvenBits(OddBits(x)) == 0
  {
  }

  /** The indices of a word with even bits from u and odd bits from t. */
  lemma Parts(t: bv64, u: bv64)
    requires EvenBits(t) == 0 && OddBits(u) == 0
    ensures Row(Or(t, u)) == Val(Gather(u)) && Col(Or(t, u)) == Val(Gather(Half(t)))
  {
    EvenPart(t, u);
    OddPart(t, u);
    GatherEven(Or(t, u), u);
    GatherEven(Half(Or(t, u)), Half(t));
    RowColIsGather(Or(t, u));
  }

  /** Row and Col are read off the even and the odd bits separately. */
  lemma Taken(x: bv64)
    ensures OddBits(EvenBits(x)) == 0 && EvenBits(OddBits(x)) == 0
    ensures Row(x) == Val(Gather(EvenBits(x))) && Col(x) == Val(Gather(Half(OddBits(x))))
  {
    TakeEven(x);
    TakeOdd(x);
    GatherEven(EvenBits(x), x);
    GatherEven(Half(OddBits(x)), Half(x));
    RowColIsGather(x);
  }

  lemma RowColIsGather(bits: bv64)
    ensures Row(bits) == Val(Gather(bits)) && Col(bits) == Val(Gather(Half(bits)))
  {
    IndexIsGather(bits);
  }

  lemma GatherIs32(bits: bv64)
    ensures Is32(Gather(bits))
  {
  }

  lemma TopMasks()
    ensures MaskTriple(EVEN, ODD, 0xFFFF_FFFF)
  {
  }

  lemma Ones32()
    ensures Ones(32) == 0xFFFF_FFFF
  {
    FourMoreOnes(0, 0);
    FourMoreOnes(4, 0xF);
    FourMoreOnes(8, 0xFF);
    FourMoreOnes(12, 0xFFF);
    FourMoreOnes(16, 0xFFFF);
    FourMoreOnes(20, 0xF_FFFF);
    FourMoreOnes(24, 0xFF_FFFF);
    FourMoreOnes(28, 0xFFF_FFFF);
  }

  function WithFourOnes(w: bv64): bv64 { (w << 4) | 0xF }

  lemma FourOnes(w: bv64)
    ensures SetBit0(Double(SetBit0(Double(SetBit0(Double(SetBit0(Double(w), true)), true)), true)), true) == WithFourOnes(w)
  {
  }

  lemma FourMoreOnes(n: nat, w: bv64)
    requires Ones(n) == w
    ensures Ones(n + 4) == WithFourOnes(w)
  {
    assert Ones(n + 1) == SetBit0(Double(w), true);
    assert Ones(n + 2) == SetBit0(Double(Ones(n + 1)), true);
    assert Ones(n + 3) == SetBit0(Double(Ones(n + 2)), true);
    FourOnes(w);
  }

  lemma NarrowMasks(f: bv64, a: bv64, m: bv64)
    requires MaskTriple(f, a, m)
    ensures MaskTriple(Half(Half(f)), Half(Half(a)), Half(m))
  {
  }

  /** The masks of both move functions, for every step. */
  lemma {:induction false} StepMasks(step: nat)
    requires step <= 32
    ensures MaskTriple(Shr(EVEN, 64 - step * 2), Shr(ODD, 64 - step * 2), Ones(step))
    decreases 32 - step
  {
    if step == 32 {
      TopMasks();
      Ones32();
    } else {
      StepMasks(step + 1);
      var n := 64 - (step + 1) * 2;
      var f, a := Shr(EVEN, n), Shr(ODD, n);
      NarrowMasks(f, a, Ones(step + 1));
      OnesTop(step + 1);
      assert Shr(EVEN, n + 1) == Half(f);
      assert Shr(ODD, n + 1) == Half(a);
    }
  }

  function Sign(d: int): int {
    if d > 0 then 1 else if d < 0 then -1 else 0
  }

  /** Index i moved by d on a circle of 2^step cells. */
  function Around(i: nat, d: int, step: nat): nat
  {
    if d == 0 then i else (i + Sign(d)) % Pow2(step)
  }

  lemma IncModulo(g: bv64, step: nat)
    requires Is32(g) && step <= 32
    ensures Val(And(Inc(g), Ones(step))) == Around(Val(g), 1, step)
  {
    ValInc(g);
    ValMask(Inc(g), step);
  }

  lemma DecOfZero(m: bv64)
    ensures And(Dec(0), m) == m
  {
  }

  lemma DecModulo(g: bv64, step: nat)
    requires Is32(g) && step <= 32
    ensures Val(And(Dec(g), Ones(step))) == Around(Val(g), -1, step)
  {
    if g == 0 {
      DecOfZero(Ones(step));
      ValOnes(step);
      QuotientUnique(-1, Pow2(step), -1, Pow2(step) - 1);
    } else {
      ValDec(g);
      ValMask(Dec(g), step);
    }
  }

  lemma OddUpModular(bits: bv64, step: nat, f: bv64, a: bv64)
    requires step <= 32 && MaskTriple(f, a, Ones(step))
    ensures Row(Or(Up(OddBits(bits), f, a), EvenBits(bits))) == Row(bits)
    ensures Col(Or(Up(OddBits(bits), f, a), EvenBits(bits))) == Around(Col(bits), 1, step)
  {
    Taken(bits);
    StaysOdd(OddBits(bits), f, f, a, Ones(step));
    Parts(Up(OddBits(bits), f, a), EvenBits(bits));
    OddUp(OddBits(bits), f, a, Ones(step));
    GatherIs32(Half(OddBits(bits)));
    IncModulo(Gather(Half(OddBits(bits))), step);
  }

  lemma OddDownModular(bits: bv64, step: nat, f: bv64, a: bv64)
    requires step <= 32 && MaskTriple(f, a, Ones(step))
    ensures Row(Or(Down(OddBits(bits), f, a), EvenBits(bits))) == Row(bits)
    ensures Col(Or(Down(OddBits(bits), f, a), EvenBits(bits))) == Around(Col(bits), -1, step)
  {
    Taken(bits);
    StaysOdd(OddBits(bits), f, f, a, Ones(step));
    Parts(Down(OddBits(bits), f, a), EvenBits(bits));
    OddDown(OddBits(bits), f, a, Ones(step));
    GatherIs32(Half(OddBits(bits)));
    DecModulo(Gather(Half(OddBits(bits))), step);
  }

  lemma EvenUpModular(bits: bv64, step: nat, f: bv64, a: bv64)
    requires step <= 32 && MaskTriple(f, a, Ones(step))
    ensures Col(Or(OddBits(bits), Up(EvenBits(bits), a, f))) == Col(bits)
    ensures Row(Or(OddBits(bits), Up(EvenBits(bits), a, f))) == Around(Row(bits), 1, step)
  {
    Taken(bits);
    StaysEven(EvenBits(bits), a, f, a, Ones(step));
    Parts(OddBits(bits), Up(EvenBits(bits), a, f));
    EvenUp(EvenBits(bits), f, a, Ones(step));
    GatherIs32(EvenBits(bits));
    IncModulo(Gather(EvenBits(bits)), step);
  }

  lemma EvenDownModular(bits: bv64, step: nat, f: bv64, a: bv64)
    requires step <= 32 && MaskTriple(f, a, Ones(step))
    ensures Col(Or(OddBits(bits), Down(EvenBits(bits), a, f))) == Col(bits)
    ensures Row(Or(OddBits(bits), Down(EvenBits(bits), a, f))) == Around(Row(bits), -1, step)
  {
    Taken(bits);
    StaysEven(EvenBits(bits), a, f, a, Ones(step));
    Parts(OddBits(bits), Down(EvenBits(bits), a, f));
    EvenDown(EvenBits(bits), f, a, Ones(step));
    GatherIs32(EvenBits(bits));
    DecModulo(Gather(EvenBits(bits)), step);
  }

  /** geohash_move_x is addition modulo 2^step on the longitude index, for every word. */
  lemma MovedXModular(bits: bv64, step: nat, d: int)
    requires 1 <= step <= 32
    ensures Row(MovedX(bits, step, d)) == Row(bits)
    ensures Col(MovedX(bits, step, d)) == Around(Col(bits), d, step)
  {
    StepMasks(step);
    if d > 0 {
      OddUpModular(bits, step, Shr(EVEN, 64 - step * 2), Shr(ODD, 64 - step * 2));
    } else if d < 0 {
      OddDownModular(bits, step, Shr(EVEN, 64 - step * 2), Shr(ODD, 64 - step * 2));
    }
  }

  /** geohash_move_y is addition modulo 2^step on the latitude index, for every word. */
  lemma MovedYModular(bits: bv64, step: nat, d: int)
    requires 1 <= step <= 32
    ensures Col(MovedY(bits, step, d)) == Col(bits)
    ensures Row(MovedY(bits, step, d)) == Around(Row(bits), d, step)
  {
    StepMasks(step);
    if d > 0 {
      EvenUpModular(bits, step, Shr(EVEN, 64 - step * 2), Shr(ODD, 64 - step * 2));
    } else if d < 0 {
      EvenDownModular(bits, step, Shr(EVEN, 64 - step * 2), Shr(ODD, 64 - step * 2));
    }
  }

  /** A word is determined by its two indices. */
  lemma RowColDetermine(a: bv64, b: bv64)
    requires Row(a) == Row(b) && Col(a) == Col(b)
    ensures a == b
  {
    CodeOfRowCol(a);
    CodeOfRowCol(b);
    ValInjective(a, b);
  }

  /** Moves along the two axes commute, for every word. */
  lemma MovesCommute(bits: bv64, step: nat, dx: int, dy: int)
    requires 1 <= step <= 32
    ensures MovedY(MovedX(bits, step, dx), step, dy) == MovedX(MovedY(bits, step, dy), step, dx)
  {
    MovedXModular(bits, step, dx);
    MovedYModular(bits, step, dy);
    MovedYModular(MovedX(bits, step, dx), step, dy);
    MovedXModular(MovedY(bits, step, dy), step, dx);
    RowColDetermine(MovedY(MovedX(bits, step, dx), step, dy), MovedX(MovedY(bits, step, dy), step, dx));
  }

  lemma AroundAndBack(i: nat, d: int, step: nat)
    requires d != 0
    ensures Around(Around(i, d, step), -d, step) == i <==> i < Pow2(step)
  {
    hide Pow2;
    var n := Pow2(step);
    var k := i + Sign(d);
    DivMod(k, n);
    if i < n {
      QuotientUnique(k % n - Sign(d), n, -(k / n), i);
    }
  }

  /** A step east (west) is undone by a step west (east) exactly when the index is on the grid. */
  lemma MoveXUndone(bits: bv64, step: nat, d: int)
    requires 1 <= step <= 32 && d != 0
    ensures MovedX(MovedX(bits, step, d), step, -d) == bits <==> Col(bits) < Pow2(step)
  {
    hide MovedX, Row, Col, Around, Pow2;
    MovedXModular(bits, step, d);
    MovedXModular(MovedX(bits, step, d), step, -d);
    AroundAndBack(Col(bits), d, step);
    if Col(bits) < Pow2(step) {
      RowColDetermine(MovedX(MovedX(bits, step, d), step, -d), bits);
    }
  }

  lemma MoveYUndone(bits: bv64, step: nat, d: int)
    requires 1 <= step <= 32 && d != 0
    ensures MovedY(MovedY(bits, step, d), step, -d) == bits <==> Row(bits) < Pow2(step)
  {
    hide MovedY, Row, Col, Around, Pow2;
    MovedYModular(bits, step, d);
    MovedYModular(MovedY(bits, step, d), step, -d);
    AroundAndBack(Row(bits), d, step);
    if Row(bits) < Pow2(step) {
      RowColDetermine(MovedY(MovedY(bits, step, d), step, -d), bits);
    }
  }

  /** The indices deinterleave64 takes from a number's word are its even and odd digits. */
  lemma RowColOfNumber(n: nat)
    requires n < Pow2(64)
    ensures Row(ToWord(n)) == EvenDigits(n) && Col(ToWord(n)) == OddDigits(n)
  {
    ToWordVal(n, 64);
    CodeOfRowCol(ToWord(n));
    DigitsOfCode(n);
    MortonInjective(Row(ToWord(n)), Col(ToWord(n)), EvenDigits(n), OddDigits(n));
  }
}
