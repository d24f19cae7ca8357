// Unsigned 64-bit machine words and the naturals they denote.
// A uint64_t of the C code is a bv64: its masks, shifts and wrap-around are done on
// bit-vectors, and Val reads a word back as a number.
module Words {
  import opened Arith

  function Half(w: bv64): bv64 { w >> 1 }

  function Double(w: bv64): bv64 { w << 1 }

  function Bit0(w: bv64): bool { w & 1 == 1 }

  function SetBit0(w: bv64, b: bool): bv64 { if b then w | 1 else w }

  function BitNat(b: bool): (r: nat)
    ensures r < 2
  {
    if b then 1 else 0
  }

  lemma HalfLess(w: bv64)
    requires w != 0
    ensures Half(w) < w
  {
  }

  /** The natural number a word denotes. */
  function Val(w: bv64): nat
    decreases w
  {
    if w == 0 then 0 else
      HalfLess(w);
      BitNat(Bit0(w)) + 2 * Val(Half(w))
  }

  /** C's `w >> n` for 0 <= n < 64. */
  function Shr(w: bv64, n: nat): bv64 {
    if n == 0 then w else Half(Shr(w, n - 1))
  }

  /** C's `w << n` for 0 <= n < 64. */
  function Shl(w: bv64, n: nat): bv64 {
    if n == 0 then w else Double(Shl(w, n - 1))
  }

  /** C's conversion of a non-negative integer to uint64_t. */
  function ToWord(n: nat): bv64 {
    if n == 0 then 0 else SetBit0(Double(ToWord(n / 2)), n % 2 == 1)
  }

  /** The word whose n low bits are ones. */
  function Ones(n: nat): bv64 {
    if n == 0 then 0 else SetBit0(Double(Ones(n - 1)), true)
  }

  // ---------- facts about single bits, on bit-vectors only ----------

  predicate TopClear(w: bv64) { w & 0x8000_0000_0000_0000 == 0 }

  lemma HalfOfSetDouble(w: bv64, b: bool)
    requires TopClear(w)
    ensures Half(SetBit0(Double(w), b)) == w
  {
    if b {
      OddBack(w);
    } else {
      EvenBack(w);
    }
  }

  lemma OddBack(w: bv64)
    requires TopClear(w)
    ensures Half(SetBit0(Double(w), true)) == w
  {
  }

  lemma EvenBack(w: bv64)
    requires TopClear(w)
    ensures Half(SetBit0(Double(w), false)) == w
  {
  }

  lemma Bit0OfSetDouble(w: bv64, b: bool)
    ensures Bit0(SetBit0(Double(w), b)) == b
  {
  }

  lemma SetDoubleOfHalf(w: bv64)
    ensures SetBit0(Double(Half(w)), Bit0(w)) == w
  {
  }

  lemma ZeroFacts()
    ensures Half(0) == 0 && Double(0) == 0 && !Bit0(0)
  {
  }

  lemma ValUnfold(w: bv64)
    ensures Val(w) == BitNat(Bit0(w)) + 2 * Val(Half(w))
  {
    ZeroFacts();
  }

  // ---------- shifts ----------

  lemma {:induction false} ShrVal(w: bv64, n: nat)
    ensures Val(Shr(w, n)) == Drop(Val(w), n)
  {
    if n > 0 {
      ShrVal(w, n - 1);
      ValUnfold(Shr(w, n - 1));
    }
  }

  lemma {:induction false} ShrSum(w: bv64, a: nat, b: nat)
    ensures Shr(w, a + b) == Shr(Shr(w, a), b)
  {
    if b > 0 {
      ShrSum(w, a, b - 1);
    }
  }

  function Drop4(w: bv64): bv64 { w >> 4 }

  function Drop16(w: bv64): bv64 { w >> 16 }

  function Drop32(w: bv64): bv64 { w >> 32 }

  lemma Shr4(w: bv64)
    ensures Shr(w, 4) == Drop4(w)
  {
    assert Shr(w, 1) == Half(w);
    assert Shr(w, 2) == Half(Half(w));
    assert Shr(w, 3) == Half(Half(Half(w)));
    HalfFour(w);
  }

  lemma HalfFour(w: bv64)
    ensures Half(Half(Half(Half(w)))) == Drop4(w)
  {
  }

  lemma Shr16(w: bv64)
    ensures Shr(w, 16) == Drop16(w)
  {
    Shr4(w);
    Shr4(Drop4(w));
    Shr4(Drop4(Drop4(w)));
    Shr4(Drop4(Drop4(Drop4(w))));
    ShrSum(w, 4, 4);
    ShrSum(w, 8, 4);
    ShrSum(w, 12, 4);
    DropFour(w);
  }

  lemma DropFour(w: bv64)
    ensures Drop4(Drop4(Drop4(Drop4(w)))) == Drop16(w)
  {
  }

  lemma Shr64(w: bv64)
    ensures Shr(w, 32) == Drop32(w)
    ensures Shr(w, 64) == 0
  {
    Shr16(w);
    Shr16(Drop16(w));
    Shr16(Drop32(w));
    Shr16(Drop16(Drop32(w)));
    ShrSum(w, 16, 16);
    ShrSum(w, 32, 16);
    ShrSum(w, 48, 16);
    DropAll(w);
  }

  lemma DropAll(w: bv64)
    ensures Drop16(Drop16(w)) == Drop32(w)
    ensures Drop16(Drop16(Drop32(w))) == 0
  {
  }

  lemma {:induction false} ShrOfZero(k: nat)
    ensures Shr(0, k) == 0
  {
    ZeroFacts();
    if k > 0 {
      ShrOfZero(k - 1);
    }
  }

  lemma ShrOfHalf(w: bv64, k: nat)
    requires k > 0
    ensures Shr(w, k) == Shr(Half(w), k - 1)
  {
    ShrSum(w, 1, k - 1);
    assert Shr(w, 1) == Half(Shr(w, 0));
  }

  /** A word whose bits from k on are clear has a clear top bit when k < 64. */
  lemma TopBitClear(v: bv64, k: nat)
    requires Shr(v, k) == 0 && k < 64
    ensures TopClear(v)
  {
    ShrSum(v, k, 63 - k);
    ShrOfZero(63 - k);
    ShrSum(v, 63, 1);
    HalfZero(Shr(v, 63));
    Shr63(v);
  }

  lemma HalfZero(w: bv64)
    requires w == 0
    ensures Half(w) == 0
  {
  }

  lemma Shr63(v: bv64)
    ensures Shr(v, 63) == 0 ==> TopClear(v)
  {
    Shr64(v);
    ShrSum(v, 32, 31);
    Shr31(Drop32(v));
    TopBitOf(v);
  }

  lemma Shr31(u: bv64)
    ensures Shr(u, 31) == Half(Half(Half(Drop4(Drop4(Drop4(Drop16(u)))))))
  {
    Shr16(u);
    ShrSum(u, 16, 15);
    Shr4(Drop16(u));
    ShrSum(Drop16(u), 4, 11);
    Shr4(Drop4(Drop16(u)));
    ShrSum(Drop4(Drop16(u)), 4, 7);
    Shr4(Drop4(Drop4(Drop16(u))));
    ShrSum(Drop4(Drop4(Drop16(u))), 4, 3);
    var s := Drop4(Drop4(Drop4(Drop16(u))));
    assert Shr(s, 1) == Half(s);
    assert Shr(s, 2) == Half(Half(s));
    assert Shr(s, 3) == Half(Half(Half(s)));
  }

  lemma TopBitOf(v: bv64)
    ensures Half(Half(Half(Drop4(Drop4(Drop4(Drop16(Drop32(v)))))))) == 0 ==> TopClear(v)
  {
  }

  /** A word shifted right until nothing is left is a small number. */
  lemma HighHalfZero(w: bv64)
    ensures w <= 0xFFFF_FFFF <==> Drop32(w) == 0
  {
  }

  // ---------- conversion ----------

  lemma {:induction false} ToWordVal(n: nat, k: nat)
    requires n < Pow2(k) && k <= 64
    ensures Val(ToWord(n)) == n
    ensures Shr(ToWord(n), k) == 0
  {
    if n == 0 {
      ShrOfZero(k);
    } else {
      ToWordVal(n / 2, k - 1);
      var v := ToWord(n / 2);
      TopBitClear(v, k - 1);
      HalfOfSetDouble(v, n % 2 == 1);
      Bit0OfSetDouble(v, n % 2 == 1);
      ValUnfold(ToWord(n));
      ShrOfHalf(ToWord(n), k);
    }
  }

  lemma ToWord32(n: nat)
    requires n < Pow2(32)
    ensures Val(ToWord(n)) == n && ToWord(n) <= 0xFFFF_FFFF
  {
    ToWordVal(n, 32);
    Shr64(ToWord(n));
    HighHalfZero(ToWord(n));
  }

  lemma {:induction false} ValZero(a: bv64)
    requires Val(a) == 0
    ensures a == 0
    decreases a
  {
    if a != 0 {
      HalfLess(a);
      ValZero(Half(a));
      SetDoubleOfHalf(a);
      ZeroFacts();
    }
  }

  lemma {:induction false} ValInjective(a: bv64, b: bv64)
    requires Val(a) == Val(b)
    ensures a == b
    decreases a
  {
    ValUnfold(a);
    ValUnfold(b);
    if a == 0 {
      ValZero(b);
    } else {
      HalfLess(a);
      ValInjective(Half(a), Half(b));
      SetDoubleOfHalf(a);
      SetDoubleOfHalf(b);
    }
  }

  // ---------- increment, decrement, masking, left shift ----------

  function Inc(w: bv64): bv64 { w + 1 }

  function Dec(w: bv64): bv64 { w - 1 }

  lemma IncBits(w: bv64)
    ensures Bit0(w) ==> !Bit0(Inc(w)) && Half(Inc(w)) == (if w == 0xFFFF_FFFF_FFFF_FFFF then 0 else Inc(Half(w)))
    ensures !Bit0(w) ==> Bit0(Inc(w)) && Half(Inc(w)) == Half(w)
    ensures Half(w) != 0xFFFF_FFFF_FFFF_FFFF
    ensures Inc(Dec(w)) == w
    ensures w != 0 ==> Dec(w) != 0xFFFF_FFFF_FFFF_FFFF
  {
  }

  lemma {:induction false} ValInc(w: bv64)
    requires w != 0xFFFF_FFFF_FFFF_FFFF
    ensures Val(Inc(w)) == Val(w) + 1
    decreases w
  {
    ValUnfold(w);
    ValUnfold(Inc(w));
    IncBits(w);
    if Bit0(w) {
      ZeroFacts();
      HalfLess(w);
      ValInc(Half(w));
    }
  }

  lemma ValDec(w: bv64)
    requires w != 0
    ensures Val(Dec(w)) == Val(w) - 1
  {
    IncBits(w);
    ValInc(Dec(w));
  }

  function And(a: bv64, b: bv64): bv64 { a & b }

  function Or(a: bv64, b: bv64): bv64 { a | b }

  function Plus(a: bv64, b: bv64): bv64 { a + b }

  function Minus(a: bv64, b: bv64): bv64 { a - b }

  lemma AndBits(a: bv64, b: bv64)
    ensures Half(And(a, b)) == And(Half(a), Half(b))
    ensures And(a, 0) == 0
  {
  }

  lemma AndBit0(a: bv64, b: bv64)
    ensures Bit0(And(a, b)) <==> Bit0(a) && Bit0(b)
  {
  }

  lemma {:induction false} OnesTop(n: nat)
    requires n <= 64
    ensures Shr(Ones(n), n) == 0
    ensures n < 64 ==> TopClear(Ones(n))
    ensures n > 0 ==> Half(Ones(n)) == Ones(n - 1) && Bit0(Ones(n))
  {
    if n == 0 {
      ShrOfZero(0);
    } else {
      OnesTop(n - 1);
      HalfOfSetDouble(Ones(n - 1), true);
      Bit0OfSetDouble(Ones(n - 1), true);
      ShrOfHalf(Ones(n), n);
    }
    if n < 64 {
      TopBitClear(Ones(n), n);
    }
  }

  lemma {:induction false} ValOnes(n: nat)
    requires n <= 64
    ensures Val(Ones(n)) == Pow2(n) - 1
  {
    if n > 0 {
      OnesTop(n);
      ValOnes(n - 1);
      ValUnfold(Ones(n));
    }
  }

  /** Masking to the n low bits is the remainder modulo 2^n. */
  lemma {:induction false} ValMask(w: bv64, n: nat)
    requires n <= 64
    ensures Val(And(w, Ones(n))) == Val(w) % Pow2(n)
  {
    AndBits(w, Ones(n));
    AndBit0(w, Ones(n));
    if n > 0 {
      OnesTop(n);
      ValMask(Half(w), n - 1);
      ValUnfold(And(w, Ones(n)));
      ValUnfold(w);
      ModHalf(BitNat(Bit0(w)), Val(Half(w)), Pow2(n - 1));
    }
  }

  lemma ValSmallTop(u: bv64)
    requires Val(u) < Pow2(63)
    ensures TopClear(u)
  {
    ShrVal(u, 63);
    DropZero(Val(u), 63);
    ValZero(Shr(u, 63));
    Shr63(u);
  }

  lemma ValDouble(u: bv64)
    requires Val(u) < Pow2(63)
    ensures Val(Double(u)) == 2 * Val(u)
  {
    ValSmallTop(u);
    HalfOfSetDouble(u, false);
    Bit0OfSetDouble(u, false);
    ValUnfold(Double(u));
  }

  /** A left shift that loses no bit multiplies by a power of two. */
  lemma {:induction false} ValShl(w: bv64, n: nat, k: nat)
    requires Val(w) < Pow2(k) && k + n <= 64
    ensures Val(Shl(w, n)) == Lift(Val(w), n)
  {
    hide Val, Pow2;
    if n > 0 {
      ValShl(w, n - 1, k);
      LiftBound(Val(w), k, n - 1);
      Pow2Mono(k + (n - 1), 63);
      ValDouble(Shl(w, n - 1));
    }
  }
}
