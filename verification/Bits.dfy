/** Bitmaps numbered from the most significant bit, as bytes and as 64-bit words. */
module Bits {

  // ---------------------------------------------------------------- bytes

  /** The shift that reaches bit `k` of a byte, bit 0 being the most significant. */
  function Shift8(k: nat): bv3
    requires k < 8
  {
    (7 - k) as bv3
  }

  lemma RoundTrip3(x: nat)
    requires x < 8
    ensures (x as bv3) as nat == x
  {
  }

  lemma Shift8Injective(i: nat, j: nat)
    requires i < 8 && j < 8
    ensures Shift8(i) == Shift8(j) <==> i == j
  {
    RoundTrip3(7 - i);
    RoundTrip3(7 - j);
  }

  predicate Test8(w: bv8, s: bv3) {
    (w >> s) & 1 == 1
  }

  function SetAt8(w: bv8, s: bv3): bv8 {
    w | (1 << s)
  }

  function ClearAt8(w: bv8, s: bv3): bv8 {
    w & !(1 << s)
  }

  lemma SetTest8(w: bv8, i: bv3, j: bv3)
    ensures Test8(SetAt8(w, i), j) == (i == j || Test8(w, j))
  {
  }

  lemma ClearTest8(w: bv8, i: bv3, j: bv3)
    ensures Test8(ClearAt8(w, i), j) == (i != j && Test8(w, j))
  {
  }

  predicate Bit8(w: bv8, k: nat)
    requires k < 8
  {
    Test8(w, Shift8(k))
  }

  function Set8(w: bv8, k: nat): bv8
    requires k < 8
  {
    SetAt8(w, Shift8(k))
  }

  function Clear8(w: bv8, k: nat): bv8
    requires k < 8
  {
    ClearAt8(w, Shift8(k))
  }

  lemma SetBit8(w: bv8, i: nat, j: nat)
    requires i < 8 && j < 8
    ensures Bit8(Set8(w, i), j) <==> i == j || Bit8(w, j)
  {
    hide Test8, SetAt8, Shift8;
    Shift8Injective(i, j);
    SetTest8(w, Shift8(i), Shift8(j));
  }

  lemma ClearBit8(w: bv8, i: nat, j: nat)
    requires i < 8 && j < 8
    ensures Bit8(Clear8(w, i), j) <==> i != j && Bit8(w, j)
  {
    hide Test8, ClearAt8, Shift8;
    Shift8Injective(i, j);
    ClearTest8(w, Shift8(i), Shift8(j));
  }

  /** How many ones `w` starts with, counted from bit `k`. */
  function LeadingOnes8(w: bv8, k: nat := 0): (n: nat)
    requires k <= 8
    ensures k <= n <= 8 && (n < 8 ==> !Bit8(w, n))
    ensures forall i :: k <= i < n ==> Bit8(w, i)
    decreases 8 - k
  {
    hide Bit8;
    if k == 8 || !Bit8(w, k) then k else LeadingOnes8(w, k + 1)
  }

  lemma Tests8(w: bv8)
    ensures w == 0xFF <==> Test8(w, 0) && Test8(w, 1) && Test8(w, 2) && Test8(w, 3)
                           && Test8(w, 4) && Test8(w, 5) && Test8(w, 6) && Test8(w, 7)
    ensures w == 0 <==> !Test8(w, 0) && !Test8(w, 1) && !Test8(w, 2) && !Test8(w, 3)
                        && !Test8(w, 4) && !Test8(w, 5) && !Test8(w, 6) && !Test8(w, 7)
  {
  }

  lemma Shifts8()
    ensures Shift8(0) == 7 && Shift8(1) == 6 && Shift8(2) == 5 && Shift8(3) == 4
    ensures Shift8(4) == 3 && Shift8(5) == 2 && Shift8(6) == 1 && Shift8(7) == 0
  {
  }

  lemma Constants8(w: bv8)
    ensures w == 0xFF <==> Bit8(w, 0) && Bit8(w, 1) && Bit8(w, 2) && Bit8(w, 3)
                           && Bit8(w, 4) && Bit8(w, 5) && Bit8(w, 6) && Bit8(w, 7)
    ensures w == 0 <==> !Bit8(w, 0) && !Bit8(w, 1) && !Bit8(w, 2) && !Bit8(w, 3)
                        && !Bit8(w, 4) && !Bit8(w, 5) && !Bit8(w, 6) && !Bit8(w, 7)
  {
    hide Test8, Shift8;
    Tests8(w);
    Shifts8();
  }

  lemma AllOnes8(w: bv8)
    ensures w == 0xFF <==> LeadingOnes8(w) == 8
  {
    hide Bit8, LeadingOnes8;
    Constants8(w);
    var n := LeadingOnes8(w);
    assert n == 0 || n == 1 || n == 2 || n == 3 || n == 4 || n == 5 || n == 6 || n == 7 || n == 8;
  }

  lemma AllZeros8(w: bv8)
    ensures w == 0 <==> forall k: nat :: k < 8 ==> !Bit8(w, k)
  {
    hide Bit8;
    Constants8(w);
  }

  // ---------------------------------------------------------------- 64-bit words

  const MAX64: bv64 := 0xFFFF_FFFF_FFFF_FFFF

  function Shift64(k: nat): bv6
    requires k < 64
  {
    (63 - k) as bv6
  }

  lemma RoundTrip6(x: nat)
    requires x < 64
    ensures (x as bv6) as nat == x
  {
  }

  lemma Shift64Injective(i: nat, j: nat)
    requires i < 64 && j < 64
    ensures Shift64(i) == Shift64(j) <==> i == j
  {
    RoundTrip6(63 - i);
    RoundTrip6(63 - j);
  }

  lemma Shift64Onto(s: bv6)
    ensures s as nat < 64 && Shift64(63 - s as nat) == s
  {
  }

  function Wide(s: bv6): (w: bv64)
    ensures w < 64
  {
    s as bv64
  }

  lemma WideShifts(i: bv6, j: bv6)
    ensures Wide(i) < 64 && Wide(j) < 64
    ensures Wide(i) == Wide(j) <==> i == j
  {
  }

  predicate TestWide(w: bv64, s: bv64)
    requires s < 64
  {
    (w >> s) & 1 == 1
  }

  function OneAt(s: bv64): bv64
    requires s < 64
  {
    1 << s
  }

  function SetWide(w: bv64, s: bv64): bv64
    requires s < 64
  {
    w | OneAt(s)
  }

  function ClearWide(w: bv64, s: bv64): bv64
    requires s < 64
  {
    w & !OneAt(s)
  }

  predicate Test64(w: bv64, s: bv6) {
    TestWide(w, Wide(s))
  }

  function SetAt64(w: bv64, s: bv6): bv64 {
    SetWide(w, Wide(s))
  }

  function ClearAt64(w: bv64, s: bv6): bv64 {
    ClearWide(w, Wide(s))
  }

  lemma SetShifted(w: bv64, i: bv64, j: bv64)
    requires i < 64 && j < 64
    ensures TestWide(SetWide(w, i), j) == (i == j || TestWide(w, j))
  {
  }

  lemma NotTest64(w: bv64, s: bv6)
    ensures Test64(!w, s) == !Test64(w, s)
  {
  }

  /** Clearing a bit is setting it in the complement. */
  lemma ClearIsSet(w: bv64, s: bv6)
    ensures ClearAt64(w, s) == !SetAt64(!w, s)
  {
    hide Wide, SetWide, ClearWide;
    DeMorgan(w, Wide(s));
  }

  lemma DeMorgan(w: bv64, s: bv64)
    requires s < 64
    ensures ClearWide(w, s) == !SetWide(!w, s)
  {
    hide OneAt;
    Complement(w, OneAt(s));
  }

  lemma Complement(w: bv64, m: bv64)
    ensures w & !m == !(!w | m)
  {
  }

  lemma SetTest64(w: bv64, i: bv6, j: bv6)
    ensures Test64(SetAt64(w, i), j) == (i == j || Test64(w, j))
  {
    hide Wide, TestWide, SetWide;
    WideShifts(i, j);
    SetShifted(w, Wide(i), Wide(j));
  }

  lemma ClearTest64(w: bv64, i: bv6, j: bv6)
    ensures Test64(ClearAt64(w, i), j) == (i != j && Test64(w, j))
  {
    hide Test64, SetAt64, ClearAt64;
    ClearIsSet(w, i);
    NotTest64(SetAt64(!w, i), j);
    SetTest64(!w, i, j);
    NotTest64(w, j);
  }

  predicate Bit64(w: bv64, k: nat)
    requires k < 64
  {
    Test64(w, Shift64(k))
  }

  function Set64(w: bv64, k: nat): bv64
    requires k < 64
  {
    SetAt64(w, Shift64(k))
  }

  function Clear64(w: bv64, k: nat): bv64
    requires k < 64
  {
    ClearAt64(w, Shift64(k))
  }

  lemma SetBit64(w: bv64, i: nat, j: nat)
    requires i < 64 && j < 64
    ensures Bit64(Set64(w, i), j) <==> i == j || Bit64(w, j)
  {
    hide Test64, SetAt64, Shift64;
    Shift64Injective(i, j);
    SetTest64(w, Shift64(i), Shift64(j));
  }

  lemma ClearBit64(w: bv64, i: nat, j: nat)
    requires i < 64 && j < 64
    ensures Bit64(Clear64(w, i), j) <==> i != j && Bit64(w, j)
  {
    hide Test64, ClearAt64, Shift64;
    Shift64Injective(i, j);
    ClearTest64(w, Shift64(i), Shift64(j));
  }

  function LeadingOnes64(w: bv64, k: nat := 0): (n: nat)
    requires k <= 64
    ensures k <= n <= 64
    decreases 64 - k
  {
    if k == 64 || !Bit64(w, k) then k else LeadingOnes64(w, k + 1)
  }

  lemma {:induction false} LeadingOnesEnd64(w: bv64, k: nat := 0)
    requires k <= 64
    ensures var n := LeadingOnes64(w, k);
      && (n < 64 ==> !Bit64(w, n))
      && forall i :: k <= i < n ==> Bit64(w, i)
    decreases 64 - k
  {
    hide Bit64;
    if k < 64 && Bit64(w, k) {
      LeadingOnesEnd64(w, k + 1);
    }
  }

  /** All ones of `w` from shift `s` up. */
  predicate OnesFrom(w: bv64, s: bv6) {
    w | ((1 << s) - 1) == MAX64
  }

  lemma OnesFromTop(w: bv64)
    requires Test64(w, 63)
    ensures OnesFrom(w, 63)
  {
  }

  lemma OnesFromNext(w: bv64, s: bv6)
    requires s < 63 && OnesFrom(w, s + 1) && Test64(w, s)
    ensures OnesFrom(w, s)
  {
  }

  lemma OnesFromBottom(w: bv64)
    requires OnesFrom(w, 0)
    ensures w == MAX64
  {
  }

  lemma {:induction false} AllTests64(w: bv64, s: bv6)
    requires forall t: bv6 :: Test64(w, t)
    ensures OnesFrom(w, s)
    decreases 63 - s
  {
    hide Test64, OnesFrom;
    if s == 63 {
      OnesFromTop(w);
    } else {
      AllTests64(w, s + 1);
      OnesFromNext(w, s);
    }
  }

  lemma ConstantTests64(s: bv6)
    ensures Test64(MAX64, s) && !Test64(0, s)
  {
  }

  lemma AllOnes64(w: bv64)
    ensures w == MAX64 <==> LeadingOnes64(w) == 64
  {
    hide Test64, OnesFrom, Shift64, LeadingOnes64;
    var n := LeadingOnes64(w);
    LeadingOnesEnd64(w);
    if n == 64 {
      forall s: bv6
        ensures Test64(w, s)
      {
        Shift64Onto(s);
        assert Bit64(w, 63 - s as nat);
      }
      AllTests64(w, 0);
      OnesFromBottom(w);
    } else {
      ConstantTests64(Shift64(n));
    }
  }

  lemma ZeroBits64(k: nat)
    requires k < 64
    ensures !Bit64(0, k)
  {
    hide Test64, Shift64;
    ConstantTests64(Shift64(k));
  }
}
