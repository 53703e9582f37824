/** Polynomials over GF(2) of a fixed length, highest power first: addition,
    schoolbook multiplication and the remainder of a division. This is the
    reference against which the CRC register is proved. */
module Gf2 {
  function Zeros(n: nat): (z: seq<bool>)
    ensures |z| == n
  {
    seq(n, _ => false)
  }

  function Add(a: seq<bool>, b: seq<bool>): (c: seq<bool>)
    requires |a| == |b|
    ensures |c| == |a|
  {
    seq(|a|, i requires 0 <= i < |a| => a[i] != b[i])
  }

  /** q * g, of length |q| + |g| - 1. */
  function Mul(q: seq<bool>, g: seq<bool>): (c: seq<bool>)
    requires g != []
    ensures |c| == |q| + |g| - 1
  {
    if q == [] then Zeros(|g| - 1)
    else
      var n := |q| - 1;
      Add(Mul(q[..n], g) + [false], Zeros(n) + Scale(q[n], g))
  }

  function Scale(t: bool, g: seq<bool>): (c: seq<bool>)
    ensures |c| == |g|
  {
    if t then g else Zeros(|g|)
  }

  /** x^16 + x^12 + x^5 + 1. */
  const GENERATOR: seq<bool> :=
    ([true] + Zeros(3)) + ([true] + Zeros(6)) + ([true] + Zeros(4)) + [true]

  /** m * x^16 plus q * GENERATOR leaves r, whose degree is below 16. */
  ghost predicate Leaves(m: seq<bool>, q: seq<bool>, r: seq<bool>) {
    |q| == |m| && |r| == 16 && Add(m + Zeros(16), Mul(q, GENERATOR)) == Zeros(|m|) + r
  }

  /** r is a remainder of m * x^16 modulo the generator. */
  ghost predicate IsRemainder(m: seq<bool>, r: seq<bool>) {
    exists q :: Leaves(m, q, r)
  }

  /** Whether an odd number of coefficients is set. */
  function Odd(a: seq<bool>): bool {
    if a == [] then false else Odd(a[..|a| - 1]) != a[|a| - 1]
  }

  // ----- Division --------------------------------------------------------

  /** A product whose first |q| coefficients vanish has q zero: the generator
      is monic. */
  lemma {:induction false} HighPartDeterminesQuotient(q: seq<bool>)
    requires forall i :: 0 <= i < |q| ==> !Mul(q, GENERATOR)[i]
    ensures q == Zeros(|q|)
  {
    if q == [] {
    } else {
      var n := |q| - 1;
      var c := Mul(q, GENERATOR);
      forall i | 0 <= i < n ensures !Mul(q[..n], GENERATOR)[i] {
        assert c[i] == (Mul(q[..n], GENERATOR)[i] != false);
      }
      HighPartDeterminesQuotient(q[..n]);
      MulZeros(n);
      assert c[n] == q[n];
    }
  }

  /** A product whose last k coefficients vanish comes from a q whose last k do:
      the generator has constant term one. */
  lemma {:induction false} TrailingZeros(q: seq<bool>, k: nat)
    requires k <= |q|
    requires forall i :: |q| + 16 - k <= i < |q| + 16 ==> !Mul(q, GENERATOR)[i]
    ensures q == q[..|q| - k] + Zeros(k)
    decreases k
  {
    if k == 0 {
    } else {
      var n := |q| - 1;
      var c := Mul(q, GENERATOR);
      assert c[n + 16] == q[n];
      forall i | n + 16 - (k - 1) <= i < n + 16 ensures !Mul(q[..n], GENERATOR)[i] {
        assert c[i] == Mul(q[..n], GENERATOR)[i];
      }
      TrailingZeros(q[..n], k - 1);
    }
  }

  lemma {:induction false} MulZeros(n: nat)
    ensures Mul(Zeros(n), GENERATOR) == Zeros(n + 16)
  {
    if n == 0 {
    } else {
      assert Zeros(n)[..n - 1] == Zeros(n - 1);
      MulZeros(n - 1);
    }
  }

  /** One step of two multiplications and of their sum. */
  lemma TermsAdd(a: seq<bool>, b: seq<bool>, n: nat, s: bool, t: bool)
    requires |a| == |b| == n + 16
    ensures Add(Add(a, b) + [false], Zeros(n) + Scale(s != t, GENERATOR))
         == Add(Add(a + [false], Zeros(n) + Scale(s, GENERATOR)),
                Add(b + [false], Zeros(n) + Scale(t, GENERATOR)))
  {
  }

  lemma {:induction false} MulAdd(p: seq<bool>, q: seq<bool>)
    requires |p| == |q|
    ensures Mul(Add(p, q), GENERATOR) == Add(Mul(p, GENERATOR), Mul(q, GENERATOR))
  {
    if p == [] {
    } else {
      var n := |p| - 1;
      var a, b := Mul(p[..n], GENERATOR), Mul(q[..n], GENERATOR);
      assert Add(p, q)[..n] == Add(p[..n], q[..n]);
      MulAdd(p[..n], q[..n]);
      TermsAdd(a, b, n, p[n], q[n]);
    }
  }

  /** Remainders add. */
  lemma RemainderAdd(m: seq<bool>, r: seq<bool>, n: seq<bool>, s: seq<bool>)
    requires |m| == |n| && IsRemainder(m, r) && IsRemainder(n, s)
    ensures IsRemainder(Add(m, n), Add(r, s))
  {
    var p :| Leaves(m, p, r);
    var q :| Leaves(n, q, s);
    var a, b := Mul(p, GENERATOR), Mul(q, GENERATOR);
    MulAdd(p, q);
    assert Leaves(Add(m, n), Add(p, q), Add(r, s)) by {
      forall i | 0 <= i < |m| + 16
        ensures Add(Add(m, n) + Zeros(16), Add(a, b))[i] == (Zeros(|m|) + Add(r, s))[i]
      {
        assert Add(m + Zeros(16), a)[i] == (Zeros(|m|) + r)[i];
        assert Add(n + Zeros(16), b)[i] == (Zeros(|m|) + s)[i];
      }
    }
  }

  lemma ZeroLeavesZero(n: nat, r: seq<bool>)
    requires IsRemainder(Zeros(n), r)
    ensures r == Zeros(16)
  {
    var q :| Leaves(Zeros(n), q, r);
    var c := Mul(q, GENERATOR);
    forall i | 0 <= i < n + 16 ensures c[i] == (Zeros(n) + r)[i] {
      assert Add(Zeros(n) + Zeros(16), c)[i] == (Zeros(n) + r)[i];
    }
    forall i | 0 <= i < n ensures !c[i] {
      assert c[i] == (Zeros(n) + r)[i];
    }
    HighPartDeterminesQuotient(q);
    MulZeros(n);
    forall i | 0 <= i < 16 ensures !r[i] {
      assert c[n + i] == (Zeros(n) + r)[n + i];
    }
  }

  lemma RemainderUnique(m: seq<bool>, r: seq<bool>, s: seq<bool>)
    requires IsRemainder(m, r) && IsRemainder(m, s)
    ensures r == s
  {
    RemainderAdd(m, r, m, s);
    assert Add(m, m) == Zeros(|m|);
    ZeroLeavesZero(|m|, Add(r, s));
    forall i | 0 <= i < 16 ensures r[i] == s[i] {
      assert Add(r, s)[i] == Zeros(16)[i];
    }
  }

  // ----- Multiples of the generator --------------------------------------

  /** e is a multiple of the generator; shorter than 17 bits, only zero is. */
  ghost predicate IsMultiple(e: seq<bool>) {
    if |e| < 16 then e == Zeros(|e|)
    else exists q :: |q| + 16 == |e| && Mul(q, GENERATOR) == e
  }

  lemma MulTimesX(q: seq<bool>)
    ensures Mul(q + [false], GENERATOR) == Mul(q, GENERATOR) + [false]
  {
    var c := Mul(q, GENERATOR) + [false];
    assert (q + [false])[..|q|] == q;
    assert Mul(q + [false], GENERATOR) == Add(c, Zeros(|q|) + Zeros(17));
  }

  /** A factor x^k can be taken out of a product. */
  lemma {:induction false} MulShift(q: seq<bool>, k: nat)
    ensures Mul(q + Zeros(k), GENERATOR) == Mul(q, GENERATOR) + Zeros(k)
    decreases k
  {
    hide Mul;
    if k == 0 {
      assert q + Zeros(0) == q;
    } else {
      MulShift(q, k - 1);
      MulTimesX(q + Zeros(k - 1));
      assert q + Zeros(k) == q + Zeros(k - 1) + [false];
    }
  }

  lemma ProductOfZeroRemainder(m: seq<bool>, q: seq<bool>)
    requires Leaves(m, q, Zeros(16))
    ensures Mul(q, GENERATOR) == m + Zeros(16)
  {
    var c := Mul(q, GENERATOR);
    forall i | 0 <= i < |m| + 16 ensures (m + Zeros(16))[i] == c[i] {
      assert Add(m + Zeros(16), c)[i] == (Zeros(|m|) + Zeros(16))[i];
    }
  }

  lemma NothingLeftIsMultiple(m: seq<bool>)
    requires IsRemainder(m, Zeros(16))
    ensures IsMultiple(m)
  {
    hide Mul;
    var q :| Leaves(m, q, Zeros(16));
    ProductOfZeroRemainder(m, q);
    var k := if |m| < 16 then |m| else 16;
    TrailingZeros(q, k);
    var p := q[..|q| - k];
    MulShift(p, k);
    if |m| < 16 {
      assert p == [];
      MulZeros(0);
      assert Zeros(0) == [];
      forall i | 0 <= i < |m| ensures !m[i] {
        assert (m + Zeros(16))[i] == (Zeros(16) + Zeros(k))[i];
      }
    } else {
      assert Mul(p, GENERATOR) == (Mul(p, GENERATOR) + Zeros(16))[..|m|];
      assert (m + Zeros(16))[..|m|] == m;
    }
  }

  lemma MultipleLeavesNothing(m: seq<bool>)
    requires IsMultiple(m)
    ensures IsRemainder(m, Zeros(16))
  {
    hide Mul;
    if |m| < 16 {
      MulZeros(|m|);
      assert Leaves(m, Zeros(|m|), Zeros(16));
    } else {
      var q :| |q| + 16 == |m| && Mul(q, GENERATOR) == m;
      MulShift(q, 16);
      assert Leaves(m, q + Zeros(16), Zeros(16));
    }
  }

  /** The single term x^(i-th place) times the generator. */
  lemma MulTerm(i: nat)
    ensures Mul(Zeros(i) + [true], GENERATOR) == Zeros(i) + GENERATOR
  {
    var q := Zeros(i) + [true];
    assert q[..i] == Zeros(i);
    MulZeros(i);
    assert Mul(q, GENERATOR) == Add(Zeros(i + 16) + [false], Zeros(i) + GENERATOR);
  }

  /** The generator, at any place, is a multiple of itself. */
  lemma GeneratorIsMultiple(i: nat, j: nat)
    ensures IsMultiple(Zeros(i) + GENERATOR + Zeros(j))
  {
    hide Mul;
    var q := Zeros(i) + [true];
    MulTerm(i);
    MulShift(q, j);
    assert |q + Zeros(j)| + 16 == |Zeros(i) + GENERATOR + Zeros(j)|;
  }

  /** Sixteen bits hold no multiple but zero. */
  lemma ShortMultiple(m: seq<bool>)
    requires |m| <= 16 && IsMultiple(m)
    ensures m == Zeros(|m|)
  {
  }

  // ----- Parity ----------------------------------------------------------

  lemma {:induction false} OddAppend(a: seq<bool>, b: seq<bool>)
    ensures Odd(a + b) == (Odd(a) != Odd(b))
  {
    if b == [] {
      assert a + b == a;
    } else {
      assert (a + b)[..|a + b| - 1] == a + b[..|b| - 1];
      OddAppend(a, b[..|b| - 1]);
    }
  }

  lemma {:induction false} OddZeros(n: nat)
    ensures !Odd(Zeros(n))
  {
    if n == 0 {
    } else {
      assert Zeros(n)[..n - 1] == Zeros(n - 1);
      OddZeros(n - 1);
    }
  }

  lemma {:induction false} OddAdd(a: seq<bool>, b: seq<bool>)
    requires |a| == |b|
    ensures Odd(Add(a, b)) == (Odd(a) != Odd(b))
  {
    if a == [] {
    } else {
      var n := |a| - 1;
      assert Add(a, b)[..n] == Add(a[..n], b[..n]);
      OddAdd(a[..n], b[..n]);
    }
  }

  lemma OddTerm(n: nat)
    ensures Odd([true] + Zeros(n))
  {
    OddAppend([true], Zeros(n));
    OddZeros(n);
  }

  /** The generator has four terms. */
  lemma GeneratorIsEven()
    ensures !Odd(GENERATOR)
  {
    var a, b, c := [true] + Zeros(3), [true] + Zeros(6), [true] + Zeros(4);
    OddTerm(3); OddTerm(6); OddTerm(4);
    OddAppend(a, b);
    OddAppend(a + b, c);
    OddAppend(a + b + c, [true]);
  }

  lemma {:induction false} MultiplesAreEven(q: seq<bool>)
    ensures !Odd(Mul(q, GENERATOR))
  {
    if q == [] {
      OddZeros(16);
    } else {
      var n := |q| - 1;
      MultiplesAreEven(q[..n]);
      OddAppend(Mul(q[..n], GENERATOR), [false]);
      GeneratorIsEven();
      OddZeros(17);
      OddZeros(n);
      OddAppend(Zeros(n), Scale(q[n], GENERATOR));
      OddAdd(Mul(q[..n], GENERATOR) + [false], Zeros(n) + Scale(q[n], GENERATOR));
    }
  }

  lemma RemainderParity(m: seq<bool>, r: seq<bool>)
    requires IsRemainder(m, r)
    ensures Odd(r) == Odd(m)
  {
    var q :| Leaves(m, q, r);
    MultiplesAreEven(q);
    OddAdd(m + Zeros(16), Mul(q, GENERATOR));
    OddAppend(m, Zeros(16));
    OddZeros(16);
    OddZeros(|m|);
    OddAppend(Zeros(|m|), r);
  }
}
