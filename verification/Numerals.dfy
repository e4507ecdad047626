/**
 Positional numerals, most significant digit first, in any base of at least two.
 Every numeric claim about hex strings, byte strings and decimal versions rests here.
 */
module Numerals {

  function Pow(base: nat, e: nat): nat {
    if e == 0 then 1 else Pow(base, e - 1) * base
  }

  predicate AreDigits(ds: seq<nat>, base: nat) {
    forall i :: 0 <= i < |ds| ==> ds[i] < base
  }

  function Eval(ds: seq<nat>, base: nat): nat {
    if ds == [] then 0 else Eval(ds[..|ds| - 1], base) * base + ds[|ds| - 1]
  }

  /** The digits of `n` without leading zeros; zero itself is one digit. */
  function Print(n: nat, base: nat): (ds: seq<nat>)
    requires base >= 2
    ensures |ds| >= 1
  {
    if n < base then [n] else
      DivSmaller(n, base);
      Print(n / base, base) + [n % base]
  }

  predicate IsCanonical(ds: seq<nat>, base: nat) {
    AreDigits(ds, base) && |ds| >= 1 && (|ds| > 1 ==> ds[0] != 0)
  }

  function DropZeros(ds: seq<nat>): seq<nat> {
    if ds != [] && ds[0] == 0 then DropZeros(ds[1..]) else ds
  }

  lemma MulMonotone(a: nat, b: nat, c: nat)
    requires a <= b
    ensures a * c <= b * c
  {
  }

  lemma MulAssociates(a: nat, b: nat, c: nat)
    ensures a * b * c == a * (b * c)
  {
  }

  lemma MulDistributes(a: nat, b: nat, c: nat)
    ensures (a + b) * c == a * c + b * c
  {
  }

  lemma DivSmaller(n: nat, base: nat)
    requires n >= base >= 2
    ensures 0 < n / base < n
    ensures 0 <= n % base < base && n == n / base * base + n % base
  {
    var q := n / base;
    assert n == q * base + n % base;
    MulMonotone(2, base, q);
  }

  /** One digit splits off a number in exactly one way. */
  lemma DigitSplit(q: nat, d: nat, q': nat, d': nat, base: nat)
    requires d < base && d' < base && q * base + d == q' * base + d'
    ensures q == q' && d == d'
  {
    if q < q' {
      SnocBound(q, q', d, base);
    } else if q' < q {
      SnocBound(q', q, d', base);
    }
  }

  lemma {:induction false} PowPositive(base: nat, e: nat)
    requires base >= 1
    ensures Pow(base, e) >= 1
  {
    if e > 0 {
      PowPositive(base, e - 1);
    }
  }

  lemma {:induction false} PowAdd(base: nat, a: nat, b: nat)
    ensures Pow(base, a + b) == Pow(base, a) * Pow(base, b)
  {
    if b > 0 {
      PowAdd(base, a, b - 1);
      assert Pow(base, a + b) == Pow(base, a + (b - 1)) * base;
      MulAssociates(Pow(base, a), Pow(base, b - 1), base);
    }
  }

  lemma {:induction false} PowMonotone(base: nat, a: nat, b: nat)
    requires base >= 1 && a <= b
    ensures Pow(base, a) <= Pow(base, b)
  {
    if a < b {
      PowMonotone(base, a, b - 1);
      assert Pow(base, b - 1) * base >= Pow(base, b - 1);
    }
  }

  lemma EvalSnoc(front: seq<nat>, d: nat, base: nat)
    ensures Eval(front + [d], base) == Eval(front, base) * base + d
  {
    assert (front + [d])[..|front|] == front;
  }

  lemma SnocBound(e: nat, p: nat, d: nat, base: nat)
    requires e < p && d < base
    ensures e * base + d < p * base
  {
    MulMonotone(e + 1, p, base);
    MulDistributes(e, 1, base);
  }

  lemma {:induction false} EvalBound(ds: seq<nat>, base: nat)
    requires base >= 2 && AreDigits(ds, base)
    ensures Eval(ds, base) < Pow(base, |ds|)
  {
    if ds != [] {
      var front := ds[..|ds| - 1];
      EvalBound(front, base);
      SnocBound(Eval(front, base), Pow(base, |front|), ds[|ds| - 1], base);
    }
  }

  lemma {:induction false} EvalAppend(a: seq<nat>, b: seq<nat>, base: nat)
    ensures Eval(a + b, base) == Eval(a, base) * Pow(base, |b|) + Eval(b, base)
  {
    if b == [] {
      assert a + b == a;
    } else {
      var front, last := b[..|b| - 1], b[|b| - 1];
      EvalAppend(a, front, base);
      assert a + b == (a + front) + [last];
      EvalSnoc(a + front, last, base);
      MulDistributes(Eval(a, base) * Pow(base, |front|), Eval(front, base), base);
      MulAssociates(Eval(a, base), Pow(base, |front|), base);
    }
  }

  /** Numerals of one width denote different numbers when they differ. */
  lemma {:induction false} SameWidthUnique(a: seq<nat>, b: seq<nat>, base: nat)
    requires base >= 2 && AreDigits(a, base) && AreDigits(b, base)
    requires |a| == |b| && Eval(a, base) == Eval(b, base)
    ensures a == b
  {
    if a != [] {
      var fa, fb := a[..|a| - 1], b[..|b| - 1];
      DigitSplit(Eval(fa, base), a[|a| - 1], Eval(fb, base), b[|b| - 1], base);
      SameWidthUnique(fa, fb, base);
      assert a == fa + [a[|a| - 1]] && b == fb + [b[|b| - 1]];
    }
  }

  lemma {:induction false} CanonicalPositive(ds: seq<nat>, base: nat)
    requires base >= 2 && AreDigits(ds, base) && ds != [] && ds[0] != 0
    ensures Eval(ds, base) >= 1
  {
    if |ds| > 1 {
      CanonicalPositive(ds[..|ds| - 1], base);
    } else {
      assert Eval(ds[..0], base) == 0;
    }
  }

  /** Without leading zeros, width is no longer needed for uniqueness. */
  lemma {:induction false} CanonicalUnique(a: seq<nat>, b: seq<nat>, base: nat)
    requires base >= 2 && IsCanonical(a, base) && IsCanonical(b, base)
    requires Eval(a, base) == Eval(b, base)
    ensures a == b
    decreases |a|
  {
    var fa, fb := a[..|a| - 1], b[..|b| - 1];
    DigitSplit(Eval(fa, base), a[|a| - 1], Eval(fb, base), b[|b| - 1], base);
    if fa != [] { CanonicalPositive(fa, base); }
    if fb != [] { CanonicalPositive(fb, base); }
    if fa != [] && fb != [] {
      CanonicalUnique(fa, fb, base);
    }
    assert fa == fb;
    assert a == fa + [a[|a| - 1]] && b == fb + [b[|b| - 1]];
  }

  lemma SnocCanonical(front: seq<nat>, d: nat, base: nat)
    requires IsCanonical(front, base) && front[0] != 0 && d < base
    ensures IsCanonical(front + [d], base) && (front + [d])[0] != 0
  {
  }

  lemma EvalSingle(d: nat, base: nat)
    ensures Eval([d], base) == d
  {
    EvalSnoc([], d, base);
    assert [] + [d] == [d];
  }

  lemma PrintStepCanonical(n: nat, base: nat)
    requires n >= base >= 2
    requires IsCanonical(Print(n / base, base), base) && Print(n / base, base)[0] != 0
    ensures IsCanonical(Print(n, base), base) && Print(n, base)[0] != 0
  {
    DivSmaller(n, base);
    SnocCanonical(Print(n / base, base), n % base, base);
  }

  lemma PrintStepValue(n: nat, base: nat)
    requires n >= base >= 2
    requires Eval(Print(n / base, base), base) == n / base
    ensures Eval(Print(n, base), base) == n
  {
    DivSmaller(n, base);
    EvalSnoc(Print(n / base, base), n % base, base);
  }

  lemma {:induction false} PrintCorrect(n: nat, base: nat)
    requires base >= 2
    ensures IsCanonical(Print(n, base), base)
    ensures Eval(Print(n, base), base) == n
    ensures n > 0 ==> Print(n, base)[0] != 0
  {
    if n < base {
      EvalSingle(n, base);
    } else {
      DivSmaller(n, base);
      PrintCorrect(n / base, base);
      PrintStepCanonical(n, base);
      PrintStepValue(n, base);
    }
  }

  /** A bound on the number bounds the width of its numeral. */
  lemma {:induction false} PrintWidth(n: nat, base: nat, width: nat)
    requires base >= 2 && width >= 1 && n < Pow(base, width)
    ensures |Print(n, base)| <= width
  {
    if n >= base {
      DivSmaller(n, base);
      var q := n / base;
      assert n == q * base + n % base;
      if q >= Pow(base, width - 1) {
        MulMonotone(Pow(base, width - 1), q, base);
      }
      assert width > 1 by {
        assert Pow(base, 0) * base == base;
      }
      PrintWidth(q, base, width - 1);
    }
  }

  lemma {:induction false} EvalLeadingZero(ds: seq<nat>, base: nat)
    ensures Eval([0] + ds, base) == Eval(ds, base)
  {
    EvalAppend([0], ds, base);
    assert [0][..0] == [];
    assert Eval([0], base) == Eval([], base) * base + 0;
  }

  lemma {:induction false} DropZerosValue(ds: seq<nat>, base: nat)
    ensures Eval(DropZeros(ds), base) == Eval(ds, base)
    ensures |DropZeros(ds)| <= |ds|
    ensures AreDigits(ds, base) ==> AreDigits(DropZeros(ds), base)
    ensures DropZeros(ds) != [] ==> DropZeros(ds)[0] != 0
  {
    if ds != [] && ds[0] == 0 {
      EvalLeadingZero(ds[1..], base);
      assert ds == [0] + ds[1..];
      DropZerosValue(ds[1..], base);
    }
  }

  function ZeroDigits(n: nat): (ds: seq<nat>)
    ensures |ds| == n
    ensures forall i :: 0 <= i < n ==> ds[i] == 0
  {
    seq(n, i => 0)
  }

  lemma {:induction false} ZeroDigitsValue(n: nat, ds: seq<nat>, base: nat)
    ensures Eval(ZeroDigits(n) + ds, base) == Eval(ds, base)
  {
    if n == 0 {
      assert ZeroDigits(0) + ds == ds;
    } else {
      var rest := ZeroDigits(n - 1) + ds;
      ZeroDigitsValue(n - 1, ds, base);
      EvalLeadingZero(rest, base);
      assert ZeroDigits(n) + ds == [0] + rest;
    }
  }

  /** Every numeral is the canonical one behind some leading zeros. */
  lemma LeadingZerosOnly(ds: seq<nat>, base: nat)
    requires base >= 2 && AreDigits(ds, base) && ds != []
    ensures var c := Print(Eval(ds, base), base);
            |c| <= |ds| && ds == ZeroDigits(|ds| - |c|) + c
  {
    var n := Eval(ds, base);
    EvalBound(ds, base);
    PrintWidth(n, base, |ds|);
    PrintCorrect(n, base);
    var c := Print(n, base);
    var padded := ZeroDigits(|ds| - |c|) + c;
    ZeroDigitsValue(|ds| - |c|, c, base);
    assert AreDigits(padded, base) by {
      assert forall i :: 0 <= i < |padded| ==> padded[i] == 0 || padded[i] in c;
    }
    SameWidthUnique(ds, padded, base);
  }
}
