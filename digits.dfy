/** Positional notation: the digits of a natural number in a base, and the value of a digit sequence. */
module Digits {

  function Pow(b: nat, e: nat): (r: nat)
    ensures b > 0 ==> r > 0
  {
    if e == 0 then 1 else b * Pow(b, e - 1)
  }

  /** The digits of n in base b, most significant first; zero has the single digit 0. */
  function DigitsOf(n: nat, b: nat): (ds: seq<nat>)
    requires b >= 2
    ensures |ds| >= 1
    ensures forall i :: 0 <= i < |ds| ==> ds[i] < b
    ensures |ds| > 1 ==> ds[0] != 0
    decreases n
  {
    if n < b then [n]
    else
      DivLess(n, b);
      DivAtLeastOne(n, b);
      var front := DigitsOf(n / b, b);
      assert forall i :: 0 <= i < |front| ==> (front + [n % b])[i] == front[i];
      front + [n % b]
  }

  /** The value of a digit sequence read most significant first. */
  function ValueOf(ds: seq<nat>, b: nat): nat
  {
    if ds == [] then 0 else ValueOf(ds[..|ds| - 1], b) * b + ds[|ds| - 1]
  }

  function Zeros(k: nat): (z: seq<nat>)
    ensures |z| == k && forall i :: 0 <= i < k ==> z[i] == 0
  {
    if k == 0 then [] else Zeros(k - 1) + [0]
  }

  /** Reading back the digits of n gives n. */
  lemma {:induction false} ValueOfDigitsOf(n: nat, b: nat)
    requires b >= 2
    ensures ValueOf(DigitsOf(n, b), b) == n
    decreases n
  {
    if n >= b {
      var q, r := n / b, n % b;
      var dq := DigitsOf(q, b);
      assert DigitsOf(n, b) == dq + [r];
      DivLess(n, b);
      ValueOfDigitsOf(q, b);
      ValueOfSnoc(dq, r, b);
      calc {
        ValueOf(dq + [r], b);
        ValueOf(dq, b) * b + r;
        q * b + r;
        { DivMod(n, b); }
        n;
      }
    }
  }

  lemma DivMod(n: nat, b: nat)
    requires b >= 1
    ensures n == (n / b) * b + n % b
  {
  }

  lemma DivLess(n: nat, b: nat)
    requires b >= 2 && n >= 1
    ensures n / b < n
  {
    DivMod(n, b);
  }

  /** Appending one digit multiplies the value of the prefix by the base. */
  lemma ValueOfSnoc(ds: seq<nat>, d: nat, b: nat)
    ensures ValueOf(ds + [d], b) == ValueOf(ds, b) * b + d
  {
    assert (ds + [d])[..|ds|] == ds;
  }

  /** Leading zero digits do not change the value. */
  lemma {:induction false} ValueOfLeadingZeros(k: nat, ds: seq<nat>, b: nat)
    ensures ValueOf(Zeros(k) + ds, b) == ValueOf(ds, b)
    decreases |ds|
  {
    if ds == [] {
      assert Zeros(k) + ds == Zeros(k);
      ZerosValue(k, b);
    } else {
      var init, last := ds[..|ds| - 1], ds[|ds| - 1];
      assert ds == init + [last];
      assert Zeros(k) + ds == (Zeros(k) + init) + [last];
      ValueOfSnoc(Zeros(k) + init, last, b);
      ValueOfSnoc(init, last, b);
      ValueOfLeadingZeros(k, init, b);
    }
  }

  lemma {:induction false} ZerosValue(k: nat, b: nat)
    ensures ValueOf(Zeros(k), b) == 0
  {
    if k > 0 {
      assert Zeros(k)[..k - 1] == Zeros(k - 1);
      ZerosValue(k - 1, b);
    }
  }

  /** A number below b^k has at most k digits (k >= 1). */
  lemma {:induction false} DigitsOfLength(n: nat, b: nat, k: nat)
    requires b >= 2 && k >= 1 && n < Pow(b, k)
    ensures |DigitsOf(n, b)| <= k
    decreases k
  {
    if n >= b {
      assert Pow(b, k) == b * Pow(b, k - 1);
      DivBelow(n, b, Pow(b, k - 1));
      DivAtLeastOne(n, b);
      DigitsOfLength(n / b, b, k - 1);
    }
  }

  lemma DivBelow(n: nat, b: nat, m: nat)
    requires b >= 1 && n < b * m
    ensures n / b < m
  {
    var q := n / b;
    assert n == b * q + n % b;
    if q >= m {
      MulMono(b, m, q);
    }
  }

  lemma DivAtLeastOne(n: nat, b: nat)
    requires 1 <= b <= n
    ensures n / b >= 1
  {
    var q := n / b;
    assert n == b * q + n % b;
  }

  lemma MulMono(b: nat, x: nat, y: nat)
    requires x <= y
    ensures b * x <= b * y
  {
  }
}
