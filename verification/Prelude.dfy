/** Notions shared by the modules. */
module Prelude {
  import Arith

  datatype Option<T> = None | Some(value: T)

  ghost predicate NoDup<T>(s: seq<T>) {
    forall i, j :: 0 <= i < j < |s| ==> s[i] != s[j]
  }

  function Min(a: nat, b: nat): nat { if a < b then a else b }

  /** Division, rounded up. */
  function CeilDiv(n: nat, d: nat): nat
    requires d > 0
  {
    (n + d - 1) / d
  }

  lemma {:induction false} CeilDivIs(n: nat, d: nat, q: nat, r: nat)
    requires d > 0 && n == d * q + r && r < d
    ensures CeilDiv(n, d) == if r == 0 then q else q + 1
  {
    var k := if r == 0 then q else q + 1;
    Arith.MulNext(d, q);
    Arith.DivUnique(n + d - 1, d, k, n + d - 1 - d * k);
  }

  /** The least number of pieces of d that hold n. */
  lemma CeilDivBound(n: nat, d: nat)
    requires d > 0
    ensures d * CeilDiv(n, d) >= n && (CeilDiv(n, d) == 0 <==> n == 0)
    ensures forall c: nat :: c < CeilDiv(n, d) ==> d * c < n
  {
    var q, r := (n + d - 1) / d, (n + d - 1) % d;
    assert n + d - 1 == d * q + r;
    forall c: nat | c < q ensures d * c < n {
      Arith.MulStep(d, c, q);
    }
  }

  /** n fits into c pieces of d exactly if c is not below the rounded-up quotient. */
  lemma CeilDivGalois(n: nat, d: nat, c: nat)
    requires d > 0
    ensures CeilDiv(n, d) <= c <==> n <= d * c
  {
    CeilDivBound(n, d);
    Arith.MulStep(d, CeilDiv(n, d), c);
  }

  /** Rounding up in two steps. */
  lemma CeilDivTwice(n: nat, a: nat, b: nat)
    requires a > 0 && b > 0
    ensures a * b > 0 && CeilDiv(CeilDiv(n, a), b) == CeilDiv(n, a * b)
  {
    var two, one := CeilDiv(CeilDiv(n, a), b), CeilDiv(n, a * b);
    TwiceGalois(n, a, b, two);
    TwiceGalois(n, a, b, one);
  }

  lemma TwiceGalois(n: nat, a: nat, b: nat, c: nat)
    requires a > 0 && b > 0
    ensures a * b > 0 && (CeilDiv(CeilDiv(n, a), b) <= c <==> CeilDiv(n, a * b) <= c)
  {
    CeilDivGalois(CeilDiv(n, a), b, c);
    CeilDivGalois(n, a, b * c);
    CeilDivGalois(n, a * b, c);
    assert a * (b * c) == a * b * c;
  }
}
