/** Lemire's multiply-shift with rejection, for words below any modulus `n` (2^64 in the program):
    a word `x` stands for floor(x * b / n) and is rejected when (x * b) mod n < n mod b. */
module Lemire {
  import opened Words
  import opened Counting

  predicate Kept(x: int, b: int, n: int)
    requires 0 < b && 0 < n
  {
    (x * b) % n >= n % b
  }

  function Quotient(x: int, b: int, n: int): int
    requires 0 < n
  {
    (x * b) / n
  }

  lemma QuotientBelow(x: int, b: int, n: int)
    requires 0 < b && 0 <= x < n
    ensures 0 <= Quotient(x, b, n) < b
  {
    MulOrder(0, x, b);
    MulOrder(x + 1, n, b);
    DivBelow(x * b, n, b);
  }

  /** The words that are kept and stand for `r`. */
  ghost function KeptFor(b: int, r: int, n: int): set<int>
    requires 0 < b && 0 < n
  {
    set x | x in Range(0, n) && Kept(x, b, n) && Quotient(x, b, n) == r
  }

  ghost function Rejected(b: int, n: int): set<int>
    requires 0 < b && 0 < n
  {
    set x | x in Range(0, n) && !Kept(x, b, n)
  }

  ghost function FirstFor(b: int, r: int, n: int): int
    requires 0 < b
  {
    (r * n + n % b + b - 1) / b
  }

  lemma KeptForMember(b: int, r: int, n: int, x: int)
    requires 0 < b <= n && 0 <= r < b
    ensures x in KeptFor(b, r, n) <==> FirstFor(b, r, n) <= x < FirstFor(b, r, n) + n / b
  {
    BlockOfMultiples(n, b, r, x);
  }

  /** Every r below the bound is given by exactly floor(n / b) words. */
  lemma KeptForSize(b: int, r: int, n: int)
    requires 0 < b <= n && 0 <= r < b
    ensures |KeptFor(b, r, n)| == n / b
  {
    var lo := FirstFor(b, r, n);
    assert n / b >= 0;
    forall x ensures x in KeptFor(b, r, n) <==> x in Range(lo, lo + n / b) {
      KeptForMember(b, r, n, x);
    }
    assert KeptFor(b, r, n) == Range(lo, lo + n / b);
  }

  ghost function AllKept(b: int, n: int): set<int>
    requires 0 < b && 0 < n
  {
    set x | x in Range(0, n) && Kept(x, b, n)
  }

  lemma AllKeptSize(b: int, n: int, c: nat)
    requires 0 < b <= n
    requires forall r :: 0 <= r < b ==> |KeptFor(b, r, n)| == c
    ensures |AllKept(b, n)| == b * c
  {
    hide Kept, Quotient;
    var f := (x: int) => Quotient(x, b, n);
    forall x | x in AllKept(b, n) ensures f(x) in Range(0, b) {
      QuotientBelow(x, b, n);
    }
    forall r | r in Range(0, b) ensures |Fibre(AllKept(b, n), f, r)| == c {
      assert Fibre(AllKept(b, n), f, r) == KeptFor(b, r, n);
    }
    CountFibres(AllKept(b, n), f, Range(0, b), c);
  }

  /** Exactly n mod b words are rejected. */
  lemma RejectedSize(b: int, n: int)
    requires 0 < b <= n
    ensures |Rejected(b, n)| == n % b
  {
    var c := n / b;
    assert c >= 0 && n == b * c + n % b;
    forall r | 0 <= r < b ensures |KeptFor(b, r, n)| == c {
      KeptForSize(b, r, n);
    }
    AllKeptSize(b, n, c);
    hide Kept, Quotient;
    assert Range(0, n) == AllKept(b, n) + Rejected(b, n);
  }
}
