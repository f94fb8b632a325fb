/** Exact binomial coefficients and the colexicographic ranking of
    occupation tuples: the bijection between a state number in
    [0, C(m, q)) and an ascending q-tuple over [0, m). */
module Combinatorics {
  import opened Occupations

  /** C(n, k) by Pascal's rule, exact; zero outside 0 <= k <= n. */
  function Binomial(n: nat, k: int): (r: nat)
    ensures k < 0 || k > n ==> r == 0
    ensures 0 <= k <= n ==> r >= 1
    decreases n
  {
    if k < 0 then 0
    else if k == 0 then 1
    else if n == 0 then 0
    else Binomial(n - 1, k - 1) + Binomial(n - 1, k)
  }

  function Factorial(n: nat): (f: nat)
    decreases n
  {
    if n == 0 then 1 else n * Factorial(n - 1)
  }

  /** The arithmetic step of the factorial formula: from the two smaller
      instances m!/(k-1)!(m-k+1)! and m!/k!(m-k)! to (m+1)!/k!(m+1-k)!. */
  lemma PascalFactorialStep(a: int, b: int, k: int, m: int, fk1: int, fmk: int, fm: int)
    requires a * fk1 * ((m - k + 1) * fmk) == fm
    requires b * (k * fk1) * fmk == fm
    ensures (a + b) * (k * fk1) * ((m - k + 1) * fmk) == (m + 1) * fm
  {
    var x := k * fk1;
    var y := (m - k + 1) * fmk;
    assert (a + b) * x * y == a * x * y + b * x * y;
    assert a * x * y == k * (a * fk1 * y);
    assert b * x * y == (m - k + 1) * (b * x * fmk);
    assert k * fm + (m - k + 1) * fm == (m + 1) * fm;
  }

  /** Pascal's binomial agrees with the factorial formula n! / (k! (n-k)!). */
  lemma {:induction false} BinomialFactorial(n: nat, k: nat)
    requires k <= n
    ensures Binomial(n, k) * Factorial(k) * Factorial(n - k) == Factorial(n)
    decreases n
  {
    if k == 0 {
      assert Factorial(n - k) == Factorial(n);
    } else if k == n {
      assert Binomial(n, k) == 1 by {
        BinomialOne(n);
      }
      assert Factorial(n - k) == 1;
    } else {
      var m := n - 1;
      BinomialFactorial(m, k - 1);
      BinomialFactorial(m, k);
      assert Factorial(k) == k * Factorial(k - 1);
      assert Factorial(n - k) == (m - k + 1) * Factorial(m - k) by {
        assert n - k == (m - k) + 1;
      }
      assert Binomial(n, k) == Binomial(m, k - 1) + Binomial(m, k);
      assert m - (k - 1) == m - k + 1;
      PascalFactorialStep(Binomial(m, k - 1), Binomial(m, k), k, m,
        Factorial(k - 1), Factorial(m - k), Factorial(m));
    }
  }

  /** C(n, n) == 1. */
  lemma {:induction false} BinomialOne(n: nat)
    ensures Binomial(n, n) == 1
    decreases n
  {
    if n > 0 {
      BinomialOne(n - 1);
    }
  }

  /** C(a, q) <= C(b, q) when a <= b. */
  lemma {:induction false} BinomialMonotone(a: nat, b: nat, q: int)
    requires a <= b
    ensures Binomial(a, q) <= Binomial(b, q)
    decreases b - a
  {
    if a < b {
      BinomialMonotone(a, b - 1, q);
      if q > 0 {
        assert Binomial(b, q) == Binomial(b - 1, q - 1) + Binomial(b - 1, q);
      }
    }
  }

  /** Colexicographic rank of a tuple: the sum of C(s[a], a + 1). It does
      not depend on the size of the mode space. */
  function Rank(s: seq<nat>): (r: nat)
    decreases |s|
  {
    if |s| == 0 then 0 else Rank(s[..|s| - 1]) + Binomial(s[|s| - 1], |s|)
  }

  /** The colex unranking `state_number_to_occupations`: the q-tuple over
      [0, m) whose rank is r. Tuples without mode m - 1 come first. */
  function Unrank(m: nat, q: nat, r: nat): (s: seq<nat>)
    requires r < Binomial(m, q)
    ensures InSector(s, m, q)
    ensures Rank(s) == r
    decreases m
  {
    if q == 0 then []
    else if r < Binomial(m - 1, q) then Unrank(m - 1, q, r)
    else
      var prefix := Unrank(m - 1, q - 1, r - Binomial(m - 1, q));
      assert (prefix + [m - 1])[..q - 1] == prefix;
      AscendingSnoc(prefix, m - 1);
      prefix + [m - 1]
  }

  /** Every ascending q-tuple over [0, m) has a rank below C(m, q). */
  lemma {:induction false} RankBound(s: seq<nat>, m: nat)
    requires Ascending(s) && Below(s, m)
    ensures Rank(s) < Binomial(m, |s|)
    decreases |s|
  {
    if |s| > 0 {
      var q := |s|;
      var last := s[q - 1];
      var prefix := s[..q - 1];
      AscendingLast(s);
      RankBound(prefix, last);
      assert Binomial(last + 1, q) == Binomial(last, q - 1) + Binomial(last, q);
      BinomialMonotone(last + 1, m, q);
    }
  }

  /** Unranking inverts ranking on every ascending tuple. */
  lemma {:induction false} UnrankRank(s: seq<nat>, m: nat)
    requires Ascending(s) && Below(s, m)
    ensures Rank(s) < Binomial(m, |s|)
    ensures Unrank(m, |s|, Rank(s)) == s
    decreases m
  {
    RankBound(s, m);
    if |s| > 0 {
      AscendingLast(s);
      if s[|s| - 1] < m - 1 {
        UnrankRankWithout(s, m);
      } else {
        UnrankRankWith(s, m);
      }
    }
  }

  /** The case of UnrankRank where the top mode m - 1 is empty. */
  lemma {:induction false} UnrankRankWithout(s: seq<nat>, m: nat)
    requires Ascending(s) && Below(s, m) && |s| > 0 && s[|s| - 1] < m - 1
    ensures Rank(s) < Binomial(m - 1, |s|) <= Binomial(m, |s|)
    ensures Unrank(m, |s|, Rank(s)) == s
    decreases m, 0
  {
    AscendingLast(s);
    assert Below(s, m - 1) by {
      forall x | x in s ensures x < m - 1 {
        var a :| 0 <= a < |s| && s[a] == x;
        assert a < |s| - 1 ==> s[a] < s[|s| - 1];
      }
    }
    UnrankRank(s, m - 1);
    RankBound(s, m - 1);
    BinomialMonotone(m - 1, m, |s|);
  }

  /** The case of UnrankRank where the top mode m - 1 is occupied. */
  lemma {:induction false} UnrankRankWith(s: seq<nat>, m: nat)
    requires Ascending(s) && Below(s, m) && |s| > 0 && s[|s| - 1] == m - 1
    ensures Binomial(m - 1, |s|) <= Rank(s) < Binomial(m, |s|)
    ensures Unrank(m, |s|, Rank(s)) == s
    decreases m, 0
  {
    RankBound(s, m);
    var q := |s|;
    var prefix := s[..q - 1];
    assert Rank(s) == Rank(prefix) + Binomial(m - 1, q);
    AscendingLast(s);
    UnrankRank(prefix, m - 1);
    var r := Rank(s);
    var rp := Rank(prefix);
    assert Unrank(m - 1, q - 1, rp) == prefix;
    UnrankTop(m, q, r, rp);
  }

  /** A state number past the tuples without mode m - 1 unranks to a tuple
      ending in m - 1. */
  lemma UnrankTop(m: nat, q: nat, r: nat, rp: nat)
    requires q > 0 && r < Binomial(m, q) && r == rp + Binomial(m - 1, q)
    ensures rp < Binomial(m - 1, q - 1)
    ensures Unrank(m, q, r) == Unrank(m - 1, q - 1, rp) + [m - 1]
  {
  }

  /** Ranking is a bijection between the q-tuples over [0, m) and [0, C(m, q)). */
  lemma RankBijection(m: nat, q: nat)
    ensures forall r :: 0 <= r < Binomial(m, q) ==> InSector(Unrank(m, q, r), m, q) && Rank(Unrank(m, q, r)) == r
    ensures forall s :: InSector(s, m, q) ==> Rank(s) < Binomial(m, q) && Unrank(m, q, Rank(s)) == s
  {
    forall s | InSector(s, m, q)
      ensures Rank(s) < Binomial(m, q) && Unrank(m, q, Rank(s)) == s
    {
      UnrankRank(s, m);
    }
  }

  /** A state number names the same tuple whatever the mode-space size, so
      the unranking needs only the charge, as `state_number_to_occupations`
      takes it. */
  lemma {:induction false} UnrankStable(m: nat, m2: nat, q: nat, r: nat)
    requires m <= m2 && r < Binomial(m, q)
    ensures r < Binomial(m2, q)
    ensures Unrank(m2, q, r) == Unrank(m, q, r)
    decreases m2 - m
  {
    if m < m2 {
      UnrankStable(m, m2 - 1, q, r);
      UnrankStableStep(m2 - 1, q, r);
    }
  }

  /** One more mode leaves every state number's tuple unchanged. */
  lemma UnrankStableStep(m: nat, q: nat, r: nat)
    requires r < Binomial(m, q)
    ensures Binomial(m, q) <= Binomial(m + 1, q)
    ensures Unrank(m + 1, q, r) == Unrank(m, q, r)
  {
    BinomialMonotone(m, m + 1, q);
  }
}
