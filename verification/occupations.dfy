/** Occupation tuples: the ascending lists of occupied mode indices that the
    Hamiltonian block builders use to name basis states, and a few generic
    facts about sequences shared by the other modules. */
module Occupations {

  /** Strictly increasing: every occupation tuple of a basis state. */
  predicate Ascending(s: seq<nat>) {
    forall a, b :: 0 <= a < b < |s| ==> s[a] < s[b]
  }

  /** Every mode of `s` lies in [0, n). */
  predicate Below(s: seq<nat>, n: nat) {
    forall x :: x in s ==> x < n
  }

  /** `s` names a basis state of the sector with `n` modes and charge `q`. */
  predicate InSector(s: seq<nat>, n: nat, q: nat) {
    Ascending(s) && Below(s, n) && |s| == q
  }

  /** No element occurs twice. */
  predicate Distinct<T(==)>(s: seq<T>) {
    forall a, b :: 0 <= a < b < |s| ==> s[a] != s[b]
  }

  lemma DistinctConcat<T>(u: seq<T>, v: seq<T>)
    ensures Distinct(u) && Distinct(v) && (forall x :: x in u ==> x !in v) ==> Distinct(u + v)
  {
    if Distinct(u) && Distinct(v) && (forall x :: x in u ==> x !in v) {
      forall a, b | 0 <= a < b < |u + v|
        ensures (u + v)[a] != (u + v)[b]
      {
        if b < |u| {
        } else if a >= |u| {
          assert (u + v)[a] == v[a - |u|] && (u + v)[b] == v[b - |u|];
        } else {
          assert (u + v)[a] == u[a] && (u + v)[b] == v[b - |u|];
          assert u[a] in u;
        }
      }
    }
  }

  /** The head of a distinct sequence does not recur in its tail. */
  lemma DistinctTail<T>(s: seq<T>)
    requires |s| > 0
    ensures s == [s[0]] + s[1..]
    ensures Distinct(s) ==> s[0] !in s[1..] && Distinct(s[1..])
  {
    assert s == [s[0]] + s[1..];
    if Distinct(s) {
      forall a | 0 <= a < |s| - 1 ensures s[1..][a] != s[0] {
        assert s[1..][a] == s[a + 1];
      }
    }
  }

  /** Prepending a value below every element keeps a tuple ascending. */
  lemma AscendingCons(h: nat, t: seq<nat>)
    ensures Ascending(t) && (forall x :: x in t ==> h < x) ==> Ascending([h] + t)
  {
    if Ascending(t) && (forall x :: x in t ==> h < x) {
      forall a, b | 0 <= a < b < |[h] + t|
        ensures ([h] + t)[a] < ([h] + t)[b]
      {
        assert ([h] + t)[b] == t[b - 1];
        if a > 0 {
          assert ([h] + t)[a] == t[a - 1];
        } else {
          assert t[b - 1] in t;
        }
      }
    }
  }

  /** Appending a value above every element keeps a tuple ascending. */
  lemma AscendingSnoc(t: seq<nat>, h: nat)
    ensures Ascending(t) && Below(t, h) ==> Ascending(t + [h])
  {
    if Ascending(t) && Below(t, h) {
      forall a, b | 0 <= a < b < |t + [h]|
        ensures (t + [h])[a] < (t + [h])[b]
      {
        assert (t + [h])[a] == t[a];
        assert t[a] in t;
      }
    }
  }

  /** Dropping the last element of an ascending tuple leaves the modes below it. */
  lemma AscendingLast(s: seq<nat>)
    requires |s| > 0
    ensures s == s[..|s| - 1] + [s[|s| - 1]]
    ensures Ascending(s) ==> Ascending(s[..|s| - 1]) && Below(s[..|s| - 1], s[|s| - 1])
    ensures forall n: nat :: Below(s, n) ==> s[|s| - 1] < n && Below(s[..|s| - 1], n)
  {
    var init := s[..|s| - 1];
    var last := s[|s| - 1];
    assert s == init + [last];
    assert last in s;
    forall x | x in init
      ensures x in s
      ensures Ascending(s) ==> x < last
    {
      var a :| 0 <= a < |init| && init[a] == x;
      assert s[a] == x;
    }
    forall n: nat | Below(s, n)
      ensures last < n && Below(init, n)
    {
    }
  }

  /** In an ascending tuple the head is below every later element. */
  lemma AscendingHead(s: seq<nat>)
    requires |s| > 0
    ensures s == [s[0]] + s[1..]
    ensures Ascending(s) ==> Ascending(s[1..])
    ensures Ascending(s) ==> forall x :: x in s[1..] ==> s[0] < x
  {
    assert s == [s[0]] + s[1..];
    if Ascending(s) {
      forall x | x in s[1..]
        ensures s[0] < x
      {
        var a :| 0 <= a < |s[1..]| && s[1..][a] == x;
        assert s[a + 1] == x;
      }
    }
  }

  /** Remove the mode x (annihilation on an occupation tuple, sign ignored). */
  function Remove(s: seq<nat>, x: nat): (r: seq<nat>)
    ensures |r| == if x in s then |s| - 1 else |s|
    ensures forall y :: y != x ==> (y in r <==> y in s)
    ensures x in r ==> x in s
    ensures Ascending(s) ==> Ascending(r) && x !in r
    decreases |s|
  {
    if |s| == 0 then []
    else if s[0] == x then
      AscendingHead(s);
      s[1..]
    else
      var t := Remove(s[1..], x);
      AscendingHead(s);
      AscendingCons(s[0], t);
      [s[0]] + t
  }

  /** Add the mode x at its sorted place (creation on an occupation tuple,
      sign ignored). */
  function AddSorted(s: seq<nat>, x: nat): (r: seq<nat>)
    ensures |r| == |s| + 1
    ensures forall y :: y in r <==> y == x || y in s
    ensures Ascending(s) && x !in s ==> Ascending(r)
    decreases |s|
  {
    if |s| == 0 then [x]
    else if s[0] < x then
      var t := AddSorted(s[1..], x);
      AscendingHead(s);
      AscendingCons(s[0], t);
      [s[0]] + t
    else
      AscendingHead(s);
      AscendingCons(x, s);
      [x] + s
  }
}
