/** The two block builders, reduced to which (term, ket) pairs contribute a
    matrix element: the naive builder (`initialize_block_matrix_naive_implementation`)
    walks every ket of the sector and every term and skips the terms that
    annihilate the ket; the optimized builder (`initialize_block_matrix`)
    walks every term and only the kets the term's branch expands from the
    reduced tuples. Both visit the same pairs, each once, so they add up the
    same matrix. */
module BlockBuilder {
  import opened Wrappers
  import opened Occupations
  import opened Combinatorics
  import opened IndexExpansion
  import opened CaseDispatch
  import opened FermionAction

  /** Pairs (a, b) with `lo` <= a < b < n in the order of the nested loops
      `for a in range(lo, n): for b in range(a + 1, n)`. */
  function Pairs(lo: nat, n: nat): (ps: seq<(nat, nat)>)
    ensures forall p :: p in ps <==> lo <= p.0 < p.1 < n
    ensures Distinct(ps)
    decreases n - lo
  {
    if lo >= n then []
    else
      var row := Row(lo, lo + 1, n);
      var rest := Pairs(lo + 1, n);
      DistinctConcat(row, rest);
      row + rest
  }

  /** Pairs (a, b) with `lo` <= b < n: one pass of the inner loop. */
  function Row(a: nat, lo: nat, n: nat): (ps: seq<(nat, nat)>)
    ensures forall p :: p in ps <==> p.0 == a && lo <= p.1 < n
    ensures Distinct(ps)
    decreases n - lo
  {
    if lo >= n then []
    else
      var rest := Row(a, lo + 1, n);
      DistinctConcat([(a, lo)], rest);
      [(a, lo)] + rest
  }

  /** Terms (i, j, k, l) for (i, j) from `ps` (outer loops) and (k, l) from
      `qs` (inner loops). */
  function Product(ps: seq<(nat, nat)>, qs: seq<(nat, nat)>): (ts: seq<Term>)
    ensures forall t :: t in ts <==> (t.i, t.j) in ps && (t.k, t.l) in qs
    ensures Distinct(ps) && Distinct(qs) ==> Distinct(ts)
    decreases |ps|
  {
    if |ps| == 0 then []
    else
      var p := ps[0];
      var block := seq(|qs|, x requires 0 <= x < |qs| => Term(p.0, p.1, qs[x].0, qs[x].1));
      var rest := Product(ps[1..], qs);
      assert forall t :: t in block <==> (t.i, t.j) == p && (t.k, t.l) in qs by {
        forall t: Term | (t.i, t.j) == p && (t.k, t.l) in qs ensures t in block {
          var x :| 0 <= x < |qs| && qs[x] == (t.k, t.l);
          assert block[x] == t;
        }
      }
      DistinctTail(ps);
      assert Distinct(qs) ==> Distinct(block) by {
        if Distinct(qs) {
          forall a, b | 0 <= a < b < |block| ensures block[a] != block[b] {
            assert qs[a] != qs[b];
          }
        }
      }
      DistinctConcat(block, rest);
      block + rest
  }

  /** The four nested loops over the disorder elements of both builders:
      every term with 0 <= i < j < n and 0 <= k < l < n, each exactly once. */
  function AllTerms(n: nat): (ts: seq<Term>)
    ensures forall t :: t in ts <==> ValidTerm(t, n)
    ensures Distinct(ts)
  {
    Product(Pairs(0, n), Pairs(0, n))
  }

  /** The kets the optimized builder forms for one term: the expansion of
      every reduced tuple, taken by state number over
      [0, C(n - m, q - 2)) with m = 2, 3 or 4 the term's step count. */
  function OptimizedKets(n: nat, q: nat, t: Term): (kets: seq<seq<nat>>)
    requires ValidTerm(t, n)
    ensures forall s :: s in kets <==> InSector(s, n, q) && Admissible(s, t)
    ensures Distinct(kets)
  {
    PlanWellPlaced(t, n);
    PlanCompatibleAll(t);
    var m := n - |Plan(t)|;
    var kets := seq(Binomial(m, q - 2), x requires 0 <= x < Binomial(m, q - 2) =>
      ExpandTerm(t, Unrank(m, q - 2, x)));
    ExpandedKets(Plan(t), m, n, q, kets);
    kets
  }

  /** Expanding every reduced tuple over [0, m) with q - 2 modes, in state
      number order, through a well-placed list that inserts two modes, lists
      each compatible ket of the sector exactly once. */
  lemma ExpandedKets(ops: seq<Op>, m: nat, n: nat, q: nat, kets: seq<seq<nat>>)
    requires m + |ops| == n && WellPlaced(ops, m) && Inserted(ops) == 2
    requires |kets| == Binomial(m, q - 2)
    requires forall x :: 0 <= x < |kets| ==> q >= 2 && kets[x] == Expand(ops, Unrank(m, q - 2, x))
    ensures forall s :: s in kets <==> InSector(s, n, q) && Compatible(s, ops)
    ensures Distinct(kets)
  {
    ExpandedKetsSound(ops, m, n, q, kets);
    forall s | InSector(s, n, q) && Compatible(s, ops) ensures s in kets {
      ContractRoundTrip(ops, m, n, s);
      ExpandedKetsCover(ops, m, q, kets, Contract(ops, s));
    }
    assert |kets| > 0 ==> q >= 2;
    ExpandedKetsDistinct(ops, m, q, kets);
  }

  /** Every formed ket is a compatible ket of the sector. */
  lemma ExpandedKetsSound(ops: seq<Op>, m: nat, n: nat, q: nat, kets: seq<seq<nat>>)
    requires m + |ops| == n && WellPlaced(ops, m) && Inserted(ops) == 2
    requires |kets| == Binomial(m, q - 2)
    requires forall x :: 0 <= x < |kets| ==> q >= 2 && kets[x] == Expand(ops, Unrank(m, q - 2, x))
    ensures forall s :: s in kets ==> InSector(s, n, q) && Compatible(s, ops)
  {
    forall s | s in kets ensures InSector(s, n, q) && Compatible(s, ops) {
      var x :| 0 <= x < |kets| && kets[x] == s;
      ExpandSound(ops, m, Unrank(m, q - 2, x));
    }
  }

  /** Distinct state numbers give distinct kets. */
  lemma ExpandedKetsDistinct(ops: seq<Op>, m: nat, q: nat, kets: seq<seq<nat>>)
    requires |kets| > 0 ==> q >= 2
    requires |kets| == Binomial(m, q - 2)
    requires forall x :: 0 <= x < |kets| ==> q >= 2 && kets[x] == Expand(ops, Unrank(m, q - 2, x))
    ensures Distinct(kets)
  {
    forall a, b | 0 <= a < b < |kets| ensures kets[a] != kets[b] {
      var ra := Unrank(m, q - 2, a);
      var rb := Unrank(m, q - 2, b);
      assert kets[a] == Expand(ops, ra) && kets[b] == Expand(ops, rb);
      assert Rank(ra) != Rank(rb);
      ExpandInjective(ops, ra, rb);
    }
  }

  /** A ket expanded from a reduced tuple r is formed at r's state number. */
  lemma ExpandedKetsCover(ops: seq<Op>, m: nat, q: nat, kets: seq<seq<nat>>, r: seq<nat>)
    requires |kets| == Binomial(m, q - 2)
    requires forall x :: 0 <= x < |kets| ==> q >= 2 && kets[x] == Expand(ops, Unrank(m, q - 2, x))
    requires Ascending(r) && Below(r, m) && |r| + 2 == q
    ensures Expand(ops, r) in kets
  {
    UnrankRank(r, m);
    var x := Rank(r);
    assert kets[x] == Expand(ops, Unrank(m, q - 2, x));
  }

  /** One (term, ket) pair that contributes a matrix element. */
  datatype Visit = Visit(term: Term, ket: seq<nat>)

  /** The pairs for one term, in the order its kets are formed. */
  function Tag(t: Term, kets: seq<seq<nat>>): (vs: seq<Visit>)
    ensures forall v :: v in vs <==> v.term == t && v.ket in kets
    ensures Distinct(kets) ==> Distinct(vs)
  {
    var vs := seq(|kets|, x requires 0 <= x < |kets| => Visit(t, kets[x]));
    assert forall v :: v in vs <==> v.term == t && v.ket in kets by {
      forall v: Visit | v.term == t && v.ket in kets ensures v in vs {
        var x :| 0 <= x < |kets| && kets[x] == v.ket;
        assert vs[x] == v;
      }
    }
    vs
  }

  /** `initialize_block_matrix`: for each term in loop order, the pairs its
      branch visits. */
  function OptimizedVisitsOver(n: nat, q: nat, ts: seq<Term>): (vs: seq<Visit>)
    requires forall t :: t in ts ==> ValidTerm(t, n)
    ensures forall v :: v in vs <==> v.term in ts && InSector(v.ket, n, q) && Admissible(v.ket, v.term)
    ensures Distinct(ts) ==> Distinct(vs)
    decreases |ts|
  {
    if |ts| == 0 then []
    else
      var block := Tag(ts[0], OptimizedKets(n, q, ts[0]));
      var rest := OptimizedVisitsOver(n, q, ts[1..]);
      DistinctTail(ts);
      DistinctConcat(block, rest);
      block + rest
  }

  function OptimizedVisits(n: nat, q: nat): (vs: seq<Visit>)
    ensures forall v :: v in vs <==> ValidTerm(v.term, n) && InSector(v.ket, n, q) && Admissible(v.ket, v.term)
    ensures Distinct(vs)
  {
    OptimizedVisitsOver(n, q, AllTerms(n))
  }

  /** The inner loops of the naive builder for one ket: every term in loop
      order, skipping those that annihilate the ket. */
  function NaiveRow(ket: seq<nat>, ts: seq<Term>): (vs: seq<Visit>)
    ensures forall v :: v in vs <==> v.ket == ket && v.term in ts && Act(ket, v.term).Some?
    ensures Distinct(ts) ==> Distinct(vs)
    decreases |ts|
  {
    if |ts| == 0 then []
    else
      var here := if Act(ket, ts[0]).Some? then [Visit(ts[0], ket)] else [];
      var rest := NaiveRow(ket, ts[1..]);
      DistinctTail(ts);
      DistinctConcat(here, rest);
      here + rest
  }

  /** The outer loop of the naive builder from state number `x` on: each
      ket is rebuilt from its state number. */
  function NaiveVisitsFrom(n: nat, q: nat, x: nat): (vs: seq<Visit>)
    ensures forall v :: v in vs <==>
      InSector(v.ket, n, q) && Rank(v.ket) >= x && ValidTerm(v.term, n) && Act(v.ket, v.term).Some?
    ensures Distinct(vs)
    decreases Binomial(n, q) - x
  {
    if x >= Binomial(n, q) then
      NaiveVisitsEnd(n, q, x);
      []
    else
      var row := NaiveRow(Unrank(n, q, x), AllTerms(n));
      var rest := NaiveVisitsFrom(n, q, x + 1);
      NaiveVisitsStep(n, q, x, row, rest);
      row + rest
  }

  lemma NaiveVisitsEnd(n: nat, q: nat, x: nat)
    requires x >= Binomial(n, q)
    ensures forall s :: InSector(s, n, q) ==> Rank(s) < x
  {
    RankBijection(n, q);
  }

  /** One pass of the naive outer loop adds exactly the pairs of the ket with
      state number x. */
  lemma NaiveVisitsStep(n: nat, q: nat, x: nat, row: seq<Visit>, rest: seq<Visit>)
    requires x < Binomial(n, q)
    requires row == NaiveRow(Unrank(n, q, x), AllTerms(n))
    requires forall v :: v in rest <==>
      InSector(v.ket, n, q) && Rank(v.ket) >= x + 1 && ValidTerm(v.term, n) && Act(v.ket, v.term).Some?
    requires Distinct(rest)
    ensures forall v :: v in row + rest <==>
      InSector(v.ket, n, q) && Rank(v.ket) >= x && ValidTerm(v.term, n) && Act(v.ket, v.term).Some?
    ensures Distinct(row + rest)
  {
    var ket := Unrank(n, q, x);
    forall v: Visit | InSector(v.ket, n, q) && Rank(v.ket) == x
      ensures v.ket == ket
    {
      UnrankRank(v.ket, n);
    }
    DistinctConcat(row, rest);
  }

  /** `initialize_block_matrix_naive_implementation`, with a fresh ket for
      every term. */
  function NaiveVisits(n: nat, q: nat): (vs: seq<Visit>)
    ensures forall v :: v in vs <==> ValidTerm(v.term, n) && InSector(v.ket, n, q) && Act(v.ket, v.term).Some?
    ensures Distinct(vs)
  {
    NaiveVisitsFrom(n, q, 0)
  }

  /** For one term, the kets the optimized builder forms are exactly the kets
      of the sector the naive builder does not skip as annihilated. */
  lemma OptimizedKetsAreNonVanishing(n: nat, q: nat, t: Term)
    requires ValidTerm(t, n)
    ensures forall s :: s in OptimizedKets(n, q, t) <==> InSector(s, n, q) && Act(s, t).Some?
  {
    forall s | InSector(s, n, q) {
      ChargeConserved(s, t, n, q);
    }
  }

  /** The two builders visit the same (term, ket) pairs, each exactly once,
      so they add the same contributions into the matrix. */
  lemma BuildersAgree(n: nat, q: nat)
    ensures forall v :: v in NaiveVisits(n, q) <==> v in OptimizedVisits(n, q)
    ensures Distinct(NaiveVisits(n, q)) && Distinct(OptimizedVisits(n, q))
  {
    forall v: Visit | ValidTerm(v.term, n) && InSector(v.ket, n, q) {
      ChargeConserved(v.ket, v.term, n, q);
    }
  }

  /** The naive inner loops as written: one `ket` object serves every term,
      and `act_with_c_operators` turns it into the bra, so each term acts on
      what the previous terms left, and after the first annihilation the
      state stays zero. */
  function NaiveRowAsWritten(ket: seq<nat>, state: Option<seq<nat>>, ts: seq<Term>): (vs: seq<Visit>)
    ensures forall v :: v in vs ==> v.ket == ket && v.term in ts
    decreases |ts|
  {
    if |ts| == 0 then []
    else
      var next := if state.Some? then Act(state.value, ts[0]) else None;
      var here := if next.Some? then [Visit(ts[0], ket)] else [];
      here + NaiveRowAsWritten(ket, next, ts[1..])
  }

  /** Once the shared ket is zero, no later term of the row is visited. */
  lemma {:induction false} NaiveRowAsWrittenStops(ket: seq<nat>, ts: seq<Term>)
    ensures NaiveRowAsWritten(ket, None, ts) == []
    decreases |ts|
  {
    if |ts| > 0 {
      NaiveRowAsWrittenStops(ket, ts[1..]);
    }
  }

  /** The first terms of the loops over three modes, in loop order. */
  lemma AllTermsThreeStart()
    ensures |AllTerms(3)| >= 2
    ensures AllTerms(3)[0] == Term(0, 1, 0, 1) && AllTerms(3)[1] == Term(0, 1, 0, 2)
  {
    var ps := Pairs(0, 3);
    PairsThreeStart();
    ProductHead(ps, ps);
  }

  /** The outer loop over three modes starts with (0, 1), then (0, 2). */
  lemma PairsThreeStart()
    ensures |Pairs(0, 3)| >= 2 && Pairs(0, 3)[0] == (0, 1) && Pairs(0, 3)[1] == (0, 2)
  {
    assert Row(0, 3, 3) == [];
    assert Row(0, 2, 3) == [(0, 2)];
    assert Row(0, 1, 3) == [(0, 1), (0, 2)];
    assert Pairs(0, 3) == Row(0, 1, 3) + Pairs(1, 3);
  }

  /** The first |qs| terms pair the first outer pair with every inner pair,
      in order. */
  lemma ProductHead(ps: seq<(nat, nat)>, qs: seq<(nat, nat)>)
    requires |ps| > 0
    ensures |Product(ps, qs)| >= |qs|
    ensures forall x :: 0 <= x < |qs| ==> Product(ps, qs)[x] == Term(ps[0].0, ps[0].1, qs[x].0, qs[x].1)
  {
  }

  /** A row whose first term keeps the shared ket and whose second zeroes
      it visits nothing after those two terms. */
  lemma NaiveRowAsWrittenDiesSecond(ket: seq<nat>, ts: seq<Term>, t: Term)
    requires |ts| >= 2 && Act(ket, ts[0]) == Some(ket) && Act(ket, ts[1]) == None
    requires t != ts[0] && t != ts[1]
    ensures Visit(t, ket) !in NaiveRowAsWritten(ket, Some(ket), ts)
  {
    assert ts[1..][0] == ts[1] && ts[1..][1..] == ts[2..];
    NaiveRowAsWrittenStops(ket, ts[2..]);
    assert NaiveRowAsWritten(ket, Some(ket), ts[1..]) == [];
  }

  /** The three terms of the counterexample acting on {0, 1}. */
  lemma ThreeModeActs()
    ensures Act([0, 1], Term(0, 1, 0, 1)) == Some([0, 1])
    ensures Act([0, 1], Term(0, 1, 0, 2)) == None
    ensures Act([0, 1], Term(0, 2, 0, 1)).Some?
  {
    var ket: seq<nat> := [0, 1];
    assert Remove(ket, 1) == [0];
    assert Remove([0], 0) == [];
    assert AddSorted([], 1) == [1];
    assert AddSorted([1], 0) == [0, 1];
    assert 2 !in ket;
  }

  /** On the builder's own row for three modes and the ket {0, 1}: the first
      term c†_0 c†_1 c_0 c_1 keeps {0, 1}, the second, c†_0 c†_1 c_0 c_2,
      annihilates it and zeroes the shared ket, so c†_0 c†_2 c_0 c_1, which
      takes {0, 1} to {0, 2} and comes later in loop order, is missed. */
  lemma NaiveRowAsWrittenMisses()
    ensures Visit(Term(0, 2, 0, 1), [0, 1]) in NaiveRow([0, 1], AllTerms(3))
    ensures Visit(Term(0, 2, 0, 1), [0, 1]) !in NaiveRowAsWritten([0, 1], Some([0, 1]), AllTerms(3))
  {
    AllTermsThreeStart();
    ThreeModeActs();
    assert ValidTerm(Term(0, 2, 0, 1), 3);
    NaiveRowAsWrittenDiesSecond([0, 1], AllTerms(3), Term(0, 2, 0, 1));
  }
}
