/** The action of one term c†_i c†_j c_k c_l on an occupation tuple, with
    fermionic signs left out, and the matrix position the builder writes for
    it (`add_term_and_state_contribution`). */
module FermionAction {
  import opened Wrappers
  import opened Occupations
  import opened Combinatorics
  import opened CaseDispatch

  /** `act_with_c_operators`: annihilate l, annihilate k, create j, create i.
      Annihilating an empty mode or creating an occupied one gives the zero
      state, `None`. */
  function Act(ket: seq<nat>, t: Term): (r: Option<seq<nat>>)
    ensures Ascending(ket) ==> (r.Some? <==> t.k != t.l && t.i != t.j && Admissible(ket, t))
    ensures Ascending(ket) && r.Some? ==> forall x :: x in r.value <==> (x in ket && x != t.k && x != t.l) || x == t.i || x == t.j
    ensures Ascending(ket) && r.Some? ==> Ascending(r.value) && |r.value| == |ket|
  {
    if t.l !in ket then None
    else
      var a := Remove(ket, t.l);
      if t.k !in a then None
      else
        var b := Remove(a, t.k);
        if t.j in b then None
        else
          var c := AddSorted(b, t.j);
          if t.i in c then None
          else Some(AddSorted(c, t.i))
  }

  /** A term never moves a state out of the sector: the bra has the ket's
      charge and stays inside [0, n), so the charge assertion cannot fire. */
  lemma ChargeConserved(ket: seq<nat>, t: Term, n: nat, q: nat)
    requires InSector(ket, n, q) && ValidTerm(t, n)
    ensures Act(ket, t).Some? <==> Admissible(ket, t)
    ensures Act(ket, t).Some? ==> InSector(Act(ket, t).value, n, q)
  {
  }

  /** A matrix position: row of the bra, column of the ket. */
  datatype Entry = Entry(row: nat, col: nat)

  /** `add_term_and_state_contribution` with the ket's state number taken
      before the operators act: the position the term writes, or `None` when
      the term annihilates the ket. */
  function Contribution(n: nat, q: nat, ket: seq<nat>, t: Term): (e: Option<Entry>)
    requires InSector(ket, n, q) && ValidTerm(t, n)
    ensures e.Some? <==> Admissible(ket, t)
    ensures e.Some? ==> e.value.row < Binomial(n, q) && e.value.col < Binomial(n, q)
    ensures e.Some? ==> Unrank(n, q, e.value.col) == ket
    ensures e.Some? ==> Unrank(n, q, e.value.row) == Act(ket, t).value
    ensures e.Some? ==> (e.value.row == e.value.col <==> Act(ket, t).value == ket)
  {
    ChargeConserved(ket, t, n, q);
    match Act(ket, t)
    case None => None
    case Some(bra) =>
      UnrankRank(ket, n);
      UnrankRank(bra, n);
      Some(Entry(Rank(bra), Rank(ket)))
  }

  /** `add_term_and_state_contribution` as written: `act_with_c_operators`
      turns the `ket` object itself into the bra, and the ket's state number
      is read afterwards, so it is the bra's. */
  function ContributionAsWritten(n: nat, q: nat, ket: seq<nat>, t: Term): (e: Option<Entry>)
    requires InSector(ket, n, q) && ValidTerm(t, n)
    ensures e.Some? <==> Admissible(ket, t)
    ensures e.Some? ==> e.value.row == e.value.col
  {
    match Act(ket, t)
    case None => None
    case Some(bra) => Some(Entry(Rank(bra), Rank(bra)))
  }

  /** With three modes and charge two, c†_0 c†_2 c_0 c_1 takes {0, 1} to
      {0, 2}: an off-diagonal element, which the as-written routine files on
      the diagonal. */
  lemma ContributionAsWrittenMisplaces()
    ensures ContributionAsWritten(3, 2, [0, 1], Term(0, 2, 0, 1)) == Some(Entry(1, 1))
    ensures Contribution(3, 2, [0, 1], Term(0, 2, 0, 1)) == Some(Entry(1, 0))
  {
    var t := Term(0, 2, 0, 1);
    assert Remove([0, 1], 1) == [0];
    assert Remove([0], 0) == [];
    assert AddSorted([], 2) == [2];
    assert AddSorted([2], 0) == [0, 2];
    assert Act([0, 1], t) == Some([0, 2]);
    assert [0, 2][..1] == [0];
    assert Rank([0, 2]) == 1;
    assert [0, 1][..1] == [0];
    assert Rank([0, 1]) == 0;
  }
}
