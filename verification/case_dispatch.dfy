/** The six-way case dispatch of `add_hamiltonian_term_contribution`: for a
    term c†_i c†_j c_k c_l (i < j, k < l) the overlap of {i, j} with {k, l}
    fixes which modes a ket must hold (k and l) and which it must miss (i and
    j, unless they coincide with k or l), and the builder encodes that as a
    list of insert-and-shift / shift-only steps at increasing modes. */
module CaseDispatch {
  import opened Occupations
  import opened IndexExpansion

  /** The term c†_i c†_j c_k c_l. */
  datatype Term = Term(i: nat, j: nat, k: nat, l: nat)

  /** The terms the builders visit: 0 <= i < j < n and 0 <= k < l < n. */
  predicate ValidTerm(t: Term, n: nat) {
    t.i < t.j < n && t.k < t.l < n
  }

  /** The branches, in the order the source tests them. */
  datatype Overlap = SameBoth | SameFirst | SameSecond | CreateFirstIsAnnihilateSecond | CreateSecondIsAnnihilateFirst | AllDistinct

  function Dispatch(t: Term): (c: Overlap)
    requires t.i < t.j && t.k < t.l
    ensures c == SameBoth <==> t.i == t.k && t.j == t.l
    ensures c == SameFirst <==> t.i == t.k && t.j != t.l
    ensures c == SameSecond <==> t.j == t.l && t.i != t.k
    ensures c == CreateFirstIsAnnihilateSecond <==> t.i == t.l
    ensures c == CreateSecondIsAnnihilateFirst <==> t.j == t.k
    ensures c == AllDistinct <==> t.i != t.k && t.i != t.l && t.j != t.k && t.j != t.l
    ensures c == CreateFirstIsAnnihilateSecond ==> t.k < t.i < t.j
    ensures c == CreateSecondIsAnnihilateFirst ==> t.i < t.j < t.l
  {
    if t.i == t.k && t.j == t.l then SameBoth
    else if t.i == t.k then SameFirst
    else if t.j == t.l then SameSecond
    else if t.i == t.l then CreateFirstIsAnnihilateSecond
    else if t.j == t.k then CreateSecondIsAnnihilateFirst
    else AllDistinct
  }

  /** The six relative orders of four distinct modes with i < j and k < l. */
  datatype Ordering = IJKL | IKJL | KIJL | IKLJ | KILJ | KLIJ

  function DistinctOrdering(t: Term): (o: Ordering)
    requires t.i < t.j && t.k < t.l
    requires t.i != t.k && t.i != t.l && t.j != t.k && t.j != t.l
    ensures o == IJKL <==> t.i < t.j < t.k < t.l
    ensures o == IKJL <==> t.i < t.k < t.j < t.l
    ensures o == KIJL <==> t.k < t.i < t.j < t.l
    ensures o == IKLJ <==> t.i < t.k < t.l < t.j
    ensures o == KILJ <==> t.k < t.i < t.l < t.j
    ensures o == KLIJ <==> t.k < t.l < t.i < t.j
  {
    if t.j < t.k then IJKL
    else if t.i < t.k && t.j < t.l then IKJL
    else if t.j < t.l then KIJL
    else if t.i < t.k then IKLJ
    else if t.i < t.l then KILJ
    else KLIJ
  }

  /** The insert-and-shift (`Include`) and shift-only (`Exclude`) calls each
      branch makes, in the order it makes them. */
  function Plan(t: Term): (ops: seq<Op>)
    requires t.i < t.j && t.k < t.l
    ensures forall a, b :: 0 <= a < b < |ops| ==> ops[a].pos < ops[b].pos
    ensures |ops| == (match Dispatch(t) case SameBoth => 2 case AllDistinct => 4 case _ => 3)
    ensures Inserted(ops) == 2
  {
    var ops :=
    match Dispatch(t)
    case SameBoth => [Include(t.k), Include(t.l)]
    case SameFirst =>
      if t.j < t.l then [Include(t.k), Exclude(t.j), Include(t.l)]
      else [Include(t.k), Include(t.l), Exclude(t.j)]
    case SameSecond =>
      if t.i < t.k then [Exclude(t.i), Include(t.k), Include(t.l)]
      else [Include(t.k), Exclude(t.i), Include(t.l)]
    case CreateFirstIsAnnihilateSecond => [Include(t.k), Include(t.l), Exclude(t.j)]
    case CreateSecondIsAnnihilateFirst => [Exclude(t.i), Include(t.k), Include(t.l)]
    case AllDistinct =>
      match DistinctOrdering(t)
      case IJKL => [Exclude(t.i), Exclude(t.j), Include(t.k), Include(t.l)]
      case IKJL => [Exclude(t.i), Include(t.k), Exclude(t.j), Include(t.l)]
      case KIJL => [Include(t.k), Exclude(t.i), Exclude(t.j), Include(t.l)]
      case IKLJ => [Exclude(t.i), Include(t.k), Include(t.l), Exclude(t.j)]
      case KILJ => [Include(t.k), Exclude(t.i), Include(t.l), Exclude(t.j)]
      case KLIJ => [Include(t.k), Include(t.l), Exclude(t.i), Exclude(t.j)];
    InsertedShort(ops);
    ops
  }

  /** A ket survives c†_i c†_j c_k c_l exactly when it holds k and l and
      holds i and j only where they coincide with k or l. */
  predicate Admissible(s: seq<nat>, t: Term) {
    t.k in s && t.l in s &&
    (t.i in s ==> t.i == t.k || t.i == t.l) &&
    (t.j in s ==> t.j == t.k || t.j == t.l)
  }

  /** The number of steps is the number of distinct modes the term touches. */
  lemma PlanLength(t: Term)
    requires t.i < t.j && t.k < t.l
    ensures |Plan(t)| == |{t.i, t.j, t.k, t.l}|
  {
    var ops := Plan(t);
    match Dispatch(t)
    case SameBoth => assert {t.i, t.j, t.k, t.l} == {t.k, t.l};
    case SameFirst => assert {t.i, t.j, t.k, t.l} == {t.j} + {t.k, t.l};
    case SameSecond => assert {t.i, t.j, t.k, t.l} == {t.i} + {t.k, t.l};
    case CreateFirstIsAnnihilateSecond => assert {t.i, t.j, t.k, t.l} == {t.j} + {t.k, t.l};
    case CreateSecondIsAnnihilateFirst => assert {t.i, t.j, t.k, t.l} == {t.i} + {t.k, t.l};
    case AllDistinct => assert {t.i, t.j, t.k, t.l} == {t.i, t.j} + {t.k, t.l};
  }

  /** Each branch's steps fit the mode space: starting from the reduced space
      of n - |Plan(t)| modes, every step targets a slot of the space it
      widens, so the last step lands in [0, n). */
  lemma PlanWellPlaced(t: Term, n: nat)
    requires ValidTerm(t, n)
    ensures |Plan(t)| <= n
    ensures WellPlaced(Plan(t), n - |Plan(t)|)
  {
    var ops := Plan(t);
    assert ops[|ops| - 1].pos < n;
    assert ops[0].pos >= 0;
  }

  /** The steps insert exactly k and l and skip exactly the creation modes
      that are not also annihilation modes. */
  lemma PlanCompatible(t: Term, s: seq<nat>)
    requires t.i < t.j && t.k < t.l
    ensures Compatible(s, Plan(t)) <==> Admissible(s, t)
  {
    CompatibleSteps(s, Plan(t));
  }

  /** The steps of a term's branch accept exactly its admissible kets. */
  lemma PlanCompatibleAll(t: Term)
    requires t.i < t.j && t.k < t.l
    ensures forall s :: Compatible(s, Plan(t)) <==> Admissible(s, t)
  {
    forall s {
      PlanCompatible(t, s);
    }
  }

  /** The ket the builder forms from a reduced tuple for term t. */
  function ExpandTerm(t: Term, r: seq<nat>): (ket: seq<nat>)
    requires t.i < t.j && t.k < t.l
  {
    Expand(Plan(t), r)
  }

  /** An ascending reduced tuple over [0, n - |Plan(t)|) expands to an
      ascending ket over [0, n) two modes longer that holds k and l and
      misses i and j except where they coincide with k or l. */
  lemma ExpandTermSound(t: Term, n: nat, r: seq<nat>)
    requires ValidTerm(t, n)
    requires |Plan(t)| <= n && Ascending(r) && Below(r, n - |Plan(t)|)
    ensures Ascending(ExpandTerm(t, r)) && Below(ExpandTerm(t, r), n)
    ensures |ExpandTerm(t, r)| == |r| + 2
    ensures Admissible(ExpandTerm(t, r), t)
  {
    PlanWellPlaced(t, n);
    ExpandSound(Plan(t), n - |Plan(t)|, r);
    PlanCompatible(t, ExpandTerm(t, r));
  }

  /** The expansion is a bijection from the reduced tuples onto the
      admissible kets: contraction undoes it, and every admissible ket is the
      expansion of its contraction, which is a reduced tuple two modes
      shorter. */
  lemma ExpandTermBijection(t: Term, n: nat, s: seq<nat>)
    requires ValidTerm(t, n)
    requires Ascending(s) && Below(s, n) && Admissible(s, t)
    ensures |Plan(t)| <= n
    ensures Ascending(Contract(Plan(t), s)) && Below(Contract(Plan(t), s), n - |Plan(t)|)
    ensures |Contract(Plan(t), s)| + 2 == |s|
    ensures ExpandTerm(t, Contract(Plan(t), s)) == s
  {
    PlanWellPlaced(t, n);
    PlanCompatible(t, s);
    ContractRoundTrip(Plan(t), n - |Plan(t)|, n, s);
  }

  lemma ExpandTermInjective(t: Term, r1: seq<nat>, r2: seq<nat>)
    requires t.i < t.j && t.k < t.l
    ensures ExpandTerm(t, r1) == ExpandTerm(t, r2) ==> r1 == r2
  {
    ContractExpand(Plan(t), r1);
    ContractExpand(Plan(t), r2);
  }
}
