/** The index expander of the optimized block builder: insert-and-shift and
    shift-only re-expand a reduced occupation tuple, computed in a
    contracted mode space, into the full mode space. A list of such
    operations at increasing target modes is a bijection between reduced
    tuples and the full tuples that hold every inserted mode and miss every
    skipped one; `Contract` is its inverse. */
module IndexExpansion {
  import opened Occupations

  /** Where a mode lands when slot p is opened: modes at or above p move up one. */
  function Lift(x: nat, p: nat): (y: nat) {
    if x >= p then x + 1 else x
  }

  /** Where a mode lands when slot p is closed: modes above p move down one. */
  function Lower(x: nat, p: nat): (y: nat) {
    if x > p then x - 1 else x
  }

  /** Facts about a tuple whose every mode has been lifted past slot p. */
  lemma LiftedFacts(s: seq<nat>, p: nat, r: seq<nat>)
    requires |r| == |s| && forall a :: 0 <= a < |s| ==> r[a] == Lift(s[a], p)
    ensures p !in r
    ensures forall x :: x < p ==> (x in r <==> x in s)
    ensures forall x :: x > p ==> (x in r <==> x - 1 in s)
    ensures Ascending(s) ==> Ascending(r)
  {
    forall x | x in s ensures Lift(x, p) in r {
      var a :| 0 <= a < |s| && s[a] == x;
      assert r[a] == Lift(x, p);
    }
    forall x | x in r ensures x != p && (x < p ==> x in s) && (x > p ==> x - 1 in s) {
      var a :| 0 <= a < |r| && r[a] == x;
      assert s[a] in s;
    }
    forall x | x > p && x - 1 in s ensures x in r {
      assert Lift(x - 1, p) == x;
    }
  }

  /** Facts about a tuple whose every mode has been lowered past slot p. */
  lemma LoweredFacts(s: seq<nat>, p: nat, r: seq<nat>)
    requires |r| == |s| && forall a :: 0 <= a < |s| ==> r[a] == Lower(s[a], p)
    ensures forall x :: x < p ==> (x in r <==> x in s)
    ensures p !in s ==> forall x :: x >= p ==> (x in r <==> x + 1 in s)
    ensures Ascending(s) && p !in s ==> Ascending(r)
  {
    forall x | x in s ensures Lower(x, p) in r {
      var a :| 0 <= a < |s| && s[a] == x;
      assert r[a] == Lower(x, p);
    }
    forall x | x in r ensures (x < p ==> x in s) && (p !in s && x >= p ==> x + 1 in s) {
      var a :| 0 <= a < |r| && r[a] == x;
      assert s[a] in s;
    }
    if p !in s {
      forall x | x >= p && x + 1 in s ensures x in r {
        assert Lower(x + 1, p) == x;
      }
    }
    LoweredAscending(s, p, r);
  }

  /** Lowering past a slot that no mode occupies keeps a tuple ascending. */
  lemma LoweredAscending(s: seq<nat>, p: nat, r: seq<nat>)
    requires |r| == |s| && forall a :: 0 <= a < |s| ==> r[a] == Lower(s[a], p)
    ensures Ascending(s) && p !in s ==> Ascending(r)
  {
    if Ascending(s) && p !in s {
      forall a, b | 0 <= a < b < |r| ensures r[a] < r[b] {
        assert s[a] in s && s[b] in s;
      }
    }
  }

  /** shift-only (`shift_starting_at_index`): every mode >= p moves up one
      and nothing is inserted, so slot p is left empty. */
  function Shift(s: seq<nat>, p: nat): (r: seq<nat>)
    ensures |r| == |s|
    ensures p !in r
    ensures forall x :: x < p ==> (x in r <==> x in s)
    ensures forall x :: x > p ==> (x in r <==> x - 1 in s)
    ensures Ascending(s) ==> Ascending(r)
  {
    var r := seq(|s|, a requires 0 <= a < |s| => Lift(s[a], p));
    LiftedFacts(s, p, r);
    r
  }

  /** Inverse of shift-only: every mode above p moves down one. */
  function Unshift(s: seq<nat>, p: nat): (r: seq<nat>)
    ensures |r| == |s|
    ensures forall x :: x < p ==> (x in r <==> x in s)
    ensures p !in s ==> forall x :: x >= p ==> (x in r <==> x + 1 in s)
    ensures Ascending(s) && p !in s ==> Ascending(r)
  {
    var r := seq(|s|, a requires 0 <= a < |s| => Lower(s[a], p));
    LoweredFacts(s, p, r);
    r
  }

  /** insert-and-shift (`insert_index_and_shift`): walk the tuple; before the
      first mode >= p insert p, and move that mode and every later mode >= p
      up one; when no mode is >= p, append p at the end. */
  function InsertAndShift(s: seq<nat>, p: nat): (r: seq<nat>)
    ensures |r| == |s| + 1
    ensures p in r
    ensures forall x :: x < p ==> (x in r <==> x in s)
    ensures forall x :: x > p ==> (x in r <==> x - 1 in s)
    ensures Ascending(s) ==> Ascending(r)
    decreases |s|
  {
    if |s| == 0 then [p]
    else if s[0] >= p then
      InsertHere(s, p, Shift(s, p));
      [p] + Shift(s, p)
    else
      var t := InsertAndShift(s[1..], p);
      InsertLater(s, p, t);
      [s[0]] + t
  }

  /** The walk reaches a mode >= p: p goes in front of the shifted rest. */
  lemma InsertHere(s: seq<nat>, p: nat, t: seq<nat>)
    requires |s| > 0 && s[0] >= p && t == Shift(s, p)
    ensures |[p] + t| == |s| + 1
    ensures p in [p] + t
    ensures forall x :: x < p ==> (x in [p] + t <==> x in s)
    ensures forall x :: x > p ==> (x in [p] + t <==> x - 1 in s)
    ensures Ascending(s) ==> Ascending([p] + t)
  {
    AscendingHead(s);
    if Ascending(s) {
      forall x | x in t ensures p < x {
        assert x < p ==> x in s;
      }
    }
    AscendingCons(p, t);
  }

  /** The walk passes a mode below p, which stays in front. */
  lemma InsertLater(s: seq<nat>, p: nat, t: seq<nat>)
    requires |s| > 0 && s[0] < p
    requires |t| == |s| && p in t
    requires forall x :: x < p ==> (x in t <==> x in s[1..])
    requires forall x :: x > p ==> (x in t <==> x - 1 in s[1..])
    requires Ascending(s[1..]) ==> Ascending(t)
    ensures |[s[0]] + t| == |s| + 1
    ensures p in [s[0]] + t
    ensures forall x :: x < p ==> (x in [s[0]] + t <==> x in s)
    ensures forall x :: x > p ==> (x in [s[0]] + t <==> x - 1 in s)
    ensures Ascending(s) ==> Ascending([s[0]] + t)
  {
    AscendingHead(s);
    if Ascending(s) {
      forall x | x in t ensures s[0] < x {
        if x < p {
          assert x in s[1..];
        }
      }
    }
    AscendingCons(s[0], t);
  }

  /** When every mode is below p, the walk ends without inserting and p is
      appended at the end. */
  lemma {:induction false} InsertAndShiftAppends(s: seq<nat>, p: nat)
    requires forall x :: x in s ==> x < p
    ensures InsertAndShift(s, p) == s + [p]
    decreases |s|
  {
    if |s| > 0 {
      assert s[0] in s;
      AscendingHead(s);
      forall x | x in s[1..] ensures x < p {
        assert x in s;
      }
      InsertAndShiftAppends(s[1..], p);
    }
  }

  /** Insert-and-shift is "bump every mode >= p, then place p at its sorted
      position", the description the builder's comments give. */
  lemma InsertAndShiftIsShiftThenAdd(s: seq<nat>, p: nat)
    requires Ascending(s)
    ensures InsertAndShift(s, p) == AddSorted(Shift(s, p), p)
    decreases |s|
  {
    if |s| > 0 {
      AscendingHead(s);
      if s[0] >= p {
        assert Shift(s, p)[0] == s[0] + 1;
      } else {
        InsertAndShiftIsShiftThenAdd(s[1..], p);
        assert Shift(s, p) == [s[0]] + Shift(s[1..], p);
      }
    }
  }

  /** One expansion step: `Include(p)` is insert-and-shift at p (mode p is
      known to be occupied), `Exclude(p)` is shift-only at p (mode p is known
      to be empty). */
  datatype Op = Include(pos: nat) | Exclude(pos: nat)

  function Step(op: Op, s: seq<nat>): (r: seq<nat>)
    ensures |r| == |s| + (if op.Include? then 1 else 0)
    ensures op.pos in r <==> op.Include?
    ensures forall x :: x < op.pos ==> (x in r <==> x in s)
    ensures forall x :: x > op.pos ==> (x in r <==> x - 1 in s)
    ensures Ascending(s) ==> Ascending(r)
  {
    match op
    case Include(p) => InsertAndShift(s, p)
    case Exclude(p) => Shift(s, p)
  }

  /** Undoes one step: removes the inserted mode, then closes its slot. */
  function Unstep(op: Op, s: seq<nat>): (r: seq<nat>)
    ensures (op.pos in s <==> op.Include?) ==> |r| + (if op.Include? then 1 else 0) == |s|
    ensures forall x :: x < op.pos ==> (x in r <==> x in s)
    ensures Ascending(s) && (op.pos in s <==> op.Include?) ==> forall x :: x >= op.pos ==> (x in r <==> x + 1 in s)
    ensures Ascending(s) && (op.pos in s <==> op.Include?) ==> Ascending(r)
  {
    match op
    case Include(p) => Unshift(Remove(s, p), p)
    case Exclude(p) => Unshift(s, p)
  }

  lemma {:induction false} RemoveInsertAndShift(s: seq<nat>, p: nat)
    ensures Remove(InsertAndShift(s, p), p) == Shift(s, p)
    decreases |s|
  {
    if |s| > 0 && s[0] < p {
      RemoveInsertAndShift(s[1..], p);
      assert Shift(s, p) == [s[0]] + Shift(s[1..], p);
    }
  }

  lemma UnshiftShift(s: seq<nat>, p: nat)
    ensures Unshift(Shift(s, p), p) == s
  {
    assert forall a :: 0 <= a < |s| ==> Unshift(Shift(s, p), p)[a] == s[a];
  }

  lemma ShiftUnshift(s: seq<nat>, p: nat)
    requires p !in s
    ensures Shift(Unshift(s, p), p) == s
  {
    forall a | 0 <= a < |s| ensures Shift(Unshift(s, p), p)[a] == s[a] {
      assert s[a] in s;
    }
  }

  /** Contracting after expanding gives back the reduced tuple. */
  lemma UnstepStep(op: Op, s: seq<nat>)
    ensures Unstep(op, Step(op, s)) == s
  {
    match op
    case Include(p) => RemoveInsertAndShift(s, p); UnshiftShift(s, p);
    case Exclude(p) => UnshiftShift(s, p);
  }

  lemma {:induction false} InsertAndShiftUnstep(s: seq<nat>, p: nat)
    requires Ascending(s) && p in s
    ensures InsertAndShift(Unshift(Remove(s, p), p), p) == s
    decreases |s|
  {
    AscendingHead(s);
    if s[0] == p {
      InsertAndShiftUnstepHead(s, p);
    } else {
      assert s[0] < p by {
        var a :| 0 <= a < |s| && s[a] == p;
      }
      var u := Unshift(Remove(s, p), p);
      var rest := Remove(s[1..], p);
      assert Remove(s, p) == [s[0]] + rest;
      assert u == [s[0]] + Unshift(rest, p);
      assert p in s[1..];
      InsertAndShiftUnstep(s[1..], p);
      assert u[1..] == Unshift(rest, p);
    }
  }

  /** The case of InsertAndShiftUnstep where p is the lowest mode. */
  lemma InsertAndShiftUnstepHead(s: seq<nat>, p: nat)
    requires Ascending(s) && |s| > 0 && s[0] == p
    ensures InsertAndShift(Unshift(Remove(s, p), p), p) == s
  {
    AscendingHead(s);
    var t := s[1..];
    assert Remove(s, p) == t;
    ShiftUnshift(t, p);
    var u := Unshift(t, p);
    if |u| > 0 {
      assert u[0] >= p by {
        assert t[0] in t;
        assert u[0] == Lower(t[0], p);
      }
    }
  }

  /** Expanding after contracting gives back any full tuple that holds the
      inserted mode and misses the skipped one. */
  lemma StepUnstep(op: Op, s: seq<nat>)
    requires Ascending(s) && (op.pos in s <==> op.Include?)
    ensures Step(op, Unstep(op, s)) == s
  {
    match op
    case Include(p) => InsertAndShiftUnstep(s, p);
    case Exclude(p) => ShiftUnshift(s, p);
  }

  /** Apply a list of steps left to right, as the builder applies them. */
  function Expand(ops: seq<Op>, s: seq<nat>): (r: seq<nat>)
    decreases |ops|
  {
    if |ops| == 0 then s else Step(ops[|ops| - 1], Expand(ops[..|ops| - 1], s))
  }

  /** Undo a list of steps right to left. */
  function Contract(ops: seq<Op>, s: seq<nat>): (r: seq<nat>)
    decreases |ops|
  {
    if |ops| == 0 then s else Contract(ops[..|ops| - 1], Unstep(ops[|ops| - 1], s))
  }

  /** Number of modes the list inserts. */
  function Inserted(ops: seq<Op>): (c: nat)
    decreases |ops|
  {
    if |ops| == 0 then 0
    else Inserted(ops[..|ops| - 1]) + Indicator(ops[|ops| - 1])
  }

  /** Compatibility read over the steps rather than their positions. */
  lemma CompatibleSteps(s: seq<nat>, ops: seq<Op>)
    ensures Compatible(s, ops) <==> forall op :: op in ops ==> (op.pos in s <==> op.Include?)
  {
    if Compatible(s, ops) {
      forall op | op in ops ensures op.pos in s <==> op.Include? {
        var a :| 0 <= a < |ops| && ops[a] == op;
      }
    }
  }

  function Indicator(op: Op): (c: nat) {
    if op.Include? then 1 else 0
  }

  /** Inserted counts the `Include` steps of a short list one by one. */
  lemma InsertedShort(ops: seq<Op>)
    requires 2 <= |ops| <= 4
    ensures Inserted(ops) == Indicator(ops[0]) + Indicator(ops[1])
      + (if |ops| > 2 then Indicator(ops[2]) else 0)
      + (if |ops| > 3 then Indicator(ops[3]) else 0)
  {
    var p1 := ops[..1];
    var p2 := ops[..2];
    assert p2[..1] == p1;
    assert Inserted(p1) == Indicator(ops[0]);
    assert Inserted(p2) == Indicator(ops[0]) + Indicator(ops[1]);
    if |ops| > 2 {
      var p3 := ops[..3];
      assert p3[..2] == p2;
      assert Inserted(p3) == Inserted(p2) + Indicator(ops[2]);
      if |ops| > 3 {
        assert ops[..3] == p3;
      }
    }
  }

  /** Targets strictly increase, and step a (0-based) targets a slot of the
      space of size m + a it widens, starting from a reduced space of size m. */
  predicate WellPlaced(ops: seq<Op>, m: nat) {
    (forall a, b :: 0 <= a < b < |ops| ==> ops[a].pos < ops[b].pos) &&
    (forall a :: 0 <= a < |ops| ==> ops[a].pos <= m + a)
  }

  /** `s` holds every inserted mode and misses every skipped one. */
  predicate Compatible(s: seq<nat>, ops: seq<Op>) {
    forall a :: 0 <= a < |ops| ==> (ops[a].pos in s <==> ops[a].Include?)
  }

  /** Expansion turns an ascending reduced tuple over [0, m) into an
      ascending tuple over the full space that holds every inserted mode and
      misses every skipped one. */
  lemma {:induction false} ExpandSound(ops: seq<Op>, m: nat, s: seq<nat>)
    requires WellPlaced(ops, m) && Ascending(s) && Below(s, m)
    ensures Ascending(Expand(ops, s))
    ensures Below(Expand(ops, s), m + |ops|)
    ensures Compatible(Expand(ops, s), ops)
    ensures |Expand(ops, s)| == |s| + Inserted(ops)
    decreases |ops|
  {
    if |ops| > 0 {
      var init := ops[..|ops| - 1];
      WellPlacedInit(ops, m);
      ExpandSound(init, m, s);
      StepLast(ops, m, Expand(init, s));
    }
  }

  /** Dropping the last step of a well-placed list keeps it well placed. */
  lemma WellPlacedInit(ops: seq<Op>, m: nat)
    requires |ops| > 0 && WellPlaced(ops, m)
    ensures WellPlaced(ops[..|ops| - 1], m)
  {
    var init := ops[..|ops| - 1];
    assert forall a :: 0 <= a < |init| ==> init[a] == ops[a];
  }

  /** Applying the last step of a well-placed list to a tuple compatible with
      the earlier steps gives a tuple compatible with all of them, one slot
      wider. */
  lemma StepLast(ops: seq<Op>, m: nat, t: seq<nat>)
    requires |ops| > 0
    requires WellPlaced(ops, m)
    requires Ascending(t) && Below(t, m + |ops| - 1) && Compatible(t, ops[..|ops| - 1])
    ensures Ascending(Step(ops[|ops| - 1], t))
    ensures Below(Step(ops[|ops| - 1], t), m + |ops|)
    ensures Compatible(Step(ops[|ops| - 1], t), ops)
    ensures |Step(ops[|ops| - 1], t)| == |t| + Indicator(ops[|ops| - 1])
  {
    var n := |ops|;
    var init := ops[..n - 1];
    var last := ops[n - 1];
    var r := Step(last, t);
    assert last.pos <= m + n - 1;
    forall x | x in r ensures x < m + n {
      if x > last.pos {
        assert x - 1 in t;
      }
    }
    forall a | 0 <= a < n ensures (ops[a].pos in r <==> ops[a].Include?) {
      if a < n - 1 {
        assert ops[a] == init[a];
      }
    }
  }

  /** Undoing the last step of a well-placed list leaves a tuple that is
      compatible with the remaining steps, one slot narrower. */
  lemma UnstepLast(ops: seq<Op>, m: nat, s: seq<nat>)
    requires |ops| > 0
    requires WellPlaced(ops, m) && Ascending(s) && Below(s, m + |ops|) && Compatible(s, ops)
    ensures WellPlaced(ops[..|ops| - 1], m)
    ensures Ascending(Unstep(ops[|ops| - 1], s))
    ensures Below(Unstep(ops[|ops| - 1], s), m + |ops| - 1)
    ensures Compatible(Unstep(ops[|ops| - 1], s), ops[..|ops| - 1])
    ensures |Unstep(ops[|ops| - 1], s)| + (if ops[|ops| - 1].Include? then 1 else 0) == |s|
  {
    var n := |ops|;
    var init := ops[..n - 1];
    var last := ops[n - 1];
    assert WellPlaced(init, m);
    var u := Unstep(last, s);
    assert last.pos in s <==> last.Include?;
    assert last.pos <= m + n - 1;
    forall x | x in u ensures x < m + n - 1 {
      if x >= last.pos {
        assert x + 1 in s;
      }
    }
    forall a | 0 <= a < n - 1 ensures (init[a].pos in u <==> init[a].Include?) {
      assert init[a] == ops[a];
    }
  }

  /** Contraction turns a full tuple that holds every inserted mode and
      misses every skipped one back into an ascending reduced tuple over
      [0, m). */
  lemma {:induction false} ContractSound(ops: seq<Op>, m: nat, s: seq<nat>)
    requires WellPlaced(ops, m) && Ascending(s) && Below(s, m + |ops|) && Compatible(s, ops)
    ensures Ascending(Contract(ops, s))
    ensures Below(Contract(ops, s), m)
    ensures |Contract(ops, s)| + Inserted(ops) == |s|
    decreases |ops|
  {
    if |ops| > 0 {
      UnstepLast(ops, m, s);
      ContractSound(ops[..|ops| - 1], m, Unstep(ops[|ops| - 1], s));
    }
  }

  /** Contraction is a left inverse of expansion. */
  lemma {:induction false} ContractExpand(ops: seq<Op>, s: seq<nat>)
    ensures Contract(ops, Expand(ops, s)) == s
    decreases |ops|
  {
    if |ops| > 0 {
      var n := |ops|;
      UnstepStep(ops[n - 1], Expand(ops[..n - 1], s));
      ContractExpand(ops[..n - 1], s);
    }
  }

  /** Expansion is a left inverse of contraction on compatible full tuples. */
  lemma {:induction false} ExpandContract(ops: seq<Op>, m: nat, s: seq<nat>)
    requires WellPlaced(ops, m) && Ascending(s) && Below(s, m + |ops|) && Compatible(s, ops)
    ensures Expand(ops, Contract(ops, s)) == s
    decreases |ops|
  {
    if |ops| > 0 {
      var n := |ops|;
      var last := ops[n - 1];
      UnstepLast(ops, m, s);
      ExpandContract(ops[..n - 1], m, Unstep(last, s));
      StepUnstep(last, s);
    }
  }

  /** Distinct reduced tuples expand to distinct full tuples. */
  lemma ExpandInjective(ops: seq<Op>, r1: seq<nat>, r2: seq<nat>)
    ensures Expand(ops, r1) == Expand(ops, r2) ==> r1 == r2
  {
    ContractExpand(ops, r1);
    ContractExpand(ops, r2);
  }

  /** Contraction and expansion together: a compatible full tuple over
      [0, n) comes from exactly one reduced tuple over [0, n - |ops|). */
  lemma ContractRoundTrip(ops: seq<Op>, m: nat, n: nat, s: seq<nat>)
    requires m + |ops| == n
    requires WellPlaced(ops, m) && Ascending(s) && Below(s, n) && Compatible(s, ops)
    ensures Ascending(Contract(ops, s)) && Below(Contract(ops, s), m)
    ensures |Contract(ops, s)| + Inserted(ops) == |s|
    ensures Expand(ops, Contract(ops, s)) == s
  {
    ContractSound(ops, m, s);
    ExpandContract(ops, m, s);
  }

  /** One element of the walk: how both primitives treat the head of a
      non-empty tuple. */
  lemma WalkStep(s: seq<nat>, p: nat)
    requires |s| > 0
    ensures Shift(s, p) == [Lift(s[0], p)] + Shift(s[1..], p)
    ensures s[0] >= p ==> InsertAndShift(s, p) == [p] + Shift(s, p)
    ensures s[0] < p ==> InsertAndShift(s, p) == [s[0]] + InsertAndShift(s[1..], p)
  {
    assert Shift(s, p)[0] == Lift(s[0], p);
    assert forall a :: 0 <= a < |s| - 1 ==> Shift(s, p)[a + 1] == Shift(s[1..], p)[a];
  }

  lemma Associative(a: seq<nat>, b: seq<nat>, c: seq<nat>)
    ensures (a + b) + c == a + (b + c)
  {
  }

  /** `shift_starting_at_index` as the loop the source describes. */
  method ShiftStartingAtIndex(s: seq<nat>, p: nat) returns (r: seq<nat>)
    ensures r == Shift(s, p)
    ensures |r| == |s| && p !in r
    ensures Ascending(s) ==> Ascending(r)
  {
    r := [];
    var a := 0;
    while a < |s|
      invariant 0 <= a <= |s|
      invariant r == Shift(s[..a], p)
    {
      r := r + [if s[a] >= p then s[a] + 1 else s[a]];
      assert s[..a + 1] == s[..a] + [s[a]];
      a := a + 1;
    }
    assert s[..a] == s;
  }

  /** The walk of `insert_index_and_shift` over a prefix: the output so far
      and whether p has been inserted. */
  function Walk(u: seq<nat>, p: nat): (w: (seq<nat>, bool))
    decreases |u|
  {
    if |u| == 0 then ([], false) else Advance(Walk(u[..|u| - 1], p), u[|u| - 1], p)
  }

  /** One iteration of the walk on mode x: insert p before the first mode
      >= p, bump every mode >= p, copy the others. */
  function Advance(prev: (seq<nat>, bool), x: nat, p: nat): (w: (seq<nat>, bool)) {
    if x >= p && !prev.1 then (prev.0 + [p] + [x + 1], true)
    else if x >= p then (prev.0 + [x + 1], true)
    else (prev.0 + [x], prev.1)
  }

  /** One step of the walk keeps its invariant: whatever the flag, the
      output so far completed by the rest of the input is `target`. */
  lemma WalkExtend(prev: (seq<nat>, bool), x: nat, v: seq<nat>, p: nat, target: seq<nat>)
    requires prev.1 ==> prev.0 + Shift([x] + v, p) == target
    requires !prev.1 ==> prev.0 + InsertAndShift([x] + v, p) == target
    ensures Advance(prev, x, p).1 ==> Advance(prev, x, p).0 + Shift(v, p) == target
    ensures !Advance(prev, x, p).1 ==> Advance(prev, x, p).0 + InsertAndShift(v, p) == target
  {
    var rest := [x] + v;
    WalkStep(rest, p);
    assert rest[0] == x && rest[1..] == v;
    if prev.1 {
      WalkExtendDone(prev.0, x, v, p, target);
    } else if x >= p {
      WalkExtendInsert(prev.0, x, v, p, target);
    } else {
      Associative(prev.0, [x], InsertAndShift(v, p));
    }
  }

  /** WalkExtend once p has been inserted: x is copied or bumped. */
  lemma WalkExtendDone(r: seq<nat>, x: nat, v: seq<nat>, p: nat, target: seq<nat>)
    requires r + ([Lift(x, p)] + Shift(v, p)) == target
    ensures r + [Lift(x, p)] + Shift(v, p) == target
  {
    Associative(r, [Lift(x, p)], Shift(v, p));
  }

  /** WalkExtend where x is the first mode >= p: p goes in before it. */
  lemma WalkExtendInsert(r: seq<nat>, x: nat, v: seq<nat>, p: nat, target: seq<nat>)
    requires r + ([p] + ([x + 1] + Shift(v, p))) == target
    ensures r + [p] + [x + 1] + Shift(v, p) == target
  {
    Associative(r, [p], [x + 1] + Shift(v, p));
    Associative(r + [p], [x + 1], Shift(v, p));
  }

  /** After walking u with p already inserted, the output so far completed
      by shifting the rest v is insert-and-shift of u + v. */
  lemma {:induction false} WalkSplitDone(u: seq<nat>, v: seq<nat>, p: nat)
    requires Walk(u, p).1
    ensures Walk(u, p).0 + Shift(v, p) == InsertAndShift(u + v, p)
    decreases |u|, 1
  {
    var init := u[..|u| - 1];
    var x := u[|u| - 1];
    assert init + ([x] + v) == u + v;
    assert Walk(u, p) == Advance(Walk(init, p), x, p);
    if Walk(init, p).1 {
      WalkSplitDone(init, [x] + v, p);
    } else {
      WalkSplitPending(init, [x] + v, p);
    }
    WalkExtend(Walk(init, p), x, v, p, InsertAndShift(u + v, p));
  }

  /** After walking u without inserting p, the output so far completed by
      the walk over the rest v is insert-and-shift of u + v. */
  lemma {:induction false} WalkSplitPending(u: seq<nat>, v: seq<nat>, p: nat)
    requires !Walk(u, p).1
    ensures Walk(u, p).0 + InsertAndShift(v, p) == InsertAndShift(u + v, p)
    decreases |u|, 0
  {
    if |u| == 0 {
      assert u + v == v;
      assert Walk(u, p).0 == [];
      assert [] + InsertAndShift(v, p) == InsertAndShift(v, p);
    } else {
      var init := u[..|u| - 1];
      var x := u[|u| - 1];
      assert init + ([x] + v) == u + v;
      assert Walk(u, p) == Advance(Walk(init, p), x, p);
      WalkSplitPending(init, [x] + v, p);
      WalkExtend(Walk(init, p), x, v, p, InsertAndShift(u + v, p));
    }
  }

  /** `insert_index_and_shift` as the loop the source describes: an
      `inserted` flag, insertion before the first mode >= p, and an append
      when the walk ends without inserting. */
  method InsertIndexAndShift(s: seq<nat>, p: nat) returns (r: seq<nat>)
    ensures r == InsertAndShift(s, p)
    ensures |r| == |s| + 1 && p in r
    ensures Ascending(s) ==> Ascending(r)
  {
    var inserted := false;
    r := [];
    var a := 0;
    while a < |s|
      invariant 0 <= a <= |s|
      invariant (r, inserted) == Walk(s[..a], p)
    {
      assert s[..a + 1][..a] == s[..a];
      if s[a] >= p {
        if !inserted {
          r := r + [p];
          inserted := true;
        }
        r := r + [s[a] + 1];
      } else {
        r := r + [s[a]];
      }
      a := a + 1;
    }
    assert s[..a] == s;
    assert s + [] == s;
    if inserted {
      WalkSplitDone(s, [], p);
    } else {
      WalkSplitPending(s, [], p);
    }
    if !inserted {
      r := r + [p];
    }
  }
}
