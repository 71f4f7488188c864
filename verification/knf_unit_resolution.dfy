/** `makeUnitResolutionWithinKNF` (KnfMethods.py, lines 74-108): repeated
    rounds of unit resolution inside one clause list. In a round, every unit
    clause `[u]` of the round-start list is used in turn to scan the working
    list `tmp`: a longer clause holding `u` is marked for removal, a longer
    clause holding `not u` loses every copy of that literal. Marked clauses are
    removed at the end of the round, and rounds repeat while one changed
    something. */
module KnfUnitResolution {
  import opened Seqs
  import opened Logic
  import opened KnfSimplify

  /** The loop variables of one round: the working list, the clauses marked
      for removal, and whether anything happened. */
  datatype ScanState<N> = ScanState(tmp: Cnf<N>, removable: Cnf<N>, changed: bool)

  /** Lines 95-103: what visiting position `i` of `tmp` does for unit literal
      `u`. A shortened clause is written back at the FIRST position holding
      an equal clause (`tmp.index(clause)`). */
  function ScanStep<N(==,!new)>(u: Literal<N>, st: ScanState<N>, i: nat): (r: ScanState<N>)
    requires i < |st.tmp|
    ensures |r.tmp| == |st.tmp|
  {
    var clause := st.tmp[i];
    if |clause| > 1 && u in clause && clause !in st.removable then
      ScanState(st.tmp, st.removable + [clause], true)
    else if |clause| > 1 && Neg(u) in clause then
      ScanState(st.tmp[IndexOf(st.tmp, clause) := RemoveAllOf(clause, [Neg(u)])], st.removable, true)
    else st
  }

  /** Lines 94-103: the inner loop over `tmp`, from position `i` on. */
  function ScanClauses<N(==,!new)>(u: Literal<N>, st: ScanState<N>, i: nat): (r: ScanState<N>)
    requires i <= |st.tmp|
    ensures |r.tmp| == |st.tmp|
    decreases |st.tmp| - i
  {
    if i == |st.tmp| then st else ScanClauses(u, ScanStep(u, st, i), i + 1)
  }

  /** Lines 92-103: the outer loop over the round-start list `units`; only
      clauses of length one start a scan. */
  function ScanUnits<N(==,!new)>(units: Cnf<N>, st: ScanState<N>): (r: ScanState<N>)
    ensures |r.tmp| == |st.tmp|
    decreases |units|
  {
    if units == [] then st
    else ScanUnits(units[1..], if |units[0]| == 1 then ScanClauses(units[0][0], st, 0) else st)
  }

  datatype RoundResult<N> = RoundResult(cnf: Cnf<N>, changed: bool)

  /** Lines 89-107: one round on the list `tmp`, which at the start of every
      round equals `knf`. Marked clauses go with all their copies. */
  function Round<N(==,!new)>(tmp: Cnf<N>): RoundResult<N> {
    var st := ScanUnits(tmp, ScanState(tmp, [], false));
    RoundResult(RemoveAllOf(st.tmp, st.removable), st.changed)
  }

  // ---------------------------------------------------------------------------
  // What a round keeps invariant

  /** The shape facts a round keeps about its working state, relative to the
      round-start list `tmp0`. */
  ghost predicate ScanInv<N(!new)>(tmp0: Cnf<N>, st: ScanState<N>) {
    && |st.tmp| == |tmp0|
    && (forall k :: 0 <= k < |tmp0| && |tmp0[k]| <= 1 ==> st.tmp[k] == tmp0[k])
    && (forall k :: 0 <= k < |tmp0| ==> Subsums(st.tmp[k], tmp0[k]) && |st.tmp[k]| <= |tmp0[k]|)
    && (forall k :: 0 <= k < |tmp0| && NoDuplicates(tmp0[k]) ==> NoDuplicates(st.tmp[k]))
    && (forall c :: c in st.removable ==> |c| > 1 && exists x :: x in c && [x] in tmp0)
    && (st.changed ==>
          (exists k :: 0 <= k < |tmp0| && |st.tmp[k]| < |tmp0[k]|)
          || (exists c :: c in st.removable && c in st.tmp))
    && (!st.changed ==> st.tmp == tmp0 && st.removable == [])
  }

  /** Marking a clause that holds the unit literal keeps the invariant. */
  lemma ScanMarkInv<N(!new)>(tmp0: Cnf<N>, u: Literal<N>, st: ScanState<N>, i: nat)
    requires ScanInv(tmp0, st) && i < |st.tmp| && [u] in tmp0
    requires |st.tmp[i]| > 1 && u in st.tmp[i] && st.tmp[i] !in st.removable
    ensures ScanInv(tmp0, ScanState(st.tmp, st.removable + [st.tmp[i]], true))
  {
    var clause := st.tmp[i];
    var removable := st.removable + [clause];
    assert clause in st.tmp;
    forall c | c in removable ensures |c| > 1 && exists x :: x in c && [x] in tmp0 {
      if c == clause {
        assert u in c && [u] in tmp0;
      } else {
        assert c in st.removable;
      }
    }
  }

  /** Writing a strictly shorter part of a longer round-start clause back at
      its position keeps the invariant. */
  lemma ScanReplaceInv<N(!new)>(tmp0: Cnf<N>, st: ScanState<N>, j: nat, nc: Clause<N>)
    requires ScanInv(tmp0, st) && j < |tmp0| && |tmp0[j]| > 1
    requires Subsums(nc, tmp0[j]) && |nc| < |tmp0[j]|
    requires NoDuplicates(tmp0[j]) ==> NoDuplicates(nc)
    ensures ScanInv(tmp0, ScanState(st.tmp[j := nc], st.removable, true))
  {
    var tmp := st.tmp[j := nc];
    forall k | 0 <= k < |tmp0|
      ensures |tmp0[k]| <= 1 ==> tmp[k] == tmp0[k]
      ensures Subsums(tmp[k], tmp0[k]) && |tmp[k]| <= |tmp0[k]|
      ensures NoDuplicates(tmp0[k]) ==> NoDuplicates(tmp[k])
    {
      if k != j {
        assert tmp[k] == st.tmp[k];
      }
    }
    assert |tmp[j]| < |tmp0[j]|;
  }

  /** Shortening a clause that holds the negated unit literal keeps the
      invariant. */
  lemma ScanShortenInv<N(!new)>(tmp0: Cnf<N>, u: Literal<N>, st: ScanState<N>, i: nat)
    requires ScanInv(tmp0, st) && i < |st.tmp| && [u] in tmp0
    requires |st.tmp[i]| > 1 && Neg(u) in st.tmp[i]
    ensures var clause := st.tmp[i];
      ScanInv(tmp0, ScanState(st.tmp[IndexOf(st.tmp, clause) := RemoveAllOf(clause, [Neg(u)])], st.removable, true))
  {
    var clause := st.tmp[i];
    var j := IndexOf(st.tmp, clause);
    var nc := RemoveAllOf(clause, [Neg(u)]);
    RemoveAllOfShorter(clause, [Neg(u)], Neg(u));
    assert st.tmp[j] == clause;
    assert |tmp0[j]| > 1;
    assert Subsums(nc, clause);
    SubsumsTransitive(nc, clause, tmp0[j]);
    if NoDuplicates(tmp0[j]) {
      RemoveAllOfNoDuplicates(clause, [Neg(u)]);
    }
    ScanReplaceInv(tmp0, st, j, nc);
  }

  lemma ScanStepInv<N(!new)>(tmp0: Cnf<N>, u: Literal<N>, st: ScanState<N>, i: nat)
    requires ScanInv(tmp0, st) && i < |st.tmp| && [u] in tmp0
    ensures ScanInv(tmp0, ScanStep(u, st, i))
  {
    var clause := st.tmp[i];
    if |clause| > 1 && u in clause && clause !in st.removable {
      ScanMarkInv(tmp0, u, st, i);
    } else if |clause| > 1 && Neg(u) in clause {
      ScanShortenInv(tmp0, u, st, i);
    }
  }

  /** A property every step keeps holds after the whole inner loop. */
  lemma {:induction false} ScanClausesKeeps<N(!new)>(keep: ScanState<N> -> bool, u: Literal<N>, st: ScanState<N>, i: nat)
    requires keep(st) && i <= |st.tmp|
    requires forall s: ScanState<N>, k: nat :: keep(s) && k < |s.tmp| ==> keep(ScanStep(u, s, k))
    ensures keep(ScanClauses(u, st, i))
    decreases |st.tmp| - i
  {
    if i < |st.tmp| {
      ScanClausesKeeps(keep, u, ScanStep(u, st, i), i + 1);
    }
  }

  lemma ScanClausesInv<N(!new)>(tmp0: Cnf<N>, u: Literal<N>, st: ScanState<N>, i: nat)
    requires ScanInv(tmp0, st) && i <= |st.tmp| && [u] in tmp0
    ensures ScanInv(tmp0, ScanClauses(u, st, i))
  {
    forall s: ScanState<N>, k: nat | ScanInv(tmp0, s) && k < |s.tmp| ensures ScanInv(tmp0, ScanStep(u, s, k)) {
      ScanStepInv(tmp0, u, s, k);
    }
    ScanClausesKeeps(s => ScanInv(tmp0, s), u, st, i);
  }

  lemma {:induction false} ScanUnitsInv<N(!new)>(tmp0: Cnf<N>, units: Cnf<N>, st: ScanState<N>)
    requires ScanInv(tmp0, st) && forall c :: c in units ==> c in tmp0
    ensures ScanInv(tmp0, ScanUnits(units, st))
    decreases |units|
  {
    if units != [] {
      assert units[0] in tmp0;
      if |units[0]| == 1 {
        assert units[0] == [units[0][0]];
      }
      assert forall c :: c in units[1..] ==> c in units;
      var st' := if |units[0]| == 1 then ScanClauses(units[0][0], st, 0) else st;
      if |units[0]| == 1 {
        ScanClausesInv(tmp0, units[0][0], st, 0);
      }
      ScanUnitsInv(tmp0, units[1..], st');
    }
  }

  lemma RoundInv<N(!new)>(tmp: Cnf<N>)
    ensures ScanInv(tmp, ScanUnits(tmp, ScanState(tmp, [], false)))
  {
    ScanUnitsInv(tmp, tmp, ScanState(tmp, [], false));
  }

  // ---------------------------------------------------------------------------
  // Termination: a round that reports a change removes at least one literal

  lemma {:induction false} SizePointwise<N>(a: Cnf<N>, b: Cnf<N>)
    requires |a| == |b| && forall k :: 0 <= k < |a| ==> |b[k]| <= |a[k]|
    ensures Size(b) <= Size(a)
    ensures (exists k :: 0 <= k < |a| && |b[k]| < |a[k]|) ==> Size(b) < Size(a)
  {
    if a != [] {
      SizePointwise(a[1..], b[1..]);
      if exists k :: 0 <= k < |a| && |b[k]| < |a[k]| {
        var k :| 0 <= k < |a| && |b[k]| < |a[k]|;
        if k > 0 {
          assert |b[1..][k - 1]| < |a[1..][k - 1]|;
        }
      }
    }
  }

  lemma {:induction false} SizeRemoveAllOf<N(!new)>(s: Cnf<N>, xs: Cnf<N>)
    ensures Size(RemoveAllOf(s, xs)) <= Size(s)
    ensures (exists c :: c in xs && c in s && |c| > 0) ==> Size(RemoveAllOf(s, xs)) < Size(s)
  {
    if s != [] {
      SizeRemoveAllOf(s[1..], xs);
      assert RemoveAllOf(s, xs) == (if s[0] in xs then [] else [s[0]]) + RemoveAllOf(s[1..], xs);
      SizeAppend(if s[0] in xs then [] else [s[0]], RemoveAllOf(s[1..], xs));
      if exists c :: c in xs && c in s && |c| > 0 {
        var c :| c in xs && c in s && |c| > 0;
        if c != s[0] {
          assert c in s[1..];
        }
      }
    }
  }

  lemma {:induction false} SizeAppend<N>(a: Cnf<N>, b: Cnf<N>)
    ensures Size(a + b) == Size(a) + Size(b)
  {
    if a == [] {
      assert a + b == b;
    } else {
      assert (a + b)[0] == a[0] && (a + b)[1..] == a[1..] + b;
      SizeAppend(a[1..], b);
    }
  }

  /** A round that reports a change strictly lowers the number of literal
      occurrences, so the `while changesMade` loop ends. */
  lemma RoundShrinks<N(!new)>(tmp: Cnf<N>)
    ensures Round(tmp).changed ==> Size(Round(tmp).cnf) < Size(tmp)
  {
    var st := ScanUnits(tmp, ScanState(tmp, [], false));
    RoundInv(tmp);
    SizePointwise(tmp, st.tmp);
    SizeRemoveAllOf(st.tmp, st.removable);
  }

  // ---------------------------------------------------------------------------
  // When a round changes nothing

  /** Unit literal `u` has work to do on clause `c`. */
  predicate Touches<N(==,!new)>(u: Literal<N>, c: Clause<N>) {
    |c| > 1 && (u in c || Neg(u) in c)
  }

  /** No unit clause of the list has work to do on a longer clause of it. */
  ghost predicate Reduced<N(!new)>(cnf: Cnf<N>) {
    forall c, d :: c in cnf && d in cnf && |c| == 1 ==> !Touches(c[0], d)
  }

  lemma {:induction false} ScanClausesChanged<N(!new)>(u: Literal<N>, st: ScanState<N>, i: nat)
    requires i <= |st.tmp| && (!st.changed ==> st.removable == [])
    ensures var r := ScanClauses(u, st, i);
      (r.changed <==> st.changed || exists k :: i <= k < |st.tmp| && Touches(u, st.tmp[k]))
      && (!r.changed ==> r == st)
    decreases |st.tmp| - i
  {
    if i < |st.tmp| {
      var st' := ScanStep(u, st, i);
      ScanClausesChanged(u, st', i + 1);
      assert Touches(u, st.tmp[i]) && !st.changed ==> st'.changed;
      if !st'.changed {
        assert st' == st;
        if exists k :: i <= k < |st.tmp| && Touches(u, st.tmp[k]) {
          var k :| i <= k < |st.tmp| && Touches(u, st.tmp[k]);
          assert k != i;
        }
      }
    }
  }

  /** Some unit clause of `units` has work to do on some clause of `tmp`. */
  ghost predicate SomeTouch<N(!new)>(units: Cnf<N>, tmp: Cnf<N>) {
    exists c, k :: c in units && |c| == 1 && 0 <= k < |tmp| && Touches(c[0], tmp[k])
  }

  lemma {:induction false} ScanUnitsChanged<N(!new)>(units: Cnf<N>, st: ScanState<N>)
    requires !st.changed ==> st.removable == []
    ensures ScanUnits(units, st).changed <==> (st.changed || SomeTouch(units, st.tmp))
    decreases |units|
  {
    if units != [] {
      var st' := if |units[0]| == 1 then ScanClauses(units[0][0], st, 0) else st;
      if |units[0]| == 1 {
        ScanClausesChanged(units[0][0], st, 0);
      }
      assert st'.changed ==> st.changed || SomeTouch(units, st.tmp);
      assert !st'.changed ==> st' == st;
      ScanUnitsChanged(units[1..], st');
      if SomeTouch(units, st.tmp) && !st.changed {
        var c, k :| c in units && |c| == 1 && 0 <= k < |st.tmp| && Touches(c[0], st.tmp[k]);
        if c != units[0] {
          assert c in units[1..];
        }
      }
      if SomeTouch(units[1..], st'.tmp) {
        var c, k :| c in units[1..] && |c| == 1 && 0 <= k < |st'.tmp| && Touches(c[0], st'.tmp[k]);
        assert c in units;
      }
    }
  }

  lemma SomeTouchIffNotReduced<N(!new)>(tmp: Cnf<N>)
    ensures SomeTouch(tmp, tmp) <==> !Reduced(tmp)
  {
    if !Reduced(tmp) {
      var c, d :| c in tmp && d in tmp && |c| == 1 && Touches(c[0], d);
      var k :| 0 <= k < |tmp| && tmp[k] == d;
    }
    if SomeTouch(tmp, tmp) {
      var c, k :| c in tmp && |c| == 1 && 0 <= k < |tmp| && Touches(c[0], tmp[k]);
      assert tmp[k] in tmp;
    }
  }

  /** A round reports no change exactly when the list is already reduced, and
      then it returns the list as it was. */
  lemma RoundUnchangedIffReduced<N(!new)>(tmp: Cnf<N>)
    ensures !Round(tmp).changed <==> Reduced(tmp)
    ensures !Round(tmp).changed ==> Round(tmp).cnf == tmp
  {
    ScanUnitsChanged(tmp, ScanState(tmp, [], false));
    SomeTouchIffNotReduced(tmp);
    RoundInv(tmp);
    if !Round(tmp).changed {
      RemoveAllOfNothing(tmp, []);
    }
  }

  // ---------------------------------------------------------------------------
  // Unit clauses survive a round

  lemma {:induction false} UnitsPointwise<N(!new)>(a: Cnf<N>, b: Cnf<N>)
    requires |a| == |b| && forall k :: 0 <= k < |a| && |a[k]| == 1 ==> b[k] == a[k]
    ensures multiset(Units(a)) <= multiset(Units(b))
  {
    if a != [] {
      assert forall k :: 0 <= k < |a[1..]| && |a[1..][k]| == 1 ==> b[1..][k] == a[1..][k] by {
        forall k | 0 <= k < |a[1..]| && |a[1..][k]| == 1 ensures b[1..][k] == a[1..][k] {
          assert a[1..][k] == a[k + 1] && b[1..][k] == b[k + 1];
        }
      }
      UnitsPointwise(a[1..], b[1..]);
    }
  }

  lemma {:induction false} UnitsRemoveAllOf<N(!new)>(s: Cnf<N>, xs: Cnf<N>)
    requires forall c :: c in xs ==> |c| != 1
    ensures Units(RemoveAllOf(s, xs)) == Units(s)
  {
    if s != [] {
      UnitsRemoveAllOf(s[1..], xs);
      var head := if s[0] in xs then [] else [s[0]];
      assert RemoveAllOf(s, xs) == head + RemoveAllOf(s[1..], xs);
      UnitsAppend(head, RemoveAllOf(s[1..], xs));
    }
  }

  /** Every unit clause of the round-start list is still there afterwards, as
      often as before. */
  lemma RoundKeepsUnits<N(!new)>(tmp: Cnf<N>)
    ensures multiset(Units(tmp)) <= multiset(Units(Round(tmp).cnf))
  {
    var st := ScanUnits(tmp, ScanState(tmp, [], false));
    RoundInv(tmp);
    UnitsPointwise(tmp, st.tmp);
    UnitsRemoveAllOf(st.tmp, st.removable);
  }

  /** Every clause after a round is contained in a clause of the round-start
      list, and clauses without repeated literals keep that property. */
  lemma RoundShrinksClauses<N(!new)>(tmp: Cnf<N>)
    ensures forall d :: d in Round(tmp).cnf ==> exists c :: c in tmp && Subsums(d, c)
    ensures (forall c :: c in tmp ==> NoDuplicates(c)) ==>
      forall d :: d in Round(tmp).cnf ==> NoDuplicates(d)
  {
    var st := ScanUnits(tmp, ScanState(tmp, [], false));
    assert forall d :: d in Round(tmp).cnf ==> d in st.tmp;
    assert |st.tmp| == |tmp|
      && (forall k :: 0 <= k < |tmp| ==> Subsums(st.tmp[k], tmp[k]))
      && (forall k :: 0 <= k < |tmp| && NoDuplicates(tmp[k]) ==> NoDuplicates(st.tmp[k])) by {
      RoundInv(tmp);
    }
    forall d | d in st.tmp ensures exists c :: c in tmp && Subsums(d, c) {
      var k :| 0 <= k < |st.tmp| && st.tmp[k] == d;
      assert tmp[k] in tmp;
    }
    if forall c :: c in tmp ==> NoDuplicates(c) {
      forall d | d in st.tmp ensures NoDuplicates(d) {
        var k :| 0 <= k < |st.tmp| && st.tmp[k] == d;
        assert tmp[k] in tmp;
      }
    }
  }

  // ---------------------------------------------------------------------------
  // A round changes no model

  /** Every unit literal of the list holds. */
  ghost predicate UnitsHold<N(!new)>(truth: set<N>, cnf: Cnf<N>) {
    forall c :: c in cnf && |c| == 1 ==> Holds(truth, c[0])
  }

  lemma ModelsUnitsHold<N(!new)>(truth: set<N>, cnf: Cnf<N>)
    requires Models(truth, cnf)
    ensures UnitsHold(truth, cnf)
  {
    forall c | c in cnf && |c| == 1 ensures Holds(truth, c[0]) {
      ModelsMember(truth, cnf, c);
    }
  }

  /** Removing a false literal does not change whether a clause holds. */
  lemma DropFalseLiteral<N(!new)>(truth: set<N>, c: Clause<N>, x: Literal<N>)
    requires !Holds(truth, x)
    ensures Satisfies(truth, RemoveAllOf(c, [x])) <==> Satisfies(truth, c)
  {
    var r := RemoveAllOf(c, [x]);
    if Satisfies(truth, c) {
      var i :| 0 <= i < |c| && Holds(truth, c[i]);
      assert c[i] in r;
    }
    if Satisfies(truth, r) {
      var i :| 0 <= i < |r| && Holds(truth, r[i]);
      assert r[i] in c;
    }
  }

  /** When the units of `tmp0` hold, every position of the working list is
      satisfied exactly when the same position of `tmp0` is. */
  ghost predicate SameTruth<N(!new)>(truth: set<N>, tmp0: Cnf<N>, st: ScanState<N>) {
    |st.tmp| == |tmp0|
    && forall k :: 0 <= k < |tmp0| ==> (Satisfies(truth, st.tmp[k]) <==> Satisfies(truth, tmp0[k]))
  }

  lemma ScanStepTruth<N(!new)>(truth: set<N>, tmp0: Cnf<N>, u: Literal<N>, st: ScanState<N>, i: nat)
    requires SameTruth(truth, tmp0, st) && Holds(truth, u) && i < |st.tmp|
    ensures SameTruth(truth, tmp0, ScanStep(u, st, i))
  {
    var clause := st.tmp[i];
    if !(|clause| > 1 && u in clause && clause !in st.removable) && |clause| > 1 && Neg(u) in clause {
      NegFlips(truth, u);
      DropFalseLiteral(truth, clause, Neg(u));
    }
  }

  lemma ScanClausesTruth<N(!new)>(truth: set<N>, tmp0: Cnf<N>, u: Literal<N>, st: ScanState<N>, i: nat)
    requires SameTruth(truth, tmp0, st) && Holds(truth, u) && i <= |st.tmp|
    ensures SameTruth(truth, tmp0, ScanClauses(u, st, i))
  {
    forall s: ScanState<N>, k: nat | SameTruth(truth, tmp0, s) && k < |s.tmp| ensures SameTruth(truth, tmp0, ScanStep(u, s, k)) {
      ScanStepTruth(truth, tmp0, u, s, k);
    }
    ScanClausesKeeps(s => SameTruth(truth, tmp0, s), u, st, i);
  }

  lemma {:induction false} ScanUnitsTruth<N(!new)>(truth: set<N>, tmp0: Cnf<N>, units: Cnf<N>, st: ScanState<N>)
    requires SameTruth(truth, tmp0, st)
    requires forall c :: c in units && |c| == 1 ==> Holds(truth, c[0])
    ensures SameTruth(truth, tmp0, ScanUnits(units, st))
    decreases |units|
  {
    if units != [] {
      var st' := if |units[0]| == 1 then ScanClauses(units[0][0], st, 0) else st;
      if |units[0]| == 1 {
        ScanClausesTruth(truth, tmp0, units[0][0], st, 0);
      }
      ScanUnitsTruth(truth, tmp0, units[1..], st');
    }
  }

  /** The unit clauses of a round-start list hold in every model of the
      round's result, because they are all still there. */
  lemma RoundResultUnitsHold<N(!new)>(truth: set<N>, tmp: Cnf<N>)
    requires Models(truth, Round(tmp).cnf)
    ensures UnitsHold(truth, tmp)
  {
    var st := ScanUnits(tmp, ScanState(tmp, [], false));
    var r := Round(tmp).cnf;
    RoundInv(tmp);
    forall c | c in tmp && |c| == 1 ensures Holds(truth, c[0]) {
      var k :| 0 <= k < |tmp| && tmp[k] == c;
      assert st.tmp[k] == c;
      assert c in r;
      ModelsMember(truth, r, c);
    }
  }

  /** With the units holding, a clause of the working list that is marked for
      removal is satisfied. */
  lemma MarkedSatisfied<N(!new)>(truth: set<N>, tmp: Cnf<N>, d: Clause<N>)
    requires UnitsHold(truth, tmp)
    requires exists x :: x in d && [x] in tmp
    ensures Satisfies(truth, d)
  {
    var x :| x in d && [x] in tmp;
    assert [x][0] == x;
    var j :| 0 <= j < |d| && d[j] == x;
  }

  lemma RoundModelsForward<N(!new)>(truth: set<N>, tmp: Cnf<N>)
    requires Models(truth, tmp)
    ensures Models(truth, Round(tmp).cnf)
  {
    var st := ScanUnits(tmp, ScanState(tmp, [], false));
    var r := Round(tmp).cnf;
    ModelsUnitsHold(truth, tmp);
    ScanUnitsTruth(truth, tmp, tmp, ScanState(tmp, [], false));
    forall i | 0 <= i < |r| ensures Satisfies(truth, r[i]) {
      assert r[i] in r;
      var k :| 0 <= k < |st.tmp| && st.tmp[k] == r[i];
    }
  }

  lemma RoundModelsBackward<N(!new)>(truth: set<N>, tmp: Cnf<N>)
    requires Models(truth, Round(tmp).cnf)
    ensures Models(truth, tmp)
  {
    var st := ScanUnits(tmp, ScanState(tmp, [], false));
    var r := Round(tmp).cnf;
    RoundInv(tmp);
    RoundResultUnitsHold(truth, tmp);
    ScanUnitsTruth(truth, tmp, tmp, ScanState(tmp, [], false));
    forall k | 0 <= k < |tmp| ensures Satisfies(truth, tmp[k]) {
      var d := st.tmp[k];
      if d in st.removable {
        MarkedSatisfied(truth, tmp, d);
      } else {
        assert d in r;
      }
    }
  }

  /** A round keeps exactly the models of the list it starts from. */
  lemma RoundModels<N(!new)>(truth: set<N>, tmp: Cnf<N>)
    ensures Models(truth, tmp) <==> Models(truth, Round(tmp).cnf)
  {
    if Models(truth, tmp) {
      RoundModelsForward(truth, tmp);
    }
    if Models(truth, Round(tmp).cnf) {
      RoundModelsBackward(truth, tmp);
    }
  }

  // ---------------------------------------------------------------------------
  // The whole loop

  /** Lines 88-108: rounds repeat while the previous one changed something;
      the list of the last, unchanged round is returned. */
  function UnitResolutionLoop<N(==,!new)>(tmp: Cnf<N>): Cnf<N>
    decreases Size(tmp)
  {
    var next := Round(tmp);
    RoundShrinks(tmp);
    if next.changed then UnitResolutionLoop(next.cnf) else next.cnf
  }

  /** The loop stops only once no unit clause has work left, and every unit
      clause it was given is still there. */
  lemma {:induction false} UnitResolutionLoopSpec<N(!new)>(tmp: Cnf<N>)
    ensures Reduced(UnitResolutionLoop(tmp))
    ensures multiset(Units(tmp)) <= multiset(Units(UnitResolutionLoop(tmp)))
    decreases Size(tmp)
  {
    var next := Round(tmp);
    RoundShrinks(tmp);
    RoundUnchangedIffReduced(tmp);
    RoundKeepsUnits(tmp);
    if next.changed {
      UnitResolutionLoopSpec(next.cnf);
    }
  }

  /** Each clause the loop returns lies inside a clause it was given, and
      clauses without repeated literals stay so. */
  lemma {:induction false} UnitResolutionLoopParts<N(!new)>(tmp: Cnf<N>)
    ensures forall d :: d in UnitResolutionLoop(tmp) ==> exists c :: c in tmp && Subsums(d, c)
    ensures (forall c :: c in tmp ==> NoDuplicates(c)) ==>
      forall d :: d in UnitResolutionLoop(tmp) ==> NoDuplicates(d)
    decreases Size(tmp)
  {
    var next := Round(tmp);
    RoundShrinks(tmp);
    RoundShrinksClauses(tmp);
    if next.changed {
      UnitResolutionLoopParts(next.cnf);
      PartsOfParts(UnitResolutionLoop(next.cnf), next.cnf, tmp);
    } else {
      RoundUnchangedIffReduced(tmp);
    }
  }

  /** Every clause of `a` lies inside some clause of `c`, passing through `b`. */
  lemma PartsOfParts<N(!new)>(a: Cnf<N>, b: Cnf<N>, c: Cnf<N>)
    requires forall x :: x in a ==> exists y :: y in b && Subsums(x, y)
    requires forall y :: y in b ==> exists z :: z in c && Subsums(y, z)
    ensures forall x :: x in a ==> exists z :: z in c && Subsums(x, z)
  {
    forall x | x in a ensures exists z :: z in c && Subsums(x, z) {
      var y :| y in b && Subsums(x, y);
      var z :| z in c && Subsums(y, z);
      SubsumsTransitive(x, y, z);
    }
  }

  lemma {:induction false} UnitResolutionLoopModels<N(!new)>(truth: set<N>, tmp: Cnf<N>)
    ensures Models(truth, tmp) <==> Models(truth, UnitResolutionLoop(tmp))
    decreases Size(tmp)
  {
    RoundModels(truth, tmp);
    if Round(tmp).changed {
      RoundShrinks(tmp);
      UnitResolutionLoopModels(truth, Round(tmp).cnf);
    }
  }

  /** A list that is already reduced comes back unchanged; in particular the
      loop is idempotent. */
  lemma UnitResolutionLoopReduced<N(!new)>(tmp: Cnf<N>)
    requires Reduced(tmp)
    ensures UnitResolutionLoop(tmp) == tmp
  {
    RoundUnchangedIffReduced(tmp);
  }

  lemma UnitResolutionLoopIdempotent<N(!new)>(tmp: Cnf<N>)
    ensures UnitResolutionLoop(UnitResolutionLoop(tmp)) == UnitResolutionLoop(tmp)
  {
    UnitResolutionLoopSpec(tmp);
    UnitResolutionLoopReduced(UnitResolutionLoop(tmp));
  }

  /** Without unit clauses there is nothing to resolve with. */
  lemma NoUnitsNoChange<N(!new)>(tmp: Cnf<N>)
    requires Units(tmp) == []
    ensures UnitResolutionLoop(tmp) == tmp
  {
    UnitResolutionLoopReduced(tmp);
  }

  /** `makeUnitResolutionWithinKNF` (lines 74-108): the rough clean-up, then the
      rounds. */
  function MakeUnitResolutionWithinKnf<N(==,!new)>(knf: Cnf<N>): Cnf<N> {
    UnitResolutionLoop(MinimizeClausesRoughly(knf))
  }

  /** The result is reduced and keeps every unit clause of the input. */
  lemma MakeUnitResolutionWithinKnfSpec<N(!new)>(knf: Cnf<N>)
    ensures Reduced(MakeUnitResolutionWithinKnf(knf))
    ensures multiset(Units(knf)) <= multiset(Units(MakeUnitResolutionWithinKnf(knf)))
  {
    MinimizeClausesRoughlyKeepsUnits(knf);
    UnitResolutionLoopSpec(MinimizeClausesRoughly(knf));
  }

  /** A clean list on which no unit has work left comes back unchanged. */
  lemma MakeUnitResolutionWithinKnfFixed<N(!new)>(knf: Cnf<N>)
    requires Clean(knf) && Reduced(knf)
    ensures MakeUnitResolutionWithinKnf(knf) == knf
  {
    MinimizeClausesRoughlyClean(knf);
    UnitResolutionLoopReduced(knf);
  }

  /** A clean list without unit clauses comes back unchanged. */
  lemma MakeUnitResolutionWithinKnfNoUnits<N(!new)>(knf: Cnf<N>)
    requires Clean(knf) && Units(knf) == []
    ensures MakeUnitResolutionWithinKnf(knf) == knf
  {
    MinimizeClausesRoughlyClean(knf);
    NoUnitsNoChange(knf);
  }

  /** Running the whole pass again on its result changes nothing. */
  lemma MakeUnitResolutionWithinKnfIdempotent<N(!new)>(knf: Cnf<N>)
    ensures var r := MakeUnitResolutionWithinKnf(knf);
      MakeUnitResolutionWithinKnf(r) == r
  {
    MakeUnitResolutionWithinKnfSpec(knf);
    MakeUnitResolutionWithinKnfParts(knf);
    MakeUnitResolutionWithinKnfFixed(MakeUnitResolutionWithinKnf(knf));
  }

  /** Each clause of the result lies inside a non-tautological input clause
      and repeats no literal. */
  lemma MakeUnitResolutionWithinKnfParts<N(!new)>(knf: Cnf<N>)
    ensures Clean(MakeUnitResolutionWithinKnf(knf))
    ensures forall d :: d in MakeUnitResolutionWithinKnf(knf) ==>
      exists c :: c in knf && !IsTautology(c) && Subsums(d, c)
  {
    var m := MinimizeClausesRoughly(knf);
    var r := UnitResolutionLoop(m);
    assert forall c :: c in m ==> NoDuplicates(c);
    UnitResolutionLoopParts(m);
    forall d | d in r ensures !IsTautology(d) && exists c :: c in knf && !IsTautology(c) && Subsums(d, c) {
      var e :| e in m && Subsums(d, e);
      PartOfMinimized(knf, e, d);
    }
  }

  lemma PartOfMinimized<N(!new)>(knf: Cnf<N>, e: Clause<N>, d: Clause<N>)
    requires e in MinimizeClausesRoughly(knf) && Subsums(d, e)
    ensures !IsTautology(d) && exists c :: c in knf && !IsTautology(c) && Subsums(d, c)
  {
    var m := MinimizeClausesRoughly(knf);
    var i :| 0 <= i < |m| && m[i] == e;
    var c :| c in knf && !IsTautology(c) && e == DedupLast(c);
    assert Subsums(e, c) by {
      forall j | 0 <= j < |e| ensures e[j] in c {
        assert e[j] in DedupLast(c);
      }
    }
    SubsumsTransitive(d, e, c);
    SubsumsNoTautology(d, c);
  }

  /** The pass changes no model. */
  lemma MakeUnitResolutionWithinKnfModels<N(!new)>(truth: set<N>, knf: Cnf<N>)
    ensures Models(truth, knf) <==> Models(truth, MakeUnitResolutionWithinKnf(knf))
  {
    MinimizeClausesRoughlyModels(truth, knf);
    UnitResolutionLoopModels(truth, MinimizeClausesRoughly(knf));
  }
}
