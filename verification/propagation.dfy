/** `__unitResolutionForSet__` (sudokuSolver.py, lines 163-219): unit
    propagation as the solver performs it. A pass removes every clause that
    holds one of the unit literals and drops the negated unit literals from the
    others; unit clauses that a pass creates feed the next pass, and passes
    repeat until none is created. Python sets are iterated in hash order, so
    both the given units and the units a pass discovers are modelled as
    sequences without repeats, taken in one fixed order. */
module Propagation {
  import opened Seqs
  import opened Logic

  /** `len(set(cl).intersection(clauses)) > 0` (line 180). */
  predicate Intersects<N(==,!new)>(cl: Clause<N>, units: seq<Literal<N>>) {
    exists i :: 0 <= i < |units| && units[i] in cl
  }

  /** Some unit literal occurs negated in `cl` (line 188 for some unit). */
  predicate HasNegated<N(==,!new)>(cl: Clause<N>, units: seq<Literal<N>>) {
    exists i :: 0 <= i < |units| && Neg(units[i]) in cl
  }

  /** The negations of those units whose negation occurs in `cl`, in the
      order of `units`: what lines 187-189 remove from the clause. */
  function NegatedIn<N(==,!new)>(cl: Clause<N>, units: seq<Literal<N>>): seq<Literal<N>>
    decreases |units|
  {
    if units == [] then []
    else (if Neg(units[0]) in cl then [Neg(units[0])] else []) + NegatedIn(cl, units[1..])
  }

  /** Lines 185-190: `tmpCl.remove((not u[0], u[1]))` for every unit `u` whose
      negation occurs in the original clause `cl`; one copy goes each time. */
  function Strip<N(==,!new)>(cl: Clause<N>, tmpCl: Clause<N>, units: seq<Literal<N>>): (r: Clause<N>)
    ensures |r| <= |tmpCl|
    ensures forall x :: x in r ==> x in tmpCl
    decreases |units|
  {
    if units == [] then tmpCl
    else
      var next := if Neg(units[0]) in cl then RemoveFirst(tmpCl, Neg(units[0])) else tmpCl;
      RemoveFirstMembers(tmpCl, Neg(units[0]));
      Strip(cl, next, units[1..])
  }

  /** Stripping takes from `tmpCl` one copy of the negation of each unit
      whose negation `cl` holds, and nothing else. */
  lemma {:induction false} StripRemovesNegated<N(!new)>(cl: Clause<N>, tmpCl: Clause<N>, units: seq<Literal<N>>)
    ensures multiset(Strip(cl, tmpCl, units)) == multiset(tmpCl) - multiset(NegatedIn(cl, units))
    decreases |units|
  {
    if units != [] {
      var next := if Neg(units[0]) in cl then RemoveFirst(tmpCl, Neg(units[0])) else tmpCl;
      var head := if Neg(units[0]) in cl then [Neg(units[0])] else [];
      assert multiset(next) == multiset(tmpCl) - multiset(head);
      assert multiset(NegatedIn(cl, units)) == multiset(head) + multiset(NegatedIn(cl, units[1..]));
      assert Strip(cl, tmpCl, units) == Strip(cl, next, units[1..]);
      StripRemovesNegated(cl, next, units[1..]);
      MinusMinus(multiset(tmpCl), multiset(head), multiset(NegatedIn(cl, units[1..])));
    }
  }

  /** Taking two multisets away one after the other takes away their sum. */
  lemma MinusMinus<T>(a: multiset<T>, b: multiset<T>, c: multiset<T>)
    ensures (a - b) - c == a - (b + c)
  {
    forall x ensures ((a - b) - c)[x] == (a - (b + c))[x] {
    }
  }

  /** With units free of repeats, stripping takes exactly one copy of each
      literal of `cl` that negates a unit and leaves every other count alone:
      `[not x, not x, y]` with unit `x` becomes `[not x, y]`. */
  lemma StrippedCounts<N(!new)>(cl: Clause<N>, units: seq<Literal<N>>)
    requires NoDuplicates(units)
    ensures forall x :: multiset(Stripped(cl, units))[x] ==
                          if x in cl && Neg(x) in units then multiset(cl)[x] - 1 else multiset(cl)[x]
  {
    StripRemovesNegated(cl, cl, units);
    NegatedInCounts(cl, units);
  }

  lemma {:induction false} NegatedInCounts<N(!new)>(cl: Clause<N>, units: seq<Literal<N>>)
    requires NoDuplicates(units)
    ensures forall x :: multiset(NegatedIn(cl, units))[x] == if x in cl && Neg(x) in units then 1 else 0
    decreases |units|
  {
    if units != [] {
      var u := units[0];
      NoDuplicatesTail(units);
      NegatedInCounts(cl, units[1..]);
      assert forall l :: l in units <==> l == u || l in units[1..];
      forall x ensures multiset(NegatedIn(cl, units))[x] == if x in cl && Neg(x) in units then 1 else 0 {
        assert Neg(x) == u <==> x == Neg(u);
      }
    }
  }

  /** `cl` with its negated unit literals stripped. */
  function Stripped<N(==,!new)>(cl: Clause<N>, units: seq<Literal<N>>): Clause<N> {
    Strip(cl, cl, units)
  }

  /** A clause the pass shortens: it holds no unit literal but the negation of
      one. */
  predicate Shrinks<N(==,!new)>(cl: Clause<N>, units: seq<Literal<N>>) {
    !Intersects(cl, units) && HasNegated(cl, units)
  }

  /** The loop variables of lines 175-198. */
  datatype PassState<N> = PassState(tmpCnf: Cnf<N>, newUnits: seq<Literal<N>>)

  /** One iteration of lines 177-198 on the clause `cl`. A touched clause is
      removed by value (`tmpCnf.remove(cl)`), a shortened one is appended, and
      a shortened clause of length one contributes its literal to the new
      units once. */
  function PassStep<N(==,!new)>(cl: Clause<N>, units: seq<Literal<N>>, st: PassState<N>): PassState<N> {
    if Intersects(cl, units) then
      PassState(RemoveFirst(st.tmpCnf, cl), st.newUnits)
    else if HasNegated(cl, units) then
      var tmpCl := Stripped(cl, units);
      PassState(RemoveFirst(st.tmpCnf, cl) + [tmpCl],
        if |tmpCl| == 1 && tmpCl[0] !in st.newUnits then st.newUnits + [tmpCl[0]] else st.newUnits)
    else st
  }

  /** Lines 177-198 for the clauses `rest` still to visit. */
  function PassFrom<N(==,!new)>(rest: Cnf<N>, units: seq<Literal<N>>, st: PassState<N>): PassState<N>
    decreases |rest|
  {
    if rest == [] then st else PassFrom(rest[1..], units, PassStep(rest[0], units, st))
  }

  /** Lines 200-203: a unit clause `[u]` for every unit `u` the list lacks. */
  function AddUnitClauses<N(==,!new)>(cnf: Cnf<N>, units: seq<Literal<N>>): (r: Cnf<N>)
    ensures forall c :: c in r <==> c in cnf || (|c| == 1 && c[0] in units)
    decreases |units|
  {
    if units == [] then cnf
    else
      var next := if [units[0]] !in cnf then cnf + [[units[0]]] else cnf;
      assert forall l :: l in units <==> l == units[0] || l in units[1..];
      assert forall c :: |c| == 1 && c[0] == units[0] ==> c == [units[0]];
      AddUnitClauses(next, units[1..])
  }

  datatype PassResult<N> = PassResult(cnf: Cnf<N>, newUnits: seq<Literal<N>>)

  /** `makeUnitResolution` (lines 174-205). */
  function MakeUnitResolution<N(==,!new)>(cnf: Cnf<N>, units: seq<Literal<N>>): PassResult<N> {
    var st := PassFrom(cnf, units, PassState(cnf, []));
    PassResult(AddUnitClauses(st.tmpCnf, units), st.newUnits)
  }

  // ---------------------------------------------------------------------------
  // What a pass computes

  /** The clauses a pass leaves alone, in order. */
  function Kept<N(==,!new)>(cnf: Cnf<N>, units: seq<Literal<N>>): Cnf<N> {
    if cnf == [] then []
    else
      (if !Intersects(cnf[0], units) && !HasNegated(cnf[0], units) then [cnf[0]] else [])
        + Kept(cnf[1..], units)
  }

  /** The shortened clauses a pass appends, in order. */
  function Shrunk<N(==,!new)>(cnf: Cnf<N>, units: seq<Literal<N>>): Cnf<N> {
    if cnf == [] then []
    else (if Shrinks(cnf[0], units) then [Stripped(cnf[0], units)] else []) + Shrunk(cnf[1..], units)
  }

  lemma {:induction false} KeptMembers<N(!new)>(cnf: Cnf<N>, units: seq<Literal<N>>)
    ensures forall c :: c in Kept(cnf, units) <==> c in cnf && !Intersects(c, units) && !HasNegated(c, units)
  {
    if cnf != [] {
      KeptMembers(cnf[1..], units);
      assert forall c :: c in cnf <==> c == cnf[0] || c in cnf[1..];
    }
  }

  lemma {:induction false} ShrunkMembers<N(!new)>(cnf: Cnf<N>, units: seq<Literal<N>>)
    ensures forall c :: c in Shrunk(cnf, units) <==>
      exists cl :: cl in cnf && Shrinks(cl, units) && c == Stripped(cl, units)
  {
    if cnf != [] {
      ShrunkMembers(cnf[1..], units);
      assert forall c :: c in cnf <==> c == cnf[0] || c in cnf[1..];
    }
  }

  /** Removing the clause at the head of the unvisited part. */
  lemma RemoveVisited<N(!new)>(keptSoFar: Cnf<N>, cl: Clause<N>, tail: Cnf<N>, shrunkSoFar: Cnf<N>)
    requires cl !in keptSoFar
    ensures RemoveFirst(keptSoFar + ([cl] + tail) + shrunkSoFar, cl) == keptSoFar + tail + shrunkSoFar
  {
    Regroup(keptSoFar, cl, tail, shrunkSoFar);
    RemoveFirstAppend(keptSoFar, [cl] + (tail + shrunkSoFar), cl);
    RemoveFirstHead(cl, tail + shrunkSoFar);
  }

  lemma Regroup<T>(a: seq<T>, x: T, b: seq<T>, c: seq<T>)
    ensures a + ([x] + b) + c == a + ([x] + (b + c))
    ensures a + (b + c) == a + b + c
  {
  }

  lemma ShiftOne<T>(a: seq<T>, b: seq<T>, x: T, d: seq<T>)
    ensures a + (b + [x]) + d == a + b + ([x] + d)
  {
  }

  lemma KeptCons<N(!new)>(cnf: Cnf<N>, units: seq<Literal<N>>)
    requires cnf != []
    ensures Kept(cnf, units) ==
      (if !Intersects(cnf[0], units) && !HasNegated(cnf[0], units) then [cnf[0]] else []) + Kept(cnf[1..], units)
    ensures Shrunk(cnf, units) ==
      (if Shrinks(cnf[0], units) then [Stripped(cnf[0], units)] else []) + Shrunk(cnf[1..], units)
  {
  }

  /** The loop invariant of lines 177-198: the visited clauses left alone,
      then the unvisited ones, then the shortened ones appended so far. */
  lemma {:induction false} PassFromShape<N(!new)>(rest: Cnf<N>, units: seq<Literal<N>>,
                                                   keptSoFar: Cnf<N>, shrunkSoFar: Cnf<N>, nu: seq<Literal<N>>)
    requires forall c :: c in keptSoFar ==> !Intersects(c, units) && !HasNegated(c, units)
    ensures PassFrom(rest, units, PassState(keptSoFar + rest + shrunkSoFar, nu)).tmpCnf
      == keptSoFar + Kept(rest, units) + shrunkSoFar + Shrunk(rest, units)
    decreases |rest|, 1
  {
    if rest == [] {
      assert keptSoFar + rest + shrunkSoFar == keptSoFar + Kept(rest, units) + shrunkSoFar + Shrunk(rest, units);
    } else if Intersects(rest[0], units) {
      PassDropShape(rest, units, keptSoFar, shrunkSoFar, nu);
    } else if HasNegated(rest[0], units) {
      PassShrinkShape(rest, units, keptSoFar, shrunkSoFar, nu);
    } else {
      PassKeepShape(rest, units, keptSoFar, shrunkSoFar, nu);
    }
  }

  lemma {:induction false} PassDropShape<N(!new)>(rest: Cnf<N>, units: seq<Literal<N>>,
                                                   keptSoFar: Cnf<N>, shrunkSoFar: Cnf<N>, nu: seq<Literal<N>>)
    requires forall c :: c in keptSoFar ==> !Intersects(c, units) && !HasNegated(c, units)
    requires rest != [] && Intersects(rest[0], units)
    ensures PassFrom(rest, units, PassState(keptSoFar + rest + shrunkSoFar, nu)).tmpCnf
      == keptSoFar + Kept(rest, units) + shrunkSoFar + Shrunk(rest, units)
    decreases |rest|, 0
  {
    var cl := rest[0];
    var tail := rest[1..];
    assert rest == [cl] + tail;
    KeptCons(rest, units);
    RemoveVisited(keptSoFar, cl, tail, shrunkSoFar);
    var st := PassState(keptSoFar + rest + shrunkSoFar, nu);
    var st' := PassState(keptSoFar + tail + shrunkSoFar, nu);
    assert PassStep(cl, units, st) == st';
    assert PassFrom(rest, units, st) == PassFrom(tail, units, st');
    PassFromShape(tail, units, keptSoFar, shrunkSoFar, nu);
    assert Kept(rest, units) == [] + Kept(tail, units) == Kept(tail, units);
    assert Shrunk(rest, units) == [] + Shrunk(tail, units) == Shrunk(tail, units);
  }

  lemma {:induction false} PassShrinkShape<N(!new)>(rest: Cnf<N>, units: seq<Literal<N>>,
                                                     keptSoFar: Cnf<N>, shrunkSoFar: Cnf<N>, nu: seq<Literal<N>>)
    requires forall c :: c in keptSoFar ==> !Intersects(c, units) && !HasNegated(c, units)
    requires rest != [] && !Intersects(rest[0], units) && HasNegated(rest[0], units)
    ensures PassFrom(rest, units, PassState(keptSoFar + rest + shrunkSoFar, nu)).tmpCnf
      == keptSoFar + Kept(rest, units) + shrunkSoFar + Shrunk(rest, units)
    decreases |rest|, 0
  {
    var cl := rest[0];
    var tail := rest[1..];
    assert rest == [cl] + tail;
    KeptCons(rest, units);
    var tmpCl := Stripped(cl, units);
    var nu' := if |tmpCl| == 1 && tmpCl[0] !in nu then nu + [tmpCl[0]] else nu;
    RemoveVisited(keptSoFar, cl, tail, shrunkSoFar);
    var shrunk' := shrunkSoFar + [tmpCl];
    assert keptSoFar + tail + shrunkSoFar + [tmpCl] == keptSoFar + tail + shrunk';
    assert PassStep(cl, units, PassState(keptSoFar + rest + shrunkSoFar, nu))
      == PassState(keptSoFar + tail + shrunk', nu');
    PassFromShape(tail, units, keptSoFar, shrunk', nu');
    assert Kept(rest, units) == Kept(tail, units);
    assert Shrunk(rest, units) == [tmpCl] + Shrunk(tail, units);
    ShiftOne(keptSoFar + Kept(tail, units), shrunkSoFar, tmpCl, Shrunk(tail, units));
  }

  lemma {:induction false} PassKeepShape<N(!new)>(rest: Cnf<N>, units: seq<Literal<N>>,
                                                   keptSoFar: Cnf<N>, shrunkSoFar: Cnf<N>, nu: seq<Literal<N>>)
    requires forall c :: c in keptSoFar ==> !Intersects(c, units) && !HasNegated(c, units)
    requires rest != [] && !Intersects(rest[0], units) && !HasNegated(rest[0], units)
    ensures PassFrom(rest, units, PassState(keptSoFar + rest + shrunkSoFar, nu)).tmpCnf
      == keptSoFar + Kept(rest, units) + shrunkSoFar + Shrunk(rest, units)
    decreases |rest|, 0
  {
    var cl := rest[0];
    var tail := rest[1..];
    assert rest == [cl] + tail;
    KeptCons(rest, units);
    var kept' := keptSoFar + [cl];
    KeepRegroup(keptSoFar, cl, tail, shrunkSoFar);
    assert PassStep(cl, units, PassState(keptSoFar + rest + shrunkSoFar, nu))
      == PassState(kept' + tail + shrunkSoFar, nu);
    forall c | c in kept' ensures !Intersects(c, units) && !HasNegated(c, units) {
      if c != cl {
        assert c in keptSoFar;
      }
    }
    PassFromShape(tail, units, kept', shrunkSoFar, nu);
    KeepRegroup(keptSoFar, cl, Kept(tail, units), shrunkSoFar + Shrunk(tail, units));
  }

  lemma KeepRegroup<T>(a: seq<T>, x: T, b: seq<T>, c: seq<T>)
    ensures a + ([x] + b) + c == a + [x] + b + c
    ensures a + [x] + b + c == (a + [x]) + b + c
  {
  }

  /** A pass leaves the untouched clauses in order, followed by the shortened
      ones in order; nothing else survives the loop of lines 177-198. */
  lemma PassShape<N(!new)>(cnf: Cnf<N>, units: seq<Literal<N>>)
    ensures PassFrom(cnf, units, PassState(cnf, [])).tmpCnf == Kept(cnf, units) + Shrunk(cnf, units)
  {
    PassFromShape(cnf, units, [], [], []);
    assert [] + cnf + [] == cnf;
  }

  // ---------------------------------------------------------------------------
  // Stripping a clause

  /** A literal that negates no unit survives the stripping. */
  lemma {:induction false} StripKeeps<N(!new)>(cl: Clause<N>, tmpCl: Clause<N>, units: seq<Literal<N>>, x: Literal<N>)
    requires x in tmpCl && forall i :: 0 <= i < |units| ==> x != Neg(units[i])
    ensures x in Strip(cl, tmpCl, units)
    decreases |units|
  {
    if units != [] {
      var next := if Neg(units[0]) in cl then RemoveFirst(tmpCl, Neg(units[0])) else tmpCl;
      if Neg(units[0]) in cl {
        RemoveFirstKeeps(tmpCl, Neg(units[0]), x);
      }
      StripKeeps(cl, next, units[1..], x);
    }
  }

  /** A clause holding a negated unit loses at least one literal. */
  lemma {:induction false} StripShorter<N(!new)>(cl: Clause<N>, units: seq<Literal<N>>)
    requires HasNegated(cl, units)
    ensures |Stripped(cl, units)| < |cl|
    decreases |units|
  {
    if Neg(units[0]) !in cl {
      var i :| 0 <= i < |units| && Neg(units[i]) in cl;
      assert units[1..][i - 1] == units[i];
      StripShorter(cl, units[1..]);
    }
  }

  /** All the given unit literals are true. */
  ghost predicate AllHold<N(!new)>(truth: set<N>, units: seq<Literal<N>>) {
    forall i :: 0 <= i < |units| ==> Holds(truth, units[i])
  }

  /** Under the units, a clause and its stripped form are equally satisfied. */
  lemma StrippedSatisfied<N(!new)>(truth: set<N>, cl: Clause<N>, units: seq<Literal<N>>)
    requires AllHold(truth, units)
    ensures Satisfies(truth, Stripped(cl, units)) <==> Satisfies(truth, cl)
  {
    var r := Stripped(cl, units);
    if Satisfies(truth, r) {
      SubsumedSatisfied(truth, r, cl);
    }
    if Satisfies(truth, cl) {
      var i :| 0 <= i < |cl| && Holds(truth, cl[i]);
      forall j | 0 <= j < |units| ensures cl[i] != Neg(units[j]) {
        NegFlips(truth, units[j]);
      }
      StripKeeps(cl, cl, units, cl[i]);
      var k :| 0 <= k < |r| && r[k] == cl[i];
    }
  }

  // ---------------------------------------------------------------------------
  // One pass

  /** `x` is the single literal left of some clause the pass shortens. */
  ghost predicate Creates<N(!new)>(cnf: Cnf<N>, units: seq<Literal<N>>, x: Literal<N>) {
    exists cl :: cl in cnf && Shrinks(cl, units) && Stripped(cl, units) == [x]
  }

  /** The new-unit bookkeeping of lines 193-195 on its own. */
  function NewUnitsFrom<N(==,!new)>(rest: Cnf<N>, units: seq<Literal<N>>, acc: seq<Literal<N>>): seq<Literal<N>>
    decreases |rest|
  {
    if rest == [] then acc
    else
      var tmpCl := Stripped(rest[0], units);
      NewUnitsFrom(rest[1..], units,
        if Shrinks(rest[0], units) && |tmpCl| == 1 && tmpCl[0] !in acc then acc + [tmpCl[0]] else acc)
  }

  lemma {:induction false} PassFromNewUnitsFrom<N(!new)>(rest: Cnf<N>, units: seq<Literal<N>>, st: PassState<N>)
    ensures PassFrom(rest, units, st).newUnits == NewUnitsFrom(rest, units, st.newUnits)
    decreases |rest|
  {
    if rest != [] {
      var st' := PassStep(rest[0], units, st);
      PassFromNewUnitsFrom(rest[1..], units, st');
    }
  }

  lemma {:induction false} NewUnitsFromMembers<N(!new)>(rest: Cnf<N>, units: seq<Literal<N>>, acc: seq<Literal<N>>)
    ensures forall x :: x in NewUnitsFrom(rest, units, acc) <==> x in acc || Creates(rest, units, x)
    ensures NoDuplicates(acc) ==> NoDuplicates(NewUnitsFrom(rest, units, acc))
    decreases |rest|
  {
    if rest != [] {
      var cl := rest[0];
      var tmpCl := Stripped(cl, units);
      var acc' := if Shrinks(cl, units) && |tmpCl| == 1 && tmpCl[0] !in acc then acc + [tmpCl[0]] else acc;
      NewUnitsFromMembers(rest[1..], units, acc');
      assert forall c :: c in rest <==> c == cl || c in rest[1..];
      if |tmpCl| == 1 {
        assert tmpCl == [tmpCl[0]];
      }
      assert forall x :: x in acc' <==> x in acc || (Shrinks(cl, units) && tmpCl == [x]);
      if NoDuplicates(acc) && acc' != acc {
        AppendFreshNoDuplicates(acc, tmpCl[0]);
      }
    }
  }

  /** The new units of a pass are exactly the literals left alone in a
      shortened clause, each reported once. */
  lemma MakeUnitResolutionNewUnits<N(!new)>(cnf: Cnf<N>, units: seq<Literal<N>>)
    ensures forall x :: x in MakeUnitResolution(cnf, units).newUnits <==> Creates(cnf, units, x)
    ensures NoDuplicates(MakeUnitResolution(cnf, units).newUnits)
  {
    PassFromNewUnitsFrom(cnf, units, PassState(cnf, []));
    NewUnitsFromMembers(cnf, units, []);
  }

  /** The clauses a pass returns, by membership. */
  lemma PassMembers<N(!new)>(cnf: Cnf<N>, units: seq<Literal<N>>)
    ensures forall c :: c in MakeUnitResolution(cnf, units).cnf <==>
      (c in cnf && !Intersects(c, units) && !HasNegated(c, units))
      || (exists cl :: cl in cnf && Shrinks(cl, units) && c == Stripped(cl, units))
      || (|c| == 1 && c[0] in units)
  {
    PassShape(cnf, units);
    KeptMembers(cnf, units);
    ShrunkMembers(cnf, units);
  }

  /** One pass keeps exactly the models of the clauses in which every unit
      literal is true. */
  lemma MakeUnitResolutionModels<N(!new)>(truth: set<N>, cnf: Cnf<N>, units: seq<Literal<N>>)
    ensures Models(truth, MakeUnitResolution(cnf, units).cnf) <==> Models(truth, cnf) && AllHold(truth, units)
  {
    var r := MakeUnitResolution(cnf, units).cnf;
    PassMembers(cnf, units);
    if Models(truth, cnf) && AllHold(truth, units) {
      forall i | 0 <= i < |r| ensures Satisfies(truth, r[i]) {
        var c := r[i];
        if c in cnf && !Intersects(c, units) && !HasNegated(c, units) {
          ModelsMember(truth, cnf, c);
        } else if exists cl :: cl in cnf && Shrinks(cl, units) && c == Stripped(cl, units) {
          var cl :| cl in cnf && Shrinks(cl, units) && c == Stripped(cl, units);
          ModelsMember(truth, cnf, cl);
          StrippedSatisfied(truth, cl, units);
        } else {
          var j :| 0 <= j < |units| && units[j] == c[0];
        }
      }
    }
    if Models(truth, r) {
      forall j | 0 <= j < |units| ensures Holds(truth, units[j]) {
        assert [units[j]][0] in units;
        ModelsMember(truth, r, [units[j]]);
      }
      forall i | 0 <= i < |cnf| ensures Satisfies(truth, cnf[i]) {
        var cl := cnf[i];
        if Intersects(cl, units) {
          var j :| 0 <= j < |units| && units[j] in cl;
          var k :| 0 <= k < |cl| && cl[k] == units[j];
        } else if HasNegated(cl, units) {
          ModelsMember(truth, r, Stripped(cl, units));
          StrippedSatisfied(truth, cl, units);
        } else {
          ModelsMember(truth, r, cl);
        }
      }
    }
  }

  /** The empty clause is never touched by a pass. */
  lemma MakeUnitResolutionKeepsEmpty<N(!new)>(cnf: Cnf<N>, units: seq<Literal<N>>)
    requires [] in cnf
    ensures [] in MakeUnitResolution(cnf, units).cnf
  {
    PassMembers(cnf, units);
  }

  /** A unit clause, given or present, survives a pass unless the pass
      produces the empty clause. */
  lemma MakeUnitResolutionRecords<N(!new)>(cnf: Cnf<N>, units: seq<Literal<N>>, x: Literal<N>)
    requires [x] in cnf || x in units
    ensures [x] in MakeUnitResolution(cnf, units).cnf || [] in MakeUnitResolution(cnf, units).cnf
  {
    PassMembers(cnf, units);
    if [x] in cnf && x !in units && !Intersects([x], units) && HasNegated([x], units) {
      StripShorter([x], units);
      assert Stripped([x], units) == [];
    }
  }

  // ---------------------------------------------------------------------------
  // Termination: literals beyond the first of each clause

  function ExcessOf<N>(c: Clause<N>): nat {
    if c == [] then 0 else |c| - 1
  }

  function Excess<N>(cnf: Cnf<N>): nat {
    if cnf == [] then 0 else ExcessOf(cnf[0]) + Excess(cnf[1..])
  }

  lemma {:induction false} ExcessAppend<N>(a: Cnf<N>, b: Cnf<N>)
    ensures Excess(a + b) == Excess(a) + Excess(b)
  {
    if a == [] {
      assert a + b == b;
    } else {
      assert (a + b)[1..] == a[1..] + b;
      ExcessAppend(a[1..], b);
    }
  }

  lemma {:induction false} AddUnitClausesExcess<N(!new)>(cnf: Cnf<N>, units: seq<Literal<N>>)
    ensures Excess(AddUnitClauses(cnf, units)) == Excess(cnf)
    decreases |units|
  {
    if units != [] {
      var next := if [units[0]] !in cnf then cnf + [[units[0]]] else cnf;
      ExcessAppend(cnf, [[units[0]]]);
      AddUnitClausesExcess(next, units[1..]);
    }
  }

  lemma {:induction false} KeptShrunkExcess<N(!new)>(cnf: Cnf<N>, units: seq<Literal<N>>)
    ensures Excess(Kept(cnf, units)) + Excess(Shrunk(cnf, units)) <= Excess(cnf)
    ensures (exists x :: Creates(cnf, units, x))
      ==> Excess(Kept(cnf, units)) + Excess(Shrunk(cnf, units)) < Excess(cnf)
  {
    if cnf != [] {
      var cl := cnf[0];
      KeptCons(cnf, units);
      KeptShrunkExcess(cnf[1..], units);
      var k := if !Intersects(cl, units) && !HasNegated(cl, units) then [cl] else [];
      var s := if Shrinks(cl, units) then [Stripped(cl, units)] else [];
      ExcessAppend(k, Kept(cnf[1..], units));
      ExcessAppend(s, Shrunk(cnf[1..], units));
      if Shrinks(cl, units) {
        StripShorter(cl, units);
        assert Excess(s) == ExcessOf(Stripped(cl, units));
      }
      assert forall c :: c in cnf <==> c == cl || c in cnf[1..];
      if exists x :: Creates(cnf, units, x) {
        var x :| Creates(cnf, units, x);
        var c :| c in cnf && Shrinks(c, units) && Stripped(c, units) == [x];
        if c != cl {
          assert Creates(cnf[1..], units, x);
        }
      }
    }
  }

  /** A pass never adds literals beyond the first of a clause, and removes
      some whenever it reports a new unit: the measure of the loop of lines
      208-212. */
  lemma MakeUnitResolutionDecreases<N(!new)>(cnf: Cnf<N>, units: seq<Literal<N>>)
    ensures Excess(MakeUnitResolution(cnf, units).cnf) <= Excess(cnf)
    ensures MakeUnitResolution(cnf, units).newUnits != [] ==> Excess(MakeUnitResolution(cnf, units).cnf) < Excess(cnf)
  {
    var st := PassFrom(cnf, units, PassState(cnf, []));
    PassShape(cnf, units);
    ExcessAppend(Kept(cnf, units), Shrunk(cnf, units));
    AddUnitClausesExcess(st.tmpCnf, units);
    KeptShrunkExcess(cnf, units);
    MakeUnitResolutionNewUnits(cnf, units);
    if st.newUnits != [] {
      assert st.newUnits[0] in st.newUnits;
    }
  }

  // ---------------------------------------------------------------------------
  // The loop and the result

  /** Lines 208-212: passes repeat with the units the previous pass found,
      until a pass finds none. */
  function Propagate<N(==,!new)>(cnf: Cnf<N>, units: seq<Literal<N>>): Cnf<N>
    decreases Excess(cnf), if units == [] then 0 else 1
  {
    if units == [] then cnf
    else
      var p := MakeUnitResolution(cnf, units);
      MakeUnitResolutionDecreases(cnf, units);
      Propagate(p.cnf, p.newUnits)
  }

  /** `__unitResolutionForSet__`: the propagated list with its repeated
      clauses dropped, first occurrences kept (lines 214-219). */
  function UnitResolutionForSet<N(==,!new)>(cnf: Cnf<N>, units: seq<Literal<N>>): (r: Cnf<N>)
    ensures NoDuplicates(r)
  {
    DedupFirst(Propagate(cnf, units))
  }

  /** A model of a pass's result satisfies the units the pass reports. */
  lemma NewUnitsHold<N(!new)>(truth: set<N>, cnf: Cnf<N>, units: seq<Literal<N>>)
    requires Models(truth, MakeUnitResolution(cnf, units).cnf)
    ensures AllHold(truth, MakeUnitResolution(cnf, units).newUnits)
  {
    var p := MakeUnitResolution(cnf, units);
    MakeUnitResolutionNewUnits(cnf, units);
    PassMembers(cnf, units);
    forall i | 0 <= i < |p.newUnits| ensures Holds(truth, p.newUnits[i]) {
      var x := p.newUnits[i];
      assert Creates(cnf, units, x);
      assert [x] in p.cnf;
      ModelsMember(truth, p.cnf, [x]);
    }
  }

  lemma {:induction false} PropagateModels<N(!new)>(truth: set<N>, cnf: Cnf<N>, units: seq<Literal<N>>)
    ensures Models(truth, Propagate(cnf, units)) <==> Models(truth, cnf) && AllHold(truth, units)
    decreases Excess(cnf), if units == [] then 0 else 1
  {
    if units != [] {
      var p := MakeUnitResolution(cnf, units);
      MakeUnitResolutionDecreases(cnf, units);
      assert Propagate(cnf, units) == Propagate(p.cnf, p.newUnits);
      PropagateModels(truth, p.cnf, p.newUnits);
      MakeUnitResolutionModels(truth, cnf, units);
      if Models(truth, p.cnf) {
        NewUnitsHold(truth, cnf, units);
      }
    }
  }

  /** Unit propagation keeps exactly the models of the clauses in which all
      the given units are true. */
  lemma UnitResolutionForSetModels<N(!new)>(truth: set<N>, cnf: Cnf<N>, units: seq<Literal<N>>)
    requires NoDuplicates(units)
    ensures Models(truth, UnitResolutionForSet(cnf, units)) <==> Models(truth, cnf) && AllHold(truth, units)
  {
    PropagateModels(truth, cnf, units);
    SameElementsSameModels(truth, Propagate(cnf, units), UnitResolutionForSet(cnf, units));
  }

  lemma {:induction false} PropagateKeepsEmpty<N(!new)>(cnf: Cnf<N>, units: seq<Literal<N>>)
    requires [] in cnf
    ensures [] in Propagate(cnf, units)
    decreases Excess(cnf), if units == [] then 0 else 1
  {
    if units != [] {
      var p := MakeUnitResolution(cnf, units);
      MakeUnitResolutionDecreases(cnf, units);
      MakeUnitResolutionKeepsEmpty(cnf, units);
      PropagateKeepsEmpty(p.cnf, p.newUnits);
    }
  }

  lemma {:induction false} PropagateRecords<N(!new)>(cnf: Cnf<N>, units: seq<Literal<N>>, x: Literal<N>)
    requires [x] in cnf || x in units
    ensures [x] in Propagate(cnf, units) || [] in Propagate(cnf, units)
    decreases Excess(cnf), if units == [] then 0 else 1
  {
    if units != [] {
      var p := MakeUnitResolution(cnf, units);
      MakeUnitResolutionDecreases(cnf, units);
      MakeUnitResolutionRecords(cnf, units, x);
      if [x] in p.cnf {
        PropagateRecords(p.cnf, p.newUnits, x);
      } else {
        PropagateKeepsEmpty(p.cnf, p.newUnits);
      }
    }
  }

  /** The empty clause, once present, stays; every given unit ends up as a
      unit clause unless the empty clause appears. */
  lemma UnitResolutionForSetRecords<N(!new)>(cnf: Cnf<N>, units: seq<Literal<N>>)
    requires NoDuplicates(units)
    ensures [] in cnf ==> [] in UnitResolutionForSet(cnf, units)
    ensures forall x :: x in units ==> [x] in UnitResolutionForSet(cnf, units) || [] in UnitResolutionForSet(cnf, units)
  {
    if [] in cnf {
      PropagateKeepsEmpty(cnf, units);
    }
    forall x | x in units
      ensures [x] in UnitResolutionForSet(cnf, units) || [] in UnitResolutionForSet(cnf, units) {
      PropagateRecords(cnf, units, x);
    }
  }
}
