/** The examples of KnfMethods_test.py, stated about the model. The engine
    only compares names for equality, so the test's names `"a"`..`"e"` are
    the constructors `A`..`E`; `Pos(A)` is `(True, "a")` and `Not(A)` is
    `(False, "a")`. */
module KnfExamples {
  import opened Seqs
  import opened Logic
  import opened KnfSimplify
  import opened KnfUnitResolution

  datatype Name = A | B | C | D | E

  function Pos<N>(x: N): Literal<N> {
    Literal(true, x)
  }

  function Not<N>(x: N): Literal<N> {
    Literal(false, x)
  }

  /** `[(True, "a"), (True, "b"), (False, "b")]`, the tautology of `knf2`..`knf4`. */
  function Taut(): Clause<Name> {
    [Pos(A), Pos(B), Not(B)]
  }

  /** `DedupLast` on lists of one, two and three values. */
  lemma DedupLastOne<T(!new)>(x: T)
    ensures DedupLast([x]) == [x]
  {
    assert [x][1..] == [];
  }

  lemma DedupLastTwo<T(!new)>(x: T, y: T)
    ensures DedupLast([x, y]) == if x == y then [y] else [x, y]
  {
    assert [x, y][1..] == [y];
    DedupLastOne(y);
  }

  lemma DedupLastThree<T(!new)>(x: T, y: T, z: T)
    ensures DedupLast([x, y, z]) == if x == y || x == z then DedupLast([y, z]) else [x] + DedupLast([y, z])
  {
    assert [x, y, z][1..] == [y, z];
  }

  lemma RemoveAllOfTwo<T(!new)>(x: T, y: T, xs: seq<T>)
    ensures RemoveAllOf([x, y], xs) == (if x in xs then [] else [x]) + (if y in xs then [] else [y])
  {
    assert [x, y][1..] == [y];
    assert [y][1..] == [];
  }

  /** In a list of clauses of one length no clause has a shorter one inside. */
  lemma OneLengthNoBroader<N(!new)>(knf: Cnf<N>, n: nat)
    requires forall c :: c in knf ==> |c| == n
    ensures forall c :: c in knf ==> !Broader(knf, c)
  {
  }

  // ---------------------------------------------------------------------------
  // test_subsumAndRemoveDuplicatesFromKNF

  /** Test lines 16 and 22. */
  lemma SubsumEmpty()
    ensures SubsumAndRemoveDuplicates<Name>([]) == []
  {
    SubsumNoBroader<Name>([]);
  }

  /** Test line 17: two copies become one. */
  lemma SubsumTwoCopies()
    ensures SubsumAndRemoveDuplicates([Taut(), Taut()]) == [Taut()]
  {
    OneLengthNoBroader([Taut(), Taut()], 3);
    SubsumNoBroader([Taut(), Taut()]);
    DedupLastTwo(Taut(), Taut());
  }

  /** Test line 18: three copies become one. */
  lemma SubsumThreeCopies()
    ensures SubsumAndRemoveDuplicates([Taut(), Taut(), Taut()]) == [Taut()]
  {
    OneLengthNoBroader([Taut(), Taut(), Taut()], 3);
    SubsumNoBroader([Taut(), Taut(), Taut()]);
    DedupLastThree(Taut(), Taut(), Taut());
    DedupLastTwo(Taut(), Taut());
  }

  /** Test line 19: the LAST copy of a repeated clause stays, so it now comes
      after `[(False, "d")]`. */
  lemma SubsumKeepsLastCopy()
    ensures SubsumAndRemoveDuplicates([Taut(), [Not(D)], Taut()]) == [[Not(D)], Taut()]
  {
    var knf := [Taut(), [Not(D)], Taut()];
    forall e | e in knf && |e| < |Taut()| ensures !Subsums(e, Taut()) {
      assert e == [Not(D)];
      assert e[0] !in Taut();
    }
    SubsumNoBroader(knf);
    DedupLastThree(Taut(), [Not(D)], Taut());
    DedupLastTwo([Not(D)], Taut());
  }

  /** Test line 23: a single clause stays. */
  lemma SubsumSingle()
    ensures SubsumAndRemoveDuplicates([Taut()]) == [Taut()]
  {
    OneLengthNoBroader([Taut()], 3);
    SubsumNoBroader([Taut()]);
    DedupLastOne(Taut());
  }

  /** Test line 24: `[a]` subsumes the longer `[a, not a, a]`. */
  lemma SubsumDropsLonger()
    ensures SubsumAndRemoveDuplicates([[Pos(A), Not(A), Pos(A)], [Pos(A)]]) == [[Pos(A)]]
  {
    var long := [Pos(A), Not(A), Pos(A)];
    var knf := [long, [Pos(A)]];
    assert Subsums([Pos(A)], long);
    assert !Broader(knf, [Pos(A)]);
    SubsumOrder(knf, [long]);
    DedupLastTwo(long, [Pos(A)]);
    RemoveAllOfTwo(long, [Pos(A)], [long]);
  }

  /** Test line 25: clauses of equal length never subsume each other. */
  lemma SubsumEqualLengths()
    ensures SubsumAndRemoveDuplicates([[Pos(A), Not(B)], [Not(A), Pos(B)]])
         == [[Pos(A), Not(B)], [Not(A), Pos(B)]]
  {
    OneLengthNoBroader([[Pos(A), Not(B)], [Not(A), Pos(B)]], 2);
    SubsumNoBroader([[Pos(A), Not(B)], [Not(A), Pos(B)]]);
    DedupLastTwo([Pos(A), Not(B)], [Not(A), Pos(B)]);
  }

  /** Test line 28: both copies of the tautology go, because the later
      `[a, not b]` lies inside it. */
  lemma SubsumBoth()
    ensures SubsumAndRemoveDuplicates([Taut(), Taut(), [Pos(A), Not(B)]]) == [[Pos(A), Not(B)]]
  {
    var short := [Pos(A), Not(B)];
    var knf := [Taut(), Taut(), short];
    assert Subsums(short, Taut());
    assert !Broader(knf, short);
    SubsumOrder(knf, [Taut()]);
    assert |short| != |Taut()|;
    DedupLastThree(Taut(), Taut(), short);
    DedupLastTwo(Taut(), short);
    assert DedupLast(knf) == [Taut(), short];
    RemoveAllOfTwo(Taut(), short, [Taut()]);
  }

  // ---------------------------------------------------------------------------
  // test_makeUnitResolutionWithinKNF

  /** One step of the inner scan. */
  lemma ScanClausesUnfold<N(!new)>(u: Literal<N>, st: ScanState<N>, i: nat)
    requires i < |st.tmp|
    ensures ScanClauses(u, st, i) == ScanClauses(u, ScanStep(u, st, i), i + 1)
  {
  }

  /** The three outcomes of one visit, as lines 95-103 take them. */
  lemma MarkStep<N(!new)>(u: Literal<N>, st: ScanState<N>, i: nat)
    requires i < |st.tmp| && |st.tmp[i]| > 1 && u in st.tmp[i] && st.tmp[i] !in st.removable
    ensures ScanStep(u, st, i) == ScanState(st.tmp, st.removable + [st.tmp[i]], true)
  {
  }

  lemma ShortenStep<N(!new)>(u: Literal<N>, st: ScanState<N>, i: nat, j: nat, nc: Clause<N>)
    requires i < |st.tmp| && |st.tmp[i]| > 1 && u !in st.tmp[i] && Neg(u) in st.tmp[i]
    requires IndexOf(st.tmp, st.tmp[i]) == j && RemoveAllOf(st.tmp[i], [Neg(u)]) == nc
    ensures ScanStep(u, st, i) == ScanState(st.tmp[j := nc], st.removable, true)
  {
  }

  lemma SkipStep<N(!new)>(u: Literal<N>, st: ScanState<N>, i: nat)
    requires i < |st.tmp|
    requires |st.tmp[i]| <= 1 || ((u !in st.tmp[i] || st.tmp[i] in st.removable) && Neg(u) !in st.tmp[i])
    ensures ScanStep(u, st, i) == st
  {
  }

  lemma ScanClausesDone<N(!new)>(u: Literal<N>, st: ScanState<N>)
    ensures ScanClauses(u, st, |st.tmp|) == st
  {
  }

  /** A list of unit clauses leaves a round nothing to do. */
  lemma ShortReducedTwo<N(!new)>(x: Clause<N>, y: Clause<N>)
    requires |x| <= 1 && |y| <= 1
    ensures Reduced([x, y])
  {
  }

  lemma ShortReducedThree<N(!new)>(x: Clause<N>, y: Clause<N>, z: Clause<N>)
    requires |x| <= 1 && |y| <= 1 && |z| <= 1
    ensures Reduced([x, y, z])
  {
  }

  lemma ConcatTwo<T>(x: T, y: T)
    ensures [] + ([x] + [y]) == [x, y]
  {
  }

  /** A scan over three clauses, one step at a time. */
  lemma ScanThree<N(!new)>(u: Literal<N>, s0: ScanState<N>, s1: ScanState<N>, s2: ScanState<N>, s3: ScanState<N>)
    requires |s0.tmp| == 3 && |s1.tmp| == 3 && |s2.tmp| == 3
    requires ScanStep(u, s0, 0) == s1 && ScanStep(u, s1, 1) == s2 && ScanStep(u, s2, 2) == s3
    ensures ScanClauses(u, s0, 0) == s3
  {
    ScanClausesUnfold(u, s0, 0);
    ScanClausesUnfold(u, s1, 1);
    ScanClausesUnfold(u, s2, 2);
    ScanClausesDone(u, s3);
  }

  /** The outer loop over three round-start clauses. */
  lemma ScanUnitsThree<N(!new)>(x: Clause<N>, y: Clause<N>, z: Clause<N>, s0: ScanState<N>,
                                s1: ScanState<N>, s2: ScanState<N>, s3: ScanState<N>)
    requires s1 == if |x| == 1 then ScanClauses(x[0], s0, 0) else s0
    requires s2 == if |y| == 1 then ScanClauses(y[0], s1, 0) else s1
    requires s3 == if |z| == 1 then ScanClauses(z[0], s2, 0) else s2
    ensures ScanUnits([x, y, z], s0) == s3
  {
    assert [x, y, z][1..] == [y, z];
    assert [y, z][1..] == [z];
    assert [z][1..] == [];
    assert ScanUnits([z], s2) == s3;
    assert ScanUnits([y, z], s1) == s3;
  }

  /** A scan over four clauses, one step at a time. */
  lemma ScanFour<N(!new)>(u: Literal<N>, s0: ScanState<N>, s1: ScanState<N>, s2: ScanState<N>,
                          s3: ScanState<N>, s4: ScanState<N>)
    requires |s0.tmp| == 4 && |s1.tmp| == 4 && |s2.tmp| == 4 && |s3.tmp| == 4
    requires ScanStep(u, s0, 0) == s1 && ScanStep(u, s1, 1) == s2
    requires ScanStep(u, s2, 2) == s3 && ScanStep(u, s3, 3) == s4
    ensures ScanClauses(u, s0, 0) == s4
  {
    ScanClausesUnfold(u, s0, 0);
    ScanClausesUnfold(u, s1, 1);
    ScanClausesUnfold(u, s2, 2);
    ScanClausesUnfold(u, s3, 3);
    ScanClausesDone(u, s4);
  }

  /** The outer loop over four round-start clauses. */
  lemma ScanUnitsFour<N(!new)>(w: Clause<N>, x: Clause<N>, y: Clause<N>, z: Clause<N>, s0: ScanState<N>,
                               s1: ScanState<N>, s2: ScanState<N>, s3: ScanState<N>, s4: ScanState<N>)
    requires s1 == if |w| == 1 then ScanClauses(w[0], s0, 0) else s0
    requires s2 == if |x| == 1 then ScanClauses(x[0], s1, 0) else s1
    requires s3 == if |y| == 1 then ScanClauses(y[0], s2, 0) else s2
    requires s4 == if |z| == 1 then ScanClauses(z[0], s3, 0) else s3
    ensures ScanUnits([w, x, y, z], s0) == s4
  {
    assert [w, x, y, z][1..] == [x, y, z];
    ScanUnitsThree(x, y, z, s1, s2, s3, s4);
  }

  lemma RemoveAllOfFour<T(!new)>(w: T, x: T, y: T, z: T, xs: seq<T>)
    ensures RemoveAllOf([w, x, y, z], xs) == (if w in xs then [] else [w]) + RemoveAllOf([x, y, z], xs)
  {
    assert [w, x, y, z][1..] == [x, y, z];
  }

  lemma RemoveAllOfThree<T(!new)>(x: T, y: T, z: T, xs: seq<T>)
    ensures RemoveAllOf([x, y, z], xs) == (if x in xs then [] else [x]) + RemoveAllOf([y, z], xs)
  {
    assert [x, y, z][1..] == [y, z];
  }

  lemma UpdateThree<T>(x: T, y: T, z: T, w: T)
    ensures [x, y, z][1 := w] == [x, w, z]
  {
  }

  /** `IndexOf` finds the first position holding the value. */
  lemma IndexOfAt<T(!new)>(s: seq<T>, x: T, k: nat)
    requires k < |s| && s[k] == x && forall j :: 0 <= j < k ==> s[j] != x
    ensures IndexOf(s, x) == k
  {
  }

  /** Two clean clauses of length two: a clean list without unit clauses. */
  lemma NoUnitsTwo<N(!new)>(x: Clause<N>, y: Clause<N>)
    requires |x| == 2 && NoDuplicates(x) && !IsTautology(x)
    requires |y| == 2 && NoDuplicates(y) && !IsTautology(y)
    ensures Clean([x, y]) && Units([x, y]) == []
  {
    assert [x, y][1..] == [y];
    assert [y][1..] == [];
    assert Units<N>([]) == [];
    assert Units([y]) == [];
  }

  /** Test line 31. */
  lemma UnitResolutionEmpty()
    ensures MakeUnitResolutionWithinKnf<Name>([]) == []
  {
    MakeUnitResolutionWithinKnfNoUnits<Name>([]);
  }

  /** Test line 32: without unit clauses nothing changes. */
  lemma UnitResolutionNoUnits()
    ensures MakeUnitResolutionWithinKnf([[Pos(A), Not(B)], [Pos(C), Not(A)]]) == [[Pos(A), Not(B)], [Pos(C), Not(A)]]
  {
    var knf := [[Pos(A), Not(B)], [Pos(C), Not(A)]];
    NoUnitsTwo([Pos(A), Not(B)], [Pos(C), Not(A)]);
    MakeUnitResolutionWithinKnfNoUnits(knf);
  }

  /** A list of three clauses, each free of repeats and tautologies, is clean. */
  lemma CleanThree<N(!new)>(x: Clause<N>, y: Clause<N>, z: Clause<N>)
    requires NoDuplicates(x) && !IsTautology(x)
    requires NoDuplicates(y) && !IsTautology(y)
    requires NoDuplicates(z) && !IsTautology(z)
    ensures Clean([x, y, z])
  {
  }

  lemma CleanFour<N(!new)>(w: Clause<N>, x: Clause<N>, y: Clause<N>, z: Clause<N>)
    requires NoDuplicates(w) && !IsTautology(w)
    requires NoDuplicates(x) && !IsTautology(x)
    requires NoDuplicates(y) && !IsTautology(y)
    requires NoDuplicates(z) && !IsTautology(z)
    ensures Clean([w, x, y, z])
  {
  }

  /** One loop iteration of the whole pass, for a round that changed something. */
  lemma UnitResolutionLoopStep<N(!new)>(tmp: Cnf<N>)
    requires Round(tmp).changed
    ensures UnitResolutionLoop(tmp) == UnitResolutionLoop(Round(tmp).cnf)
  {
  }

  /** The scan of test line 33: `[a, not b]` is marked, `[c, not a]` becomes `[c]`. */
  lemma OneRoundScan()
    ensures var c1, c2, c3 := [Pos(A), Not(B)], [Pos(C), Not(A)], [Pos(A)];
            ScanUnits([c1, c2, c3], ScanState([c1, c2, c3], [], false))
              == ScanState([c1, [Pos(C)], c3], [c1], true)
  {
    var c1, c2, c3 := [Pos(A), Not(B)], [Pos(C), Not(A)], [Pos(A)];
    var knf := [c1, c2, c3];
    var st0 := ScanState(knf, [], false);
    var st1 := ScanState(knf, [c1], true);
    var st2 := ScanState([c1, [Pos(C)], c3], [c1], true);
    MarkStep(Pos(A), st0, 0);
    assert [] + [c1] == [c1];
    assert c1[0] != c2[0];
    IndexOfAt(knf, c2, 1);
    assert RemoveAllOf(c2, [Not(A)]) == [Pos(C)];
    ShortenStep(Pos(A), st1, 1, 1, [Pos(C)]);
    UpdateThree(c1, c2, c3, [Pos(C)]);
    SkipStep(Pos(A), st2, 2);
    ScanThree(Pos(A), st0, st1, st2, st2);
    ScanUnitsThree(c1, c2, c3, st0, st0, st0, st2);
  }

  /** The round of test line 33 drops the marked clause. */
  lemma OneRoundRound()
    ensures var c1, c2, c3 := [Pos(A), Not(B)], [Pos(C), Not(A)], [Pos(A)];
            Round([c1, c2, c3]) == RoundResult([[Pos(C)], c3], true)
  {
    var c1, c3 := [Pos(A), Not(B)], [Pos(A)];
    OneRoundScan();
    RemoveAllOfThree(c1, [Pos(C)], c3, [c1]);
    RemoveAllOfTwo([Pos(C)], c3, [c1]);
    assert c1 in [c1];
    assert [Pos(C)] !in [c1] by { assert |[Pos(C)]| != |c1|; }
    assert c3 !in [c1] by { assert |c3| != |c1|; }
    ConcatTwo([Pos(C)], c3);
  }

  /** Test line 33: the unit `a` removes `[a, not b]` and shortens
      `[c, not a]` to `[c]`. */
  lemma UnitResolutionOneRound()
    ensures MakeUnitResolutionWithinKnf([[Pos(A), Not(B)], [Pos(C), Not(A)], [Pos(A)]]) == [[Pos(C)], [Pos(A)]]
  {
    var knf := [[Pos(A), Not(B)], [Pos(C), Not(A)], [Pos(A)]];
    CleanThree([Pos(A), Not(B)], [Pos(C), Not(A)], [Pos(A)]);
    MinimizeClausesRoughlyClean(knf);
    OneRoundRound();
    UnitResolutionLoopStep(knf);
    ShortReducedTwo([Pos(C)], [Pos(A)]);
    UnitResolutionLoopReduced([[Pos(C)], [Pos(A)]]);
  }

  /** The scan of test line 34: the first unit `a` marks `[a, not b]` and
      shortens `[c, not a]`; the second unit `a` finds nothing left to do,
      because `[a, not b]` is already marked. */
  lemma UnitsKeptScan()
    ensures var u, c1, c2 := [Pos(A)], [Pos(A), Not(B)], [Pos(C), Not(A)];
            ScanUnits([u, c1, c2, u], ScanState([u, c1, c2, u], [], false))
              == ScanState([u, c1, [Pos(C)], u], [c1], true)
  {
    var u, c1, c2 := [Pos(A)], [Pos(A), Not(B)], [Pos(C), Not(A)];
    var knf := [u, c1, c2, u];
    var st0 := ScanState(knf, [], false);
    var st1 := ScanState(knf, [c1], true);
    var st2 := ScanState([u, c1, [Pos(C)], u], [c1], true);
    SkipStep(Pos(A), st0, 0);
    MarkStep(Pos(A), st0, 1);
    assert [] + [c1] == [c1];
    UnitsKeptShorten();
    SkipStep(Pos(A), st2, 3);
    ScanFour(Pos(A), st0, st0, st1, st2, st2);
    SkipStep(Pos(A), st2, 0);
    assert c1 in st2.removable && Not(A) !in c1;
    SkipStep(Pos(A), st2, 1);
    SkipStep(Pos(A), st2, 2);
    ScanFour(Pos(A), st2, st2, st2, st2, st2);
    ScanUnitsFour(u, c1, c2, u, st0, st2, st2, st2, st2);
  }

  /** The first unit `a` shortens `[c, not a]` to `[c]`. */
  lemma UnitsKeptShorten()
    ensures var u, c1, c2 := [Pos(A)], [Pos(A), Not(B)], [Pos(C), Not(A)];
            ScanStep(Pos(A), ScanState([u, c1, c2, u], [c1], true), 2)
              == ScanState([u, c1, [Pos(C)], u], [c1], true)
  {
    var u, c1, c2 := [Pos(A)], [Pos(A), Not(B)], [Pos(C), Not(A)];
    var knf := [u, c1, c2, u];
    assert c1[0] != c2[0];
    IndexOfAt(knf, c2, 2);
    RemoveAllOfTwo(Pos(C), Not(A), [Not(A)]);
    ShortenStep(Pos(A), ScanState(knf, [c1], true), 2, 2, [Pos(C)]);
    assert knf[2 := [Pos(C)]] == [u, c1, [Pos(C)], u];
  }

  lemma UnitsKeptRemoval()
    ensures var u, c1 := [Pos(A)], [Pos(A), Not(B)];
            RemoveAllOf([u, c1, [Pos(C)], u], [c1]) == [u, [Pos(C)], u]
  {
    var u, c1 := [Pos(A)], [Pos(A), Not(B)];
    RemoveAllOfFour(u, c1, [Pos(C)], u, [c1]);
    RemoveAllOfThree(c1, [Pos(C)], u, [c1]);
    RemoveAllOfTwo([Pos(C)], u, [c1]);
    assert c1 in [c1];
    assert u !in [c1] by { assert |u| != |c1|; }
    assert [Pos(C)] !in [c1] by { assert |[Pos(C)]| != |c1|; }
    assert [u] + ([] + ([[Pos(C)]] + [u])) == [u, [Pos(C)], u];
  }

  lemma UnitsKeptRound()
    ensures var u, c1, c2 := [Pos(A)], [Pos(A), Not(B)], [Pos(C), Not(A)];
            Round([u, c1, c2, u]) == RoundResult([u, [Pos(C)], u], true)
  {
    var u, c1, c2 := [Pos(A)], [Pos(A), Not(B)], [Pos(C), Not(A)];
    UnitsKeptScan();
    UnitsKeptRemoval();
    RoundOf([u, c1, c2, u], ScanState([u, c1, [Pos(C)], u], [c1], true), [u, [Pos(C)], u]);
  }

  /** Test line 34: a unit clause is never removed, even when another unit
      clause equals it. */
  lemma UnitResolutionUnitsKept()
    ensures MakeUnitResolutionWithinKnf([[Pos(A)], [Pos(A), Not(B)], [Pos(C), Not(A)], [Pos(A)]])
         == [[Pos(A)], [Pos(C)], [Pos(A)]]
  {
    var knf := [[Pos(A)], [Pos(A), Not(B)], [Pos(C), Not(A)], [Pos(A)]];
    CleanFour([Pos(A)], [Pos(A), Not(B)], [Pos(C), Not(A)], [Pos(A)]);
    MinimizeClausesRoughlyClean(knf);
    UnitsKeptRound();
    UnitResolutionLoopStep(knf);
    ShortReducedThree([Pos(A)], [Pos(C)], [Pos(A)]);
    UnitResolutionLoopReduced([[Pos(A)], [Pos(C)], [Pos(A)]]);
  }

  /** A round, given its scan and what the removal leaves. */
  lemma RoundOf<N(!new)>(tmp: Cnf<N>, st: ScanState<N>, r: Cnf<N>)
    requires ScanUnits(tmp, ScanState(tmp, [], false)) == st
    requires RemoveAllOf(st.tmp, st.removable) == r
    ensures Round(tmp) == RoundResult(r, st.changed)
  {
  }

  /** First round of test line 42, for any names `a`, `c`, `d` with `a`
      different from the other two: the unit `a` marks `[a, not b]` and
      takes `not a` out of the two other clauses. */
  lemma ChainStepsOne<N(!new)>(a: N, b: N, c: N, d: N)
    requires a != c && a != d
    ensures var u, c1, c2, c3 := [Pos(a)], [Pos(a), Not(b)], [Not(a), Pos(c), Not(d)], [Not(a), Not(c)];
            ScanClauses(Pos(a), ScanState([u, c1, c2, c3], [], false), 0)
              == ScanState([u, c1, [Pos(c), Not(d)], [Not(c)]], [c1], true)
  {
    var u, c1, c2, c3 := [Pos(a)], [Pos(a), Not(b)], [Not(a), Pos(c), Not(d)], [Not(a), Not(c)];
    var knf := [u, c1, c2, c3];
    var st0 := ScanState(knf, [], false);
    var st1 := ScanState(knf, [c1], true);
    SkipStep(Pos(a), st0, 0);
    MarkStep(Pos(a), st0, 1);
    assert [] + [c1] == [c1];
    ChainShortenOne(a, b, c, d);
    ChainShortenTwo(a, b, c, d);
    ScanFour(Pos(a), st0, st0, st1, ScanState([u, c1, [Pos(c), Not(d)], c3], [c1], true),
             ScanState([u, c1, [Pos(c), Not(d)], [Not(c)]], [c1], true));
  }

  /** The unit `a` takes `not a` out of `[not a, c, not d]`. */
  lemma ChainShortenOne<N(!new)>(a: N, b: N, c: N, d: N)
    requires a != c && a != d
    ensures var u, c1, c2, c3 := [Pos(a)], [Pos(a), Not(b)], [Not(a), Pos(c), Not(d)], [Not(a), Not(c)];
            ScanStep(Pos(a), ScanState([u, c1, c2, c3], [c1], true), 2)
              == ScanState([u, c1, [Pos(c), Not(d)], c3], [c1], true)
  {
    var u, c1, c2, c3 := [Pos(a)], [Pos(a), Not(b)], [Not(a), Pos(c), Not(d)], [Not(a), Not(c)];
    var knf := [u, c1, c2, c3];
    IndexOfAt(knf, c2, 2);
    RemoveAllOfThree(Not(a), Pos(c), Not(d), [Not(a)]);
    RemoveAllOfTwo(Pos(c), Not(d), [Not(a)]);
    ShortenStep(Pos(a), ScanState(knf, [c1], true), 2, 2, [Pos(c), Not(d)]);
    assert knf[2 := [Pos(c), Not(d)]] == [u, c1, [Pos(c), Not(d)], c3];
  }

  /** The unit `a` takes `not a` out of `[not a, not c]`. */
  lemma ChainShortenTwo<N(!new)>(a: N, b: N, c: N, d: N)
    requires a != c
    ensures var u, c1, c3 := [Pos(a)], [Pos(a), Not(b)], [Not(a), Not(c)];
            ScanStep(Pos(a), ScanState([u, c1, [Pos(c), Not(d)], c3], [c1], true), 3)
              == ScanState([u, c1, [Pos(c), Not(d)], [Not(c)]], [c1], true)
  {
    var u, c1, c3 := [Pos(a)], [Pos(a), Not(b)], [Not(a), Not(c)];
    var tmp := [u, c1, [Pos(c), Not(d)], c3];
    assert c1[0] != c3[0];
    IndexOfAt(tmp, c3, 3);
    RemoveAllOfTwo(Not(a), Not(c), [Not(a)]);
    ShortenStep(Pos(a), ScanState(tmp, [c1], true), 3, 3, [Not(c)]);
    assert tmp[3 := [Not(c)]] == [u, c1, [Pos(c), Not(d)], [Not(c)]];
  }

  lemma ChainRemovalOne<N(!new)>(a: N, b: N, c: N, d: N)
    requires a != c
    ensures var u, c1, d2, d3 := [Pos(a)], [Pos(a), Not(b)], [Pos(c), Not(d)], [Not(c)];
            RemoveAllOf([u, c1, d2, d3], [c1]) == [u, d2, d3]
  {
    var u, c1, d2, d3 := [Pos(a)], [Pos(a), Not(b)], [Pos(c), Not(d)], [Not(c)];
    RemoveAllOfFour(u, c1, d2, d3, [c1]);
    RemoveAllOfThree(c1, d2, d3, [c1]);
    RemoveAllOfTwo(d2, d3, [c1]);
    assert c1 in [c1];
    assert u !in [c1] by { assert |u| != |c1|; }
    assert d2 !in [c1] by { assert d2[0] != c1[0]; }
    assert d3 !in [c1] by { assert |d3| != |c1|; }
    assert [u] + ([] + ([d2] + [d3])) == [u, d2, d3];
  }

  lemma ChainRoundOne<N(!new)>(a: N, b: N, c: N, d: N)
    requires a != c && a != d
    ensures var u, c1, c2, c3 := [Pos(a)], [Pos(a), Not(b)], [Not(a), Pos(c), Not(d)], [Not(a), Not(c)];
            Round([u, c1, c2, c3]) == RoundResult([u, [Pos(c), Not(d)], [Not(c)]], true)
  {
    var u, c1, c2, c3 := [Pos(a)], [Pos(a), Not(b)], [Not(a), Pos(c), Not(d)], [Not(a), Not(c)];
    var st0 := ScanState([u, c1, c2, c3], [], false);
    var st3 := ScanState([u, c1, [Pos(c), Not(d)], [Not(c)]], [c1], true);
    ChainStepsOne(a, b, c, d);
    ScanUnitsFour(u, c1, c2, c3, st0, st3, st3, st3, st3);
    ChainRemovalOne(a, b, c, d);
    RoundOf([u, c1, c2, c3], st3, [u, [Pos(c), Not(d)], [Not(c)]]);
  }

  /** Second round of test line 42: the new unit `not c` takes `c` out of
      `[c, not d]`. */
  lemma ChainScanTwo<N(!new)>(a: N, c: N, d: N)
    requires a != c && a != d && c != d
    ensures var u, d2, d3 := [Pos(a)], [Pos(c), Not(d)], [Not(c)];
            ScanUnits([u, d2, d3], ScanState([u, d2, d3], [], false))
              == ScanState([u, [Not(d)], d3], [], true)
  {
    var u, d2, d3 := [Pos(a)], [Pos(c), Not(d)], [Not(c)];
    var knf := [u, d2, d3];
    var st0 := ScanState(knf, [], false);
    var st1 := ScanState([u, [Not(d)], d3], [], true);
    SkipStep(Pos(a), st0, 0);
    SkipStep(Pos(a), st0, 1);
    SkipStep(Pos(a), st0, 2);
    ScanThree(Pos(a), st0, st0, st0, st0);
    SkipStep(Not(c), st0, 0);
    IndexOfAt(knf, d2, 1);
    assert RemoveAllOf(d2, [Pos(c)]) == [Not(d)];
    ShortenStep(Not(c), st0, 1, 1, [Not(d)]);
    UpdateThree(u, d2, d3, [Not(d)]);
    SkipStep(Not(c), st1, 2);
    ScanThree(Not(c), st0, st0, st1, st1);
    ScanUnitsThree(u, d2, d3, st0, st0, st0, st1);
  }

  lemma ChainRoundTwo<N(!new)>(a: N, c: N, d: N)
    requires a != c && a != d && c != d
    ensures var u, d2, d3 := [Pos(a)], [Pos(c), Not(d)], [Not(c)];
            Round([u, d2, d3]) == RoundResult([u, [Not(d)], d3], true)
  {
    ChainScanTwo(a, c, d);
    RemoveAllOfNothing([[Pos(a)], [Not(d)], [Not(c)]], []);
  }

  /** The whole pass on test line 42, for any four different names. */
  lemma ChainFor<N(!new)>(a: N, b: N, c: N, d: N)
    requires a != b && a != c && a != d && c != d
    ensures MakeUnitResolutionWithinKnf([[Pos(a)], [Pos(a), Not(b)], [Not(a), Pos(c), Not(d)], [Not(a), Not(c)]])
         == [[Pos(a)], [Not(d)], [Not(c)]]
  {
    var knf := [[Pos(a)], [Pos(a), Not(b)], [Not(a), Pos(c), Not(d)], [Not(a), Not(c)]];
    CleanFour([Pos(a)], [Pos(a), Not(b)], [Not(a), Pos(c), Not(d)], [Not(a), Not(c)]);
    MinimizeClausesRoughlyClean(knf);
    ChainRoundOne(a, b, c, d);
    UnitResolutionLoopStep(knf);
    ChainRoundTwo(a, c, d);
    UnitResolutionLoopStep([[Pos(a)], [Pos(c), Not(d)], [Not(c)]]);
    ShortReducedThree([Pos(a)], [Not(d)], [Not(c)]);
    UnitResolutionLoopReduced([[Pos(a)], [Not(d)], [Not(c)]]);
  }

  /** Test line 42: shortening `[not a, not c]` to the unit `[not c]` gives a
      second round work on `[c, not d]`. */
  lemma UnitResolutionChain()
    ensures MakeUnitResolutionWithinKnf([[Pos(A)], [Pos(A), Not(B)], [Not(A), Pos(C), Not(D)], [Not(A), Not(C)]])
         == [[Pos(A)], [Not(D)], [Not(C)]]
  {
    ChainFor(A, B, C, D);
  }
}
