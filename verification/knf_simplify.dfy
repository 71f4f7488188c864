/** The two clean-up passes of KnfMethods.py: `minimizeClausesRoughly`
    (tautologies and repeated literals) and `subsumAndRemoveDuplicatesFromKNF`
    (repeated clauses and strictly longer subsumed clauses). Each pass is a
    pure function returning the new list; the original mutates the caller's
    lists in place. */
module KnfSimplify {
  import opened Seqs
  import opened Logic

  // ===========================================================================
  // minimizeClausesRoughly

  /** Clauses holding the same literals are tautologies together. */
  lemma SameLiteralsTautology<N(!new)>(a: Clause<N>, b: Clause<N>)
    requires SameElements(a, b)
    ensures IsTautology(a) <==> IsTautology(b)
  {
    if IsTautology(a) {
      var i :| 0 <= i < |a| && Neg(a[i]) in a;
      assert a[i] in b;
      var j :| 0 <= j < |b| && b[j] == a[i];
    }
    if IsTautology(b) {
      var i :| 0 <= i < |b| && Neg(b[i]) in b;
      assert b[i] in a;
      var j :| 0 <= j < |a| && a[j] == b[i];
    }
  }

  /** Clauses holding the same literals are satisfied together. */
  lemma SameLiteralsSatisfied<N(!new)>(truth: set<N>, a: Clause<N>, b: Clause<N>)
    requires SameElements(a, b)
    ensures Satisfies(truth, a) <==> Satisfies(truth, b)
  {
    if Satisfies(truth, a) {
      var i :| 0 <= i < |a| && Holds(truth, a[i]);
      assert a[i] in b;
    }
    if Satisfies(truth, b) {
      var i :| 0 <= i < |b| && Holds(truth, b[i]);
      assert b[i] in a;
    }
  }

  /** The net effect of lines 57-61 (`TautologySweepDrops`): every copy of
      every tautology goes, every other clause stays in place with all its
      copies. */
  function DropTautologies<N(==,!new)>(knf: Cnf<N>): (r: Cnf<N>)
    ensures forall c :: c in r <==> c in knf && !IsTautology(c)
    ensures forall c :: multiset(r)[c] == if IsTautology(c) then 0 else multiset(knf)[c]
    ensures |r| <= |knf|
  {
    if knf == [] then []
    else
      assert knf == [knf[0]] + knf[1..];
      assert forall c :: c in knf <==> c == knf[0] || c in knf[1..];
      (if IsTautology(knf[0]) then [] else [knf[0]]) + DropTautologies(knf[1..])
  }

  /** Lines 59-61 for one visit of `clause`, over its literals `lits` still to
      see: a literal whose negation the clause holds removes the first copy of
      the clause from `tmp`, while one is left. */
  function TautologyVisit<N(==,!new)>(tmp: Cnf<N>, clause: Clause<N>, lits: seq<Literal<N>>): Cnf<N>
    decreases |lits|
  {
    if lits == [] then tmp
    else TautologyVisit(if Neg(lits[0]) in clause && clause in tmp then RemoveFirst(tmp, clause) else tmp, clause, lits[1..])
  }

  /** Lines 57-61 as written: the copy `tmp` loses clauses while the loop
      visits the clauses of the snapshot `todo`. */
  function TautologySweep<N(==,!new)>(tmp: Cnf<N>, todo: Cnf<N>): Cnf<N>
    decreases |todo|
  {
    if todo == [] then tmp else TautologySweep(TautologyVisit(tmp, todo[0], todo[0]), todo[1..])
  }

  /** Removing one copy of a tautology does not change what the filter keeps. */
  lemma {:induction false} DropTautologiesRemove<N(!new)>(s: Cnf<N>, c: Clause<N>)
    requires IsTautology(c)
    ensures DropTautologies(RemoveFirst(s, c)) == DropTautologies(s)
  {
    if s != [] && s[0] != c {
      DropTautologiesRemove(s[1..], c);
      assert RemoveFirst(s, c) == [s[0]] + RemoveFirst(s[1..], c);
      assert ([s[0]] + RemoveFirst(s[1..], c))[1..] == RemoveFirst(s[1..], c);
    }
  }

  /** A list without tautologies passes the filter unchanged. */
  lemma {:induction false} DropTautologiesNone<N(!new)>(s: Cnf<N>)
    requires forall c :: c in s ==> !IsTautology(c)
    ensures DropTautologies(s) == s
  {
    if s != [] {
      assert !IsTautology(s[0]) by { assert s[0] in s; }
      DropTautologiesNone(s[1..]);
    }
  }

  /** One visit only takes copies of the visited clause, and at least one
      when some literal calls for it and a copy is left. */
  lemma {:induction false} TautologyVisitCounts<N(!new)>(tmp: Cnf<N>, clause: Clause<N>, lits: seq<Literal<N>>)
    ensures var r := TautologyVisit(tmp, clause, lits);
      && (forall d :: d != clause ==> multiset(r)[d] == multiset(tmp)[d])
      && multiset(r)[clause] <= multiset(tmp)[clause]
      && (HitsAny(clause, lits) && clause in tmp ==> multiset(r)[clause] < multiset(tmp)[clause])
    decreases |lits|
  {
    if lits != [] {
      var hit := Neg(lits[0]) in clause && clause in tmp;
      var next := if hit then RemoveFirst(tmp, clause) else tmp;
      TautologyVisitCounts(next, clause, lits[1..]);
      if HitsAny(clause, lits) && !hit && clause in tmp {
        var i :| 0 <= i < |lits| && Neg(lits[i]) in clause;
        assert lits[1..][i - 1] == lits[i];
      }
    }
  }

  /** Some literal of `lits` has its negation in `clause`. */
  predicate HitsAny<N(==,!new)>(clause: Clause<N>, lits: seq<Literal<N>>) {
    exists i :: 0 <= i < |lits| && Neg(lits[i]) in clause
  }

  /** A visit of a tautology leaves the filter's result alone. */
  lemma {:induction false} TautologyVisitFilter<N(!new)>(tmp: Cnf<N>, clause: Clause<N>, lits: seq<Literal<N>>)
    requires IsTautology(clause)
    ensures DropTautologies(TautologyVisit(tmp, clause, lits)) == DropTautologies(tmp)
    decreases |lits|
  {
    if lits != [] {
      var hit := Neg(lits[0]) in clause && clause in tmp;
      var next := if hit then RemoveFirst(tmp, clause) else tmp;
      TautologyVisitFilter(next, clause, lits[1..]);
      if hit {
        DropTautologiesRemove(tmp, clause);
      }
    }
  }

  /** A visit that no literal calls for changes nothing. */
  lemma {:induction false} TautologyVisitIdle<N(!new)>(tmp: Cnf<N>, clause: Clause<N>, lits: seq<Literal<N>>)
    requires !HitsAny(clause, lits)
    ensures TautologyVisit(tmp, clause, lits) == tmp
    decreases |lits|
  {
    if lits != [] {
      assert Neg(lits[0]) !in clause;
      TautologyVisitIdle(tmp, clause, lits[1..]);
    }
  }

  /** The sweep filters exactly the tautologies out of `tmp`, as long as the
      clauses still to visit hold every copy of every tautology left in it. */
  lemma {:induction false} TautologySweepFrom<N(!new)>(tmp: Cnf<N>, todo: Cnf<N>)
    requires forall c :: IsTautology(c) ==> multiset(tmp)[c] <= multiset(todo)[c]
    ensures TautologySweep(tmp, todo) == DropTautologies(tmp)
    decreases |todo|
  {
    if todo == [] {
      forall c | c in tmp ensures !IsTautology(c) {
        assert multiset(tmp)[c] > 0;
      }
      DropTautologiesNone(tmp);
    } else {
      var c0 := todo[0];
      var next := TautologyVisit(tmp, c0, c0);
      assert todo == [c0] + todo[1..];
      assert multiset(todo) == multiset{c0} + multiset(todo[1..]);
      if IsTautology(c0) {
        TautologyVisitCounts(tmp, c0, c0);
        TautologyVisitFilter(tmp, c0, c0);
        assert HitsAny(c0, c0);
      } else {
        TautologyVisitIdle(tmp, c0, c0);
      }
      TautologySweepFrom(next, todo[1..]);
    }
  }

  /** Lines 57-61 as written equal the filter: every visit of a tautological
      clause removes at least one copy of it, and a list holding k copies
      visits it k times. */
  lemma TautologySweepDrops<N(!new)>(knf: Cnf<N>)
    ensures TautologySweep(knf, knf) == DropTautologies(knf)
  {
    TautologySweepFrom(knf, knf);
  }

  /** Lines 65-69: the literals at positions `i` up to `|c| - 2` that occur
      again later in the clause, in order. */
  function RemovableLiterals<N(==,!new)>(c: Clause<N>, i: nat): (r: seq<Literal<N>>)
    requires i <= |c|
    ensures forall l :: l in r ==> l in c[i..]
    decreases |c| - i
  {
    if i + 1 >= |c| then []
    else
      assert c[i..] == [c[i]] + c[i + 1..];
      (if c[i] in c[i + 1..] then [c[i]] else []) + RemovableLiterals(c, i + 1)
  }

  /** Lines 70-71: `clause.remove(l)` for every collected literal in turn. */
  function RemoveEach<N(==,!new)>(c: Clause<N>, ls: seq<Literal<N>>): Clause<N>
    decreases |ls|
  {
    if ls == [] then c else RemoveEach(RemoveFirst(c, ls[0]), ls[1..])
  }

  lemma {:induction false} RemoveEachCons<N(!new)>(x: Literal<N>, c: Clause<N>, ls: seq<Literal<N>>)
    requires x !in ls
    ensures RemoveEach([x] + c, ls) == [x] + RemoveEach(c, ls)
    decreases |ls|
  {
    if ls != [] {
      assert ([x] + c)[0] == x != ls[0];
      assert ([x] + c)[1..] == c;
      assert RemoveFirst([x] + c, ls[0]) == [x] + RemoveFirst(c, ls[0]);
      RemoveEachCons(x, RemoveFirst(c, ls[0]), ls[1..]);
    }
  }

  lemma {:induction false} RemovableCollapse<N(!new)>(c: Clause<N>, i: nat)
    requires i <= |c|
    ensures RemoveEach(c[i..], RemovableLiterals(c, i)) == DedupLast(c[i..])
    decreases |c| - i
  {
    var s := c[i..];
    if i + 1 >= |c| {
      assert RemovableLiterals(c, i) == [];
      assert |s| <= 1;
      if |s| == 1 {
        assert s[1..] == [];
      }
    } else {
      var x, t := c[i], c[i + 1..];
      var rest := RemovableLiterals(c, i + 1);
      assert s == [x] + t;
      assert s[0] == x && s[1..] == t;
      RemovableCollapse(c, i + 1);
      if x in t {
        assert RemovableLiterals(c, i) == [x] + rest;
        calc {
          RemoveEach(s, [x] + rest);
          RemoveEach(RemoveFirst(s, x), rest);
          { assert RemoveFirst(s, x) == t; }
          RemoveEach(t, rest);
          DedupLast(t);
          DedupLast(s);
        }
      } else {
        assert RemovableLiterals(c, i) == rest;
        RemoveEachCons(x, t, rest);
        calc {
          RemoveEach(s, rest);
          [x] + RemoveEach(t, rest);
          [x] + DedupLast(t);
          DedupLast(s);
        }
      }
    }
  }

  /** Lines 64-71 for one clause: every repeated literal keeps only its last
      occurrence. */
  function CollapseRepeats<N(==,!new)>(c: Clause<N>): (r: Clause<N>)
    ensures r == DedupLast(c)
  {
    RemovableCollapse(c, 0);
    assert c[0..] == c;
    RemoveEach(c, RemovableLiterals(c, 0))
  }

  function CollapseAll<N(==,!new)>(knf: Cnf<N>): (r: Cnf<N>)
    ensures |r| == |knf|
    ensures forall i :: 0 <= i < |knf| ==> r[i] == DedupLast(knf[i])
  {
    if knf == [] then [] else [CollapseRepeats(knf[0])] + CollapseAll(knf[1..])
  }

  /** `minimizeClausesRoughly` (lines 46-72): tautologies are dropped, every
      other clause survives in order with each repeated literal collapsed to
      one copy. */
  function MinimizeClausesRoughly<N(==,!new)>(knf: Cnf<N>): (r: Cnf<N>)
    ensures |r| <= |knf|
    ensures forall c :: c in knf && !IsTautology(c) ==> DedupLast(c) in r
    ensures forall i :: 0 <= i < |r| ==>
      exists c :: c in knf && !IsTautology(c) && r[i] == DedupLast(c)
    ensures forall i :: 0 <= i < |r| ==> NoDuplicates(r[i]) && !IsTautology(r[i])
  {
    CollapseDropped(knf);
    CollapseAll(DropTautologies(knf))
  }

  /** The facts behind the contract of `MinimizeClausesRoughly`. */
  lemma CollapseDropped<N(!new)>(knf: Cnf<N>)
    ensures var r := CollapseAll(DropTautologies(knf));
      && (forall c :: c in knf && !IsTautology(c) ==> DedupLast(c) in r)
      && (forall i :: 0 <= i < |r| ==> exists c :: c in knf && !IsTautology(c) && r[i] == DedupLast(c))
      && (forall i :: 0 <= i < |r| ==> !IsTautology(r[i]))
  {
    CollapseDroppedKeeps(knf);
    CollapseDroppedFrom(knf);
  }

  lemma CollapseDroppedKeeps<N(!new)>(knf: Cnf<N>)
    ensures forall c :: c in knf && !IsTautology(c) ==> DedupLast(c) in CollapseAll(DropTautologies(knf))
  {
    var kept := DropTautologies(knf);
    var r := CollapseAll(kept);
    forall c | c in knf && !IsTautology(c) ensures DedupLast(c) in r {
      var i :| 0 <= i < |kept| && kept[i] == c;
      assert r[i] == DedupLast(c);
    }
  }

  lemma CollapseDroppedFrom<N(!new)>(knf: Cnf<N>)
    ensures var r := CollapseAll(DropTautologies(knf));
      forall i :: 0 <= i < |r| ==>
        (exists c :: c in knf && !IsTautology(c) && r[i] == DedupLast(c)) && !IsTautology(r[i])
  {
    var kept := DropTautologies(knf);
    var r := CollapseAll(kept);
    forall i | 0 <= i < |r|
      ensures exists c :: c in knf && !IsTautology(c) && r[i] == DedupLast(c)
      ensures !IsTautology(r[i])
    {
      assert kept[i] in kept;
      SameLiteralsTautology(r[i], kept[i]);
    }
  }

  /** On a list without tautologies every clause survives in its place, as
      often as before, with its repeated literals collapsed. */
  lemma MinimizeClausesRoughlyInPlace<N(!new)>(knf: Cnf<N>)
    requires forall i :: 0 <= i < |knf| ==> !IsTautology(knf[i])
    ensures var r := MinimizeClausesRoughly(knf);
      |r| == |knf| && forall i :: 0 <= i < |knf| ==> r[i] == DedupLast(knf[i])
  {
    DropTautologiesNone(knf);
  }

  /** Every copy of a non-tautological clause survives: its collapsed form
      occurs in the result at least as often as the clause occurs in the
      input. */
  lemma MinimizeClausesRoughlyCounts<N(!new)>(knf: Cnf<N>)
    ensures forall c :: !IsTautology(c) ==>
                          multiset(knf)[c] <= multiset(MinimizeClausesRoughly(knf))[DedupLast(c)]
  {
    CollapseAllCounts(DropTautologies(knf));
  }

  lemma {:induction false} CollapseAllCounts<N(!new)>(k: Cnf<N>)
    ensures forall c :: multiset(k)[c] <= multiset(CollapseAll(k))[DedupLast(c)]
  {
    if k != [] {
      CollapseAllCounts(k[1..]);
      assert k == [k[0]] + k[1..];
      assert CollapseAll(k) == [DedupLast(k[0])] + CollapseAll(k[1..]);
      assert multiset(CollapseAll(k)) == multiset{DedupLast(k[0])} + multiset(CollapseAll(k[1..]));
      assert multiset(k) == multiset{k[0]} + multiset(k[1..]);
    }
  }

  /** A list the pass has already cleaned goes through unchanged. */
  lemma MinimizeClausesRoughlyClean<N(!new)>(knf: Cnf<N>)
    requires Clean(knf)
    ensures MinimizeClausesRoughly(knf) == knf
  {
    MinimizeClausesRoughlyInPlace(knf);
    forall i | 0 <= i < |knf| ensures DedupLast(knf[i]) == knf[i] {
      assert knf[i] in knf;
      DedupLastOfDistinct(knf[i]);
    }
  }

  /** Dropping tautologies and collapsing repeats changes no model. */
  lemma MinimizeClausesRoughlyModels<N(!new)>(truth: set<N>, knf: Cnf<N>)
    ensures Models(truth, knf) <==> Models(truth, MinimizeClausesRoughly(knf))
  {
    if Models(truth, knf) {
      MinimizeClausesRoughlySound(truth, knf);
    }
    if Models(truth, MinimizeClausesRoughly(knf)) {
      MinimizeClausesRoughlyComplete(truth, knf);
    }
  }

  lemma MinimizeClausesRoughlySound<N(!new)>(truth: set<N>, knf: Cnf<N>)
    requires Models(truth, knf)
    ensures Models(truth, MinimizeClausesRoughly(knf))
  {
    var r := MinimizeClausesRoughly(knf);
    forall i | 0 <= i < |r| ensures Satisfies(truth, r[i]) {
      var c :| c in knf && !IsTautology(c) && r[i] == DedupLast(c);
      SameLiteralsSatisfied(truth, c, r[i]);
    }
  }

  lemma MinimizeClausesRoughlyComplete<N(!new)>(truth: set<N>, knf: Cnf<N>)
    requires Models(truth, MinimizeClausesRoughly(knf))
    ensures Models(truth, knf)
  {
    var r := MinimizeClausesRoughly(knf);
    forall i | 0 <= i < |knf| ensures Satisfies(truth, knf[i]) {
      if IsTautology(knf[i]) {
        TautologySatisfied(truth, knf[i]);
      } else {
        var d := DedupLast(knf[i]);
        assert d in r;
        SameLiteralsSatisfied(truth, knf[i], d);
      }
    }
  }

  /** Unit clauses pass through unchanged: each one of the input is still in
      the output, as often as before. */
  lemma {:induction false} MinimizeClausesRoughlyKeepsUnits<N(!new)>(knf: Cnf<N>)
    ensures multiset(Units(knf)) <= multiset(Units(MinimizeClausesRoughly(knf)))
  {
    UnitsThroughPasses(knf);
  }

  lemma {:induction false} UnitsThroughPasses<N(!new)>(knf: Cnf<N>)
    ensures multiset(Units(knf)) <= multiset(Units(CollapseAll(DropTautologies(knf))))
  {
    if knf != [] {
      var c := knf[0];
      var head := if IsTautology(c) then [] else [c];
      var rest := DropTautologies(knf[1..]);
      UnitsSplitHead(knf);
      UnitsThroughPasses(knf[1..]);
      UnitsOfHead(c);
      SumBelow(Units([c]), Units(knf[1..]), Units(CollapseAll(head)), Units(CollapseAll(rest)));
    }
  }

  /** Both sides of `UnitsThroughPasses`, split at the first clause. */
  lemma UnitsSplitHead<N(!new)>(knf: Cnf<N>)
    requires knf != []
    ensures Units(knf) == Units([knf[0]]) + Units(knf[1..])
    ensures var head := if IsTautology(knf[0]) then [] else [knf[0]];
      Units(CollapseAll(DropTautologies(knf)))
        == Units(CollapseAll(head)) + Units(CollapseAll(DropTautologies(knf[1..])))
  {
    var c := knf[0];
    var head := if IsTautology(c) then [] else [c];
    var rest := DropTautologies(knf[1..]);
    UnitsAppend([c], knf[1..]);
    assert knf == [c] + knf[1..];
    DropTautologiesCons(knf);
    CollapseAllAppend(head, rest);
    UnitsAppend(CollapseAll(head), CollapseAll(rest));
  }

  /** Concatenation respects the sub-multiset order. */
  lemma SumBelow<T>(a: seq<T>, b: seq<T>, c: seq<T>, d: seq<T>)
    requires multiset(a) <= multiset(c) && multiset(b) <= multiset(d)
    ensures multiset(a + b) <= multiset(c + d)
  {
    assert multiset(a + b) == multiset(a) + multiset(b);
    assert multiset(c + d) == multiset(c) + multiset(d);
  }

  lemma DropTautologiesCons<N(!new)>(knf: Cnf<N>)
    requires knf != []
    ensures DropTautologies(knf) == (if IsTautology(knf[0]) then [] else [knf[0]]) + DropTautologies(knf[1..])
  {
  }

  /** One clause through both passes keeps its unit, if it is one. */
  lemma UnitsOfHead<N(!new)>(c: Clause<N>)
    ensures multiset(Units([c])) <= multiset(Units(CollapseAll(if IsTautology(c) then [] else [c])))
  {
    if |c| == 1 {
      forall i | 0 <= i < |c| ensures Neg(c[i]) !in c {
        assert c == [c[0]] && Neg(c[0]) != c[0];
      }
      assert NoDuplicates(c);
      DedupLastOfDistinct(c);
      assert CollapseAll([c]) == [c];
    } else {
      assert Units([c]) == [];
    }
  }

  lemma {:induction false} UnitsAppend<N(!new)>(a: Cnf<N>, b: Cnf<N>)
    ensures Units(a + b) == Units(a) + Units(b)
  {
    if a == [] {
      assert a + b == b;
    } else {
      assert (a + b)[0] == a[0] && (a + b)[1..] == a[1..] + b;
      UnitsAppend(a[1..], b);
    }
  }

  lemma {:induction false} CollapseAllAppend<N(!new)>(a: Cnf<N>, b: Cnf<N>)
    ensures CollapseAll(a + b) == CollapseAll(a) + CollapseAll(b)
  {
    if a == [] {
      assert a + b == b;
    } else {
      assert (a + b)[0] == a[0] && (a + b)[1..] == a[1..] + b;
      CollapseAllAppend(a[1..], b);
    }
  }

  // ===========================================================================
  // subsumAndRemoveDuplicatesFromKNF, lines 5-44

  /** The test of line 18: `clause in knf[knf.index(clause) + 1:]`. */
  predicate OccursAgain<N(==,!new)>(knf: Cnf<N>, c: Clause<N>) {
    c in knf && c in knf[IndexOf(knf, c) + 1..]
  }

  /** Lines 17-19: for every clause of the snapshot `todo`, remove its first
      copy from `knf` when it is repeated. */
  function DedupSweep<N(==,!new)>(knf: Cnf<N>, todo: Cnf<N>): Cnf<N>
    decreases |todo|
  {
    if todo == [] then knf
    else DedupSweep(if OccursAgain(knf, todo[0]) then RemoveFirst(knf, todo[0]) else knf, todo[1..])
  }

  lemma {:induction false} DedupSweepCons<N(!new)>(x: Clause<N>, s: Cnf<N>, todo: Cnf<N>)
    requires x !in todo
    ensures DedupSweep([x] + s, todo) == [x] + DedupSweep(s, todo)
    decreases |todo|
  {
    if todo != [] {
      var c := todo[0];
      var xs := [x] + s;
      assert xs[0] == x != c && xs[1..] == s;
      assert OccursAgain(xs, c) == OccursAgain(s, c) by {
        if c in s {
          assert c in xs;
          assert IndexOf(xs, c) == 1 + IndexOf(s, c);
          assert xs[IndexOf(xs, c) + 1..] == s[IndexOf(s, c) + 1..];
        }
      }
      assert RemoveFirst(xs, c) == [x] + RemoveFirst(s, c);
      var s' := if OccursAgain(s, c) then RemoveFirst(s, c) else s;
      DedupSweepCons(x, s', todo[1..]);
    }
  }

  /** Lines 17-19 remove, of every repeated clause, all but its LAST copy. */
  lemma {:induction false} DedupSweepKeepsLast<N(!new)>(knf: Cnf<N>)
    ensures DedupSweep(knf, AllButLast(knf)) == DedupLast(knf)
  {
    if |knf| == 1 {
      assert AllButLast(knf) == [];
      assert knf[1..] == [];
    } else if |knf| > 1 {
      var x, t := knf[0], knf[1..];
      assert knf == [x] + t;
      assert AllButLast(knf) == [x] + AllButLast(t);
      assert IndexOf(knf, x) == 0;
      DedupSweepKeepsLast(t);
      if x in t {
        assert OccursAgain(knf, x);
        assert RemoveFirst(knf, x) == t;
      } else {
        assert !OccursAgain(knf, x);
        assert x !in AllButLast(t);
        DedupSweepCons(x, t, AllButLast(t));
      }
    }
  }

  /** Lines 15-19: the duplicate-removal half of the pass. */
  function RemoveDuplicateClauses<N(==,!new)>(knf: Cnf<N>): (r: Cnf<N>)
    ensures r == DedupLast(knf)
  {
    DedupSweepKeepsLast(knf);
    DedupSweep(knf, AllButLast(knf))
  }

  /** `c` has a strictly shorter clause of `knf` contained in it. */
  ghost predicate Broader<N(!new)>(knf: Cnf<N>, c: Clause<N>) {
    exists d :: d in knf && |d| < |c| && Subsums(d, c)
  }

  /** Lines 31-37, the inner loop for one `clauseOrg`: the longer member of each
      subsuming pair is collected once. */
  function CollectPairs<N(==,!new)>(org: Clause<N>, others: Cnf<N>, tmp: Cnf<N>): (r: Cnf<N>)
    ensures forall x :: x in r <==>
      || x in tmp
      || (x in others && |x| > |org| && Subsums(org, x))
      || (x == org && exists y :: y in others && |y| < |org| && Subsums(y, org))
    decreases |others|
  {
    if others == [] then tmp
    else
      var other := others[0];
      assert forall y :: y in others <==> y == other || y in others[1..];
      var tmp' :=
        if |other| > |org| && Subsums(org, other) && other !in tmp then tmp + [other]
        else if |other| < |org| && Subsums(other, org) && org !in tmp then tmp + [org]
        else tmp;
      CollectPairs(org, others[1..], tmp')
  }

  /** What one `clauseOrg` contributes: the clauses after its first position
      that it subsumes, or itself when a shorter one there subsumes it. */
  ghost predicate Contributes<N(!new)>(knf: Cnf<N>, org: Clause<N>, x: Clause<N>)
    requires org in knf
  {
    var others := knf[IndexOf(knf, org) + 1..];
    || (x in others && |x| > |org| && Subsums(org, x))
    || (x == org && exists y :: y in others && |y| < |org| && Subsums(y, org))
  }

  /** Lines 30-37: the outer loop over the snapshot `orgs`. */
  function CollectBroader<N(==,!new)>(knf: Cnf<N>, orgs: Cnf<N>, tmp: Cnf<N>): (r: Cnf<N>)
    requires forall o :: o in orgs ==> o in knf
    ensures forall x :: x in r <==>
      x in tmp || exists k :: 0 <= k < |orgs| && Contributes(knf, orgs[k], x)
    decreases |orgs|
  {
    if orgs == [] then tmp
    else
      var org := orgs[0];
      var tmp' := CollectPairs(org, knf[IndexOf(knf, org) + 1..], tmp);
      assert forall x :: x in tmp' <==> x in tmp || Contributes(knf, org, x);
      ContributesShift(knf, orgs);
      CollectBroader(knf, orgs[1..], tmp')
  }

  lemma ContributesShift<N(!new)>(knf: Cnf<N>, orgs: Cnf<N>)
    requires orgs != [] && forall o :: o in orgs ==> o in knf
    ensures forall x :: (exists k :: 0 <= k < |orgs| && Contributes(knf, orgs[k], x)) <==>
      (Contributes(knf, orgs[0], x) || exists k :: 0 <= k < |orgs[1..]| && Contributes(knf, orgs[1..][k], x))
  {
    forall x ensures (exists k :: 0 <= k < |orgs| && Contributes(knf, orgs[k], x)) <==>
      (Contributes(knf, orgs[0], x) || exists k :: 0 <= k < |orgs[1..]| && Contributes(knf, orgs[1..][k], x))
    {
      if exists k :: 0 <= k < |orgs| && Contributes(knf, orgs[k], x) {
        var k :| 0 <= k < |orgs| && Contributes(knf, orgs[k], x);
        if k > 0 {
          assert orgs[1..][k - 1] == orgs[k];
        }
      }
      if exists k :: 0 <= k < |orgs[1..]| && Contributes(knf, orgs[1..][k], x) {
        var k :| 0 <= k < |orgs[1..]| && Contributes(knf, orgs[1..][k], x);
        assert orgs[k + 1] == orgs[1..][k];
      }
    }
  }

  /** In a list without repeats, `index` finds the position itself. */
  lemma IndexOfDistinct<T(!new)>(s: seq<T>, p: nat)
    requires NoDuplicates(s) && p < |s|
    ensures IndexOf(s, s[p]) == p
  {
  }

  lemma CollectedIsBroader<N(!new)>(knf: Cnf<N>, k: nat, x: Clause<N>)
    requires NoDuplicates(knf) && k < |knf|
    requires Contributes(knf, knf[k], x)
    ensures x in knf && Broader(knf, x)
  {
    var o := knf[k];
    IndexOfDistinct(knf, k);
    var others := knf[k + 1..];
    if x in others && |x| > |o| && Subsums(o, x) {
      assert o in knf;
    } else {
      var y :| y in others && |y| < |o| && Subsums(y, o);
      assert y in knf;
    }
  }

  lemma BroaderIsCollected<N(!new)>(knf: Cnf<N>, x: Clause<N>)
    requires NoDuplicates(knf) && x in knf && Broader(knf, x)
    ensures exists k :: 0 <= k < |knf| - 1 && Contributes(knf, knf[k], x)
  {
    var d :| d in knf && |d| < |x| && Subsums(d, x);
    var p :| 0 <= p < |knf| && knf[p] == d;
    var q :| 0 <= q < |knf| && knf[q] == x;
    if p < q {
      IndexOfDistinct(knf, p);
      assert x == knf[p + 1..][q - p - 1];
      assert Contributes(knf, knf[p], x);
    } else {
      IndexOfDistinct(knf, q);
      assert d == knf[q + 1..][p - q - 1];
      assert Contributes(knf, knf[q], x);
    }
  }

  lemma CollectedBroader<N(!new)>(knf: Cnf<N>, x: Clause<N>)
    requires NoDuplicates(knf)
    requires forall o :: o in AllButLast(knf) ==> o in knf
    requires x in CollectBroader(knf, AllButLast(knf), [])
    ensures x in knf && Broader(knf, x)
  {
    var orgs := AllButLast(knf);
    var k :| 0 <= k < |orgs| && Contributes(knf, orgs[k], x);
    assert orgs[k] == knf[k];
    CollectedIsBroader(knf, k, x);
  }

  lemma BroaderCollected<N(!new)>(knf: Cnf<N>, x: Clause<N>)
    requires NoDuplicates(knf)
    requires forall o :: o in AllButLast(knf) ==> o in knf
    requires x in knf && Broader(knf, x)
    ensures x in CollectBroader(knf, AllButLast(knf), [])
  {
    var orgs := AllButLast(knf);
    BroaderIsCollected(knf, x);
    var k :| 0 <= k < |knf| - 1 && Contributes(knf, knf[k], x);
    assert orgs[k] == knf[k];
  }

  /** On a list without repeats, lines 29-37 collect exactly the clauses that
      contain a strictly shorter clause of the list. */
  lemma CollectBroaderExact<N(!new)>(knf: Cnf<N>)
    requires NoDuplicates(knf)
    requires forall o :: o in AllButLast(knf) ==> o in knf
    ensures forall x :: x in CollectBroader(knf, AllButLast(knf), []) <==> x in knf && Broader(knf, x)
  {
    forall x ensures x in CollectBroader(knf, AllButLast(knf), []) <==> x in knf && Broader(knf, x) {
      if x in CollectBroader(knf, AllButLast(knf), []) {
        CollectedBroader(knf, x);
      }
      if x in knf && Broader(knf, x) {
        BroaderCollected(knf, x);
      }
    }
  }

  /** The snapshot `s[:-1]` only holds members of `s`. */
  lemma AllButLastMembers<T(!new)>(s: seq<T>)
    ensures forall o :: o in AllButLast(s) ==> o in s
  {
    forall o | o in AllButLast(s) ensures o in s {
      var k :| 0 <= k < |AllButLast(s)| && AllButLast(s)[k] == o;
      assert s[k] == o;
    }
  }

  /** `subsumAndRemoveDuplicatesFromKNF` (lines 5-44): repeated clauses keep
      their last copy, then every clause containing a strictly shorter clause
      of the list is removed. */
  function SubsumAndRemoveDuplicates<N(==,!new)>(knf: Cnf<N>): Cnf<N> {
    var d := RemoveDuplicateClauses(knf);
    AllButLastMembers(d);
    RemoveAllOf(d, CollectBroader(d, AllButLast(d), []))
  }

  /** The pass keeps exactly the input clauses that contain no strictly
      shorter input clause, once each; nothing is added. */
  lemma SubsumAndRemoveDuplicatesSpec<N(!new)>(knf: Cnf<N>)
    ensures var r := SubsumAndRemoveDuplicates(knf);
      NoDuplicates(r) && |r| <= |knf| &&
      forall c :: c in r <==> c in knf && !Broader(knf, c)
  {
    var d := RemoveDuplicateClauses(knf);
    AllButLastMembers(d);
    var tmp := CollectBroader(d, AllButLast(d), []);
    CollectBroaderExact(d);
    assert forall c :: Broader(d, c) <==> Broader(knf, c) by {
      forall c ensures Broader(d, c) <==> Broader(knf, c) {
        if Broader(knf, c) {
          var e :| e in knf && |e| < |c| && Subsums(e, c);
          assert e in d;
        }
      }
    }
    RemoveAllOfNoDuplicates(d, tmp);
  }

  /** The result in order: the list with each repeated clause kept at its
      last copy, less the clauses listed in `drop`, which must be exactly
      those containing a strictly shorter input clause. */
  lemma SubsumOrder<N(!new)>(knf: Cnf<N>, drop: Cnf<N>)
    requires forall c :: c in knf ==> (c in drop <==> Broader(knf, c))
    ensures SubsumAndRemoveDuplicates(knf) == RemoveAllOf(DedupLast(knf), drop)
  {
    var d := RemoveDuplicateClauses(knf);
    AllButLastMembers(d);
    var tmp := CollectBroader(d, AllButLast(d), []);
    CollectBroaderExact(d);
    assert forall c :: Broader(d, c) <==> Broader(knf, c) by {
      forall c ensures Broader(d, c) <==> Broader(knf, c) {
        if Broader(knf, c) {
          var e :| e in knf && |e| < |c| && Subsums(e, c);
          assert e in d;
        }
      }
    }
    RemoveAllOfSameListed(d, tmp, drop);
  }

  /** When no clause contains a strictly shorter one, the pass only removes
      repeated clauses, keeping each one's last copy in place. */
  lemma SubsumNoBroader<N(!new)>(knf: Cnf<N>)
    requires forall c :: c in knf ==> !Broader(knf, c)
    ensures SubsumAndRemoveDuplicates(knf) == DedupLast(knf)
  {
    var d := RemoveDuplicateClauses(knf);
    AllButLastMembers(d);
    var tmp := CollectBroader(d, AllButLast(d), []);
    CollectBroaderExact(d);
    RemoveAllOfNothing(d, tmp);
  }

  /** No clause of the result is contained in a strictly longer clause of the
      result. */
  lemma SubsumptionFree<N(!new)>(knf: Cnf<N>)
    ensures var r := SubsumAndRemoveDuplicates(knf);
      forall c, d :: c in r && d in r && |c| < |d| ==> !Subsums(c, d)
  {
    SubsumAndRemoveDuplicatesSpec(knf);
  }

  /** Running the pass on its own output changes nothing. */
  lemma SubsumIdempotent<N(!new)>(knf: Cnf<N>)
    ensures SubsumAndRemoveDuplicates(SubsumAndRemoveDuplicates(knf)) == SubsumAndRemoveDuplicates(knf)
  {
    var r := SubsumAndRemoveDuplicates(knf);
    SubsumAndRemoveDuplicatesSpec(knf);
    var d := RemoveDuplicateClauses(r);
    DedupLastOfDistinct(r);
    assert d == r;
    AllButLastMembers(r);
    var tmp := CollectBroader(r, AllButLast(r), []);
    CollectBroaderExact(r);
    forall c | c in r ensures c !in tmp {
    }
    RemoveAllOfNothing(r, tmp);
  }

  /** Every clause of the input contains some clause of the result. */
  lemma {:induction false} CoveredByResult<N(!new)>(knf: Cnf<N>, c: Clause<N>)
    requires c in knf
    ensures exists e :: e in SubsumAndRemoveDuplicates(knf) && Subsums(e, c)
    decreases |c|
  {
    var r := SubsumAndRemoveDuplicates(knf);
    SubsumAndRemoveDuplicatesSpec(knf);
    if c in r {
      assert Subsums(c, c);
    } else {
      var d :| d in knf && |d| < |c| && Subsums(d, c);
      CoveredByResult(knf, d);
      var e :| e in r && Subsums(e, d);
      SubsumsTransitive(e, d, c);
    }
  }

  /** The pass changes no model: each dropped clause is implied by a kept one. */
  lemma SubsumModels<N(!new)>(truth: set<N>, knf: Cnf<N>)
    ensures Models(truth, knf) <==> Models(truth, SubsumAndRemoveDuplicates(knf))
  {
    var r := SubsumAndRemoveDuplicates(knf);
    SubsumAndRemoveDuplicatesSpec(knf);
    if Models(truth, r) {
      forall i | 0 <= i < |knf| ensures Satisfies(truth, knf[i]) {
        CoveredByResult(knf, knf[i]);
        var e :| e in r && Subsums(e, knf[i]);
        SubsumedSatisfied(truth, e, knf[i]);
      }
    }
    if Models(truth, knf) {
      forall i | 0 <= i < |r| ensures Satisfies(truth, r[i]) {
        assert r[i] in knf;
      }
    }
  }
}
