/** `__checkForPossibleResolution` and `minimzeKNF` (KnfMethods.py, lines
    111-196): resolution between clauses of equal length that differ in exactly
    one complementary literal, repeated as often as the longest clause is long,
    with the clean-up passes and unit resolution after every round. */
module KnfMinimize {
  import opened Seqs
  import opened Logic
  import opened KnfSimplify
  import opened KnfUnitResolution

  // ===========================================================================
  // __checkForPossibleResolution, lines 111-138

  /** Lines 125-137, from literal `rest[0]` of `clauseOrg` on. `found` holds
      `literalTmp` while `resPossible` is true. */
  function CheckFrom<N(==,!new)>(rest: Clause<N>, check: Clause<N>, found: Option<Literal<N>>): Option<Literal<N>>
    decreases |rest|
  {
    if rest == [] then found
    else
      var l := rest[0];
      if l in check then CheckFrom(rest[1..], check, found)
      else if Neg(l) in check && found.None? then CheckFrom(rest[1..], check, Some(l))
      else None
  }

  /** `(resPossible, literalTmp)` as an option: the literal of `org` whose
      negation is in `check`, when it is the only literal of `org` missing from
      `check`. */
  function CheckForPossibleResolution<N(==,!new)>(org: Clause<N>, check: Clause<N>): (r: Option<Literal<N>>)
    ensures r.Some? ==> r.value in org && r.value !in check && Neg(r.value) in check
  {
    CheckSpecFrom(org, check, None);
    CheckFrom(org, check, None)
  }

  /** What the scan decides, read off the literals of `org` missing from
      `check`: there must be exactly one such position, and its negation must
      be in `check`. */
  function CheckSpec<N(==,!new)>(org: Clause<N>, check: Clause<N>): Option<Literal<N>> {
    var missing := RemoveAllOf(org, check);
    if |missing| == 1 && Neg(missing[0]) in check then Some(missing[0]) else None
  }

  lemma {:induction false} CheckSpecFrom<N(!new)>(rest: Clause<N>, check: Clause<N>, found: Option<Literal<N>>)
    ensures CheckFrom(rest, check, found) ==
      match found
      case None => CheckSpec(rest, check)
      case Some(x) => if RemoveAllOf(rest, check) == [] then found else None
    ensures found.None? && CheckFrom(rest, check, found).Some? ==>
      CheckFrom(rest, check, found).value in rest
    decreases |rest|
  {
    if rest != [] {
      var l := rest[0];
      CheckSpecFrom(rest[1..], check, found);
      assert RemoveAllOf(rest, check) == (if l in check then [] else [l]) + RemoveAllOf(rest[1..], check);
      if l !in check && Neg(l) in check && found.None? {
        CheckSpecFrom(rest[1..], check, Some(l));
      }
    }
  }

  /** The scan returns a literal exactly when one position of `org` holds a
      literal missing from `check` and its negation is in `check`. */
  lemma CheckForPossibleResolutionSpec<N(!new)>(org: Clause<N>, check: Clause<N>)
    ensures CheckForPossibleResolution(org, check) == CheckSpec(org, check)
  {
    CheckSpecFrom(org, check, None);
  }

  // ===========================================================================
  // The resolution step of minimzeKNF, lines 168-183

  /** Lines 173-183 for one pair: clauses of equal length that the check
      accepts give `clauseOrg` without the resolved literal. */
  function Resolve<N(==,!new)>(org: Clause<N>, check: Clause<N>): (r: Option<Clause<N>>)
    ensures r.Some? ==> |r.value| + 1 == |org| && Subsums(r.value, org)
  {
    if |check| == |org| then
      match CheckForPossibleResolution(org, check)
      case Some(l) =>
        RemoveFirstMembers(org, l);
        Some(RemoveFirst(org, l))
      case None => None
    else None
  }

  /** Lines 172-183: the inner loop for one `clauseOrg`. */
  function ResolveAgainst<N(==,!new)>(org: Clause<N>, others: Cnf<N>): Cnf<N>
    decreases |others|
  {
    if others == [] then []
    else
      var rest := ResolveAgainst(org, others[1..]);
      match Resolve(org, others[0])
      case Some(x) => [x] + rest
      case None => rest
  }

  /** `org` resolves with one of `others` into `x`. */
  ghost predicate ResolvesWith<N(!new)>(org: Clause<N>, others: Cnf<N>, x: Clause<N>)
    decreases |others|
  {
    others != [] && (Resolve(org, others[0]) == Some(x) || ResolvesWith(org, others[1..], x))
  }

  lemma {:induction false} ResolveAgainstCollects<N(!new)>(org: Clause<N>, others: Cnf<N>, x: Clause<N>)
    ensures x in ResolveAgainst(org, others) <==> ResolvesWith(org, others, x)
    decreases |others|
  {
    if others != [] {
      ResolveAgainstCollects(org, others[1..], x);
    }
  }

  lemma {:induction false} ResolvesWithAt<N(!new)>(org: Clause<N>, others: Cnf<N>, x: Clause<N>)
    ensures ResolvesWith(org, others, x) <==> exists j :: 0 <= j < |others| && Resolve(org, others[j]) == Some(x)
    decreases |others|
  {
    if others != [] {
      ResolvesWithAt(org, others[1..], x);
      if exists j :: 0 <= j < |others| && Resolve(org, others[j]) == Some(x) {
        var j :| 0 <= j < |others| && Resolve(org, others[j]) == Some(x);
        if j > 0 {
          assert others[1..][j - 1] == others[j];
        }
      }
      if ResolvesWith(org, others[1..], x) {
        var j :| 0 <= j < |others[1..]| && Resolve(org, others[1..][j]) == Some(x);
        assert others[j + 1] == others[1..][j];
      }
    }
  }

  /** One clause's inner loop collects exactly its resolvents with the clauses
      after it. */
  lemma ResolveAgainstMembers<N(!new)>(org: Clause<N>, others: Cnf<N>, x: Clause<N>)
    ensures x in ResolveAgainst(org, others) <==> exists j :: 0 <= j < |others| && Resolve(org, others[j]) == Some(x)
  {
    ResolveAgainstCollects(org, others, x);
    ResolvesWithAt(org, others, x);
  }

  /** Lines 171-183: the outer loop over the snapshot `orgs`. */
  function ResolventsFrom<N(==,!new)>(knf: Cnf<N>, orgs: Cnf<N>): (r: Cnf<N>)
    requires forall o :: o in orgs ==> o in knf
    decreases |orgs|
  {
    if orgs == [] then []
    else ResolveAgainst(orgs[0], knf[IndexOf(knf, orgs[0]) + 1..]) + ResolventsFrom(knf, orgs[1..])
  }

  /** `tempRes` of one round. */
  function Resolvents<N(==,!new)>(knf: Cnf<N>): Cnf<N> {
    AllButLastMembers(knf);
    ResolventsFrom(knf, AllButLast(knf))
  }

  /** `x` comes from some pair of positions `i < j` of the list. */
  ghost predicate ResolventOf<N(!new)>(knf: Cnf<N>, x: Clause<N>) {
    exists i, j :: 0 <= i < j < |knf| && Resolve(knf[i], knf[j]) == Some(x)
  }

  /** Some clause of `orgs` resolves into `x` with a clause after its first
      position in `knf`. */
  ghost predicate PairsFrom<N(!new)>(knf: Cnf<N>, orgs: Cnf<N>, x: Clause<N>)
    decreases |orgs|
  {
    orgs != [] && orgs[0] in knf
    && (ResolvesWith(orgs[0], knf[IndexOf(knf, orgs[0]) + 1..], x) || PairsFrom(knf, orgs[1..], x))
  }

  lemma {:induction false} ResolventsFromMembers<N(!new)>(knf: Cnf<N>, orgs: Cnf<N>, x: Clause<N>)
    requires forall o :: o in orgs ==> o in knf
    ensures x in ResolventsFrom(knf, orgs) <==> PairsFrom(knf, orgs, x)
    decreases |orgs|
  {
    if orgs != [] {
      assert orgs[0] in orgs;
      ResolventsFromMembers(knf, orgs[1..], x);
      ResolveAgainstCollects(orgs[0], knf[IndexOf(knf, orgs[0]) + 1..], x);
    }
  }

  /** The list's own clauses from position `a` on (all but the last). */
  lemma SuffixOrgs<N>(knf: Cnf<N>, a: int)
    requires 0 <= a < |knf| - 1
    ensures knf[a..|knf| - 1][0] == knf[a]
    ensures knf[a..|knf| - 1][1..] == knf[a + 1..|knf| - 1]
  {
  }

  lemma {:induction false} PairsSound<N(!new)>(knf: Cnf<N>, a: int, x: Clause<N>)
    requires 0 <= a < |knf|
    requires PairsFrom(knf, knf[a..|knf| - 1], x)
    ensures ResolventOf(knf, x)
    decreases |knf| - a
  {
    var orgs := knf[a..|knf| - 1];
    SuffixOrgs(knf, a);
    var i := IndexOf(knf, knf[a]);
    var others := knf[i + 1..];
    if ResolvesWith(knf[a], others, x) {
      ResolvesWithAt(knf[a], others, x);
      var j :| 0 <= j < |others| && Resolve(knf[a], others[j]) == Some(x);
      assert others[j] == knf[i + 1 + j];
      assert Resolve(knf[i], knf[i + 1 + j]) == Some(x);
    } else {
      PairsSound(knf, a + 1, x);
    }
  }

  lemma {:induction false} PairsComplete<N(!new)>(knf: Cnf<N>, a: int, i: int, j: int, x: Clause<N>)
    requires 0 <= a <= i < j < |knf| && Resolve(knf[i], knf[j]) == Some(x)
    ensures PairsFrom(knf, knf[a..|knf| - 1], x)
    decreases i - a
  {
    SuffixOrgs(knf, a);
    if a == i {
      var i' := IndexOf(knf, knf[i]);
      var others := knf[i' + 1..];
      assert others[j - i' - 1] == knf[j];
      ResolvesWithAt(knf[i], others, x);
    } else {
      PairsComplete(knf, a + 1, i, j, x);
    }
  }

  /** One round produces exactly the resolvents of the pairs `i < j` of the
      list; a repeated clause contributes no pair that an earlier copy does
      not already cover. */
  lemma ResolventsExact<N(!new)>(knf: Cnf<N>, x: Clause<N>)
    ensures x in Resolvents(knf) <==> ResolventOf(knf, x)
  {
    AllButLastMembers(knf);
    ResolventsFromMembers(knf, AllButLast(knf), x);
    if knf != [] {
      assert AllButLast(knf) == knf[0..|knf| - 1];
      if PairsFrom(knf, AllButLast(knf), x) {
        PairsSound(knf, 0, x);
      }
      if ResolventOf(knf, x) {
        var i, j :| 0 <= i < j < |knf| && Resolve(knf[i], knf[j]) == Some(x);
        PairsComplete(knf, 0, i, j, x);
      }
    }
  }

  // ---------------------------------------------------------------------------
  // Soundness of one resolvent

  /** For a clean `org` missing only `l` from `check`, what remains of `org`
      without `l` lies in `check` and avoids `not l`. */
  lemma RestInCheck<N(!new)>(org: Clause<N>, check: Clause<N>, l: Literal<N>)
    requires NoDuplicates(org) && !IsTautology(org)
    requires l in org && RemoveAllOf(org, check) == [l]
    ensures forall y :: y in RemoveFirst(org, l) ==> y in check && y != Neg(l)
  {
    var x := RemoveFirst(org, l);
    DistinctCount(org, l);
    forall y | y in x ensures y in check && y != Neg(l) {
      assert multiset(x)[y] > 0;
      assert y in org && y != l;
    }
  }

  /** For a clean `org`, an accepted pair reads `org = rest + [l]` and
      `check = rest + [not l]` up to order, so every literal of `check` other
      than `not l` is in the resolvent. */
  lemma ResolvePartner<N(!new)>(org: Clause<N>, check: Clause<N>, l: Literal<N>)
    requires NoDuplicates(org) && !IsTautology(org)
    requires |org| == |check| && CheckForPossibleResolution(org, check) == Some(l)
    ensures forall y :: y in check ==> y == Neg(l) || y in RemoveFirst(org, l)
  {
    CheckForPossibleResolutionSpec(org, check);
    assert RemoveAllOf(org, check) == [l];
    var x := RemoveFirst(org, l);
    RemoveFirstNoDuplicates(org, l);
    RestInCheck(org, check, l);
    AppendFreshNoDuplicates(x, Neg(l));
    Pigeonhole(x + [Neg(l)], check);
  }

  /** Every assignment satisfying both clauses of an accepted pair satisfies
      their resolvent, provided the first clause is clean. */
  lemma ResolventSound<N(!new)>(truth: set<N>, org: Clause<N>, check: Clause<N>, x: Clause<N>)
    requires NoDuplicates(org) && !IsTautology(org)
    requires Resolve(org, check) == Some(x)
    requires Satisfies(truth, org) && Satisfies(truth, check)
    ensures Satisfies(truth, x)
  {
    var l := CheckForPossibleResolution(org, check).value;
    ResolvePartner(org, check, l);
    NegFlips(truth, l);
    if Holds(truth, l) {
      var i :| 0 <= i < |check| && Holds(truth, check[i]);
      assert check[i] in x;
    } else {
      var i :| 0 <= i < |org| && Holds(truth, org[i]);
      assert org[i] != l;
      assert multiset(x)[org[i]] == multiset(org)[org[i]] > 0;
      assert org[i] in x;
    }
  }

  // ===========================================================================
  // minimzeKNF, lines 140-196

  /** Lines 159-162: the length of the longest clause, 0 for an empty list. */
  function MaxClauseLength<N>(knf: Cnf<N>): (m: nat)
    ensures forall i :: 0 <= i < |knf| ==> |knf[i]| <= m
    ensures knf != [] ==> exists i :: 0 <= i < |knf| && |knf[i]| == m
    ensures knf == [] ==> m == 0
  {
    if knf == [] then 0
    else
      var rest := MaxClauseLength(knf[1..]);
      assert forall i :: 1 <= i < |knf| ==> knf[i] == knf[1..][i - 1];
      if |knf[0]| > rest then |knf[0]| else rest
  }

  /** Lines 168-194: one round. The resolvents come first, then the list; the
      clean-up pass and unit resolution follow. */
  function ResolutionRound<N(==,!new)>(knf: Cnf<N>): (r: Cnf<N>)
  {
    MakeUnitResolutionWithinKnf(SubsumAndRemoveDuplicates(Resolvents(knf) + knf))
  }

  /** `step` applied `n` times. */
  function Iterate<N>(step: Cnf<N> -> Cnf<N>, knf: Cnf<N>, n: nat): Cnf<N>
    decreases n
  {
    if n == 0 then knf else Iterate(step, step(knf), n - 1)
  }

  /** The last of `n` steps is a step. */
  lemma {:induction false} IterateLast<N>(step: Cnf<N> -> Cnf<N>, knf: Cnf<N>, n: nat)
    requires n > 0
    ensures Iterate(step, knf, n) == step(Iterate(step, knf, n - 1))
    decreases n
  {
    if n > 1 {
      IterateLast(step, step(knf), n - 1);
    }
  }

  /** Lines 164-194: `n` rounds, with no early stop. */
  function ResolutionRounds<N(==,!new)>(knf: Cnf<N>, n: nat): Cnf<N> {
    Iterate(ResolutionRound, knf, n)
  }

  /** After at least one round no unit clause has work left. */
  lemma ResolutionRoundsReduced<N(!new)>(knf: Cnf<N>, n: nat)
    requires n > 0
    ensures Reduced(ResolutionRounds(knf, n))
  {
    IterateLast(ResolutionRound, knf, n);
    var last := Iterate(ResolutionRound, knf, n - 1);
    MakeUnitResolutionWithinKnfSpec(SubsumAndRemoveDuplicates(Resolvents(last) + last));
  }

  /** `minimzeKNF` (lines 140-196). The result is reduced: no unit clause has
      work left on a longer clause. */
  function MinimizeKnf<N(==,!new)>(knf: Cnf<N>): Cnf<N> {
    var k := MakeUnitResolutionWithinKnf(SubsumAndRemoveDuplicates(MinimizeClausesRoughly(knf)));
    ResolutionRounds(k, MaxClauseLength(k))
  }

  // ---------------------------------------------------------------------------
  // minimzeKNF keeps the models

  /** On a clean list, adding the round's resolvents adds no constraint. */
  lemma ResolventsImplied<N(!new)>(truth: set<N>, knf: Cnf<N>)
    requires Clean(knf) && Models(truth, knf)
    ensures Models(truth, Resolvents(knf))
  {
    var res := Resolvents(knf);
    forall p | 0 <= p < |res| ensures Satisfies(truth, res[p]) {
      var x := res[p];
      ResolventsExact(knf, x);
      var i, j :| 0 <= i < j < |knf| && Resolve(knf[i], knf[j]) == Some(x);
      assert knf[i] in knf;
      ResolventSound(truth, knf[i], knf[j], x);
    }
  }

  /** A round always returns a clean list. */
  lemma ResolutionRoundClean<N(!new)>(knf: Cnf<N>)
    ensures Clean(ResolutionRound(knf))
  {
    MakeUnitResolutionWithinKnfParts(SubsumAndRemoveDuplicates(Resolvents(knf) + knf));
  }

  /** On a clean list, one round keeps exactly the models. */
  lemma ResolutionRoundModels<N(!new)>(truth: set<N>, knf: Cnf<N>)
    requires Clean(knf)
    ensures Models(truth, knf) <==> Models(truth, ResolutionRound(knf))
  {
    var combined := Resolvents(knf) + knf;
    ModelsAppend(truth, Resolvents(knf), knf);
    if Models(truth, knf) {
      ResolventsImplied(truth, knf);
    }
    SubsumModels(truth, combined);
    MakeUnitResolutionWithinKnfModels(truth, SubsumAndRemoveDuplicates(combined));
  }

  /** Steps that keep lists clean and keep their models do so however often
      they are applied. */
  /** `step` keeps lists clean and keeps their models under `truth`. */
  ghost predicate KeepsModels<N(!new)>(truth: set<N>, step: Cnf<N> -> Cnf<N>) {
    forall k :: Clean(k) ==> Clean(step(k)) && (Models(truth, k) <==> Models(truth, step(k)))
  }

  lemma {:induction false} IterateModels<N(!new)>(truth: set<N>, step: Cnf<N> -> Cnf<N>, knf: Cnf<N>, n: nat)
    requires Clean(knf) && KeepsModels(truth, step)
    ensures Models(truth, knf) <==> Models(truth, Iterate(step, knf, n))
    decreases n
  {
    if n > 0 {
      IterateModels(truth, step, step(knf), n - 1);
    }
  }

  /** On clean lists, a round keeps exactly the models. */
  lemma RoundKeepsModels<N(!new)>(truth: set<N>)
    ensures KeepsModels(truth, ResolutionRound)
  {
    var step: Cnf<N> -> Cnf<N> := ResolutionRound;
    forall k: Cnf<N> | Clean(k) ensures Clean(step(k)) && (Models(truth, k) <==> Models(truth, step(k))) {
      ResolutionRoundClean(k);
      ResolutionRoundModels(truth, k);
    }
  }

  lemma ResolutionRoundsModels<N(!new)>(truth: set<N>, knf: Cnf<N>, n: nat)
    requires Clean(knf)
    ensures Models(truth, knf) <==> Models(truth, ResolutionRounds(knf, n))
  {
    RoundKeepsModels(truth);
    IterateModels(truth, ResolutionRound, knf, n);
  }

  /** `minimzeKNF` returns a clean list with exactly the models of its input. */
  lemma MinimizeKnfModels<N(!new)>(truth: set<N>, knf: Cnf<N>)
    ensures Models(truth, knf) <==> Models(truth, MinimizeKnf(knf))
    ensures Clean(MinimizeKnf(knf))
    ensures Reduced(MinimizeKnf(knf))
  {
    var m := MinimizeClausesRoughly(knf);
    var s := SubsumAndRemoveDuplicates(m);
    var k := MakeUnitResolutionWithinKnf(s);
    MinimizeClausesRoughlyModels(truth, knf);
    SubsumModels(truth, m);
    MakeUnitResolutionWithinKnfModels(truth, s);
    MakeUnitResolutionWithinKnfParts(s);
    ResolutionRoundsModels(truth, k, MaxClauseLength(k));
    if MaxClauseLength(k) > 0 {
      ResolutionRoundsClean(k, MaxClauseLength(k));
      ResolutionRoundsReduced(k, MaxClauseLength(k));
    }
  }

  lemma ResolutionRoundsClean<N(!new)>(knf: Cnf<N>, n: nat)
    requires n > 0
    ensures Clean(ResolutionRounds(knf, n))
  {
    IterateLast(ResolutionRound, knf, n);
    ResolutionRoundClean(Iterate(ResolutionRound, knf, n - 1));
  }

  /** `minimzeKNF([]) == []`. */
  lemma MinimizeKnfEmpty<N(!new)>()
    ensures MinimizeKnf<N>([]) == []
  {
    var e: Cnf<N> := [];
    assert MinimizeClausesRoughly(e) == [];
    assert SubsumAndRemoveDuplicates(e) == [];
    NoUnitsNoChange(e);
    assert MakeUnitResolutionWithinKnf(e) == [];
  }

}
