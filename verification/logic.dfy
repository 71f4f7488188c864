/** Literals, clauses and clause sets (KNF / CNF) as the engine represents
    them: a literal is a `(polarity, name)` pair, a clause is a list of
    literals read as their disjunction, and a CNF is a list of clauses read as
    their conjunction. The name type is left generic. */
module Logic {
  import opened Seqs

  datatype Literal<N> = Literal(positive: bool, name: N)

  type Clause<N> = seq<Literal<N>>
  type Cnf<N> = seq<Clause<N>>

  /** `(not l[0], l[1])`: same name, opposite polarity. */
  function Neg<N>(l: Literal<N>): (r: Literal<N>)
    ensures r.name == l.name && r.positive == !l.positive
    ensures r != l
  {
    Literal(!l.positive, l.name)
  }

  /** A clause holding some literal together with its negation. */
  predicate IsTautology<N(==,!new)>(c: Clause<N>) {
    exists i :: 0 <= i < |c| && Neg(c[i]) in c
  }

  /** Every literal of `small` occurs in `big` (the `subsums` helper). */
  predicate Subsums<N(==,!new)>(small: Clause<N>, big: Clause<N>) {
    forall i :: 0 <= i < |small| ==> small[i] in big
  }

  lemma SubsumsTransitive<N(!new)>(a: Clause<N>, b: Clause<N>, c: Clause<N>)
    requires Subsums(a, b) && Subsums(b, c)
    ensures Subsums(a, c)
  {
  }

  /** A clause whose literals all come from a non-tautology is no tautology. */
  lemma SubsumsNoTautology<N(!new)>(d: Clause<N>, c: Clause<N>)
    requires Subsums(d, c) && !IsTautology(c)
    ensures !IsTautology(d)
  {
    forall i | 0 <= i < |d| ensures Neg(d[i]) !in d {
      var j :| 0 <= j < |c| && c[j] == d[i];
    }
  }

  /** Total number of literal occurrences in a CNF. */
  function Size<N>(cnf: Cnf<N>): nat {
    if cnf == [] then 0 else |cnf[0]| + Size(cnf[1..])
  }

  /** The clauses of length one, in order. */
  function Units<N(==,!new)>(cnf: Cnf<N>): (r: Cnf<N>)
    ensures forall c :: c in r <==> |c| == 1 && c in cnf
  {
    if cnf == [] then []
    else
      assert forall c :: c in cnf <==> c == cnf[0] || c in cnf[1..];
      (if |cnf[0]| == 1 then [cnf[0]] else []) + Units(cnf[1..])
  }

  /** No clause repeats a literal or holds one together with its negation:
      the shape `minimizeClausesRoughly` leaves behind. */
  ghost predicate Clean<N(!new)>(cnf: Cnf<N>) {
    forall c :: c in cnf ==> NoDuplicates(c) && !IsTautology(c)
  }

  // ---------------------------------------------------------------------------
  // Meaning of a clause set. An assignment is the set of names that are true.

  predicate Holds<N(==,!new)>(truth: set<N>, l: Literal<N>) {
    (l.name in truth) == l.positive
  }

  predicate Satisfies<N(==,!new)>(truth: set<N>, c: Clause<N>) {
    exists i :: 0 <= i < |c| && Holds(truth, c[i])
  }

  predicate Models<N(==,!new)>(truth: set<N>, cnf: Cnf<N>) {
    forall i :: 0 <= i < |cnf| ==> Satisfies(truth, cnf[i])
  }

  lemma NegFlips<N(!new)>(truth: set<N>, l: Literal<N>)
    ensures Holds(truth, Neg(l)) == !Holds(truth, l)
  {
  }

  /** A clause is satisfied whenever a clause whose literals it contains is. */
  lemma SubsumedSatisfied<N(!new)>(truth: set<N>, small: Clause<N>, big: Clause<N>)
    requires Subsums(small, big) && Satisfies(truth, small)
    ensures Satisfies(truth, big)
  {
    var i :| 0 <= i < |small| && Holds(truth, small[i]);
    var j :| 0 <= j < |big| && big[j] == small[i];
  }

  /** Every assignment satisfies a tautology. */
  lemma TautologySatisfied<N(!new)>(truth: set<N>, c: Clause<N>)
    requires IsTautology(c)
    ensures Satisfies(truth, c)
  {
    var i :| 0 <= i < |c| && Neg(c[i]) in c;
    var j :| 0 <= j < |c| && c[j] == Neg(c[i]);
    NegFlips(truth, c[i]);
  }

  /** Two clause lists holding the same clauses have the same models. */
  lemma SameElementsSameModels<N(!new)>(truth: set<N>, a: Cnf<N>, b: Cnf<N>)
    requires SameElements(a, b)
    ensures Models(truth, a) <==> Models(truth, b)
  {
    if Models(truth, a) {
      forall j | 0 <= j < |b| ensures Satisfies(truth, b[j]) {
        assert b[j] in a;
      }
    }
    if Models(truth, b) {
      forall j | 0 <= j < |a| ensures Satisfies(truth, a[j]) {
        assert a[j] in b;
      }
    }
  }

  /** `Models` in terms of membership. */
  lemma ModelsMember<N(!new)>(truth: set<N>, cnf: Cnf<N>, c: Clause<N>)
    requires Models(truth, cnf) && c in cnf
    ensures Satisfies(truth, c)
  {
  }

  /** A concatenation is modelled exactly when both parts are. */
  lemma {:induction false} ModelsAppend<N(!new)>(truth: set<N>, a: Cnf<N>, b: Cnf<N>)
    ensures Models(truth, a + b) <==> Models(truth, a) && Models(truth, b)
  {
    var ab := a + b;
    if Models(truth, a) && Models(truth, b) {
      forall i | 0 <= i < |ab| ensures Satisfies(truth, ab[i]) {
        if i < |a| {
          assert ab[i] == a[i];
        } else {
          assert ab[i] == b[i - |a|];
        }
      }
    }
    if Models(truth, ab) {
      forall i | 0 <= i < |a| ensures Satisfies(truth, a[i]) {
        assert ab[i] == a[i];
      }
      forall i | 0 <= i < |b| ensures Satisfies(truth, b[i]) {
        assert ab[|a| + i] == b[i];
      }
    }
  }
}
