/** The meaning of a translated specification, over release versions.

    The translator hands its output to an npm-style range library as text
    such as ">=1.2.3 <2.0.0 || =0.0.3". This module keeps that output as
    data (a comparator is an operator and a version triple, a clause is the
    conjunction of its comparators, a specification the disjunction of its
    clauses) and gives it the usual meaning of an npm-style range on
    release versions: lexicographic order on (major, minor, patch). `≥` is
    read as `>=`; both are assumptions about the library, which is not part
    of this model. */
module Ranges {

  /** A release version: three non-negative integers. */
  datatype Triple = Triple(major: nat, minor: nat, patch: nat)

  /** Lexicographic order on (major, minor, patch). */
  predicate Less(a: Triple, b: Triple) {
    a.major < b.major
    || (a.major == b.major && a.minor < b.minor)
    || (a.major == b.major && a.minor == b.minor && a.patch < b.patch)
  }

  predicate AtMost(a: Triple, b: Triple) {
    !Less(b, a)
  }

  /** The operators the translator emits: ">=", "≥" (passed through as
      written), "<", "<=" and the exact "=". */
  datatype Op = GE | GEUnicode | LT | LE | EQ

  datatype Comparator = Comparator(op: Op, bound: Triple)

  /** The comparators of one comma-separated clause, joined by a space. */
  type Clause = seq<Comparator>

  /** The clauses of a specification, joined by " || ". */
  type Spec = seq<Clause>

  predicate Satisfies(c: Comparator, v: Triple) {
    match c.op
    case GE => AtMost(c.bound, v)
    case GEUnicode => AtMost(c.bound, v)
    case LT => Less(v, c.bound)
    case LE => AtMost(v, c.bound)
    case EQ => v == c.bound
  }

  /** A clause holds when every comparator in it does. */
  predicate ClauseHolds(cl: Clause, v: Triple) {
    forall i :: 0 <= i < |cl| ==> Satisfies(cl[i], v)
  }

  /** A specification holds when some clause does. */
  predicate Holds(sp: Spec, v: Triple) {
    exists i :: 0 <= i < |sp| && ClauseHolds(sp[i], v)
  }

  /** A clause of one or two comparators holds when each comparator does. */
  lemma ClauseHoldsSmall(cl: Clause, v: Triple)
    requires 1 <= |cl| <= 2
    ensures ClauseHolds(cl, v) <==> Satisfies(cl[0], v) && (|cl| == 2 ==> Satisfies(cl[1], v))
  {
  }
}
