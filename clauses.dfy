/** The three clause recognisers of julia_semver.py and their translations:
    caret/tilde/bare (`semver_interval`), inequalities (`semver_inequality`)
    and hyphen ranges (`semver_hyphen`). Each recogniser is a full match of
    its pattern and returns the captured groups; each translator turns the
    groups into a clause. */
module Clauses {
  import opened Wrappers
  import opened Text
  import opened Ranges
  import opened Fragment

  // ---------------------------------------------------------------------
  // Reference meanings

  /** The component of `v` at position `i` (0 major, 1 minor, 2 patch). */
  function Prefix(v: Triple, n: nat): seq<nat>
    requires n <= 3
  {
    [v.major, v.minor, v.patch][..n]
  }

  /** Lexicographic "at most" on equally long sequences of numbers. */
  predicate LexAtMost(a: seq<nat>, b: seq<nat>)
    requires |a| == |b|
  {
    |a| == 0 || a[0] < b[0] || (a[0] == b[0] && LexAtMost(a[1..], b[1..]))
  }

  /** How many leading components a caret keeps fixed: every component up to
      and including the first one not written as "0", or all written ones
      when each is "0". */
  function CaretKept(cs: seq<string>): (k: nat)
    requires |cs| >= 1
    ensures 1 <= k <= |cs|
    ensures forall i :: 0 <= i < k - 1 ==> cs[i] == "0"
    ensures k < |cs| ==> cs[k - 1] != "0"
  {
    if |cs| == 1 || cs[0] != "0" then 1 else 1 + CaretKept(cs[1..])
  }

  // ---------------------------------------------------------------------
  // semver_interval

  /** No modifier, `^` or `~`. */
  datatype Modifier = Bare | Caret | Tilde

  function ModifierText(m: Modifier): string {
    match m
    case Bare => ""
    case Caret => "^"
    case Tilde => "~"
  }

  /** Full match of `re_semver_interval`: an optional `^` or `~`, then a
      version fragment. The pattern cannot match a newline, so `$` makes it
      a full match of `Chomp(s)`. */
  function MatchInterval(s: string): (r: Option<(Modifier, Fragment)>)
    ensures r.Some? ==> WellFormed(r.value.1)
  {
    IntervalGroups(Chomp(s))
  }

  /** The groups of `re_semver_interval` read from `t`: the modifier, if `t`
      starts with one, and the fragment that makes up the rest. */
  function IntervalGroups(t: string): (r: Option<(Modifier, Fragment)>)
    ensures r.Some? ==> WellFormed(r.value.1)
    ensures r.Some? ==> |ModifierText(r.value.0)| <= |t|
                        && t[..|ModifierText(r.value.0)|] == ModifierText(r.value.0)
                        && ParseFragment(t[|ModifierText(r.value.0)|..]) == Some(r.value.1)
  {
    var m := if |t| > 0 && t[0] == '^' then Caret else if |t| > 0 && t[0] == '~' then Tilde else Bare;
    match ParseFragment(t[|ModifierText(m)|..])
    case None => None
    case Some(f) => Some((m, f))
  }

  /** Every string of the caret/tilde/bare shape is recognised with the
      modifier and fragment it was built from; with `MatchInterval`'s own
      contract this makes the recogniser exact. */
  lemma MatchIntervalOf(m: Modifier, body: string)
    requires ParseFragment(body).Some?
    ensures MatchInterval(ModifierText(m) + body) == Some((m, ParseFragment(body).value))
  {
    var s := ModifierText(m) + body;
    FragmentText(body);
    assert Chomp(s) == s by {
      assert s[|s| - 1] == body[|body| - 1];
    }
    Cut(ModifierText(m), body);
    assert s[0] == '^' <==> m == Caret;
    assert s[0] == '~' <==> m == Tilde;
  }

  /** Julia's compatibility rule, stated directly: `v` is not below the
      fragment and agrees with it on the components the modifier keeps fixed.
      Caret and bare keep components up to the first one not written "0";
      tilde keeps major and minor, unless the major is written "0", where it
      behaves as caret. */
  predicate Compatible(m: Modifier, f: Fragment, v: Triple)
    requires WellFormed(f)
  {
    var lo := ZeroFilled(f);
    var keep := if m == Tilde && f.major != "0" then 2 else CaretKept(Components(f));
    AtMost(lo, v) && Prefix(v, keep) == Prefix(lo, keep)
  }

  /** The clause `semver_interval` builds from the captured groups: a
      half-open range, one-sided when its lower end is 0.0.0, or a single
      version for a fragment "0.0.p". */
  function IntervalClause(m: Modifier, f: Fragment): (r: Clause)
    requires WellFormed(f)
    ensures 1 <= |r| <= 2
    ensures |r| == 1 <==> f.major == "0" && (f.minor.None? || f.minor.value == "0")
  {
    var lo := ZeroFilled(f);
    if f.major == "0" then
      if f.minor.None? then
        [Comparator(LT, Triple(1, 0, 0))]
      else if f.minor.value != "0" then
        [Comparator(GE, lo), Comparator(LT, Triple(0, lo.minor + 1, 0))]
      else if f.patch.None? then
        [Comparator(LT, Triple(0, 1, 0))]
      else
        [Comparator(EQ, Triple(0, 0, lo.patch))]
    else if m == Bare || m == Caret then
      [Comparator(GE, lo), Comparator(LT, Triple(lo.major + 1, 0, 0))]
    else
      [Comparator(GE, lo), Comparator(LT, Triple(lo.major, lo.minor + 1, 0))]
  }

  /** The translated clause admits exactly the versions compatible with the
      fragment under Julia's rule. */
  lemma IntervalMeaning(m: Modifier, f: Fragment, v: Triple)
    requires WellFormed(f)
    ensures ClauseHolds(IntervalClause(m, f), v) <==> Compatible(m, f, v)
  {
    var lo := ZeroFilled(f);
    var cl := IntervalClause(m, f);
    ClauseHoldsSmall(cl, v);
    if f.major == "0" {
      assert lo.major == 0;
      if f.minor.None? {
        assert Components(f) == [f.major];
        assert lo == Triple(0, 0, 0);
        assert Prefix(v, 1) == [v.major] && Prefix(lo, 1) == [0];
      } else if f.minor.value != "0" {
        assert Components(f)[..2] == [f.major, f.minor.value];
        assert CaretKept(Components(f)) == 2;
        assert Prefix(v, 2) == [v.major, v.minor] && Prefix(lo, 2) == [0, lo.minor];
      } else if f.patch.None? {
        assert Components(f) == [f.major, f.minor.value];
        assert lo == Triple(0, 0, 0);
        assert Prefix(v, 2) == [v.major, v.minor] && Prefix(lo, 2) == [0, 0];
      } else {
        assert Components(f) == [f.major, f.minor.value, f.patch.value];
        assert lo == Triple(0, 0, lo.patch);
        assert Prefix(v, 3) == [v.major, v.minor, v.patch] && Prefix(lo, 3) == [0, 0, lo.patch];
      }
    } else if m == Tilde {
      assert Prefix(v, 2) == [v.major, v.minor] && Prefix(lo, 2) == [lo.major, lo.minor];
    } else {
      assert Components(f)[0] == f.major;
      assert Prefix(v, 1) == [v.major] && Prefix(lo, 1) == [lo.major];
    }
  }

  /** `semver_interval(sstr)`: None when the pattern does not match. */
  function SemverInterval(s: string): (r: Option<Clause>)
    ensures r.Some? <==> MatchInterval(s).Some?
  {
    match MatchInterval(s)
    case None => None
    case Some((m, f)) => Some(IntervalClause(m, f))
  }

  /** What `semver_interval` returns admits the versions compatible with the
      captured fragment under the captured modifier. */
  lemma SemverIntervalMeaning(s: string, v: Triple)
    requires MatchInterval(s).Some?
    ensures ClauseHolds(SemverInterval(s).value, v) <==>
              Compatible(MatchInterval(s).value.0, MatchInterval(s).value.1, v)
  {
    IntervalMeaning(MatchInterval(s).value.0, MatchInterval(s).value.1, v);
  }

  // ---------------------------------------------------------------------
  // semver_inequality

  /** The operators of `re_inequality_interval`. */
  datatype Relation = AtLeast | AtLeastSign | Exactly | Below

  function RelationText(rel: Relation): string {
    match rel
    case AtLeast => ">="
    case AtLeastSign => "≥"
    case Exactly => "="
    case Below => "<"
  }

  /** The operator emitted after `ineq.strip()`; "=" is the exact operator
      and "≥" is passed through unchanged. */
  function RelationOp(rel: Relation): Op {
    match rel
    case AtLeast => GE
    case AtLeastSign => GEUnicode
    case Exactly => EQ
    case Below => LT
  }

  /** The operator alternatives, tried at the start of `t`. */
  function ReadRelation(t: string): (r: Option<Relation>)
    ensures r.Some? ==> |RelationText(r.value)| <= |t|
                        && t[..|RelationText(r.value)|] == RelationText(r.value)
  {
    if |t| >= 1 && t[0] == '≥' then Some(AtLeastSign)
    else if |t| >= 2 && t[0] == '>' && t[1] == '=' then Some(AtLeast)
    else if |t| >= 1 && t[0] == '=' then Some(Exactly)
    else if |t| >= 1 && t[0] == '<' then Some(Below)
    else None
  }

  /** No operator text is a prefix of another, so the scan reads back the
      operator a string starts with. */
  lemma ReadRelationOf(rel: Relation, rest: string)
    ensures ReadRelation(RelationText(rel) + rest) == Some(rel)
  {
    var t := RelationText(rel) + rest;
    assert t[0] == RelationText(rel)[0];
    if rel == AtLeast {
      assert t[1] == '=';
    }
  }

  /** The parts of an inequality: operator, whitespace, the optional `v` of
      the pattern, and the text left for the version fragment. */
  datatype Inequality = Inequality(rel: Relation, space: string, v: string, body: string)

  function InequalityText(q: Inequality): string {
    RelationText(q.rel) + (q.space + (q.v + q.body))
  }

  /** The operator, optional whitespace and optional `v` of
      `re_inequality_interval`, read from the start of `t`. */
  function InequalityParts(t: string): (r: Option<Inequality>)
    ensures r.Some? ==> InequalityText(r.value) == t
                        && AllSpace(r.value.space) && (r.value.v == "" || r.value.v == "v")
  {
    match ReadRelation(t)
    case None => None
    case Some(rel) =>
      var rest := t[|RelationText(rel)|..];
      var w := rest[..SpaceRun(rest)];
      var afterSpace := rest[SpaceRun(rest)..];
      var v1 := if |afterSpace| > 0 && afterSpace[0] == 'v' then "v" else "";
      var body := afterSpace[|v1|..];
      assert afterSpace == v1 + body;
      assert rest == w + afterSpace;
      assert t == RelationText(rel) + rest;
      SpaceRunSpaces(rest);
      Some(Inequality(rel, w, v1, body))
  }

  /** The scan takes the whole whitespace run and the `v` when one follows. */
  lemma InequalityPartsOf(q: Inequality)
    requires AllSpace(q.space)
    requires q.v == "" || q.v == "v"
    requires |q.body| > 0 && !IsSpace(q.body[0])
    requires q.v == "" ==> q.body[0] != 'v'
    ensures InequalityParts(InequalityText(q)) == Some(q)
  {
    var t := InequalityText(q);
    var rest := q.space + (q.v + q.body);
    assert ReadRelation(t) == Some(q.rel) by {
      ReadRelationOf(q.rel, rest);
    }
    assert t[|RelationText(q.rel)|..] == rest;
    assert SpaceRun(rest) == |q.space| by {
      assert (q.v + q.body)[0] == if q.v == "" then q.body[0] else 'v';
      SpaceRunAfter(q.space, q.v + q.body);
    }
    assert rest[..|q.space|] == q.space && rest[|q.space|..] == q.v + q.body;
    assert (q.v + q.body)[|q.v|..] == q.body;
  }

  /** Full match of `re_inequality_interval`: an operator, optional
      whitespace, an optional `v`, then a version fragment (which may carry
      its own `v`). */
  function MatchInequality(s: string): (r: Option<(Relation, Fragment)>)
    ensures r.Some? ==> WellFormed(r.value.1)
  {
    InequalityGroups(Chomp(s))
  }

  /** The groups of `re_inequality_interval` read from `t`. */
  function InequalityGroups(t: string): (r: Option<(Relation, Fragment)>)
    ensures r.Some? ==> WellFormed(r.value.1)
    ensures r.Some? ==> InequalityParts(t).Some?
                        && InequalityParts(t).value.rel == r.value.0
                        && ParseFragment(InequalityParts(t).value.body) == Some(r.value.1)
  {
    match InequalityParts(t)
    case None => None
    case Some(q) =>
      match ParseFragment(q.body)
      case None => None
      case Some(f) => Some((q.rel, f))
  }

  /** Every string of the inequality shape is read with the operator and
      fragment it was built from, wherever its `v` stands. */
  lemma InequalityGroupsOf(q: Inequality)
    requires AllSpace(q.space)
    requires q.v == "" || q.v == "v"
    requires ParseFragment(q.body).Some?
    ensures InequalityGroups(InequalityText(q)) == Some((q.rel, ParseFragment(q.body).value))
  {
    FragmentText(q.body);
    if q.v == "" && q.body[0] == 'v' {
      var q' := Inequality(q.rel, q.space, "v", q.body[1..]);
      assert InequalityText(q') == InequalityText(q) by {
        assert q.body == "v" + q.body[1..];
      }
      assert q'.body[0] == q.body[1];
      FragmentVPrefix(q.body);
      InequalityPartsOf(q');
    } else {
      InequalityPartsOf(q);
    }
  }

  /** The same for a full match of the whole string. */
  lemma MatchInequalityOf(q: Inequality)
    requires AllSpace(q.space)
    requires q.v == "" || q.v == "v"
    requires ParseFragment(q.body).Some?
    ensures MatchInequality(InequalityText(q)) == Some((q.rel, ParseFragment(q.body).value))
  {
    var s := InequalityText(q);
    FragmentText(q.body);
    assert Chomp(s) == s by {
      assert s[|s| - 1] == q.body[|q.body| - 1];
    }
    InequalityGroupsOf(q);
  }

  /** The clause `semver_inequality` builds: the operator applied to the
      zero-filled version. */
  function InequalityClause(rel: Relation, f: Fragment): (r: Clause)
    requires WellFormed(f)
    ensures |r| == 1
  {
    [Comparator(RelationOp(rel), ZeroFilled(f))]
  }

  /** What an inequality clause admits: the operator applied to the
      zero-filled version, with "≥" read as ">=". */
  predicate InequalityAdmits(rel: Relation, f: Fragment, v: Triple)
    requires WellFormed(f)
  {
    match rel
    case AtLeast => AtMost(ZeroFilled(f), v)
    case AtLeastSign => AtMost(ZeroFilled(f), v)
    case Exactly => v == ZeroFilled(f)
    case Below => Less(v, ZeroFilled(f))
  }

  /** The translated clause admits exactly what the operator admits. */
  lemma InequalityMeaning(rel: Relation, f: Fragment, v: Triple)
    requires WellFormed(f)
    ensures ClauseHolds(InequalityClause(rel, f), v) <==> InequalityAdmits(rel, f, v)
  {
    ClauseHoldsSmall(InequalityClause(rel, f), v);
  }

  /** `semver_inequality(sstr)`: None when the pattern does not match. */
  function SemverInequality(s: string): (r: Option<Clause>)
    ensures r.Some? <==> MatchInequality(s).Some?
  {
    match MatchInequality(s)
    case None => None
    case Some((rel, f)) => Some(InequalityClause(rel, f))
  }

  /** What `semver_inequality` returns admits what the captured operator
      admits against the captured fragment. */
  lemma SemverInequalityMeaning(s: string, v: Triple)
    requires MatchInequality(s).Some?
    ensures ClauseHolds(SemverInequality(s).value, v) <==>
              InequalityAdmits(MatchInequality(s).value.0, MatchInequality(s).value.1, v)
  {
    InequalityMeaning(MatchInequality(s).value.0, MatchInequality(s).value.1, v);
  }

  // ---------------------------------------------------------------------
  // semver_hyphen

  /** A string cut the way `re_hyphen_interval` reads it: leading
      whitespace, the lower word, whitespace, the hyphen, whitespace, the
      upper word and trailing whitespace. */
  datatype Layout = Layout(lead: string, low: string, gap1: string, gap2: string, high: string, trail: string)

  function Assemble(y: Layout): string {
    y.lead + (y.low + (y.gap1 + ("-" + (y.gap2 + (y.high + y.trail)))))
  }

  /** The whitespace runs are whitespace, and the two around the hyphen are
      not empty. */
  predicate Spaced(y: Layout) {
    && AllSpace(y.lead) && AllSpace(y.gap1) && AllSpace(y.gap2) && AllSpace(y.trail)
    && |y.gap1| > 0 && |y.gap2| > 0
  }

  /** The whitespace layout of `re_hyphen_interval`: a word, at least one
      whitespace character, a hyphen, at least one whitespace character and
      a word, with optional whitespace around the whole. */
  function HyphenWords(s: string): (r: Option<Layout>)
    ensures r.Some? ==> Assemble(r.value) == s && Spaced(r.value)
  {
    var a := SpaceRun(s);
    var t := s[a..];
    var i := WordRun(t);
    var r1 := t[i..];
    var g1 := SpaceRun(r1);
    if g1 == 0 || g1 == |r1| || r1[g1] != '-' then None
    else
      var r2 := r1[g1 + 1..];
      var g2 := SpaceRun(r2);
      var r3 := r2[g2..];
      var j := WordRun(r3);
      if g2 == 0 || !AllSpace(r3[j..]) then None
      else
        var y := Layout(s[..a], t[..i], r1[..g1], r2[..g2], r3[..j], r3[j..]);
        assert Assemble(y) == s by {
          Halves(r3, j);
          Halves(r2, g2);
          Around(r1, g1);
          Halves(t, i);
          Halves(s, a);
          Reassemble(s, t, r1, r2, r3, y);
        }
        SpaceRunSpaces(s);
        SpaceRunSpaces(r1);
        SpaceRunSpaces(r2);
        Some(y)
  }

  lemma Reassemble(s: string, t: string, r1: string, r2: string, r3: string, y: Layout)
    requires s == y.lead + t && t == y.low + r1 && r1 == y.gap1 + ("-" + r2)
    requires r2 == y.gap2 + r3 && r3 == y.high + y.trail
    ensures Assemble(y) == s
  {
  }

  /** The scan finds the layout of any string laid out that way with
      whitespace-free words. */
  lemma HyphenWordsOf(y: Layout)
    requires Spaced(y)
    requires |y.low| > 0 && NoSpace(y.low) && NoSpace(y.high) && (|y.high| > 0 || |y.trail| == 0)
    ensures HyphenWords(Assemble(y)) == Some(y)
  {
    var r3 := y.high + y.trail;
    WordRunAfter(y.high, y.trail);
    Cut(y.high, y.trail);
    var r2 := y.gap2 + r3;
    SpaceRunAfter(y.gap2, r3);
    Cut(y.gap2, r3);
    var r1 := y.gap1 + ("-" + r2);
    SpaceRunAfter(y.gap1, "-" + r2);
    Cut(y.gap1, "-" + r2);
    assert r1[|y.gap1|] == '-' && r1[|y.gap1| + 1..] == r2;
    var t := y.low + r1;
    WordRunAfter(y.low, r1);
    Cut(y.low, r1);
    SpaceRunAfter(y.lead, t);
    Cut(y.lead, t);
  }

  /** Full match of `re_hyphen_interval`: two version fragments separated by
      a hyphen with at least one whitespace character on each side, with
      optional whitespace around the whole. A fragment holds no whitespace,
      so each is the whole word it stands in. */
  function MatchHyphen(s: string): (r: Option<(Fragment, Fragment)>)
    ensures r.Some? ==> WellFormed(r.value.0) && WellFormed(r.value.1)
    ensures r.Some? ==> HyphenWords(s).Some?
                        && ParseFragment(HyphenWords(s).value.low) == Some(r.value.0)
                        && ParseFragment(HyphenWords(s).value.high) == Some(r.value.1)
  {
    match HyphenWords(s)
    case None => None
    case Some(y) =>
      match (ParseFragment(y.low), ParseFragment(y.high))
      case (Some(l), Some(u)) => Some((l, u))
      case _ => None
  }

  /** Every string of the hyphen shape is recognised with the two fragments
      it was built from. */
  lemma MatchHyphenOf(y: Layout)
    requires Spaced(y)
    requires ParseFragment(y.low).Some? && ParseFragment(y.high).Some?
    ensures MatchHyphen(Assemble(y)) == Some((ParseFragment(y.low).value, ParseFragment(y.high).value))
  {
    FragmentText(y.low);
    FragmentText(y.high);
    FragmentWord(y.low);
    FragmentWord(y.high);
    HyphenWordsOf(y);
  }

  /** The clause `semver_hyphen` builds. The lower end is inclusive; the
      upper end is inclusive when minor and patch are both written, and
      otherwise excludes the next major or the next minor. The source's
      three tests leave a fourth path that returns None; it is never taken
      for a fragment the pattern can capture. */
  function HyphenClause(l: Fragment, u: Fragment): (r: Option<Clause>)
    requires WellFormed(l) && WellFormed(u)
    ensures r.Some? && |r.value| == 2
  {
    var lo := ZeroFilled(l);
    var hi := ZeroFilled(u);
    if u.minor.Some? && u.patch.Some? then
      Some([Comparator(GE, lo), Comparator(LE, hi)])
    else if u.minor.None? then
      Some([Comparator(GE, lo), Comparator(LT, Triple(hi.major + 1, hi.minor, hi.patch))])
    else if u.patch.None? then
      Some([Comparator(GE, lo), Comparator(LT, Triple(hi.major, hi.minor + 1, hi.patch))])
    else
      None
  }

  /** Julia's hyphen range: from the lower fragment (absent components
      counting as zero) up to every version that agrees with the upper
      fragment on its written components or is below it there. */
  predicate HyphenAdmits(l: Fragment, u: Fragment, v: Triple)
    requires WellFormed(l) && WellFormed(u)
  {
    var n := |Components(u)|;
    AtMost(ZeroFilled(l), v) && LexAtMost(Prefix(v, n), Prefix(ZeroFilled(u), n))
  }

  /** The hyphen clause admits the versions from the lower fragment up to
      every version that begins with the written components of the upper
      fragment. */
  lemma HyphenMeaning(l: Fragment, u: Fragment, v: Triple)
    requires WellFormed(l) && WellFormed(u)
    ensures ClauseHolds(HyphenClause(l, u).value, v) <==> HyphenAdmits(l, u, v)
  {
    var hi := ZeroFilled(u);
    ClauseHoldsSmall(HyphenClause(l, u).value, v);
    if u.minor.None? {
      assert Components(u) == [u.major];
      LexPrefixes(v, hi);
    } else if u.patch.None? {
      assert Components(u) == [u.major, u.minor.value];
      LexPrefixes(v, hi);
    } else {
      assert Components(u) == [u.major, u.minor.value, u.patch.value];
      LexPrefixes(v, hi);
    }
  }

  /** Comparing the first one, two or three components. */
  lemma LexPrefixes(v: Triple, w: Triple)
    ensures LexAtMost(Prefix(v, 1), Prefix(w, 1)) <==> v.major <= w.major
    ensures LexAtMost(Prefix(v, 2), Prefix(w, 2)) <==> Less(v, Triple(w.major, w.minor + 1, 0))
    ensures LexAtMost(Prefix(v, 3), Prefix(w, 3)) <==> AtMost(v, w)
  {
    assert Prefix(v, 1) == [v.major] && Prefix(w, 1) == [w.major];
    assert Prefix(v, 2) == [v.major, v.minor] && Prefix(w, 2) == [w.major, w.minor];
    assert Prefix(v, 3) == [v.major, v.minor, v.patch] && Prefix(w, 3) == [w.major, w.minor, w.patch];
    assert [v.major, v.minor, v.patch][1..] == [v.minor, v.patch];
    assert [w.major, w.minor, w.patch][1..] == [w.minor, w.patch];
    assert [v.major, v.minor][1..] == [v.minor] && [w.major, w.minor][1..] == [w.minor];
    assert [v.minor, v.patch][1..] == [v.patch] && [w.minor, w.patch][1..] == [w.patch];
    assert LexAtMost([v.major], [w.major]) <==> v.major <= w.major by {
      assert [v.major][1..] == [] && [w.major][1..] == [];
    }
    assert LexAtMost([v.minor], [w.minor]) <==> v.minor <= w.minor by {
      assert [v.minor][1..] == [] && [w.minor][1..] == [];
    }
    assert LexAtMost([v.patch], [w.patch]) <==> v.patch <= w.patch by {
      assert [v.patch][1..] == [] && [w.patch][1..] == [];
    }
  }

  /** `semver_hyphen(sstr)`: None when the pattern does not match. */
  function SemverHyphen(s: string): (r: Option<Clause>)
    ensures r.Some? <==> MatchHyphen(s).Some?
  {
    match MatchHyphen(s)
    case None => None
    case Some((l, u)) => HyphenClause(l, u)
  }

  /** What `semver_hyphen` returns admits Julia's hyphen range between the
      two captured fragments. */
  lemma SemverHyphenMeaning(s: string, v: Triple)
    requires MatchHyphen(s).Some?
    ensures ClauseHolds(SemverHyphen(s).value, v) <==>
              HyphenAdmits(MatchHyphen(s).value.0, MatchHyphen(s).value.1, v)
  {
    HyphenMeaning(MatchHyphen(s).value.0, MatchHyphen(s).value.1, v);
  }
}
