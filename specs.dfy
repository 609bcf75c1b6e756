/** `one_semver_spec` and `semver_spec`: a clause is stripped and handed to
    the three recognisers in turn, the first that accepts it translates it,
    and a comma-separated specification is the union of its clauses. */
module Specs {
  import opened Wrappers
  import opened Text
  import opened Ranges
  import opened Fragment
  import opened Clauses

  /** The ValueError raised for a clause no pattern accepts; it carries the
      stripped clause. */
  datatype SpecError = InvalidSpec(clause: string)

  // ---------------------------------------------------------------------
  // What each recogniser's input looks like

  /** A recognised caret/tilde/bare clause starts with `^`, `~`, `v` or a
      digit and holds no hyphen. */
  lemma IntervalShape(t: string)
    requires MatchInterval(t).Some?
    ensures |t| > 0 && (t[0] == '^' || t[0] == '~' || t[0] == 'v' || IsDigit(t[0]))
    ensures '-' !in t
  {
    var c := Chomp(t);
    var (m, f) := MatchInterval(t).value;
    var k := |ModifierText(m)|;
    var body := c[k..];
    FragmentText(body);
    FragmentWord(body);
    assert c == ModifierText(m) + body by { Halves(c, k); }
    assert t[0] == c[0];
  }

  /** A recognised inequality starts with one of the operator characters. */
  lemma InequalityShape(t: string)
    requires MatchInequality(t).Some?
    ensures |t| > 0 && (t[0] == '≥' || t[0] == '>' || t[0] == '=' || t[0] == '<')
  {
    var c := Chomp(t);
    var q := InequalityParts(c).value;
    assert c[0] == RelationText(q.rel)[0];
    assert t[0] == c[0];
  }

  /** A recognised hyphen range starts with whitespace, `v` or a digit, and
      holds a hyphen. */
  lemma HyphenShape(t: string)
    requires MatchHyphen(t).Some?
    ensures |t| > 0 && (IsSpace(t[0]) || t[0] == 'v' || IsDigit(t[0]))
    ensures '-' in t
  {
    var y := HyphenWords(t).value;
    FragmentText(y.low);
    var k := |y.lead| + |y.low| + |y.gap1|;
    assert t[k] == '-';
    if |y.lead| > 0 {
      assert t[0] == y.lead[0];
    } else {
      assert t[0] == y.low[0];
    }
  }

  /** The three patterns never accept the same string, so the order in which
      `one_semver_spec` tries them does not matter. */
  lemma PatternsDisjoint(t: string)
    ensures !(MatchInterval(t).Some? && MatchInequality(t).Some?)
    ensures !(MatchInterval(t).Some? && MatchHyphen(t).Some?)
    ensures !(MatchInequality(t).Some? && MatchHyphen(t).Some?)
  {
    var interval, inequality, hyphen := MatchInterval(t).Some?, MatchInequality(t).Some?, MatchHyphen(t).Some?;
    if interval {
      IntervalShape(t);
    }
    if inequality {
      InequalityShape(t);
    }
    if hyphen {
      HyphenShape(t);
    }
    ShapesDisjoint(t, interval, inequality, hyphen);
  }

  /** The shapes of the three recognisers exclude one another. */
  lemma ShapesDisjoint(t: string, interval: bool, inequality: bool, hyphen: bool)
    requires interval ==> |t| > 0 && (t[0] == '^' || t[0] == '~' || t[0] == 'v' || IsDigit(t[0])) && '-' !in t
    requires inequality ==> |t| > 0 && (t[0] == '≥' || t[0] == '>' || t[0] == '=' || t[0] == '<')
    requires hyphen ==> |t| > 0 && (IsSpace(t[0]) || t[0] == 'v' || IsDigit(t[0])) && '-' in t
    ensures !(interval && inequality) && !(interval && hyphen) && !(inequality && hyphen)
  {
  }

  // ---------------------------------------------------------------------
  // one_semver_spec

  /** Some pattern accepts the stripped clause. */
  predicate Recognised(t: string) {
    MatchInterval(t).Some? || MatchInequality(t).Some? || MatchHyphen(t).Some?
  }

  /** What a stripped clause admits, stated without an order among the
      patterns: the meaning of whichever pattern accepts it. */
  predicate Admits(t: string, v: Triple) {
    || (MatchInterval(t).Some?
        && Compatible(MatchInterval(t).value.0, MatchInterval(t).value.1, v))
    || (MatchInequality(t).Some?
        && InequalityAdmits(MatchInequality(t).value.0, MatchInequality(t).value.1, v))
    || (MatchHyphen(t).Some?
        && HyphenAdmits(MatchHyphen(t).value.0, MatchHyphen(t).value.1, v))
  }

  /** `one_semver_spec(sstr)`: the first translation that succeeds on the
      stripped clause, or the error naming the stripped clause. Its meaning
      is stated by `OneSemverSpecMeaning`. */
  function OneSemverSpec(s: string): Result<Clause, SpecError> {
    TranslateStripped(Strip(s))
  }

  /** The three translations tried in turn on a stripped clause. */
  function TranslateStripped(t: string): Result<Clause, SpecError> {
    match SemverInterval(t)
    case Some(c) => Ok(c)
    case None =>
      match SemverInequality(t)
      case Some(c) => Ok(c)
      case None =>
        match SemverHyphen(t)
        case Some(c) => Ok(c)
        case None => Err(InvalidSpec(t))
  }

  /** A clause is translated exactly when some pattern accepts it once
      stripped, the error names the stripped clause, and the translation
      admits what the accepting pattern means. */
  lemma OneSemverSpecMeaning(s: string)
    ensures OneSemverSpec(s).Ok? <==> Recognised(Strip(s))
    ensures OneSemverSpec(s).Err? ==> OneSemverSpec(s).error == InvalidSpec(Strip(s))
    ensures OneSemverSpec(s).Ok? ==> forall v :: ClauseHolds(OneSemverSpec(s).value, v) <==> Admits(Strip(s), v)
  {
    var t := Strip(s);
    PatternsDisjoint(t);
    if OneSemverSpec(s).Ok? {
      forall v ensures ClauseHolds(OneSemverSpec(s).value, v) <==> Admits(t, v) {
        if MatchInterval(t).Some? {
          SemverIntervalMeaning(t, v);
        } else if MatchInequality(t).Some? {
          SemverInequalityMeaning(t, v);
        } else {
          SemverHyphenMeaning(t, v);
        }
      }
    }
  }

  // ---------------------------------------------------------------------
  // semver_spec

  /** `semver_spec(spec)`: split on commas and translate every piece; the
      result is the union of the clauses, and the first piece that fails
      decides the error. */
  function SemverSpec(spec: string): (r: Result<Spec, SpecError>)
    ensures r.Ok? ==> |r.value| == |Split(spec, ',')|
    ensures r.Ok? ==> forall i :: 0 <= i < |r.value| ==>
                        OneSemverSpec(Split(spec, ',')[i]) == Ok(r.value[i])
    ensures r.Err? ==> exists i :: 0 <= i < |Split(spec, ',')|
                          && OneSemverSpec(Split(spec, ',')[i]) == Err(r.error)
                          && forall j :: 0 <= j < i ==> OneSemverSpec(Split(spec, ',')[j]).Ok?
  {
    Collect(Translations(Split(spec, ',')))
  }

  /** `one_semver_spec` applied to every piece. */
  function Translations(ps: seq<string>): (rs: seq<Result<Clause, SpecError>>)
    ensures |rs| == |ps| && forall i :: 0 <= i < |ps| ==> rs[i] == OneSemverSpec(ps[i])
  {
    seq(|ps|, i requires 0 <= i < |ps| => OneSemverSpec(ps[i]))
  }

  /** The list comprehension of `semver_spec`, over the translations of the
      pieces in order: the first error propagates, otherwise every clause is
      kept. */
  function Collect(rs: seq<Result<Clause, SpecError>>): (r: Result<Spec, SpecError>)
    ensures r.Ok? <==> forall i :: 0 <= i < |rs| ==> rs[i].Ok?
    ensures r.Ok? ==> |r.value| == |rs| && forall i :: 0 <= i < |rs| ==> rs[i] == Ok(r.value[i])
    ensures r.Err? ==> exists i :: 0 <= i < |rs| && rs[i] == Err(r.error)
                          && forall j :: 0 <= j < i ==> rs[j].Ok?
  {
    if |rs| == 0 then Ok([])
    else
      match rs[0]
      case Err(e) => Err(e)
      case Ok(c) =>
        match Collect(rs[1..])
        case Err(e) =>
          assert forall i :: 1 <= i < |rs| ==> rs[i] == rs[1..][i - 1];
          Err(e)
        case Ok(cs) =>
          assert forall i :: 1 <= i < |rs| ==> rs[i] == rs[1..][i - 1];
          Ok([c] + cs)
  }

  // ---------------------------------------------------------------------
  // Meaning of a whole specification

  /** A specification admits exactly the versions some comma-separated
      piece admits: `semver_spec` builds the union of its pieces. */
  lemma SpecMeaning(spec: string, v: Triple)
    requires SemverSpec(spec).Ok?
    ensures Holds(SemverSpec(spec).value, v) <==>
              exists i :: 0 <= i < |Split(spec, ',')| && Admits(Strip(Split(spec, ',')[i]), v)
  {
    if Holds(SemverSpec(spec).value, v) {
      var i := HoldingPiece(spec, v);
    }
    if exists i :: 0 <= i < |Split(spec, ',')| && Admits(Strip(Split(spec, ',')[i]), v) {
      var i :| 0 <= i < |Split(spec, ',')| && Admits(Strip(Split(spec, ',')[i]), v);
      AdmittingPiece(spec, v, i);
    }
  }

  /** A version the translation admits is admitted by one of the pieces. */
  lemma HoldingPiece(spec: string, v: Triple) returns (i: nat)
    requires SemverSpec(spec).Ok? && Holds(SemverSpec(spec).value, v)
    ensures i < |Split(spec, ',')| && Admits(Strip(Split(spec, ',')[i]), v)
  {
    var sp := SemverSpec(spec).value;
    i :| 0 <= i < |sp| && ClauseHolds(sp[i], v);
    PieceMeaning(Split(spec, ',')[i], sp[i], v);
  }

  /** A version one of the pieces admits is admitted by the translation. */
  lemma AdmittingPiece(spec: string, v: Triple, i: nat)
    requires SemverSpec(spec).Ok?
    requires i < |Split(spec, ',')| && Admits(Strip(Split(spec, ',')[i]), v)
    ensures Holds(SemverSpec(spec).value, v)
  {
    var sp := SemverSpec(spec).value;
    PieceMeaning(Split(spec, ',')[i], sp[i], v);
  }

  /** One translated piece admits what its stripped text admits. */
  lemma PieceMeaning(p: string, c: Clause, v: Triple)
    requires OneSemverSpec(p) == Ok(c)
    ensures ClauseHolds(c, v) <==> Admits(Strip(p), v)
  {
    OneSemverSpecMeaning(p);
  }

  // ---------------------------------------------------------------------
  // Every string of each shape is translated as its pattern says

  /** A caret, tilde or bare clause translates to the clause built from its
      modifier and fragment. */
  lemma IntervalSpecOf(m: Modifier, body: string)
    requires ParseFragment(body).Some?
    ensures OneSemverSpec(ModifierText(m) + body) == Ok(IntervalClause(m, ParseFragment(body).value))
  {
    assert Strip(ModifierText(m) + body) == ModifierText(m) + body by {
      FragmentText(body);
      StripInterval(m, body);
    }
    MatchIntervalOf(m, body);
  }

  /** A caret, tilde or bare clause whose version ends with a digit has no
      surrounding whitespace to strip. */
  lemma StripInterval(m: Modifier, body: string)
    requires |body| > 0 && !IsSpace(body[0]) && IsDigit(body[|body| - 1])
    ensures Strip(ModifierText(m) + body) == ModifierText(m) + body
  {
    var t := ModifierText(m) + body;
    assert t[0] == '^' || t[0] == '~' || t[0] == body[0];
    LastOf(ModifierText(m), body);
    StripWord(t);
  }

  /** An inequality translates to its operator applied to the zero-filled
      version. */
  lemma InequalitySpecOf(q: Inequality)
    requires AllSpace(q.space)
    requires q.v == "" || q.v == "v"
    requires ParseFragment(q.body).Some?
    ensures OneSemverSpec(InequalityText(q)) == Ok(InequalityClause(q.rel, ParseFragment(q.body).value))
  {
    var t := InequalityText(q);
    FragmentText(q.body);
    StripInequality(q);
    MatchInequalityOf(q);
    PatternsDisjoint(t);
  }

  /** Every operator begins with a character that is not whitespace. */
  lemma RelationStart(rel: Relation)
    ensures |RelationText(rel)| > 0 && !IsSpace(RelationText(rel)[0])
  {
  }

  /** An inequality whose version ends with a digit has no surrounding
      whitespace to strip. */
  lemma StripInequality(q: Inequality)
    requires |q.body| > 0 && IsDigit(q.body[|q.body| - 1])
    ensures Strip(InequalityText(q)) == InequalityText(q)
  {
    var t := InequalityText(q);
    RelationStart(q.rel);
    assert t[0] == RelationText(q.rel)[0];
    LastOf(q.v, q.body);
    LastOf(q.space, q.v + q.body);
    LastOf(RelationText(q.rel), q.space + (q.v + q.body));
    StripWord(t);
  }

  /** A hyphen range translates to the clause built from its two fragments,
      whatever whitespace surrounds it. */
  lemma HyphenSpecOf(y: Layout)
    requires Spaced(y)
    requires ParseFragment(y.low).Some? && ParseFragment(y.high).Some?
    ensures OneSemverSpec(Assemble(y)) ==
              Ok(HyphenClause(ParseFragment(y.low).value, ParseFragment(y.high).value).value)
  {
    var core := Layout("", y.low, y.gap1, y.gap2, y.high, "");
    var t := Assemble(core);
    var l, u := ParseFragment(y.low).value, ParseFragment(y.high).value;
    assert Strip(Assemble(y)) == t by {
      FragmentText(y.low);
      FragmentText(y.high);
      StripHyphen(y);
    }
    assert SemverHyphen(t) == HyphenClause(l, u) by {
      MatchHyphenOf(core);
    }
    assert SemverInterval(t).None? && SemverInequality(t).None? by {
      PatternsDisjoint(t);
    }
  }

  /** Stripping a hyphen range whose words begin with a non-space character
      and end with a digit removes exactly its leading and trailing
      whitespace. */
  lemma StripHyphen(y: Layout)
    requires AllSpace(y.lead) && AllSpace(y.trail)
    requires |y.low| > 0 && !IsSpace(y.low[0])
    requires |y.high| > 0 && IsDigit(y.high[|y.high| - 1])
    ensures Strip(Assemble(y)) == Assemble(Layout("", y.low, y.gap1, y.gap2, y.high, ""))
  {
    var t := Assemble(Layout("", y.low, y.gap1, y.gap2, y.high, ""));
    var inner := y.low + (y.gap1 + ("-" + (y.gap2 + y.high)));
    assert t == inner by {
      assert y.high + "" == y.high;
    }
    assert Assemble(y) == y.lead + (t + y.trail);
    assert t[0] == y.low[0];
    LastOf(y.low + (y.gap1 + ("-" + y.gap2)), y.high);
    assert inner == y.low + (y.gap1 + ("-" + y.gap2)) + y.high;
    StripOf(y.lead, t, y.trail);
  }

  // ---------------------------------------------------------------------
  // Clauses no pattern accepts

  /** A blank clause is rejected, and the error names the empty clause. */
  lemma BlankRejected(s: string)
    requires AllSpace(s)
    ensures OneSemverSpec(s) == Err(InvalidSpec(""))
  {
    StripBlank(s);
    assert ReadDigits("").None?;
    assert ParseFragment("").None?;
    assert MatchInterval("").None?;
    assert MatchInequality("").None?;
    assert MatchHyphen("").None?;
  }

  /** A blank piece, such as the one a stray comma leaves, makes the whole
      specification fail. */
  lemma BlankPieceRejected(spec: string, i: nat)
    requires i < |Split(spec, ',')| && AllSpace(Split(spec, ',')[i])
    ensures SemverSpec(spec).Err?
  {
    BlankRejected(Split(spec, ',')[i]);
  }

  /** Clauses joined by commas translate to the list of their translations,
      in order. */
  lemma SpecOfPieces(ps: seq<string>, cls: Spec)
    requires |ps| >= 1 && |cls| == |ps|
    requires forall i :: 0 <= i < |ps| ==> ',' !in ps[i] && OneSemverSpec(ps[i]) == Ok(cls[i])
    ensures SemverSpec(Join(ps, ',')) == Ok(cls)
  {
    SplitJoin(ps, ',');
    var r := SemverSpec(Join(ps, ','));
    assert r.Ok?;
    assert r.value == cls;
  }

  /** Three clauses joined by commas translate to their three
      translations. */
  lemma SpecOfThree(p1: string, p2: string, p3: string, c1: Clause, c2: Clause, c3: Clause)
    requires ',' !in p1 && ',' !in p2 && ',' !in p3
    requires OneSemverSpec(p1) == Ok(c1) && OneSemverSpec(p2) == Ok(c2) && OneSemverSpec(p3) == Ok(c3)
    ensures SemverSpec(Join([p1, p2, p3], ',')) == Ok([c1, c2, c3])
  {
    var ps, cls := [p1, p2, p3], [c1, c2, c3];
    forall i | 0 <= i < |ps| ensures ',' !in ps[i] && OneSemverSpec(ps[i]) == Ok(cls[i]) {
      if i == 0 {
        assert ps[i] == p1 && cls[i] == c1;
      } else if i == 1 {
        assert ps[i] == p2 && cls[i] == c2;
      } else {
        assert ps[i] == p3 && cls[i] == c3;
      }
    }
    SpecOfPieces(ps, cls);
  }

  /** Whitespace before a caret, tilde or bare clause is stripped before
      it is translated. */
  lemma IntervalSpecAfterSpace(lead: string, m: Modifier, body: string)
    requires AllSpace(lead) && ParseFragment(body).Some?
    ensures OneSemverSpec(lead + (ModifierText(m) + body)) == Ok(IntervalClause(m, ParseFragment(body).value))
  {
    var t := ModifierText(m) + body;
    assert Strip(lead + t) == Strip(t) by {
      FragmentText(body);
      StripInterval(m, body);
      StripLead(lead, t);
    }
    IntervalSpecOf(m, body);
  }

  /** Leading whitespace is stripped from a word that has non-space ends. */
  lemma StripLead(lead: string, t: string)
    requires AllSpace(lead) && |t| > 0 && !IsSpace(t[0]) && !IsSpace(t[|t| - 1])
    ensures Strip(lead + t) == t
  {
    assert lead + t == lead + (t + "");
    StripAround(lead, t, "");
  }

  /** The empty specification is refused, naming the empty clause. */
  lemma EmptySpecRejected()
    ensures SemverSpec("") == Err(InvalidSpec(""))
  {
    SplitNoSeparator("", ',');
    BlankRejected("");
  }

  /** After a `^` or `~`, a recognised caret or tilde clause continues with
      `v` or a digit. */
  lemma IntervalAfterModifier(t: string)
    requires MatchInterval(t).Some? && |t| > 0 && (t[0] == '^' || t[0] == '~')
    ensures |t| > 1 && (t[1] == 'v' || IsDigit(t[1]))
  {
    var c := Chomp(t);
    var (m, f) := MatchInterval(t).value;
    var k := |ModifierText(m)|;
    var body := c[k..];
    FragmentText(body);
    assert c == ModifierText(m) + body by { Halves(c, k); }
    assert t[0] == c[0];
    assert m != Bare;
    assert t[1] == c[1] == body[0];
  }

  /** A recognised caret, tilde or bare clause holds no whitespace, except
      for a final newline. */
  lemma IntervalNoSpace(t: string)
    requires MatchInterval(t).Some?
    ensures forall k :: 0 <= k < |t| - 1 ==> !IsSpace(t[k])
  {
    var c := Chomp(t);
    var m := MatchInterval(t).value.0;
    var k := |ModifierText(m)|;
    var body := c[k..];
    assert c == ModifierText(m) + body && NoSpace(body) by {
      FragmentWord(body);
      Halves(c, k);
    }
    NoSpaceBeforeEnd(t, ModifierText(m), body);
  }

  /** A text that is a non-space character or nothing, then a word, holds no
      whitespace before a final newline. */
  lemma NoSpaceBeforeEnd(t: string, pre: string, body: string)
    requires Chomp(t) == pre + body && NoSpace(body)
    requires |pre| <= 1 && (|pre| == 1 ==> !IsSpace(pre[0]))
    ensures forall k :: 0 <= k < |t| - 1 ==> !IsSpace(t[k])
  {
    var c := Chomp(t);
    forall i | 0 <= i < |t| - 1 ensures !IsSpace(t[i]) {
      assert t[i] == c[i];
      if i >= |pre| {
        NoSpaceAt(body, i - |pre|);
      }
    }
  }

  /** A recognised hyphen range holds whitespace: the run before the
      hyphen is not empty. */
  lemma HyphenHasSpace(t: string)
    requires MatchHyphen(t).Some?
    ensures exists k :: 0 <= k < |t| && IsSpace(t[k])
  {
    var y := HyphenWords(t).value;
    AllSpaceAt(y.gap1, 0);
    var k := |y.lead| + |y.low|;
    assert t[k] == y.gap1[0];
  }

  /** A hyphen needs whitespace on both sides: `a-b` is rejected for any two
      fragments, and the error names the clause. */
  lemma HyphenWithoutSpaceRejected(a: string, b: string)
    requires ParseFragment(a).Some? && ParseFragment(b).Some?
    ensures OneSemverSpec(a + ("-" + b)) == Err(InvalidSpec(a + ("-" + b)))
  {
    var t := a + ("-" + b);
    FragmentText(a);
    FragmentText(b);
    assert Strip(t) == t by {
      StripJoined(a, b, '-');
    }
    assert !Recognised(t) by {
      FragmentWord(a);
      FragmentWord(b);
      JoinedWord(a, b, '-');
      assert t[|a|] == '-' && t[0] == a[0];
      UnspacedRejected(t, |a|);
    }
    OneSemverSpecMeaning(t);
  }

  /** Two fragments separated by whitespace alone are rejected: `a b` is
      neither a range nor a hyphen range. */
  lemma SpaceSeparatedRejected(a: string, b: string)
    requires ParseFragment(a).Some? && ParseFragment(b).Some?
    ensures OneSemverSpec(a + (" " + b)) == Err(InvalidSpec(a + (" " + b)))
  {
    var t := a + (" " + b);
    FragmentText(a);
    FragmentText(b);
    assert Strip(t) == t by {
      StripJoined(a, b, ' ');
    }
    assert !Recognised(t) by {
      FragmentWord(a);
      FragmentWord(b);
      assert '-' !in t;
      assert t[|a|] == ' ' && t[0] == a[0];
      InnerSpaceRejected(t, |a|);
    }
    OneSemverSpecMeaning(t);
  }

  /** Two words joined by one character need no stripping. */
  lemma StripJoined(a: string, b: string, c: char)
    requires |a| > 0 && !IsSpace(a[0]) && |b| > 0 && IsDigit(b[|b| - 1])
    ensures Strip(a + ([c] + b)) == a + ([c] + b)
  {
    var t := a + ([c] + b);
    assert t == (a + [c]) + b;
    LastOf(a + [c], b);
    assert t[0] == a[0];
    StripWord(t);
  }

  /** No character of `a + ([c] + b)` is whitespace when none of `a`, `c`
      and `b` is. */
  lemma JoinedWord(a: string, b: string, c: char)
    requires NoSpace(a) && NoSpace(b) && !IsSpace(c)
    ensures forall k :: 0 <= k < |a + ([c] + b)| ==> !IsSpace((a + ([c] + b))[k])
  {
    forall k | 0 <= k < |a + ([c] + b)| ensures !IsSpace((a + ([c] + b))[k]) {
      if k < |a| {
        NoSpaceAt(a, k);
      } else if k > |a| {
        NoSpaceAt(b, k - |a| - 1);
      }
    }
  }

  /** A clause that starts with `v` or a digit, holds a hyphen and no
      whitespace matches no pattern. */
  lemma UnspacedRejected(t: string, n: nat)
    requires n < |t| && t[n] == '-' && (t[0] == 'v' || IsDigit(t[0]))
    requires forall k :: 0 <= k < |t| ==> !IsSpace(t[k])
    ensures !Recognised(t)
  {
    var interval, inequality, hyphen := MatchInterval(t).Some?, MatchInequality(t).Some?, MatchHyphen(t).Some?;
    if interval {
      IntervalShape(t);
    }
    if inequality {
      InequalityShape(t);
    }
    if hyphen {
      HyphenHasSpace(t);
    }
    assert !interval && !inequality && !hyphen;
  }

  /** A clause that starts with `v` or a digit, holds whitespace before its
      last character and no hyphen matches no pattern. */
  lemma InnerSpaceRejected(t: string, n: nat)
    requires n < |t| - 1 && IsSpace(t[n]) && '-' !in t && (t[0] == 'v' || IsDigit(t[0]))
    ensures !Recognised(t)
  {
    var interval, inequality, hyphen := MatchInterval(t).Some?, MatchInequality(t).Some?, MatchHyphen(t).Some?;
    if interval {
      IntervalNoSpace(t);
    }
    if inequality {
      InequalityShape(t);
    }
    if hyphen {
      HyphenShape(t);
    }
    assert !interval && !inequality && !hyphen;
  }

  /** A second modifier is rejected: a clause starting with two of `^` and
      `~` matches no pattern. */
  lemma ModifierTwiceRejected(t: string)
    requires |t| >= 2 && (t[0] == '^' || t[0] == '~') && (t[1] == '^' || t[1] == '~')
    ensures !Recognised(t)
  {
    var interval, inequality, hyphen := MatchInterval(t).Some?, MatchInequality(t).Some?, MatchHyphen(t).Some?;
    if interval {
      IntervalAfterModifier(t);
    }
    if inequality {
      InequalityShape(t);
    }
    if hyphen {
      HyphenShape(t);
    }
    ModifiersExcluded(t, interval, inequality, hyphen);
  }

  /** Two leading modifiers rule out each of the three shapes. */
  lemma ModifiersExcluded(t: string, interval: bool, inequality: bool, hyphen: bool)
    requires |t| >= 2 && (t[0] == '^' || t[0] == '~') && (t[1] == '^' || t[1] == '~')
    requires interval ==> t[1] == 'v' || IsDigit(t[1])
    requires inequality ==> |t| > 0 && (t[0] == '≥' || t[0] == '>' || t[0] == '=' || t[0] == '<')
    requires hyphen ==> |t| > 0 && (IsSpace(t[0]) || t[0] == 'v' || IsDigit(t[0]))
    ensures !interval && !inequality && !hyphen
  {
  }

  /** What follows the operator of an accepted inequality: whitespace, a
      `v` or a digit. */
  lemma AfterOperator(q: Inequality)
    requires AllSpace(q.space)
    requires q.v == "" || q.v == "v"
    requires ParseFragment(q.body).Some?
    ensures var t, k := InequalityText(q), |RelationText(q.rel)|;
            k < |t| && (IsSpace(t[k]) || t[k] == 'v' || IsDigit(t[k]))
  {
    FragmentText(q.body);
    var k := |RelationText(q.rel)|;
    var rest := q.space + (q.v + q.body);
    assert InequalityText(q)[k] == rest[0];
    if |q.space| > 0 {
      assert rest[0] == q.space[0];
    } else if q.v == "v" {
      assert rest[0] == 'v';
    } else {
      assert rest[0] == q.body[0];
    }
  }

  /** The operators ">", "<=" and "==" are not Julia's: a clause starting
      with one of them is rejected. */
  lemma UnsupportedOperatorRejected(t: string)
    requires |t| >= 2
    requires (t[0] == '>' && t[1] != '=') || (t[0] == '<' && t[1] == '=') || (t[0] == '=' && t[1] == '=')
    ensures !Recognised(t)
  {
    var interval, inequality, hyphen := MatchInterval(t).Some?, MatchInequality(t).Some?, MatchHyphen(t).Some?;
    if interval {
      IntervalShape(t);
    }
    if hyphen {
      HyphenShape(t);
    }
    if inequality {
      InequalityOperator(t);
    }
    OperatorFitsNoShape(t, interval, inequality, hyphen);
  }

  /** None of the three shapes begins with an unsupported operator. */
  lemma OperatorFitsNoShape(t: string, interval: bool, inequality: bool, hyphen: bool)
    requires |t| >= 2
    requires (t[0] == '>' && t[1] != '=') || (t[0] == '<' && t[1] == '=') || (t[0] == '=' && t[1] == '=')
    requires interval ==> t[0] == '^' || t[0] == '~' || t[0] == 'v' || IsDigit(t[0])
    requires hyphen ==> IsSpace(t[0]) || t[0] == 'v' || IsDigit(t[0])
    requires inequality ==> (t[0] == '>' ==> t[1] == '=') && (t[0] == '<' || t[0] == '=' ==> t[1] != '=')
    ensures !interval && !inequality && !hyphen
  {
  }

  /** The first two characters of a recognised inequality. */
  lemma InequalityOperator(t: string)
    requires MatchInequality(t).Some? && |t| >= 2
    ensures t[0] == '>' ==> t[1] == '='
    ensures t[0] == '<' || t[0] == '=' ==> t[1] != '='
  {
    var c := Chomp(t);
    var q := InequalityParts(c).value;
    assert InequalityText(q) == c && ParseFragment(q.body).Some?;
    AfterOperator(q);
    assert c[0] == t[0] && c[1] == t[1];
    OperatorAt(c, q);
  }

  /** The operator of an inequality is its first character, and the
      character after a one-character operator is whitespace, `v` or a digit. */
  lemma OperatorAt(c: string, q: Inequality)
    requires InequalityText(q) == c
    requires |RelationText(q.rel)| < |c|
    requires var k := |RelationText(q.rel)|; IsSpace(c[k]) || c[k] == 'v' || IsDigit(c[k])
    ensures c[0] == '>' ==> c[1] == '='
    ensures c[0] == '<' || c[0] == '=' ==> c[1] != '='
  {
    assert c[0] == RelationText(q.rel)[0];
    if q.rel == AtLeast {
      assert c[1] == RelationText(q.rel)[1];
    }
  }

  /** A clause starting with ">", "<=" or "==" is refused with an error
      naming it. */
  lemma UnsupportedOperatorSpec(t: string)
    requires |t| >= 2 && !IsSpace(t[|t| - 1])
    requires (t[0] == '>' && t[1] != '=') || (t[0] == '<' && t[1] == '=') || (t[0] == '=' && t[1] == '=')
    ensures OneSemverSpec(t) == Err(InvalidSpec(t))
  {
    StripWord(t);
    UnsupportedOperatorRejected(t);
    OneSemverSpecMeaning(t);
  }

  /** A clause starting with two modifiers is refused with an error naming
      it. */
  lemma ModifierTwiceSpec(t: string)
    requires |t| >= 2 && (t[0] == '^' || t[0] == '~') && (t[1] == '^' || t[1] == '~')
    requires !IsSpace(t[|t| - 1])
    ensures OneSemverSpec(t) == Err(InvalidSpec(t))
  {
    StripWord(t);
    ModifierTwiceRejected(t);
    OneSemverSpecMeaning(t);
  }
}
