/** The rules of Julia's compatibility notation that the translator is meant
    to reproduce, stated for every version fragment rather than for one
    example: which spellings translate to the same clause, and which do not. */
module PkgRules {
  import opened Wrappers
  import opened Text
  import opened Ranges
  import opened Fragment
  import opened Clauses
  import opened Specs

  /** The text "low - high", with single spaces around the hyphen. */
  function HyphenText(low: string, high: string): string {
    low + " - " + high
  }

  /** A hyphen range written with single spaces translates to the clause of
      its two fragments. */
  lemma HyphenTextSpec(low: string, high: string)
    requires ParseFragment(low).Some? && ParseFragment(high).Some?
    ensures OneSemverSpec(HyphenText(low, high)) ==
              Ok(HyphenClause(ParseFragment(low).value, ParseFragment(high).value).value)
  {
    var y := Layout("", low, " ", " ", high, "");
    HyphenTextLayout(low, high);
    HyphenSpecOf(y);
  }

  /** `low - high` is the hyphen layout with single spaces around the
      hyphen and nothing around the words. */
  lemma HyphenTextLayout(low: string, high: string)
    ensures Spaced(Layout("", low, " ", " ", high, ""))
    ensures Assemble(Layout("", low, " ", " ", high, "")) == HyphenText(low, high)
  {
  }

  /** `^f` translates to the caret clause of `f`. */
  lemma CaretSpec(body: string)
    requires ParseFragment(body).Some?
    ensures OneSemverSpec("^" + body) == Ok(IntervalClause(Caret, ParseFragment(body).value))
  {
    assert ModifierText(Caret) + body == "^" + body;
    IntervalSpecOf(Caret, body);
  }

  /** `~f` translates to the tilde clause of `f`. */
  lemma TildeSpec(body: string)
    requires ParseFragment(body).Some?
    ensures OneSemverSpec("~" + body) == Ok(IntervalClause(Tilde, ParseFragment(body).value))
  {
    assert ModifierText(Tilde) + body == "~" + body;
    IntervalSpecOf(Tilde, body);
  }

  /** A bare `f` translates to the bare clause of `f`. */
  lemma BareSpec(body: string)
    requires ParseFragment(body).Some?
    ensures OneSemverSpec(body) == Ok(IntervalClause(Bare, ParseFragment(body).value))
  {
    IntervalSpecOf(Bare, body);
    assert ModifierText(Bare) + body == body;
  }

  /** The caret is the default: `^f` and `f` translate alike. */
  lemma CaretIsDefault(body: string)
    requires ParseFragment(body).Some?
    ensures OneSemverSpec("^" + body).Ok?
    ensures OneSemverSpec("^" + body) == OneSemverSpec(body)
  {
    var f := ParseFragment(body).value;
    CaretSpec(body);
    BareSpec(body);
    CaretClause(f);
  }

  /** The caret and the bare fragment build the same clause. */
  lemma CaretClause(f: Fragment)
    requires WellFormed(f)
    ensures IntervalClause(Caret, f) == IntervalClause(Bare, f)
  {
  }

  /** Below 1.0.0 the tilde behaves as the caret: `~0.x.y` and `0.x.y`
      translate alike. */
  lemma ZeroMajorTildeIsDefault(body: string)
    requires ParseFragment(body).Some? && ParseFragment(body).value.major == "0"
    ensures OneSemverSpec("~" + body).Ok?
    ensures OneSemverSpec("~" + body) == OneSemverSpec(body)
  {
    var f := ParseFragment(body).value;
    TildeSpec(body);
    BareSpec(body);
    ZeroMajorTildeClause(f);
  }

  /** Below 1.0.0 the tilde and the bare fragment build the same clause. */
  lemma ZeroMajorTildeClause(f: Fragment)
    requires WellFormed(f) && f.major == "0"
    ensures IntervalClause(Tilde, f) == IntervalClause(Bare, f)
  {
  }

  /** From 1.0.0 on, the tilde keeps the minor fixed and the caret does not,
      so `^f` and `~f` admit different versions. */
  lemma TildeNarrowerThanCaret(body: string)
    requires ParseFragment(body).Some? && ParseFragment(body).value.major != "0"
    ensures OneSemverSpec("^" + body).Ok? && OneSemverSpec("~" + body).Ok?
    ensures exists v :: ClauseHolds(OneSemverSpec("^" + body).value, v)
                        && !ClauseHolds(OneSemverSpec("~" + body).value, v)
  {
    var f := ParseFragment(body).value;
    CaretSpec(body);
    TildeSpec(body);
    var v := TildeCaretWitness(f);
  }

  /** The next minor release is in the caret clause and not in the tilde
      clause of a fragment from 1.0.0 on. */
  lemma TildeCaretWitness(f: Fragment) returns (v: Triple)
    requires WellFormed(f) && f.major != "0"
    ensures v == Triple(ZeroFilled(f).major, ZeroFilled(f).minor + 1, 0)
    ensures ClauseHolds(IntervalClause(Caret, f), v) && !ClauseHolds(IntervalClause(Tilde, f), v)
  {
    var lo := ZeroFilled(f);
    v := Triple(lo.major, lo.minor + 1, 0);
    ClauseHoldsSmall(IntervalClause(Caret, f), v);
    ClauseHoldsSmall(IntervalClause(Tilde, f), v);
  }

  /** A dropped patch counts as zero: `f` and `f.0` translate alike when `f`
      has a minor, unless `f` is "0.0". */
  lemma DroppedPatch(m: Modifier, body: string)
    requires ParseFragment(body).Some?
    requires ParseFragment(body).value.minor.Some? && ParseFragment(body).value.patch.None?
    requires ParseFragment(body).value.major != "0" || ParseFragment(body).value.minor.value != "0"
    ensures OneSemverSpec(ModifierText(m) + body).Ok?
    ensures OneSemverSpec(ModifierText(m) + body) == OneSemverSpec(ModifierText(m) + (body + ".0"))
  {
    var f := ParseFragment(body).value;
    var g := Fragment(f.major, f.minor, Some("0"));
    assert OneSemverSpec(ModifierText(m) + body) == Ok(IntervalClause(m, f)) by {
      IntervalSpecOf(m, body);
    }
    assert OneSemverSpec(ModifierText(m) + (body + ".0")) == Ok(IntervalClause(m, g)) by {
      ParseWithPatch(body);
      IntervalSpecOf(m, body + ".0");
    }
    PatchZeroClause(m, f);
  }

  /** The clauses of `f` and of `f.0` are the same, unless `f` is "0.0". */
  lemma PatchZeroClause(m: Modifier, f: Fragment)
    requires WellFormed(f) && f.minor.Some? && f.patch.None?
    requires f.major != "0" || f.minor.value != "0"
    ensures IntervalClause(m, f) == IntervalClause(m, Fragment(f.major, f.minor, Some("0")))
  {
    assert Value("0") == 0;
  }

  /** Dropped minor and patch count as zero: `M` and `M.0.0` translate alike
      for a major other than "0". */
  lemma DroppedMinor(m: Modifier, body: string)
    requires ParseFragment(body).Some?
    requires ParseFragment(body).value.minor.None? && ParseFragment(body).value.major != "0"
    ensures OneSemverSpec(ModifierText(m) + body).Ok?
    ensures OneSemverSpec(ModifierText(m) + body) == OneSemverSpec(ModifierText(m) + (body + ".0.0"))
  {
    var f := ParseFragment(body).value;
    var g := Fragment(f.major, Some("0"), Some("0"));
    assert OneSemverSpec(ModifierText(m) + body) == Ok(IntervalClause(m, f)) by {
      IntervalSpecOf(m, body);
    }
    assert OneSemverSpec(ModifierText(m) + (body + ".0.0")) == Ok(IntervalClause(m, g)) by {
      ParseWithMinorPatch(body);
      IntervalSpecOf(m, body + ".0.0");
    }
    MinorZeroClause(m, f);
  }

  /** The clauses of `M` and of `M.0.0` are the same for a major other than
      "0". */
  lemma MinorZeroClause(m: Modifier, f: Fragment)
    requires WellFormed(f) && f.minor.None? && f.major != "0"
    ensures IntervalClause(m, f) == IntervalClause(m, Fragment(f.major, Some("0"), Some("0")))
  {
    assert Value("0") == 0;
  }

  /** A caret range from 1.0.0 on is the hyphen range up to its major:
      `^f` and `f - M` translate alike. */
  lemma CaretAsHyphen(body: string)
    requires ParseFragment(body).Some? && ParseFragment(body).value.major != "0"
    ensures OneSemverSpec("^" + body).Ok?
    ensures OneSemverSpec("^" + body) == OneSemverSpec(HyphenText(body, ParseFragment(body).value.major))
  {
    var f := ParseFragment(body).value;
    var u := Fragment(f.major, None, None);
    assert OneSemverSpec(HyphenText(body, f.major)) == Ok(HyphenClause(f, u).value) by {
      ParseMajor(body);
      HyphenTextSpec(body, f.major);
    }
    CaretSpec(body);
    CaretHyphenClause(f);
  }

  /** From 1.0.0 on, the caret clause is the hyphen clause up to the major. */
  lemma CaretHyphenClause(f: Fragment)
    requires WellFormed(f) && f.major != "0"
    ensures HyphenClause(f, Fragment(f.major, None, None)).value == IntervalClause(Caret, f)
  {
  }

  /** A tilde range with a minor is the hyphen range up to its major and
      minor, `~f` and `f - M.m`, unless the fragment starts "0.0". */
  lemma TildeAsHyphen(body: string)
    requires ParseFragment(body).Some? && ParseFragment(body).value.minor.Some?
    requires ParseFragment(body).value.major != "0" || ParseFragment(body).value.minor.value != "0"
    ensures var f := ParseFragment(body).value;
            && OneSemverSpec("~" + body).Ok?
            && OneSemverSpec("~" + body) == OneSemverSpec(HyphenText(body, f.major + "." + f.minor.value))
  {
    var f := ParseFragment(body).value;
    var u := Fragment(f.major, f.minor, None);
    assert OneSemverSpec(HyphenText(body, f.major + "." + f.minor.value)) == Ok(HyphenClause(f, u).value) by {
      ParseMajorMinor(body);
      HyphenTextSpec(body, f.major + "." + f.minor.value);
    }
    TildeSpec(body);
    TildeHyphenClause(f);
  }

  /** The tilde clause of a fragment with a minor is the hyphen clause up to
      its major and minor, unless the fragment starts "0.0". */
  lemma TildeHyphenClause(f: Fragment)
    requires WellFormed(f) && f.minor.Some?
    requires f.major != "0" || f.minor.value != "0"
    ensures HyphenClause(f, Fragment(f.major, f.minor, None)).value == IntervalClause(Tilde, f)
  {
  }

  /** From 1.0.0 on, a tilde range with a major alone fixes the minor at
      zero: `~M` admits [M.0.0, M.1.0), narrower than the hyphen range
      `M - M`, which admits [M.0.0, M+1.0.0). */
  lemma TildeMajorOnly(body: string)
    requires ParseFragment(body).Some? && ParseFragment(body).value.minor.None?
    requires ParseFragment(body).value.major != "0"
    ensures var f := ParseFragment(body).value;
            && OneSemverSpec("~" + body).Ok?
            && OneSemverSpec(HyphenText(body, f.major)).Ok?
            && exists v :: ClauseHolds(OneSemverSpec(HyphenText(body, f.major)).value, v)
                           && !ClauseHolds(OneSemverSpec("~" + body).value, v)
  {
    var f := ParseFragment(body).value;
    assert OneSemverSpec(HyphenText(body, f.major)) == Ok(HyphenClause(f, Fragment(f.major, None, None)).value) by {
      ParseMajor(body);
      HyphenTextSpec(body, f.major);
    }
    TildeSpec(body);
    var v := TildeMajorWitness(f);
  }

  /** M.1.0 is in the hyphen clause `M - M` and not in the tilde clause of a
      fragment with a major alone. */
  lemma TildeMajorWitness(f: Fragment) returns (v: Triple)
    requires WellFormed(f) && f.minor.None? && f.major != "0"
    ensures v == Triple(Value(f.major), 1, 0)
    ensures ClauseHolds(HyphenClause(f, Fragment(f.major, None, None)).value, v)
    ensures !ClauseHolds(IntervalClause(Tilde, f), v)
  {
    v := Triple(Value(f.major), 1, 0);
    ClauseHoldsSmall(HyphenClause(f, Fragment(f.major, None, None)).value, v);
    ClauseHoldsSmall(IntervalClause(Tilde, f), v);
  }
}
