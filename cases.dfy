/** The package's own examples, stated as facts about the model: the clause
    each example translates to and the release versions it admits, and the
    examples that are refused. Clauses are computed from the captured
    fragments; the lemmas of the Specs and PkgRules modules carry each
    fragment's text to its clause. */
module Cases {
  import opened Wrappers
  import opened Text
  import opened Ranges
  import opened Fragment
  import opened Clauses
  import opened Specs
  import opened PkgRules
  import opened JuliaVersion

  // ---------------------------------------------------------------------
  // Caret, tilde and bare fragments

  /** "^1.2.3" and "1.2.3" are [1.2.3, 2.0.0); "~1.2.3" is not. */
  lemma CaretExample()
    ensures var f := Fragment("1", Some("2"), Some("3"));
            var c := IntervalClause(Caret, f);
            && c == [Comparator(GE, Triple(1, 2, 3)), Comparator(LT, Triple(2, 0, 0))]
            && IntervalClause(Bare, f) == c && IntervalClause(Tilde, f) != c
            && !ClauseHolds(c, Triple(1, 2, 2)) && ClauseHolds(c, Triple(1, 2, 3))
            && ClauseHolds(c, Triple(1, 8, 0)) && !ClauseHolds(c, Triple(2, 1, 0))
  {
    var c := IntervalClause(Caret, Fragment("1", Some("2"), Some("3")));
    assert c == [Comparator(GE, Triple(1, 2, 3)), Comparator(LT, Triple(2, 0, 0))];
    ClauseHoldsSmall(c, Triple(1, 2, 2));
    ClauseHoldsSmall(c, Triple(1, 2, 3));
    ClauseHoldsSmall(c, Triple(1, 8, 0));
    ClauseHoldsSmall(c, Triple(2, 1, 0));
  }

  /** "^0.2.3", "0.2.3" and "~0.2.3" are all [0.2.3, 0.3.0). */
  lemma ZeroMajorExample()
    ensures var f := Fragment("0", Some("2"), Some("3"));
            var c := IntervalClause(Caret, f);
            && c == [Comparator(GE, Triple(0, 2, 3)), Comparator(LT, Triple(0, 3, 0))]
            && IntervalClause(Bare, f) == c && IntervalClause(Tilde, f) == c
            && ClauseHolds(c, Triple(0, 2, 3)) && ClauseHolds(c, Triple(0, 2, 10))
            && !ClauseHolds(c, Triple(0, 3, 0)) && !ClauseHolds(c, Triple(1, 2, 3))
  {
    var c := IntervalClause(Caret, Fragment("0", Some("2"), Some("3")));
    assert c == [Comparator(GE, Triple(0, 2, 3)), Comparator(LT, Triple(0, 3, 0))];
    ClauseHoldsSmall(c, Triple(0, 2, 3));
    ClauseHoldsSmall(c, Triple(0, 2, 10));
    ClauseHoldsSmall(c, Triple(0, 3, 0));
    ClauseHoldsSmall(c, Triple(1, 2, 3));
  }

  /** "^0.0.3", "0.0.3" and "~0.0.3" admit 0.0.3 alone. */
  lemma ZeroMinorExample()
    ensures var f := Fragment("0", Some("0"), Some("3"));
            var c := IntervalClause(Caret, f);
            && c == [Comparator(EQ, Triple(0, 0, 3))]
            && IntervalClause(Bare, f) == c && IntervalClause(Tilde, f) == c
            && ClauseHolds(c, Triple(0, 0, 3)) && !ClauseHolds(c, Triple(0, 0, 2))
            && !ClauseHolds(c, Triple(0, 0, 4)) && !ClauseHolds(c, Triple(0, 2, 10))
            && !ClauseHolds(c, Triple(1, 0, 0))
  {
    var c := IntervalClause(Caret, Fragment("0", Some("0"), Some("3")));
    assert c == [Comparator(EQ, Triple(0, 0, 3))];
    ClauseHoldsSmall(c, Triple(0, 0, 3));
    ClauseHoldsSmall(c, Triple(0, 0, 2));
    ClauseHoldsSmall(c, Triple(0, 0, 4));
    ClauseHoldsSmall(c, Triple(0, 2, 10));
    ClauseHoldsSmall(c, Triple(1, 0, 0));
  }

  /** "^0", "0" and "~0" are everything below 1.0.0. */
  lemma ZeroExample()
    ensures var f := Fragment("0", None, None);
            var c := IntervalClause(Caret, f);
            && c == [Comparator(LT, Triple(1, 0, 0))]
            && IntervalClause(Bare, f) == c && IntervalClause(Tilde, f) == c
            && ClauseHolds(c, Triple(0, 0, 0)) && ClauseHolds(c, Triple(0, 99, 99))
            && !ClauseHolds(c, Triple(1, 0, 0))
  {
    var c := IntervalClause(Caret, Fragment("0", None, None));
    assert c == [Comparator(LT, Triple(1, 0, 0))];
    ClauseHoldsSmall(c, Triple(0, 0, 0));
    ClauseHoldsSmall(c, Triple(0, 99, 99));
    ClauseHoldsSmall(c, Triple(1, 0, 0));
  }

  /** "^0.0", "0.0" and "~0.0" are everything below 0.1.0. */
  lemma ZeroZeroExample()
    ensures var f := Fragment("0", Some("0"), None);
            var c := IntervalClause(Caret, f);
            && c == [Comparator(LT, Triple(0, 1, 0))]
            && IntervalClause(Bare, f) == c && IntervalClause(Tilde, f) == c
            && ClauseHolds(c, Triple(0, 0, 0)) && ClauseHolds(c, Triple(0, 0, 1))
            && ClauseHolds(c, Triple(0, 0, 99)) && !ClauseHolds(c, Triple(0, 1, 0))
            && !ClauseHolds(c, Triple(0, 2, 3))
  {
    var c := IntervalClause(Caret, Fragment("0", Some("0"), None));
    assert c == [Comparator(LT, Triple(0, 1, 0))];
    ClauseHoldsSmall(c, Triple(0, 0, 0));
    ClauseHoldsSmall(c, Triple(0, 0, 1));
    ClauseHoldsSmall(c, Triple(0, 0, 99));
    ClauseHoldsSmall(c, Triple(0, 1, 0));
    ClauseHoldsSmall(c, Triple(0, 2, 3));
  }

  /** "~1.2.3" is [1.2.3, 1.3.0), unlike "1.2.3" and "^1.2.3". */
  lemma TildeExample()
    ensures var f := Fragment("1", Some("2"), Some("3"));
            var c := IntervalClause(Tilde, f);
            && c == [Comparator(GE, Triple(1, 2, 3)), Comparator(LT, Triple(1, 3, 0))]
            && IntervalClause(Bare, f) != c && IntervalClause(Caret, f) != c
            && !ClauseHolds(c, Triple(1, 2, 2)) && ClauseHolds(c, Triple(1, 2, 3))
            && ClauseHolds(c, Triple(1, 2, 99)) && !ClauseHolds(c, Triple(1, 3, 0))
            && !ClauseHolds(c, Triple(1, 8, 0))
  {
    var c := IntervalClause(Tilde, Fragment("1", Some("2"), Some("3")));
    assert c == [Comparator(GE, Triple(1, 2, 3)), Comparator(LT, Triple(1, 3, 0))];
    ClauseHoldsSmall(c, Triple(1, 2, 2));
    ClauseHoldsSmall(c, Triple(1, 2, 3));
    ClauseHoldsSmall(c, Triple(1, 2, 99));
    ClauseHoldsSmall(c, Triple(1, 3, 0));
    ClauseHoldsSmall(c, Triple(1, 8, 0));
  }

  /** Dropped numbers count as zero: "1.2" is "1.2.0" under every modifier,
      and "1" is "1.0.0". */
  lemma DroppedExample(m: Modifier)
    ensures IntervalClause(m, Fragment("1", Some("2"), None))
            == IntervalClause(m, Fragment("1", Some("2"), Some("0")))
    ensures IntervalClause(Bare, Fragment("1", None, None))
            == IntervalClause(Bare, Fragment("1", Some("0"), Some("0")))
  {
    PatchZeroClause(m, Fragment("1", Some("2"), None));
    MinorZeroClause(Bare, Fragment("1", None, None));
  }

  // ---------------------------------------------------------------------
  // Inequalities

  /** "= 1.2.3", ">= 1.2.3" and "< 1.2.3". */
  lemma InequalityExample()
    ensures var f := Fragment("1", Some("2"), Some("3"));
            var eq, ge, lt := InequalityClause(Exactly, f), InequalityClause(AtLeast, f), InequalityClause(Below, f);
            && eq == [Comparator(EQ, Triple(1, 2, 3))]
            && ClauseHolds(eq, Triple(1, 2, 3)) && !ClauseHolds(eq, Triple(1, 2, 2))
            && !ClauseHolds(eq, Triple(1, 2, 4))
            && ge == [Comparator(GE, Triple(1, 2, 3))]
            && ClauseHolds(ge, Triple(1, 2, 3)) && !ClauseHolds(ge, Triple(1, 2, 2))
            && !ClauseHolds(ge, Triple(0, 0, 0)) && ClauseHolds(ge, Triple(99, 99, 99))
            && lt == [Comparator(LT, Triple(1, 2, 3))]
            && !ClauseHolds(lt, Triple(1, 2, 3)) && ClauseHolds(lt, Triple(1, 2, 2))
            && ClauseHolds(lt, Triple(0, 0, 0)) && !ClauseHolds(lt, Triple(99, 99, 99))
  {
    var f := Fragment("1", Some("2"), Some("3"));
    var eq, ge, lt := InequalityClause(Exactly, f), InequalityClause(AtLeast, f), InequalityClause(Below, f);
    assert eq == [Comparator(EQ, Triple(1, 2, 3))];
    assert ge == [Comparator(GE, Triple(1, 2, 3))];
    assert lt == [Comparator(LT, Triple(1, 2, 3))];
    ClauseHoldsSmall(eq, Triple(1, 2, 3));
    ClauseHoldsSmall(eq, Triple(1, 2, 2));
    ClauseHoldsSmall(eq, Triple(1, 2, 4));
    ClauseHoldsSmall(ge, Triple(1, 2, 3));
    ClauseHoldsSmall(ge, Triple(1, 2, 2));
    ClauseHoldsSmall(ge, Triple(0, 0, 0));
    ClauseHoldsSmall(ge, Triple(99, 99, 99));
    ClauseHoldsSmall(lt, Triple(1, 2, 3));
    ClauseHoldsSmall(lt, Triple(1, 2, 2));
    ClauseHoldsSmall(lt, Triple(0, 0, 0));
    ClauseHoldsSmall(lt, Triple(99, 99, 99));
  }

  // ---------------------------------------------------------------------
  // Hyphen ranges

  /** "1.2 - 4.5.6" is "1.2.0 - 4.5.6", and "1.2.3 - 4.5.6" is
      [1.2.3, 4.5.6] with both ends included. */
  lemma HyphenExample()
    ensures HyphenClause(Fragment("1", Some("2"), None), Fragment("4", Some("5"), Some("6")))
            == HyphenClause(Fragment("1", Some("2"), Some("0")), Fragment("4", Some("5"), Some("6")))
    ensures var c := HyphenClause(Fragment("1", Some("2"), Some("3")), Fragment("4", Some("5"), Some("6"))).value;
            && c == [Comparator(GE, Triple(1, 2, 3)), Comparator(LE, Triple(4, 5, 6))]
            && ClauseHolds(c, Triple(1, 2, 3)) && ClauseHolds(c, Triple(4, 5, 6))
            && ClauseHolds(c, Triple(3, 0, 0)) && !ClauseHolds(c, Triple(1, 2, 2))
            && !ClauseHolds(c, Triple(4, 5, 7))
  {
    var c := HyphenClause(Fragment("1", Some("2"), Some("3")), Fragment("4", Some("5"), Some("6"))).value;
    assert c == [Comparator(GE, Triple(1, 2, 3)), Comparator(LE, Triple(4, 5, 6))];
    ClauseHoldsSmall(c, Triple(1, 2, 3));
    ClauseHoldsSmall(c, Triple(4, 5, 6));
    ClauseHoldsSmall(c, Triple(3, 0, 0));
    ClauseHoldsSmall(c, Triple(1, 2, 2));
    ClauseHoldsSmall(c, Triple(4, 5, 7));
  }

  /** An upper end with fewer numbers rounds up: "0.1 - 0.2" is
      [0.1.0, 0.3.0) and "0.1 - 0" is [0.1.0, 1.0.0). */
  lemma HyphenRoundUpExample()
    ensures var c := HyphenClause(Fragment("0", Some("1"), None), Fragment("0", Some("2"), None)).value;
            && c == [Comparator(GE, Triple(0, 1, 0)), Comparator(LT, Triple(0, 3, 0))]
            && !ClauseHolds(c, Triple(0, 3, 0)) && ClauseHolds(c, Triple(0, 2, 99))
    ensures var c := HyphenClause(Fragment("0", Some("1"), None), Fragment("0", None, None)).value;
            && c == [Comparator(GE, Triple(0, 1, 0)), Comparator(LT, Triple(1, 0, 0))]
            && ClauseHolds(c, Triple(0, 3, 0))
  {
    var c := HyphenClause(Fragment("0", Some("1"), None), Fragment("0", Some("2"), None)).value;
    assert c == [Comparator(GE, Triple(0, 1, 0)), Comparator(LT, Triple(0, 3, 0))];
    ClauseHoldsSmall(c, Triple(0, 3, 0));
    ClauseHoldsSmall(c, Triple(0, 2, 99));
    var d := HyphenClause(Fragment("0", Some("1"), None), Fragment("0", None, None)).value;
    assert d == [Comparator(GE, Triple(0, 1, 0)), Comparator(LT, Triple(1, 0, 0))];
    ClauseHoldsSmall(d, Triple(0, 3, 0));
  }

  // ---------------------------------------------------------------------
  // Several clauses

  /** A specification of three clauses of two comparators each holds
      exactly when both comparators of one clause do. */
  lemma HoldsThree(a: Clause, b: Clause, c: Clause, v: Triple)
    requires |a| == 2 && |b| == 2 && |c| == 2
    ensures Holds([a, b, c], v) <==>
              || (Satisfies(a[0], v) && Satisfies(a[1], v))
              || (Satisfies(b[0], v) && Satisfies(b[1], v))
              || (Satisfies(c[0], v) && Satisfies(c[1], v))
  {
    ClauseHoldsSmall(a, v);
    ClauseHoldsSmall(b, v);
    ClauseHoldsSmall(c, v);
    assert [a, b, c][0] == a && [a, b, c][1] == b && [a, b, c][2] == c;
  }

  /** The clauses of "1.2.3, ~9.1, 11". */
  lemma CommaClauses()
    ensures IntervalClause(Bare, Fragment("1", Some("2"), Some("3")))
            == [Comparator(GE, Triple(1, 2, 3)), Comparator(LT, Triple(2, 0, 0))]
    ensures IntervalClause(Tilde, Fragment("9", Some("1"), None))
            == [Comparator(GE, Triple(9, 1, 0)), Comparator(LT, Triple(9, 2, 0))]
    ensures IntervalClause(Bare, Fragment("11", None, None))
            == [Comparator(GE, Triple(11, 0, 0)), Comparator(LT, Triple(12, 0, 0))]
  {
    assert Value("11") == 11;
  }

  /** The comma-separated pieces of "1.2.3, ~9.1, 11": a fragment, a tilde
      clause after a space and a fragment after a space. */
  lemma CommaPieces()
    ensures Join(["1.2.3", " " + ("~" + "9.1"), " " + "11"], ',') == "1.2.3, ~9.1, 11"
    ensures ',' !in "1.2.3" && ',' !in " " + ("~" + "9.1") && ',' !in " " + "11"
  {
    assert " " + ("~" + "9.1") == " ~9.1" && " " + "11" == " 11";
    assert Join([" 11"], ',') == " 11";
    assert Join([" ~9.1", " 11"], ',') == " ~9.1" + [','] + " 11" by {
      assert [" ~9.1", " 11"][1..] == [" 11"];
    }
    assert ["1.2.3", " ~9.1", " 11"][1..] == [" ~9.1", " 11"];
  }

  /** The first piece, "1.2.3", is its bare clause. */
  lemma CommaFirst()
    ensures OneSemverSpec("1.2.3") == Ok([Comparator(GE, Triple(1, 2, 3)), Comparator(LT, Triple(2, 0, 0))])
  {
    var f := Fragment("1", Some("2"), Some("3"));
    assert Render(f) == "1.2.3";
    ParseRendered("1.2.3", f);
    BareSpec("1.2.3");
    CommaClauses();
  }

  /** The second piece, " ~9.1", is the tilde clause of 9.1 once stripped. */
  lemma CommaSecond()
    ensures OneSemverSpec(" " + ("~" + "9.1"))
            == Ok([Comparator(GE, Triple(9, 1, 0)), Comparator(LT, Triple(9, 2, 0))])
  {
    var f := Fragment("9", Some("1"), None);
    assert Render(f) == "9.1";
    ParseRendered("9.1", f);
    IntervalSpecAfterSpace(" ", Tilde, "9.1");
    assert ModifierText(Tilde) + "9.1" == "~" + "9.1";
    CommaClauses();
  }

  /** The third piece, " 11", is the bare clause of 11 once stripped. */
  lemma CommaThird()
    ensures OneSemverSpec(" " + "11") == Ok([Comparator(GE, Triple(11, 0, 0)), Comparator(LT, Triple(12, 0, 0))])
  {
    var f := Fragment("11", None, None);
    assert Render(f) == "11";
    ParseRendered("11", f);
    IntervalSpecAfterSpace(" ", Bare, "11");
    assert ModifierText(Bare) + "11" == "11";
    CommaClauses();
  }

  /** "1.2.3, ~9.1, 11" translates, piece by piece, to three interval
      clauses. */
  lemma CommaSpec()
    ensures SemverSpec("1.2.3, ~9.1, 11") ==
              Ok([[Comparator(GE, Triple(1, 2, 3)), Comparator(LT, Triple(2, 0, 0))],
                  [Comparator(GE, Triple(9, 1, 0)), Comparator(LT, Triple(9, 2, 0))],
                  [Comparator(GE, Triple(11, 0, 0)), Comparator(LT, Triple(12, 0, 0))]])
  {
    CommaPieces();
    CommaFirst();
    CommaSecond();
    CommaThird();
    SpecOfThree("1.2.3", " " + ("~" + "9.1"), " " + "11",
                [Comparator(GE, Triple(1, 2, 3)), Comparator(LT, Triple(2, 0, 0))],
                [Comparator(GE, Triple(9, 1, 0)), Comparator(LT, Triple(9, 2, 0))],
                [Comparator(GE, Triple(11, 0, 0)), Comparator(LT, Triple(12, 0, 0))]);
  }

  /** The three clauses of "1.2.3, ~9.1, 11" admit 1.2.3, 1.9.9, 9.1.5 and
      11.1.2, and not 2.0.0, 9.2.0 or 10.0.0 (test_semver.py:129-137). */
  lemma CommaMembers(sp: Spec)
    requires sp == [[Comparator(GE, Triple(1, 2, 3)), Comparator(LT, Triple(2, 0, 0))],
                    [Comparator(GE, Triple(9, 1, 0)), Comparator(LT, Triple(9, 2, 0))],
                    [Comparator(GE, Triple(11, 0, 0)), Comparator(LT, Triple(12, 0, 0))]]
    ensures && Holds(sp, Triple(1, 2, 3)) && Holds(sp, Triple(1, 9, 9))
            && !Holds(sp, Triple(2, 0, 0)) && Holds(sp, Triple(9, 1, 5))
            && !Holds(sp, Triple(9, 2, 0)) && !Holds(sp, Triple(10, 0, 0))
            && Holds(sp, Triple(11, 1, 2))
  {
    var a, b, c := sp[0], sp[1], sp[2];
    assert sp == [a, b, c];
    HoldsThree(a, b, c, Triple(1, 2, 3));
    HoldsThree(a, b, c, Triple(1, 9, 9));
    HoldsThree(a, b, c, Triple(2, 0, 0));
    HoldsThree(a, b, c, Triple(9, 1, 5));
    HoldsThree(a, b, c, Triple(9, 2, 0));
    HoldsThree(a, b, c, Triple(10, 0, 0));
    HoldsThree(a, b, c, Triple(11, 1, 2));
  }

  /** "1.2.3, ~9.1, 11": a version is in it when it is in one of the three
      clauses. */
  lemma CommaExample()
    ensures SemverSpec("1.2.3, ~9.1, 11").Ok?
    ensures var sp := SemverSpec("1.2.3, ~9.1, 11").value;
            && Holds(sp, Triple(1, 2, 3)) && Holds(sp, Triple(1, 9, 9))
            && !Holds(sp, Triple(2, 0, 0)) && Holds(sp, Triple(9, 1, 5))
            && !Holds(sp, Triple(9, 2, 0)) && !Holds(sp, Triple(10, 0, 0))
            && Holds(sp, Triple(11, 1, 2))
  {
    CommaSpec();
    CommaMembers(SemverSpec("1.2.3, ~9.1, 11").value);
  }

  // ---------------------------------------------------------------------
  // Julia's own examples

  /** "^1.2.3" is "1.2.3 - 1", "~1.2.3" is "1.2.3 - 1.2" and "^0.2.3" is
      "0.2.3 - 0.2". */
  lemma PkgHyphenExample()
    ensures IntervalClause(Caret, Fragment("1", Some("2"), Some("3")))
            == HyphenClause(Fragment("1", Some("2"), Some("3")), Fragment("1", None, None)).value
    ensures IntervalClause(Tilde, Fragment("1", Some("2"), Some("3")))
            == HyphenClause(Fragment("1", Some("2"), Some("3")), Fragment("1", Some("2"), None)).value
    ensures IntervalClause(Caret, Fragment("0", Some("2"), Some("3")))
            == HyphenClause(Fragment("0", Some("2"), Some("3")), Fragment("0", Some("2"), None)).value
  {
    CaretHyphenClause(Fragment("1", Some("2"), Some("3")));
    TildeHyphenClause(Fragment("1", Some("2"), Some("3")));
    TildeHyphenClause(Fragment("0", Some("2"), Some("3")));
    ZeroMajorTildeClause(Fragment("0", Some("2"), Some("3")));
  }

  /** "~1" is [1.0.0, 1.1.0): it is not "1.0.0 - 1", which also admits
      1.5.0. */
  lemma TildeMajorExample()
    ensures var c := IntervalClause(Tilde, Fragment("1", None, None));
            var h := HyphenClause(Fragment("1", Some("0"), Some("0")), Fragment("1", None, None)).value;
            && c == [Comparator(GE, Triple(1, 0, 0)), Comparator(LT, Triple(1, 1, 0))]
            && h == [Comparator(GE, Triple(1, 0, 0)), Comparator(LT, Triple(2, 0, 0))]
            && ClauseHolds(h, Triple(1, 5, 0)) && !ClauseHolds(c, Triple(1, 5, 0))
  {
    var c := IntervalClause(Tilde, Fragment("1", None, None));
    var h := HyphenClause(Fragment("1", Some("0"), Some("0")), Fragment("1", None, None)).value;
    assert c == [Comparator(GE, Triple(1, 0, 0)), Comparator(LT, Triple(1, 1, 0))];
    assert h == [Comparator(GE, Triple(1, 0, 0)), Comparator(LT, Triple(2, 0, 0))];
    ClauseHoldsSmall(c, Triple(1, 5, 0));
    ClauseHoldsSmall(h, Triple(1, 5, 0));
  }

  /** "0.0.0" translates to the single version 0.0.0. */
  lemma ExactZeroExample()
    ensures IntervalClause(Bare, Fragment("0", Some("0"), Some("0"))) == [Comparator(EQ, Triple(0, 0, 0))]
  {
    assert Value("0") == 0;
  }

  // ---------------------------------------------------------------------
  // Refused clauses

  /** "> 1.2.3", "<= 1.2.3" and "== 1.2.3" are refused. */
  lemma UnsupportedOperatorExample()
    ensures OneSemverSpec("> 1.2.3") == Err(InvalidSpec("> 1.2.3"))
    ensures OneSemverSpec("<= 1.2.3") == Err(InvalidSpec("<= 1.2.3"))
    ensures OneSemverSpec("== 1.2.3") == Err(InvalidSpec("== 1.2.3"))
  {
    UnsupportedOperatorSpec("> 1.2.3");
    UnsupportedOperatorSpec("<= 1.2.3");
    UnsupportedOperatorSpec("== 1.2.3");
  }

  /** "^^0.2.3" is refused. */
  lemma ModifierTwiceExample()
    ensures OneSemverSpec("^^0.2.3") == Err(InvalidSpec("^^0.2.3"))
  {
    ModifierTwiceSpec("^^0.2.3");
  }

  // ---------------------------------------------------------------------
  // Versions

  /** "1.8" reads as 1.8.0. */
  lemma ShortVersionExample()
    ensures ParseVersion("1.8") == Ok(Version(1, 8, 0, None, None))
  {
    SpelledRoundTrip(Version(1, 8, 0, None, None), 2, "", "");
    assert NumbersText(Version(1, 8, 0, None, None), 2) + ("" + "") == "1.8";
  }

  /** "1.2.3-DEV" reads as release 1.2.3 with the prerelease DEV. */
  lemma PrereleaseExample()
    ensures ParseVersion("1.2.3-DEV") == Ok(Version(1, 2, 3, Some(["DEV"]), None))
    ensures Release(ParseVersion("1.2.3-DEV").value) == Triple(1, 2, 3)
  {
    var v := Version(1, 2, 3, Some(["DEV"]), None);
    assert NumbersText(v, 3) + ("-DEV" + "") == "1.2.3-DEV";
    assert Spelling("-DEV", "", v.prerelease, v.build) by {
      assert Join(["DEV"], '.') == "DEV";
      assert IsIdent("DEV");
    }
    SpelledRoundTrip(v, 3, "-DEV", "");
  }
}
