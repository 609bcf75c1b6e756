/** The version fragment `_re_version` shared by the three clause patterns:
    an optional `v`, a major number, then optionally `.minor` and `.patch`.
    Minor and patch are recorded as present or absent, and every number is
    kept as the digit text that was written, because the translator tests
    components against the text "0". */
module Fragment {
  import opened Wrappers
  import opened Text
  import opened Ranges

  /** The three groups of `_re_version`. */
  datatype Fragment = Fragment(major: string, minor: Option<string>, patch: Option<string>)

  /** What the pattern can capture: digit runs, and a patch only after a minor. */
  predicate WellFormed(f: Fragment) {
    && IsDigits(f.major)
    && (f.minor.Some? ==> IsDigits(f.minor.value))
    && (f.patch.Some? ==> IsDigits(f.patch.value) && f.minor.Some?)
  }

  /** The components that were written, in order. */
  function Components(f: Fragment): seq<string> {
    [f.major]
    + (if f.minor.Some? then [f.minor.value] else [])
    + (if f.patch.Some? then [f.patch.value] else [])
  }

  /** The fragment written out without the `v`: "1", "1.2" or "1.2.3". */
  function Render(f: Fragment): (r: string)
    requires WellFormed(f)
    ensures |r| > 0 && IsDigit(r[0])
  {
    f.major + (if f.minor.None? then "" else
      "." + (f.minor.value + (if f.patch.None? then "" else "." + f.patch.value)))
  }

  /** Full match of `_re_version`: an optional `v`, then the numbers. */
  function ParseFragment(s: string): (r: Option<Fragment>)
    ensures r.Some? ==> WellFormed(r.value)
    ensures r.Some? ==> s == Render(r.value) || s == "v" + Render(r.value)
  {
    if |s| > 0 && s[0] == 'v' then
      assert s == "v" + s[1..];
      ParseNumbers(s[1..])
    else
      ParseNumbers(s)
  }

  /** A digit run, then optionally `.` and a digit run, and after that
      optionally `.` and a digit run. Each digit run is taken greedily,
      which a full match requires anyway since a digit may only be followed
      by a digit, a dot or the end. */
  function ParseNumbers(body: string): (r: Option<Fragment>)
    ensures r.Some? ==> WellFormed(r.value) && body == Render(r.value)
  {
    match ReadDigits(body)
    case None => None
    case Some((major, r1)) =>
      if |r1| == 0 then
        assert body == major + "";
        Some(Fragment(major, None, None))
      else if r1[0] != '.' then None
      else
        assert r1 == "." + r1[1..];
        match ReadDigits(r1[1..])
        case None => None
        case Some((minor, r2)) =>
          if |r2| == 0 then
            assert body == major + ("." + (minor + ""));
            Some(Fragment(major, Some(minor), None))
          else if r2[0] != '.' then None
          else
            assert r2 == "." + r2[1..];
            match ReadDigits(r2[1..])
            case None => None
            case Some((patch, r3)) =>
              if |r3| > 0 then None
              else
                assert r2 == "." + patch;
                assert body == major + ("." + (minor + ("." + patch)));
                Some(Fragment(major, Some(minor), Some(patch)))
  }

  /** Every well-formed fragment is recognised from its rendering, with or
      without the `v`, and with exactly the groups it was rendered from. */
  lemma ParseRender(f: Fragment)
    requires WellFormed(f)
    ensures ParseFragment(Render(f)) == Some(f)
    ensures ParseFragment("v" + Render(f)) == Some(f)
  {
    var r := Render(f);
    if f.patch.Some? {
      var tail := "." + f.patch.value;
      ReadDigitsOf(f.patch.value, "");
      ReadDigitsOf(f.minor.value, tail);
      assert r == f.major + ("." + (f.minor.value + tail));
      ReadDigitsOf(f.major, "." + (f.minor.value + tail));
    } else if f.minor.Some? {
      ReadDigitsOf(f.minor.value, "");
      assert r == f.major + ("." + f.minor.value);
      ReadDigitsOf(f.major, "." + f.minor.value);
    } else {
      ReadDigitsOf(f.major, "");
    }
    assert ("v" + r)[1..] == r;
  }

  /** Dropping the `v` of a recognised fragment leaves the same fragment. */
  lemma FragmentVPrefix(s: string)
    requires ParseFragment(s).Some? && s[0] == 'v'
    ensures ParseFragment(s[1..]) == ParseFragment(s)
  {
    var f := ParseFragment(s).value;
    ParseRender(f);
    assert s[1..] == Render(f);
  }

  /** Writing a patch after a fragment that has a minor and no patch. */
  lemma RenderWithPatch(f: Fragment, p: string)
    requires WellFormed(f) && f.minor.Some? && f.patch.None? && IsDigits(p)
    ensures Render(Fragment(f.major, f.minor, Some(p))) == Render(f) + ("." + p)
  {
  }

  /** Writing a minor and a patch after a fragment that has only a major. */
  lemma RenderWithMinorPatch(f: Fragment, m: string, p: string)
    requires WellFormed(f) && f.minor.None? && IsDigits(m) && IsDigits(p)
    ensures Render(Fragment(f.major, Some(m), Some(p))) == Render(f) + ("." + m + ("." + p))
  {
  }

  /** Appending ".0" to a recognised fragment that has a minor and no patch
      adds a zero patch. */
  lemma ParseWithPatch(s: string)
    requires ParseFragment(s).Some?
    requires ParseFragment(s).value.minor.Some? && ParseFragment(s).value.patch.None?
    ensures var f := ParseFragment(s).value;
            ParseFragment(s + ".0") == Some(Fragment(f.major, f.minor, Some("0")))
  {
    var f := ParseFragment(s).value;
    var g := Fragment(f.major, f.minor, Some("0"));
    assert Render(g) == Render(f) + ".0" by {
      RenderWithPatch(f, "0");
      assert "." + "0" == ".0";
    }
    Extended(s, Render(f), ".0");
    ParseRendered(s + ".0", g);
  }

  /** Appending ".0.0" to a recognised fragment that has only a major adds
      a zero minor and a zero patch. */
  lemma ParseWithMinorPatch(s: string)
    requires ParseFragment(s).Some? && ParseFragment(s).value.minor.None?
    ensures var f := ParseFragment(s).value;
            ParseFragment(s + ".0.0") == Some(Fragment(f.major, Some("0"), Some("0")))
  {
    var f := ParseFragment(s).value;
    var g := Fragment(f.major, Some("0"), Some("0"));
    assert Render(g) == Render(f) + ".0.0" by {
      RenderWithMinorPatch(f, "0", "0");
      assert "." + "0" + ("." + "0") == ".0.0";
    }
    Extended(s, Render(f), ".0.0");
    ParseRendered(s + ".0.0", g);
  }

  /** Text that is a rendering, with or without the `v`, stays so when both
      are extended alike. */
  lemma Extended(s: string, r: string, x: string)
    requires s == r || s == "v" + r
    ensures s + x == r + x || s + x == "v" + (r + x)
  {
  }

  /** A rendering, with or without the `v`, is recognised as its fragment. */
  lemma ParseRendered(s: string, g: Fragment)
    requires WellFormed(g) && (s == Render(g) || s == "v" + Render(g))
    ensures ParseFragment(s) == Some(g)
  {
    ParseRender(g);
  }

  /** The major of a recognised fragment is itself a recognised fragment. */
  lemma ParseMajor(s: string)
    requires ParseFragment(s).Some?
    ensures var f := ParseFragment(s).value;
            ParseFragment(f.major) == Some(Fragment(f.major, None, None))
  {
    var f := ParseFragment(s).value;
    var g := Fragment(f.major, None, None);
    assert Render(g) == f.major;
    ParseRender(g);
  }

  /** The major and minor of a recognised fragment that has a minor form a
      recognised fragment. */
  lemma ParseMajorMinor(s: string)
    requires ParseFragment(s).Some? && ParseFragment(s).value.minor.Some?
    ensures var f := ParseFragment(s).value;
            ParseFragment(f.major + "." + f.minor.value) == Some(Fragment(f.major, f.minor, None))
  {
    var f := ParseFragment(s).value;
    var g := Fragment(f.major, f.minor, None);
    assert Render(g) == f.major + "." + f.minor.value;
    ParseRender(g);
  }

  /** A rendering is made of digits and dots. */
  lemma RenderChars(f: Fragment)
    requires WellFormed(f)
    ensures forall k :: 0 <= k < |Render(f)| ==> IsDigit(Render(f)[k]) || Render(f)[k] == '.'
  {
  }

  /** A rendering ends with a digit, so it never ends with a newline. */
  lemma RenderEnd(f: Fragment)
    requires WellFormed(f)
    ensures IsDigit(Render(f)[|Render(f)| - 1])
  {
    var r := Render(f);
    if f.patch.Some? {
      assert r == (f.major + "." + f.minor.value + ".") + f.patch.value;
    } else if f.minor.Some? {
      assert r == (f.major + ".") + f.minor.value;
    } else {
      assert r == f.major;
    }
  }

  /** How a recognised fragment begins and ends: with `v` or a digit, then
      a digit after any `v`, and with a digit at the end. */
  lemma FragmentText(s: string)
    requires ParseFragment(s).Some?
    ensures |s| > 0 && (s[0] == 'v' || IsDigit(s[0])) && IsDigit(s[|s| - 1])
    ensures s[0] == 'v' ==> |s| > 1 && IsDigit(s[1])
  {
    var f := ParseFragment(s).value;
    var r := Render(f);
    RenderEnd(f);
    if s != r {
      assert s == "v" + r;
      assert s[|s| - 1] == r[|r| - 1];
    }
  }

  /** A recognised fragment is one word: it holds no whitespace and no
      hyphen. */
  lemma FragmentWord(s: string)
    requires ParseFragment(s).Some?
    ensures NoSpace(s) && '-' !in s
  {
    var f := ParseFragment(s).value;
    var r := Render(f);
    RenderChars(f);
    if s != r {
      assert s == "v" + r;
      forall k | 1 <= k < |s| ensures IsDigit(s[k]) || s[k] == '.' {
        assert s[k] == r[k - 1];
      }
    }
    NoSpaceOf(s);
  }

  /** The version the fragment names, absent components counting as zero
      (`'0' if in_minor is None else in_minor`). */
  function ZeroFilled(f: Fragment): Triple
    requires WellFormed(f)
  {
    Triple(Value(f.major),
           if f.minor.Some? then Value(f.minor.value) else 0,
           if f.patch.Some? then Value(f.patch.value) else 0)
  }
}
