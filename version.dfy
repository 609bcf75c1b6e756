/** `version(vstr)` and `VERSION_REGEX`: a Julia version string is an
    optional `v`, a major number, optional `.minor` and `.patch`, then
    either a bare `-`, or an optional prerelease followed by an optional
    bare `+` or `+build`. The regex is matched ignoring case, and its `$`
    also matches before a final newline. */
module JuliaVersion {
  import opened Wrappers
  import opened Text
  import opened Ranges

  /** The arguments handed to the version constructor: numbers that default
      to 0, and prerelease and build identifiers that may be absent. */
  datatype Version = Version(major: nat, minor: nat, patch: nat,
                             prerelease: Option<seq<string>>,
                             build: Option<seq<string>>)

  /** The ValueError raised for a string the regex does not match; it carries
      the string as given. */
  datatype VersionError = InvalidVersion(text: string)

  /** What `(?:[0-9a-z-]+\.)*[0-9a-z-]+` splits into: at least one
      non-empty identifier. */
  predicate Identifiers(ids: seq<string>) {
    |ids| > 0 && forall i :: 0 <= i < |ids| ==> IsIdent(ids[i])
  }

  /** What the parser can produce. */
  predicate ValidVersion(v: Version) {
    && (v.prerelease.Some? ==> Identifiers(v.prerelease.value))
    && (v.build.Some? ==> Identifiers(v.build.value))
  }

  /** The release a version names, its prerelease and build dropped. */
  function Release(v: Version): Triple {
    Triple(v.major, v.minor, v.patch)
  }

  // ---------------------------------------------------------------------
  // The recogniser

  /** `version(vstr)`: the parts of a full match, or the error naming the
      string. */
  function ParseVersion(s: string): (r: Result<Version, VersionError>)
    ensures r.Err? ==> r.error == InvalidVersion(s)
  {
    match VersionGroups(Chomp(s))
    case None => Err(InvalidVersion(s))
    case Some(v) => Ok(v)
  }

  /** The groups of `VERSION_REGEX` read from `t`: an optional `v` or `V`,
      then the rest. */
  function VersionGroups(t: string): (r: Option<Version>)
    ensures r.Some? ==> ValidVersion(r.value)
  {
    ReadVersion(Unprefixed(t))
  }

  /** The text after the optional `v` (the regex ignores case). */
  function Unprefixed(t: string): (r: string)
    ensures r == t || (|t| > 0 && r == t[1..])
  {
    if |t| > 0 && (t[0] == 'v' || t[0] == 'V') then t[1..] else t
  }

  /** The numbers and the tail, converted as `version` converts them:
      numbers default to 0. */
  function ReadVersion(body: string): (r: Option<Version>)
    ensures r.Some? ==> ValidVersion(r.value)
  {
    match Numbers(body)
    case None => None
    case Some((major, minor, patch, rest)) =>
      match ReadTail(rest)
      case None => None
      case Some((pre, build)) =>
        Some(Version(Value(major),
                     if minor.Some? then Value(minor.value) else 0,
                     if patch.Some? then Value(patch.value) else 0,
                     pre, build))
  }

  /** `(\d+)(?:\.(\d+))?(?:\.(\d+))?` read from the start of `t`, with the
      text left for the tail. Each digit run is read whole: a digit can only
      be followed by a digit, a dot or the tail, so no shorter run can lead
      to a match. */
  function Numbers(t: string): (r: Option<(string, Option<string>, Option<string>, string)>)
    ensures r.Some? ==> IsDigits(r.value.0)
    ensures r.Some? && r.value.1.Some? ==> IsDigits(r.value.1.value)
    ensures r.Some? && r.value.2.Some? ==> IsDigits(r.value.2.value)
  {
    match ReadDigits(t)
    case None => None
    case Some((major, r1)) =>
      match DotNumber(r1)
      case None => None
      case Some((minor, r2)) =>
        match DotNumber(r2)
        case None => None
        case Some((patch, r3)) => Some((major, minor, patch, r3))
  }

  /** `(?:\.(\d+))?`: a dot and a digit run when `t` starts with a dot,
      nothing otherwise. A dot not followed by digits cannot start the tail,
      so it fails the match. */
  function DotNumber(t: string): (r: Option<(Option<string>, string)>)
    ensures r.Some? && r.value.0.Some? ==> IsDigits(r.value.0.value)
  {
    if |t| > 0 && t[0] == '.' then
      match ReadDigits(t[1..])
      case None => None
      case Some((d, rest)) => Some((Some(d), rest))
    else Some((None, t))
  }

  /** The tail: a bare `-`, or a prerelease before the first `+` and a build
      from it on. The prerelease alphabet has no `+`, so the first `+` is
      where the build begins. */
  function ReadTail(t: string): (r: Option<(Option<seq<string>>, Option<seq<string>>)>)
    ensures r.Some? ==> (r.value.0.Some? ==> Identifiers(r.value.0.value))
                        && (r.value.1.Some? ==> Identifiers(r.value.1.value))
  {
    if t == "-" then Some((None, None))
    else
      var k := PlusAt(t);
      match ReadPrerelease(t[..k])
      case None => None
      case Some(pre) =>
        match ReadBuild(t[k..])
        case None => None
        case Some(build) => Some((pre, build))
  }

  /** The position of the first `+`, or the length when there is none. */
  function PlusAt(t: string): (k: nat)
    ensures k <= |t|
    ensures k < |t| ==> t[k] == '+'
  {
    if |t| == 0 || t[0] == '+' then 0 else 1 + PlusAt(t[1..])
  }

  /** The prerelease group: absent, letter-initial identifiers, or `-` and
      identifiers, the `-` being dropped (`prerl[1:]`). */
  function ReadPrerelease(p: string): (r: Option<Option<seq<string>>>)
    ensures r.Some? && r.value.Some? ==> Identifiers(r.value.value)
  {
    if |p| == 0 then Some(None)
    else if IsLetter(p[0]) then
      match ReadIdentifiers(p)
      case None => None
      case Some(ids) => Some(Some(ids))
    else if p[0] == '-' then
      match ReadIdentifiers(p[1..])
      case None => None
      case Some(ids) => Some(Some(ids))
    else None
  }

  /** The build group: nothing, a bare `+` (bound to `plus`, which `version`
      ignores), or `+` and identifiers. */
  function ReadBuild(b: string): (r: Option<Option<seq<string>>>)
    ensures r.Some? && r.value.Some? ==> Identifiers(r.value.value)
  {
    if |b| <= 1 then Some(None)
    else
      match ReadIdentifiers(b[1..])
      case None => None
      case Some(ids) => Some(Some(ids))
  }

  /** Dotted identifiers split on `.`, when every piece is a non-empty
      identifier. */
  function ReadIdentifiers(s: string): (r: Option<seq<string>>)
    ensures r.Some? ==> Identifiers(r.value) && Join(r.value, '.') == s
  {
    var ps := Split(s, '.');
    if forall i :: 0 <= i < |ps| ==> IsIdent(ps[i]) then Some(ps) else None
  }

  // ---------------------------------------------------------------------
  // Writing a version out

  /** `-` and the identifiers joined by dots, or nothing. */
  function PrereleaseText(p: Option<seq<string>>): string
    requires p.Some? ==> |p.value| > 0
  {
    if p.None? then "" else "-" + Join(p.value, '.')
  }

  /** `+` and the identifiers joined by dots, or nothing. */
  function BuildText(b: Option<seq<string>>): string
    requires b.Some? ==> |b.value| > 0
  {
    if b.None? then "" else "+" + Join(b.value, '.')
  }

  /** The minor and patch as written after the major, when the first `n`
      numbers are written. */
  function Written(minor: string, patch: string, n: nat): string {
    if n <= 1 then "" else "." + (minor + (if n == 2 then "" else "." + patch))
  }

  /** The first `n` numbers of a version: "M", "M.m" or "M.m.p". */
  function NumbersText(v: Version, n: nat): string {
    Numeral(v.major) + Written(Numeral(v.minor), Numeral(v.patch), n)
  }

  /** The version written in full: "M.m.p", then "-pre" and "+build" when
      present. */
  function FormatVersion(v: Version): string
    requires ValidVersion(v)
  {
    NumbersText(v, 3) + (PrereleaseText(v.prerelease) + BuildText(v.build))
  }

  /** The ways a tail `p + b` can spell a prerelease and a build that the
      regex accepts: a bare `-` alone, or a prerelease spelling followed by
      a build spelling. */
  predicate Spelling(p: string, b: string, pre: Option<seq<string>>, build: Option<seq<string>>) {
    || (p == "-" && b == "" && pre.None? && build.None?)
    || (PrereleaseSpelling(p, pre) && BuildSpelling(b, build))
  }

  /** No prerelease, `-` and the identifiers, or the identifiers alone when
      the first begins with a letter. */
  predicate PrereleaseSpelling(p: string, pre: Option<seq<string>>) {
    if pre.None? then p == ""
    else
      && Identifiers(pre.value)
      && (p == "-" + Join(pre.value, '.') || (IsLetter(pre.value[0][0]) && p == Join(pre.value, '.')))
  }

  /** No build or a bare `+`, or `+` and the identifiers. */
  predicate BuildSpelling(b: string, build: Option<seq<string>>) {
    if build.None? then b == "" || b == "+"
    else Identifiers(build.value) && b == "+" + Join(build.value, '.')
  }

  /** The strings `VERSION_REGEX` matches in full, with the version
      `version` builds from each: an optional `v` or `V`, digit runs for
      the first `n` numbers (a number left out being 0), a tail spelling the
      prerelease and build, and an optional final newline (`$`). The digit
      runs `b` and `c` take part only when written. */
  predicate SpellsVersion(pfx: string, a: string, b: string, c: string, n: nat,
                          p: string, q: string, nl: string, v: Version) {
    && (pfx == "" || pfx == "v" || pfx == "V")
    && (nl == "" || nl == "\n")
    && 1 <= n <= 3
    && IsDigits(a) && IsDigits(b) && IsDigits(c)
    && v.major == Value(a)
    && v.minor == (if n >= 2 then Value(b) else 0)
    && v.patch == (if n == 3 then Value(c) else 0)
    && Spelling(p, q, v.prerelease, v.build)
  }

  /** The text of such a spelling. */
  function VersionText(pfx: string, a: string, b: string, c: string, n: nat,
                       p: string, q: string, nl: string): string {
    pfx + ((a + Written(b, c, n)) + (p + q)) + nl
  }

  // ---------------------------------------------------------------------
  // The language of the pattern, both ways

  /** Every spelling the pattern accepts is read as the version it spells:
      digits are read by value, leading zeros included. */
  lemma SpellingAccepted(pfx: string, a: string, b: string, c: string, n: nat,
                         p: string, q: string, nl: string, v: Version)
    requires SpellsVersion(pfx, a, b, c, n, p, q, nl, v)
    ensures ParseVersion(VersionText(pfx, a, b, c, n, p, q, nl)) == Ok(v)
  {
    var x := (a + Written(b, c, n)) + (p + q);
    BodyRead(a, b, c, n, p, q, v);
    BodyText(a, b, c, n, p, q, v.prerelease, v.build);
    ParseBody(pfx, x, nl, v);
  }

  /** A body read as `v`, starting with a digit and not ending with a
      newline, is read as `v` whatever prefix and final newline it has. */
  lemma ParseBody(pfx: string, x: string, nl: string, v: Version)
    requires pfx == "" || pfx == "v" || pfx == "V"
    requires (nl == "" || nl == "\n") && |x| > 0 && IsDigit(x[0]) && x[|x| - 1] != '\n'
    requires ReadVersion(x) == Some(v)
    ensures ParseVersion((pfx + x) + nl) == Ok(v)
  {
    var y := pfx + x;
    assert Chomp(y + nl) == y by {
      UnprefixedDigit(pfx, x);
      ChompNewline(y, nl);
    }
    assert VersionGroups(y) == Some(v) by {
      UnprefixedDigit(pfx, x);
    }
  }

  /** The optional final newline is what `$` lets through. */
  lemma ChompNewline(y: string, nl: string)
    requires (nl == "" || nl == "\n") && |y| > 0 && y[|y| - 1] != '\n'
    ensures Chomp(y + nl) == y
  {
    if nl == "" {
      assert y + nl == y;
    } else {
      assert (y + nl)[..|y + nl| - 1] == y;
    }
  }

  /** The optional prefix is skipped before a digit. */
  lemma UnprefixedDigit(pfx: string, x: string)
    requires (pfx == "" || pfx == "v" || pfx == "V") && |x| > 0 && IsDigit(x[0])
    ensures Unprefixed(pfx + x) == x
    ensures |pfx + x| > 0 && (pfx + x)[|pfx + x| - 1] == x[|x| - 1]
  {
    if pfx == "" {
      assert pfx + x == x;
    } else {
      assert (pfx + x)[1..] == x;
    }
  }

  /** Conversely, every string the parser accepts is such a spelling of the
      version it returns: nothing outside the pattern's language is
      accepted. */
  lemma AcceptedSpelling(s: string)
    returns (pfx: string, a: string, b: string, c: string, n: nat, p: string, q: string, nl: string)
    requires ParseVersion(s).Ok?
    ensures SpellsVersion(pfx, a, b, c, n, p, q, nl, ParseVersion(s).value)
    ensures s == VersionText(pfx, a, b, c, n, p, q, nl)
  {
    var body;
    pfx, body, nl := Adornment(s);
    a, b, c, n, p, q := BodySpelled(body, ParseVersion(s).value);
  }

  /** A string split into the optional prefix, the text the numbers and
      tail are read from, and the optional final newline. */
  lemma Adornment(s: string) returns (pfx: string, body: string, nl: string)
    ensures pfx == "" || pfx == "v" || pfx == "V"
    ensures nl == "" || nl == "\n"
    ensures s == (pfx + body) + nl
    ensures VersionGroups(Chomp(s)) == ReadVersion(body)
  {
    var t := Chomp(s);
    nl := if t == s then "" else "\n";
    pfx := if |t| > 0 && (t[0] == 'v' || t[0] == 'V') then [t[0]] else "";
    body := Unprefixed(t);
    assert s == t + nl;
    assert t == pfx + body;
  }

  /** The text after the prefix, read as `v`, spells `v`. */
  lemma BodySpelled(body: string, v: Version)
    returns (a: string, b: string, c: string, n: nat, p: string, q: string)
    requires ReadVersion(body) == Some(v)
    ensures SpellsVersion("", a, b, c, n, p, q, "", v)
    ensures body == (a + Written(b, c, n)) + (p + q)
  {
    var g := Numbers(body).value;
    var tail := ReadTail(g.3).value;
    assert v == Version(Value(g.0),
                        if g.1.Some? then Value(g.1.value) else 0,
                        if g.2.Some? then Value(g.2.value) else 0,
                        tail.0, tail.1);
    a := g.0;
    n, b, c := NumbersSpelled(body, g);
    p, q := TailSpelled(g.3, tail.0, tail.1);
  }

  /** The numbers read from a text, and how they were written. */
  lemma NumbersSpelled(t: string, g: (string, Option<string>, Option<string>, string))
    returns (n: nat, b: string, c: string)
    requires Numbers(t) == Some(g)
    ensures 1 <= n <= 3 && IsDigits(b) && IsDigits(c)
    ensures g.1 == (if n >= 2 then Some(b) else None)
    ensures g.2 == (if n == 3 then Some(c) else None)
    ensures t == (g.0 + Written(b, c, n)) + g.3
  {
    var r1 := ReadDigits(t).value.1;
    var d1 := DotNumber(r1).value;
    var d2 := DotNumber(d1.1).value;
    assert t == g.0 + r1;
    if d1.0.None? {
      DotNumberNone(r1);
      DotNumberNone(d1.1);
      n, b, c := 1, "0", "0";
      assert t == (g.0 + Written(b, c, n)) + g.3;
    } else {
      DotNumberSome(r1);
      b := d1.0.value;
      if d2.0.None? {
        DotNumberNone(d1.1);
        n, c := 2, "0";
        assert Written(b, c, n) == "." + b;
        Regroup(".", b, g.3);
      } else {
        DotNumberSome(d1.1);
        n, c := 3, d2.0.value;
        assert Written(b, c, n) == "." + (b + ("." + c));
        Regroup(".", c, g.3);
        Regroup(b, "." + c, g.3);
        Regroup(".", b + ("." + c), g.3);
      }
      Regroup(g.0, Written(b, c, n), g.3);
    }
  }

  /** `(?:\.(\d+))?` read as absent consumes nothing. */
  lemma DotNumberNone(r: string)
    requires DotNumber(r).Some? && DotNumber(r).value.0.None?
    ensures DotNumber(r).value.1 == r
    ensures DotNumber(DotNumber(r).value.1) == DotNumber(r)
  {
  }

  /** `(?:\.(\d+))?` read as present consumed a dot and a digit run. */
  lemma DotNumberSome(r: string)
    requires DotNumber(r).Some? && DotNumber(r).value.0.Some?
    ensures r == "." + (DotNumber(r).value.0.value + DotNumber(r).value.1)
  {
    assert r == [r[0]] + r[1..];
  }

  /** A tail the tail grammar accepts spells what it is read as. */
  lemma TailSpelled(t: string, pre: Option<seq<string>>, build: Option<seq<string>>)
    returns (p: string, q: string)
    requires ReadTail(t) == Some((pre, build))
    ensures t == p + q && Spelling(p, q, pre, build)
  {
    if t == "-" {
      p, q := "-", "";
    } else {
      var k := PlusAt(t);
      p, q := t[..k], t[k..];
      assert t == p + q;
      PrereleaseSpelled(p, pre);
      BuildSpelled(q, build);
    }
  }

  /** A prerelease group read as `pre` spells `pre`. */
  lemma PrereleaseSpelled(p: string, pre: Option<seq<string>>)
    requires ReadPrerelease(p) == Some(pre)
    ensures PrereleaseSpelling(p, pre)
  {
    if |p| > 0 {
      var ids := pre.value;
      JoinStart(ids);
      if !IsLetter(p[0]) {
        assert p == "-" + p[1..];
      }
    }
  }

  /** A build group starting with `+`, read as `build`, spells `build`. */
  lemma BuildSpelled(q: string, build: Option<seq<string>>)
    requires ReadBuild(q) == Some(build) && (|q| == 0 || q[0] == '+')
    ensures BuildSpelling(q, build)
  {
    if |q| == 1 {
      assert q == [q[0]];
    } else if |q| > 1 {
      assert q == "+" + q[1..];
    }
  }

  // ---------------------------------------------------------------------
  // Round trip

  /** However the tail spells the prerelease and build, the version is read
      back from its text, and numbers left out of the text read as zero. */
  lemma SpelledRoundTrip(v: Version, n: nat, p: string, b: string)
    requires 1 <= n <= 3
    requires n < 3 ==> v.patch == 0
    requires n < 2 ==> v.minor == 0
    requires Spelling(p, b, v.prerelease, v.build)
    ensures ParseVersion(NumbersText(v, n) + (p + b)) == Ok(v)
  {
    var x, y, z := Numeral(v.major), Numeral(v.minor), Numeral(v.patch);
    assert SpellsVersion("", x, y, z, n, p, b, "", v);
    SpellingAccepted("", x, y, z, n, p, b, "", v);
    Unadorned(NumbersText(v, n) + (p + b));
  }

  /** No prefix and no newline leave a text as it is. */
  lemma Unadorned(s: string)
    ensures ("" + s) + "" == s
  {
  }

  /** The text of a spelling without its prefix and newline starts with a
      digit and does not end with a newline. */
  lemma BodyText(a: string, b: string, c: string, n: nat, p: string, q: string,
                 pre: Option<seq<string>>, build: Option<seq<string>>)
    requires IsDigits(a) && IsDigits(b) && IsDigits(c) && 1 <= n <= 3
    requires Spelling(p, q, pre, build)
    ensures var x := (a + Written(b, c, n)) + (p + q);
            |x| > 0 && IsDigit(x[0]) && x[|x| - 1] != '\n'
  {
    var x := (a + Written(b, c, n)) + (p + q);
    assert x[0] == a[0];
    TailEnd(p, q, pre, build);
    SpelledEnd(a, Written(b, c, n), p + q, b, c, n);
  }

  /** The numbers and the spelled tail are read as the version. */
  lemma BodyRead(a: string, b: string, c: string, n: nat, p: string, q: string, v: Version)
    requires IsDigits(a) && IsDigits(b) && IsDigits(c) && 1 <= n <= 3
    requires v.major == Value(a)
    requires v.minor == (if n >= 2 then Value(b) else 0)
    requires v.patch == (if n == 3 then Value(c) else 0)
    requires Spelling(p, q, v.prerelease, v.build)
    ensures ReadVersion((a + Written(b, c, n)) + (p + q)) == Some(v)
  {
    var tail := p + q;
    var w := Written(b, c, n);
    var t := (a + w) + tail;
    var g := (a, if n > 1 then Some(b) else None, if n > 2 then Some(c) else None, tail);
    assert ReadTail(tail) == Some((v.prerelease, v.build)) by {
      TailOf(p, q, v.prerelease, v.build);
    }
    assert Numbers(t) == Some(g) by {
      Regroup(a, w, tail);
      TailStart(p, q, v.prerelease, v.build);
      NumbersOf(a, b, c, n, tail);
    }
    GroupsOf(t, g, v.prerelease, v.build);
  }

  /** Dropping a final newline leaves what comes before a non-empty text
      alone. */
  lemma ChompAfter(x: string, s: string)
    requires |s| > 0
    ensures Chomp(x + s) == x + Chomp(s)
  {
    if s[|s| - 1] == '\n' {
      assert (x + s)[..|x + s| - 1] == x + s[..|s| - 1];
    }
  }

  /** Concatenation regrouped. */
  lemma Regroup(x: string, y: string, z: string)
    ensures (x + y) + z == x + (y + z)
  {
  }

  /** The version built from the numbers and tail read from a text. */
  lemma GroupsOf(t: string, g: (string, Option<string>, Option<string>, string),
                 pre: Option<seq<string>>, build: Option<seq<string>>)
    requires Numbers(t) == Some(g) && ReadTail(g.3) == Some((pre, build))
    ensures IsDigits(g.0) && (g.1.Some? ==> IsDigits(g.1.value)) && (g.2.Some? ==> IsDigits(g.2.value))
    ensures ReadVersion(t) == Some(Version(Value(g.0),
                                           if g.1.Some? then Value(g.1.value) else 0,
                                           if g.2.Some? then Value(g.2.value) else 0,
                                           pre, build))
  {
  }

  /** A text whose tail is refused is refused. */
  lemma GroupsRejected(t: string, g: (string, Option<string>, Option<string>, string))
    requires Numbers(t) == Some(g) && ReadTail(g.3).None?
    ensures ReadVersion(t).None?
  {
  }

  /** A `v` or `V` before a digit is skipped. */
  lemma GroupsPrefix(c: string)
    requires |c| > 0 && IsDigit(c[0])
    ensures VersionGroups("v" + c) == VersionGroups(c)
    ensures VersionGroups("V" + c) == VersionGroups(c)
  {
    assert Unprefixed("v" + c) == c by {
      assert ("v" + c)[1..] == c;
    }
    assert Unprefixed("V" + c) == c by {
      assert ("V" + c)[1..] == c;
    }
    assert Unprefixed(c) == c;
  }

  /** The version written in full is read back. */
  lemma RoundTrip(v: Version)
    requires ValidVersion(v)
    ensures ParseVersion(FormatVersion(v)) == Ok(v)
  {
    SpelledRoundTrip(v, 3, PrereleaseText(v.prerelease), BuildText(v.build));
  }

  /** Whatever the parser accepts, it also accepts in the canonical form
      "M.m.p[-pre][+build]", with the same result. */
  lemma Canonical(s: string)
    requires ParseVersion(s).Ok?
    ensures ValidVersion(ParseVersion(s).value)
    ensures ParseVersion(FormatVersion(ParseVersion(s).value)) == ParseVersion(s)
  {
    RoundTrip(ParseVersion(s).value);
  }

  /** Minor and patch default to 0: "M" and "M.m" read as "M.0.0" and
      "M.m.0". */
  lemma OmittedNumbersAreZero(v: Version, n: nat)
    requires ValidVersion(v) && 1 <= n <= 3
    requires n < 3 ==> v.patch == 0
    requires n < 2 ==> v.minor == 0
    ensures ParseVersion(NumbersText(v, n) + (PrereleaseText(v.prerelease) + BuildText(v.build))) == Ok(v)
    ensures ParseVersion(NumbersText(v, n) + (PrereleaseText(v.prerelease) + BuildText(v.build)))
            == ParseVersion(FormatVersion(v))
  {
    SpelledRoundTrip(v, n, PrereleaseText(v.prerelease), BuildText(v.build));
    RoundTrip(v);
  }

  /** A prerelease whose first identifier begins with a letter may be
      written without its `-`: "1.2.3rc1" reads as "1.2.3-rc1". */
  lemma LetterPrereleaseWithoutHyphen(v: Version)
    requires ValidVersion(v) && v.prerelease.Some? && IsLetter(v.prerelease.value[0][0])
    ensures ParseVersion(NumbersText(v, 3) + (Join(v.prerelease.value, '.') + BuildText(v.build))) == Ok(v)
  {
    SpelledRoundTrip(v, 3, Join(v.prerelease.value, '.'), BuildText(v.build));
  }

  /** A bare `+` leaves the build absent, and so does a bare `-` the
      prerelease: "M.m.p+" and "M.m.p-" read as "M.m.p". */
  lemma BareMarkersIgnored(v: Version)
    requires ValidVersion(v) && v.build.None?
    ensures ParseVersion(FormatVersion(v) + "+") == Ok(v)
    ensures v.prerelease.None? ==> ParseVersion(FormatVersion(v) + "-") == Ok(v)
  {
    var p, x := PrereleaseText(v.prerelease), NumbersText(v, 3);
    assert FormatVersion(v) == x + p by {
      assert p + BuildText(v.build) == p;
    }
    Regroup(x, p, "+");
    SpelledRoundTrip(v, 3, p, "+");
    if v.prerelease.None? {
      assert x + p == x && "-" + "" == "-";
      SpelledRoundTrip(v, 3, "-", "");
    }
  }

  /** The `v` prefix is optional and may be written `V`. */
  lemma PrefixOptional(s: string)
    requires |s| > 0 && IsDigit(s[0])
    ensures ParseVersion("v" + s).Ok? == ParseVersion(s).Ok?
    ensures ParseVersion("V" + s).Ok? == ParseVersion(s).Ok?
    ensures ParseVersion(s).Ok? ==>
              ParseVersion("v" + s).value == ParseVersion(s).value
              && ParseVersion("V" + s).value == ParseVersion(s).value
  {
    var c := Chomp(s);
    assert |c| > 0 && IsDigit(c[0]) by {
      assert c[0] == s[0];
    }
    ChompAfter("v", s);
    ChompAfter("V", s);
    GroupsPrefix(c);
  }

  // ---------------------------------------------------------------------
  // Rejections

  /** Numbers followed by a tail that spells no prerelease and build are
      rejected, and the error names the whole string. */
  lemma TailRejected(v: Version, n: nat, tail: string)
    requires 1 <= n <= 3
    requires |tail| > 0 && !IsDigit(tail[0]) && (n < 3 ==> tail[0] != '.')
    requires tail[|tail| - 1] != '\n'
    requires forall p, q, pre, build :: p + q == tail ==> !Spelling(p, q, pre, build)
    ensures ParseVersion(NumbersText(v, n) + tail) == Err(InvalidVersion(NumbersText(v, n) + tail))
  {
    assert ReadTail(tail).None? by {
      if ReadTail(tail).Some? {
        var p, q := TailSpelled(tail, ReadTail(tail).value.0, ReadTail(tail).value.1);
        assert false;
      }
    }
    var a, w := Numeral(v.major), Written(Numeral(v.minor), Numeral(v.patch), n);
    var t := NumbersText(v, n) + tail;
    assert t == a + (w + tail);
    assert Unprefixed(t) == t by {
      assert t[0] == a[0];
    }
    assert ReadVersion(t).None? by {
      NumbersOf(a, Numeral(v.minor), Numeral(v.patch), n, tail);
      GroupsRejected(t, (a, if n > 1 then Some(Numeral(v.minor)) else None,
                         if n > 2 then Some(Numeral(v.patch)) else None, tail));
    }
    assert Chomp(t) == t by {
      LastOf(NumbersText(v, n), tail);
    }
  }

  /** A tail the tail grammar refuses spells no prerelease and build. */
  lemma TailUnspelled(tail: string)
    requires ReadTail(tail).None?
    ensures forall p, q, pre, build :: p + q == tail ==> !Spelling(p, q, pre, build)
  {
    forall p, q, pre, build | p + q == tail
      ensures !Spelling(p, q, pre, build)
    {
      if Spelling(p, q, pre, build) {
        TailOf(p, q, pre, build);
        assert false;
      }
    }
  }

  /** "M.m.p-+" is rejected: a bare `-` cannot be followed by a `+`. */
  lemma MarkersTogetherRejected(v: Version, n: nat)
    requires 1 <= n <= 3
    ensures ParseVersion(NumbersText(v, n) + "-+").Err?
  {
    assert ReadTail("-+").None? by {
      assert PlusAt("-+") == 1;
      assert "-+"[..1] == "-" && "-"[1..] == "";
      assert Split("", '.') == [""];
    }
    TailUnspelled("-+");
    TailRejected(v, n, "-+");
  }

  /** A fourth number is rejected: "M.m.p.d". */
  lemma FourNumbersRejected(v: Version, d: string)
    requires IsDigits(d)
    ensures ParseVersion(NumbersText(v, 3) + ("." + d)).Err?
  {
    var tail := "." + d;
    assert ReadTail(tail).None? by {
      var k := PlusAt(tail);
      assert k > 0 && tail[..k][0] == '.';
    }
    assert tail[|tail| - 1] == d[|d| - 1];
    TailUnspelled(tail);
    TailRejected(v, 3, tail);
  }

  /** An empty string and a lone `v` are rejected. */
  lemma NoNumberRejected()
    ensures ParseVersion("").Err? && ParseVersion("v").Err? && ParseVersion("V").Err?
  {
    assert Chomp("") == "" && Chomp("v") == "v" && Chomp("V") == "V";
    assert "v"[1..] == "";
    assert ReadDigits("").None?;
  }

  // ---------------------------------------------------------------------
  // Helpers for the round trip

  /** The numbers are read back as written, whatever tail follows them. */
  lemma NumbersOf(a: string, b: string, c: string, n: nat, tail: string)
    requires IsDigits(a) && IsDigits(b) && IsDigits(c) && 1 <= n <= 3
    requires |tail| > 0 ==> !IsDigit(tail[0]) && (n < 3 ==> tail[0] != '.')
    ensures Numbers(a + (Written(b, c, n) + tail)) ==
              Some((a, if n > 1 then Some(b) else None, if n > 2 then Some(c) else None, tail))
  {
    if n == 1 {
      DotNumberAbsent(tail);
      assert Written(b, c, n) + tail == tail;
      ReadDigitsOf(a, tail);
    } else if n == 2 {
      DotNumberAbsent(tail);
      var r1 := "." + (b + tail);
      assert Written(b, c, n) + tail == r1 by {
        assert Written(b, c, n) == "." + b;
        Regroup(".", b, tail);
      }
      DotNumberOf(b, tail);
      ReadDigitsOf(a, r1);
    } else {
      var r2 := "." + (c + tail);
      var r1 := "." + (b + r2);
      assert Written(b, c, n) + tail == r1 by {
        assert Written(b, c, n) == "." + (b + ("." + c));
        Regroup(".", c, tail);
        Regroup(b, "." + c, tail);
        Regroup(".", b + ("." + c), tail);
      }
      DotNumberOf(c, tail);
      DotNumberOf(b, r2);
      ReadDigitsOf(a, r1);
    }
  }

  /** A dot and a digit run are read as a present component. */
  lemma DotNumberOf(d: string, rest: string)
    requires IsDigits(d) && (|rest| == 0 || !IsDigit(rest[0]))
    ensures DotNumber("." + (d + rest)) == Some((Some(d), rest))
  {
    assert ("." + (d + rest))[1..] == d + rest;
    ReadDigitsOf(d, rest);
  }

  /** Text that does not start with a dot leaves the component absent. */
  lemma DotNumberAbsent(rest: string)
    requires |rest| == 0 || rest[0] != '.'
    ensures DotNumber(rest) == Some((None, rest))
  {
  }

  /** A spelled tail is read back as the prerelease and build it spells. */
  lemma TailOf(p: string, b: string, pre: Option<seq<string>>, build: Option<seq<string>>)
    requires Spelling(p, b, pre, build)
    ensures ReadTail(p + b) == Some((pre, build))
  {
    if p == "-" && b == "" && pre.None? && build.None? {
      assert p + b == "-";
    } else {
      var t := p + b;
      assert '+' !in p && (|b| == 0 || b[0] == '+') by {
        if pre.Some? {
          JoinAvoids(pre.value, '+');
        }
      }
      assert PlusAt(t) == |p| by {
        PlusAtOf(p, b);
      }
      Cut(p, b);
      assert ReadPrerelease(p) == Some(pre) by {
        if pre.Some? {
          JoinStart(pre.value);
          ReadIdentifiersOf(pre.value);
          if p != Join(pre.value, '.') {
            assert p[1..] == Join(pre.value, '.');
          }
        }
      }
      assert ReadBuild(b) == Some(build) by {
        if build.Some? {
          JoinStart(build.value);
          assert b[1..] == Join(build.value, '.');
          ReadIdentifiersOf(build.value);
        }
      }
      assert t != "-" by {
        if pre.Some? {
          JoinStart(pre.value);
          assert t[0] == p[0];
        }
      }
    }
  }

  /** The first `+` of `p + b` is where `b` begins, when `p` has none and
      `b` is empty or starts with `+`. */
  lemma {:induction false} PlusAtOf(p: string, b: string)
    requires '+' !in p
    requires |b| == 0 || b[0] == '+'
    ensures PlusAt(p + b) == |p|
  {
    if |p| > 0 {
      assert (p + b)[1..] == p[1..] + b;
      assert p[0] in p;
      PlusAtOf(p[1..], b);
    }
  }

  /** Dotted identifiers are split back into the identifiers. */
  lemma ReadIdentifiersOf(ids: seq<string>)
    requires Identifiers(ids)
    ensures ReadIdentifiers(Join(ids, '.')) == Some(ids)
  {
    forall i | 0 <= i < |ids| ensures '.' !in ids[i] {
      IdentAvoids(ids[i], '.');
    }
    SplitJoin(ids, '.');
  }

  /** An identifier holds no character outside `[0-9a-zA-Z-]`. */
  lemma IdentAvoids(s: string, c: char)
    requires IsIdent(s) && !IsIdentChar(c)
    ensures c !in s
  {
  }

  /** Identifiers joined by dots hold no other separator. */
  lemma {:induction false} JoinAvoids(ids: seq<string>, c: char)
    requires Identifiers(ids) && !IsIdentChar(c) && c != '.'
    ensures c !in Join(ids, '.')
  {
    IdentAvoids(ids[0], c);
    if |ids| > 1 {
      JoinAvoids(ids[1..], c);
    }
  }

  /** Identifiers joined by dots start with the first identifier, so the
      text is not empty. */
  lemma JoinStart(ids: seq<string>)
    requires Identifiers(ids)
    ensures |Join(ids, '.')| > 0 && Join(ids, '.')[0] == ids[0][0]
  {
  }

  /** Identifiers joined by dots end with an identifier character. */
  lemma {:induction false} JoinEnd(ids: seq<string>)
    requires Identifiers(ids)
    ensures |Join(ids, '.')| > 0 && IsIdentChar(Join(ids, '.')[|Join(ids, '.')| - 1])
  {
    if |ids| > 1 {
      JoinEnd(ids[1..]);
      var j := Join(ids[1..], '.');
      assert Join(ids, '.') == (ids[0] + ['.']) + j;
    }
  }

  /** A spelled tail begins with `-`, `+` or a letter. */
  lemma TailStart(p: string, b: string, pre: Option<seq<string>>, build: Option<seq<string>>)
    requires Spelling(p, b, pre, build)
    ensures var t := p + b; |t| == 0 || t[0] == '-' || t[0] == '+' || IsLetter(t[0])
  {
    if |p| > 0 {
      assert (p + b)[0] == p[0];
      if pre.Some? {
        JoinStart(pre.value);
      }
    }
  }

  /** A spelled tail does not end with a newline. */
  lemma TailEnd(p: string, b: string, pre: Option<seq<string>>, build: Option<seq<string>>)
    requires Spelling(p, b, pre, build)
    ensures var t := p + b; |t| == 0 || t[|t| - 1] != '\n'
  {
    if |b| > 0 {
      if build.Some? {
        JoinEnd(build.value);
        LastOf("+", Join(build.value, '.'));
      }
      LastOf(p, b);
    } else if pre.Some? {
      JoinEnd(pre.value);
      if p != Join(pre.value, '.') {
        LastOf("-", Join(pre.value, '.'));
      }
      assert p + b == p;
    } else {
      assert p + b == p;
    }
  }

  /** The numbers end with a digit, so a text whose tail does not end with
      a newline does not end with one. */
  lemma SpelledEnd(x: string, w: string, tail: string, b: string, c: string, n: nat)
    requires IsDigits(x) && IsDigits(b) && IsDigits(c) && w == Written(b, c, n)
    requires |tail| == 0 || tail[|tail| - 1] != '\n'
    ensures var t := (x + w) + tail; |t| > 0 && t[|t| - 1] != '\n'
  {
    if |tail| > 0 {
      LastOf(x + w, tail);
    } else {
      assert (x + w) + tail == x + w;
      WrittenEnd(b, c, n);
      if |w| > 0 {
        LastOf(x, w);
      }
    }
  }

  /** Written numbers end with a digit. */
  lemma WrittenEnd(b: string, c: string, n: nat)
    requires IsDigits(b) && IsDigits(c)
    ensures var w := Written(b, c, n); |w| == 0 || IsDigit(w[|w| - 1])
  {
    if n == 2 {
      assert Written(b, c, n) == "." + b;
      LastOf(".", b);
    } else if n > 2 {
      assert Written(b, c, n) == ("." + b + ".") + c;
      LastOf("." + b + ".", c);
    }
  }
}
