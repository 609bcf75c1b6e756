/** Character classes and the string operations the translator relies on:
    str.split, str.strip, int() on a run of ASCII digits, str() of a number,
    and the end anchor `$` of Python regular expressions. */
module Text {
  import opened Wrappers

  /** The whitespace characters matched by `\s` and removed by `str.strip()`
      that the model keeps: space, and tab through carriage return. The
      ASCII separators `\x1c` to `\x1f` and the Unicode whitespace, which
      Python also counts, are left out. */
  predicate IsSpace(c: char) {
    c == ' ' || '\t' <= c <= '\r'
  }

  predicate IsDigit(c: char) {
    '0' <= c <= '9'
  }

  /** An ASCII letter of either case (`[a-z]` under the ignore-case flag). */
  predicate IsLetter(c: char) {
    'a' <= c <= 'z' || 'A' <= c <= 'Z'
  }

  /** `[0-9a-z-]` under the ignore-case flag. */
  predicate IsIdentChar(c: char) {
    IsDigit(c) || IsLetter(c) || c == '-'
  }

  /** Every character is whitespace (`\s*` matches all of `s`). */
  predicate AllSpace(s: string) {
    |s| == 0 || (IsSpace(s[0]) && AllSpace(s[1..]))
  }

  /** No character is whitespace. */
  predicate NoSpace(s: string) {
    |s| == 0 || (!IsSpace(s[0]) && NoSpace(s[1..]))
  }

  lemma {:induction false} AllSpaceSnoc(s: string, c: char)
    requires AllSpace(s) && IsSpace(c)
    ensures AllSpace(s + [c])
  {
    if |s| > 0 {
      AllSpaceSnoc(s[1..], c);
      assert (s + [c])[1..] == s[1..] + [c];
    }
  }

  lemma {:induction false} NoSpaceOf(s: string)
    requires forall k :: 0 <= k < |s| ==> !IsSpace(s[k])
    ensures NoSpace(s)
  {
    if |s| > 0 {
      NoSpaceOf(s[1..]);
    }
  }

  /** No character of a whitespace-free string is whitespace. */
  lemma {:induction false} NoSpaceAt(s: string, k: nat)
    requires NoSpace(s) && k < |s|
    ensures !IsSpace(s[k])
  {
    if k > 0 {
      NoSpaceAt(s[1..], k - 1);
    }
  }

  /** A non-empty run of ASCII digits, as `[0-9]+` matches. */
  predicate IsDigits(s: string) {
    |s| > 0 && forall k :: 0 <= k < |s| ==> IsDigit(s[k])
  }

  /** A non-empty identifier over `[0-9a-z-]`. */
  predicate IsIdent(s: string) {
    |s| > 0 && forall k :: 0 <= k < |s| ==> IsIdentChar(s[k])
  }

  // ---------------------------------------------------------------------
  // str.split(sep) and its inverse sep.join(pieces)

  /** `s.split(c)`: the pieces between occurrences of `c`, empty pieces kept;
      there is always one piece more than there are separators. */
  function Split(s: string, c: char): (r: seq<string>)
    ensures |r| >= 1
    ensures forall i :: 0 <= i < |r| ==> c !in r[i]
    ensures Join(r, c) == s
  {
    if |s| == 0 then [""]
    else
      var rest := Split(s[1..], c);
      if s[0] == c then [""] + rest
      else [[s[0]] + rest[0]] + rest[1..]
  }

  /** `c.join(ps)` for a non-empty list of pieces. */
  function Join(ps: seq<string>, c: char): string
    requires |ps| >= 1
  {
    if |ps| == 1 then ps[0] else ps[0] + [c] + Join(ps[1..], c)
  }

  /** Splitting undoes joining when no piece holds the separator. */
  lemma {:induction false} SplitJoin(ps: seq<string>, c: char)
    requires |ps| >= 1
    requires forall i :: 0 <= i < |ps| ==> c !in ps[i]
    ensures Split(Join(ps, c), c) == ps
  {
    if |ps| == 1 {
      SplitNoSeparator(ps[0], c);
    } else {
      SplitJoin(ps[1..], c);
      SplitCons(ps[0], Join(ps[1..], c), c);
    }
  }

  /** A string without the separator is one piece. */
  lemma {:induction false} SplitNoSeparator(s: string, c: char)
    requires c !in s
    ensures Split(s, c) == [s]
  {
    if |s| > 0 {
      SplitNoSeparator(s[1..], c);
    }
  }

  /** Splitting `p + [c] + t` for a separator-free `p`. */
  lemma {:induction false} SplitCons(p: string, t: string, c: char)
    requires c !in p
    ensures Split(p + [c] + t, c) == [p] + Split(t, c)
  {
    if |p| == 0 {
      assert p + [c] + t == [c] + t;
      assert ([c] + t)[1..] == t;
    } else {
      var s := p + [c] + t;
      assert s[0] == p[0] && s[0] != c;
      assert s[1..] == p[1..] + [c] + t;
      var rest := Split(s[1..], c);
      assert rest == [p[1..]] + Split(t, c) by {
        SplitCons(p[1..], t, c);
      }
      assert Split(s, c) == [[s[0]] + rest[0]] + rest[1..];
      assert [s[0]] + p[1..] == p;
    }
  }

  // ---------------------------------------------------------------------
  // Leading and trailing whitespace, str.strip()

  /** Length of the whitespace run at the start of `s`. */
  function SpaceRun(s: string): (k: nat)
    ensures k <= |s|
    ensures k == |s| || !IsSpace(s[k])
  {
    if |s| == 0 || !IsSpace(s[0]) then 0 else 1 + SpaceRun(s[1..])
  }

  /** What `SpaceRun` skips is whitespace. */
  lemma {:induction false} SpaceRunSpaces(s: string)
    ensures AllSpace(s[..SpaceRun(s)])
  {
    if |s| > 0 && IsSpace(s[0]) {
      SpaceRunSpaces(s[1..]);
      assert s[..SpaceRun(s)] == [s[0]] + s[1..][..SpaceRun(s[1..])];
    }
  }

  /** Length of the whitespace run at the end of `s`. */
  function TrailingSpaceRun(s: string): (k: nat)
    ensures k <= |s|
    ensures k == |s| || !IsSpace(s[|s| - k - 1])
  {
    if |s| == 0 || !IsSpace(s[|s| - 1]) then 0 else 1 + TrailingSpaceRun(s[..|s| - 1])
  }

  /** What `TrailingSpaceRun` counts is whitespace. */
  lemma {:induction false} TrailingSpaceRunSpaces(s: string)
    ensures AllSpace(s[|s| - TrailingSpaceRun(s)..])
  {
    if |s| > 0 && IsSpace(s[|s| - 1]) {
      var p := s[..|s| - 1];
      TrailingSpaceRunSpaces(p);
      AllSpaceSnoc(p[|p| - TrailingSpaceRun(p)..], s[|s| - 1]);
      assert s[|s| - TrailingSpaceRun(s)..] == p[|p| - TrailingSpaceRun(p)..] + [s[|s| - 1]];
    }
  }

  /** Length of the run of non-whitespace characters at the start of `s`. */
  function WordRun(s: string): (k: nat)
    ensures k <= |s|
    ensures k == |s| || IsSpace(s[k])
  {
    if |s| == 0 || IsSpace(s[0]) then 0 else 1 + WordRun(s[1..])
  }

  /** What `WordRun` takes holds no whitespace. */
  lemma {:induction false} WordRunWord(s: string)
    ensures NoSpace(s[..WordRun(s)])
  {
    if |s| > 0 && !IsSpace(s[0]) {
      WordRunWord(s[1..]);
      assert s[..WordRun(s)] == [s[0]] + s[1..][..WordRun(s[1..])];
    }
  }

  /** Length of the run of ASCII digits at the start of `s` (`\d+` is greedy). */
  function DigitRun(s: string): (k: nat)
    ensures k <= |s|
    ensures k == |s| || !IsDigit(s[k])
  {
    if |s| == 0 || !IsDigit(s[0]) then 0 else 1 + DigitRun(s[1..])
  }

  /** What `DigitRun` takes is digits. */
  lemma {:induction false} DigitRunDigits(s: string)
    ensures forall i :: 0 <= i < DigitRun(s) ==> IsDigit(s[i])
  {
    if |s| > 0 && IsDigit(s[0]) {
      DigitRunDigits(s[1..]);
    }
  }

  /** A digit run ends where the first non-digit begins. */
  lemma {:induction false} DigitRunAfter(d: string, x: string)
    requires forall i :: 0 <= i < |d| ==> IsDigit(d[i])
    requires |x| == 0 || !IsDigit(x[0])
    ensures DigitRun(d + x) == |d|
  {
    if |d| > 0 {
      assert (d + x)[1..] == d[1..] + x;
      DigitRunAfter(d[1..], x);
    }
  }

  /** `(\d+)` at the start of `t`: the digits (greedily) and the rest. */
  function ReadDigits(t: string): (r: Option<(string, string)>)
    ensures r.Some? ==> IsDigits(r.value.0) && r.value.0 + r.value.1 == t
    ensures r.Some? ==> |r.value.1| == 0 || !IsDigit(r.value.1[0])
    ensures r.None? ==> |t| == 0 || !IsDigit(t[0])
  {
    var k := DigitRun(t);
    if k == 0 then None
    else
      DigitRunDigits(t);
      assert t[..k] + t[k..] == t;
      Some((t[..k], t[k..]))
  }

  /** The greedy digit scan stops exactly after the written digits. */
  lemma ReadDigitsOf(d: string, x: string)
    requires IsDigits(d)
    requires |x| == 0 || !IsDigit(x[0])
    ensures ReadDigits(d + x) == Some((d, x))
  {
    DigitRunAfter(d, x);
    Cut(d, x);
  }

  /** The two halves of a concatenation. */
  lemma Cut(x: string, y: string)
    ensures (x + y)[..|x|] == x && (x + y)[|x|..] == y
  {
  }

  /** A string cut in two, and around one of its characters. */
  lemma Halves(x: string, k: nat)
    requires k <= |x|
    ensures x == x[..k] + x[k..]
  {
  }

  lemma Around(x: string, k: nat)
    requires k < |x|
    ensures x == x[..k] + ([x[k]] + x[k + 1..])
  {
  }

  /** A whitespace run ends where the first non-space character begins. */
  lemma {:induction false} SpaceRunAfter(w: string, x: string)
    requires AllSpace(w)
    requires |x| == 0 || !IsSpace(x[0])
    ensures SpaceRun(w + x) == |w|
  {
    if |w| > 0 {
      assert (w + x)[1..] == w[1..] + x;
      SpaceRunAfter(w[1..], x);
    }
  }

  /** A word ends where the first space character begins. */
  lemma {:induction false} WordRunAfter(x: string, w: string)
    requires NoSpace(x)
    requires |w| == 0 || IsSpace(w[0])
    ensures WordRun(x + w) == |x|
  {
    if |x| > 0 {
      assert (x + w)[1..] == x[1..] + w;
      WordRunAfter(x[1..], w);
    }
  }

  /** `s.strip()`: `s` with the whitespace at both ends removed. */
  function Strip(s: string): (r: string)
    ensures |r| <= |s|
    ensures |r| > 0 ==> !IsSpace(r[0]) && !IsSpace(r[|r| - 1])
  {
    var t := s[SpaceRun(s)..];
    t[..|t| - TrailingSpaceRun(t)]
  }

  /** What `strip()` removes is whitespace at either end. */
  lemma StripShape(s: string)
    ensures exists lead, trail :: AllSpace(lead) && AllSpace(trail) && s == lead + (Strip(s) + trail)
  {
    var a := SpaceRun(s);
    var t := s[a..];
    var b := |t| - TrailingSpaceRun(t);
    var lead, r, trail := s[..a], t[..b], t[b..];
    assert Strip(s) == r;
    SpaceRunSpaces(s);
    TrailingSpaceRunSpaces(t);
    assert r + trail == t by { Halves(t, b); }
    assert lead + t == s by { Halves(s, a); }
    assert s == lead + (Strip(s) + trail);
  }

  /** Every position of a whitespace string holds whitespace. */
  lemma {:induction false} AllSpaceAt(w: string, k: nat)
    requires AllSpace(w) && k < |w|
    ensures IsSpace(w[k])
  {
    if k > 0 {
      AllSpaceAt(w[1..], k - 1);
    }
  }

  /** A prefix of a whitespace string is whitespace. */
  lemma {:induction false} AllSpacePrefix(w: string, k: nat)
    requires AllSpace(w) && k <= |w|
    ensures AllSpace(w[..k])
  {
    if k > 0 {
      AllSpacePrefix(w[1..], k - 1);
      assert w[..k][1..] == w[1..][..k - 1];
    }
  }

  /** A trailing whitespace run ends where the last non-space character is. */
  lemma {:induction false} TrailingSpaceRunAfter(x: string, w: string)
    requires AllSpace(w)
    requires |x| == 0 || !IsSpace(x[|x| - 1])
    ensures TrailingSpaceRun(x + w) == |w|
    decreases |w|
  {
    if |w| > 0 {
      var p := w[..|w| - 1];
      AllSpaceAt(w, |w| - 1);
      AllSpacePrefix(w, |w| - 1);
      assert (x + w)[..|x + w| - 1] == x + p;
      TrailingSpaceRunAfter(x, p);
    }
  }

  /** `strip()` removes exactly the surrounding whitespace of a string whose
      inner part begins and ends with a non-space character. */
  lemma StripOf(lead: string, x: string, trail: string)
    requires AllSpace(lead) && AllSpace(trail)
    requires |x| == 0 || (!IsSpace(x[0]) && !IsSpace(x[|x| - 1]))
    ensures Strip(lead + (x + trail)) == x
  {
    if |x| == 0 {
      assert x + trail == trail by { assert x == []; }
      AllSpaceAppend(lead, trail);
      StripBlank(lead + trail);
    } else {
      StripAround(lead, x, trail);
    }
  }

  /** A string that begins and ends with a non-space character is its own
      strip. */
  lemma StripWord(x: string)
    requires |x| > 0 && !IsSpace(x[0]) && !IsSpace(x[|x| - 1])
    ensures Strip(x) == x
  {
    assert "" + (x + "") == x;
    StripAround("", x, "");
  }

  /** The last character of a concatenation with a non-empty right part. */
  lemma LastOf(a: string, b: string)
    requires |b| > 0
    ensures (a + b)[|a + b| - 1] == b[|b| - 1]
  {
  }

  /** The case of a non-empty inner part. */
  lemma StripAround(lead: string, x: string, trail: string)
    requires AllSpace(lead) && AllSpace(trail)
    requires |x| > 0 && !IsSpace(x[0]) && !IsSpace(x[|x| - 1])
    ensures Strip(lead + (x + trail)) == x
  {
    var t := x + trail;
    var s := lead + t;
    SpaceRunAfter(lead, t);
    assert s[SpaceRun(s)..] == t by { Cut(lead, t); }
    TrailingSpaceRunAfter(x, trail);
    assert t[..|t| - TrailingSpaceRun(t)] == x by { Cut(x, trail); }
  }

  /** A string of whitespace strips to nothing. */
  lemma StripBlank(w: string)
    requires AllSpace(w)
    ensures Strip(w) == ""
  {
    SpaceRunAfter(w, "");
    assert w + "" == w;
  }

  lemma {:induction false} AllSpaceAppend(a: string, b: string)
    requires AllSpace(a) && AllSpace(b)
    ensures AllSpace(a + b)
  {
    if |a| > 0 {
      assert (a + b)[0] == a[0] && (a + b)[1..] == a[1..] + b;
      AllSpaceAppend(a[1..], b);
    } else {
      assert a + b == b;
    }
  }

  /** Python's `$` (without MULTILINE) matches at the end of the string or just
      before a newline that ends it; for a pattern whose body cannot match a
      newline, a full match of `s` is a full match of `Chomp(s)`. */
  function Chomp(s: string): (r: string)
    ensures r == s || s == r + "\n"
  {
    if |s| > 0 && s[|s| - 1] == '\n' then s[..|s| - 1] else s
  }

  // ---------------------------------------------------------------------
  // Numerals

  /** `int(s)` for a run of ASCII digits. */
  function Value(s: string): nat
    requires IsDigits(s)
  {
    if |s| == 1 then (s[0] as int - '0' as int)
    else 10 * Value(s[..|s| - 1]) + (s[|s| - 1] as int - '0' as int)
  }

  /** `str(n)`: the decimal numeral of `n`, without leading zeros. */
  function Numeral(n: nat): (r: string)
    ensures IsDigits(r)
    ensures Value(r) == n
    ensures |r| > 1 ==> r[0] != '0'
  {
    if n < 10 then [('0' as int + n) as char]
    else
      var r := Numeral(n / 10) + [('0' as int + n % 10) as char];
      assert r[..|r| - 1] == Numeral(n / 10);
      r
  }
}
