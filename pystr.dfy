/**
 * The Python 2 string operations the updater relies on: `strip`, `split`,
 * `join`, `str` of a non-negative integer and `list` of a string, plus a
 * count of the `%s` placeholders that MySQLdb substitutes parameters into.
 */
module PyStr {
  import opened Wrappers

  /** The characters `str.strip()` removes when it is called without arguments. */
  const Whitespace: set<char> := {' ', '\t', '\n', '\r', '\U{B}', '\U{C}'}

  predicate AllIn(s: string, cs: set<char>) {
    forall i :: 0 <= i < |s| ==> s[i] in cs
  }

  /** `s.lstrip(cs)`: the longest suffix of `s` that does not start with a character of `cs`. */
  function LStrip(s: string, cs: set<char>): (r: string)
    ensures |r| <= |s| && r == s[|s| - |r|..]
    ensures AllIn(s[..|s| - |r|], cs)
    ensures r == [] || r[0] !in cs
  {
    if s != [] && s[0] in cs then
      var r := LStrip(s[1..], cs);
      assert s[1..][..|s| - 1 - |r|] == s[1..|s| - |r|];
      r
    else
      s
  }

  /** `s.rstrip(cs)`: the longest prefix of `s` that does not end with a character of `cs`. */
  function RStrip(s: string, cs: set<char>): (r: string)
    ensures |r| <= |s| && r == s[..|r|]
    ensures AllIn(s[|r|..], cs)
    ensures r == [] || r[|r| - 1] !in cs
  {
    if s != [] && s[|s| - 1] in cs then
      var t := s[..|s| - 1];
      var r := RStrip(t, cs);
      forall i | 0 <= i < |s| - |r|
        ensures s[|r|..][i] in cs
      {
        if |r| + i < |t| {
          assert s[|r|..][i] == t[|r|..][i];
        }
      }
      r
    else
      s
  }

  /** `s.strip(cs)`: `s` without its leading and trailing characters from `cs`. */
  function Strip(s: string, cs: set<char>): (r: string)
    ensures r == [] || (r[0] !in cs && r[|r| - 1] !in cs)
    ensures |r| <= |s|
  {
    var l := LStrip(s, cs);
    var r := RStrip(l, cs);
    assert r != [] ==> r[0] == l[0];
    r
  }

  /** What `Strip` keeps is a middle slice of `s`, and everything it drops on either side is in `cs`. */
  lemma StripMiddle(s: string, cs: set<char>) returns (p: nat)
    ensures var r := Strip(s, cs);
      p <= |s| - |r| && r == s[p..p + |r|] && AllIn(s[..p], cs) && AllIn(s[p + |r|..], cs)
  {
    var l := LStrip(s, cs);
    var r := RStrip(l, cs);
    p := |s| - |l|;
    SliceOfSuffix(s, p, |r|);
  }

  /** Slicing a suffix is slicing the whole text further along. */
  lemma SliceOfSuffix(s: string, p: nat, k: nat)
    requires p + k <= |s|
    ensures s[p..][..k] == s[p..p + k] && s[p..][k..] == s[p + k..]
  {
  }

  /** `s.strip()` */
  function StripSpace(s: string): string {
    Strip(s, Whitespace)
  }

  /** Stripping twice is stripping once. */
  lemma StripIdempotent(s: string, cs: set<char>)
    ensures Strip(Strip(s, cs), cs) == Strip(s, cs)
  {
    var t := Strip(s, cs);
    assert LStrip(t, cs) == t;
    assert RStrip(t, cs) == t;
  }

  // ---------------------------------------------------------------- split / join

  predicate OccursAt(s: string, sep: string, j: int) {
    0 <= j && j + |sep| <= |s| && s[j..j + |sep|] == sep
  }

  predicate Contains(s: string, sep: string) {
    exists j :: 0 <= j <= |s| && OccursAt(s, sep, j)
  }

  /** `s.find(sep)`: the leftmost position where `sep` occurs in `s`. */
  function Find(s: string, sep: string): (r: Option<nat>)
    requires |sep| > 0
    ensures r.Some? ==> OccursAt(s, sep, r.value)
    ensures r.Some? ==> forall j :: 0 <= j < r.value ==> !OccursAt(s, sep, j)
    ensures r.None? <==> !Contains(s, sep)
    decreases |s|
  {
    if |s| < |sep| then
      None
    else if s[..|sep|] == sep then
      assert OccursAt(s, sep, 0);
      Some(0)
    else
      assert forall j :: OccursAt(s[1..], sep, j) <==> OccursAt(s, sep, j + 1) by {
        forall j ensures OccursAt(s[1..], sep, j) <==> OccursAt(s, sep, j + 1) {
          if 0 <= j && j + |sep| <= |s| - 1 {
            assert s[1..][j..j + |sep|] == s[j + 1..j + 1 + |sep|];
          }
        }
      }
      assert !OccursAt(s, sep, 0);
      assert forall j :: OccursAt(s, sep, j) ==> j == 0 || OccursAt(s[1..], sep, j - 1);
      match Find(s[1..], sep)
      case None => None
      case Some(i) => Some(i + 1)
  }

  /** `sep.join(xs)` */
  function Join(sep: string, xs: seq<string>): string {
    if |xs| == 0 then []
    else if |xs| == 1 then xs[0]
    else xs[0] + sep + Join(sep, xs[1..])
  }

  /**
   * `s.split(sep)` for a non-empty separator: the pieces between the
   * leftmost non-overlapping occurrences of `sep`. Joining them back with
   * `sep` gives `s`, and no piece contains `sep`.
   */
  function Split(s: string, sep: string): (r: seq<string>)
    requires |sep| > 0
    ensures |r| >= 1
    ensures Join(sep, r) == s
    ensures forall k :: 0 <= k < |r| ==> !Contains(r[k], sep)
    decreases |s|
  {
    match Find(s, sep)
    case None => [s]
    case Some(i) =>
      var head := s[..i];
      assert !Contains(head, sep) by {
        forall j | OccursAt(head, sep, j) ensures false {
          assert s[j..j + |sep|] == head[j..j + |sep|];
          assert OccursAt(s, sep, j);
        }
      }
      var rest := Split(s[i + |sep|..], sep);
      assert s == head + sep + s[i + |sep|..] by {
        assert s[i..i + |sep|] == sep;
      }
      [head] + rest
  }

  /** With a one-character separator, there are at least two pieces exactly when that character occurs. */
  lemma SplitOnCharHasTwoPieces(s: string, c: char)
    ensures |Split(s, [c])| >= 2 <==> c in s
  {
    if c in s {
      var j :| 0 <= j < |s| && s[j] == c;
      assert s[j..j + 1] == [c];
      assert OccursAt(s, [c], j);
    } else {
      if Contains(s, [c]) {
        var j :| 0 <= j <= |s| && OccursAt(s, [c], j);
        assert s[j..j + 1][0] == c;
        assert s[j] in s;
      }
    }
  }

  // ---------------------------------------------------------------- numbers

  function DigitChar(d: nat): (c: char)
    requires d < 10
    ensures '0' <= c <= '9'
  {
    ('0' as int + d) as char
  }

  predicate IsDigits(s: string) {
    forall i :: 0 <= i < |s| ==> '0' <= s[i] <= '9'
  }

  /** `str(n)` for a non-negative integer: its decimal digits, most significant first. */
  function Str(n: nat): (r: string)
    ensures |r| >= 1 && IsDigits(r)
    ensures |r| > 1 ==> r[0] != '0'
    ensures n < 10 <==> |r| == 1
    decreases n
  {
    if n < 10 then [DigitChar(n)] else Str(n / 10) + [DigitChar(n % 10)]
  }

  /** `int(s)` on a string of decimal digits. */
  function ParseNat(s: string): nat
    requires IsDigits(s)
  {
    if s == [] then 0 else 10 * ParseNat(s[..|s| - 1]) + (s[|s| - 1] as int - '0' as int)
  }

  /** `int(str(n)) == n` */
  lemma {:induction false} ParseStr(n: nat)
    ensures ParseNat(Str(n)) == n
  {
    if n >= 10 {
      ParseStr(n / 10);
      assert Str(n)[..|Str(n)| - 1] == Str(n / 10);
    }
  }

  /** Different numbers have different decimal renderings. */
  lemma StrInjective(a: nat, b: nat)
    ensures Str(a) == Str(b) ==> a == b
  {
    ParseStr(a);
    ParseStr(b);
  }

  /** `list(s)`: one single-character string per character of `s`. */
  function Chars(s: string): (r: seq<string>)
    ensures |r| == |s|
  {
    seq(|s|, i requires 0 <= i < |s| => [s[i]])
  }

  function Concat(xs: seq<string>): string {
    if xs == [] then [] else Concat(xs[..|xs| - 1]) + xs[|xs| - 1]
  }

  /** Gluing two lists of strings is gluing each and joining the results. */
  lemma {:induction false} ConcatAppend(a: seq<string>, b: seq<string>)
    ensures Concat(a + b) == Concat(a) + Concat(b)
    decreases |b|
  {
    if b == [] {
      assert a + b == a;
    } else {
      var init := b[..|b| - 1];
      assert (a + b)[..|a + b| - 1] == a + init;
      ConcatAppend(a, init);
      assert Concat(b) == Concat(init) + b[|b| - 1];
    }
  }

  /** Gluing the characters of `list(s)` back together gives `s`. */
  lemma {:induction false} ConcatChars(s: string)
    ensures Concat(Chars(s)) == s
  {
    if s != [] {
      ConcatChars(s[..|s| - 1]);
      assert Chars(s)[..|s| - 1] == Chars(s[..|s| - 1]);
    }
  }

  function Repeat<T>(x: T, n: nat): (r: seq<T>)
    ensures |r| == n && forall k :: 0 <= k < n ==> r[k] == x
  {
    seq(n, _ => x)
  }

  // ---------------------------------------------------------------- placeholders

  /** The number of `%s` placeholders in a statement text. */
  function Placeholders(s: string): nat
    decreases |s|
  {
    if |s| < 2 then 0
    else (if s[0] == '%' && s[1] == 's' then 1 else 0) + Placeholders(s[1..])
  }

  lemma {:induction false} PlaceholdersConcat(a: string, b: string)
    requires a == [] || a[|a| - 1] != '%'
    ensures Placeholders(a + b) == Placeholders(a) + Placeholders(b)
    decreases |a|
  {
    if a == [] {
      assert a + b == b;
    } else if |a| == 1 {
      assert (a + b)[1..] == b;
    } else {
      PlaceholdersConcat(a[1..], b);
      assert (a + b)[1..] == a[1..] + b;
    }
  }

  lemma {:induction false} PlaceholdersNoPercent(s: string)
    requires '%' !in s
    ensures Placeholders(s) == 0
    decreases |s|
  {
    if |s| >= 2 {
      assert s[0] in s;
      PlaceholdersNoPercent(s[1..]);
    }
  }
}
