/** The handful of Python `str` operations the ledger code uses: `strip()`,
    `in`, `split(sep)`, `sep.join(...)`, `split(sep, 1)` and `str(n)` for integers. */
module Text {
  import opened Wrappers

  /** Python's `str.isspace()` for one character: exactly the characters that
      `str.strip()` with no argument removes. */
  predicate IsSpace(c: char) {
    || c == ' '
    || ('\t' <= c <= '\r')
    || ('\U{1C}' <= c <= '\U{1F}')
    || c == '\U{85}' || c == '\U{A0}' || c == '\U{1680}'
    || ('\U{2000}' <= c <= '\U{200A}')
    || c == '\U{2028}' || c == '\U{2029}' || c == '\U{202F}' || c == '\U{205F}' || c == '\U{3000}'
  }

  predicate AllSpace(s: string) {
    forall i :: 0 <= i < |s| ==> IsSpace(s[i])
  }

  /** Neither end of `s` is whitespace. */
  predicate Trimmed(s: string) {
    s == [] || (!IsSpace(s[0]) && !IsSpace(s[|s| - 1]))
  }

  function TrimStart(s: string): (r: string)
    ensures |r| <= |s| && r == s[|s| - |r|..]
    ensures AllSpace(s[..|s| - |r|])
    ensures r == [] || !IsSpace(r[0])
    decreases |s|
  {
    if s != [] && IsSpace(s[0]) then
      var r := TrimStart(s[1..]);
      TrimStartStep(s, s[1..], r);
      r
    else s
  }

  lemma TrimStartStep(s: string, t: string, r: string)
    requires s != [] && IsSpace(s[0]) && t == s[1..]
    requires |r| <= |t| && r == t[|t| - |r|..] && AllSpace(t[..|t| - |r|])
    ensures r == s[|s| - |r|..] && AllSpace(s[..|s| - |r|])
  {
    var n := |s| - |r|;
    assert t[n - 1..] == s[n..];
    assert forall i :: 1 <= i < n ==> s[i] == t[..n - 1][i - 1];
  }

  function TrimEnd(s: string): (r: string)
    ensures |r| <= |s| && r == s[..|r|]
    ensures AllSpace(s[|r|..])
    ensures r == [] || !IsSpace(r[|r| - 1])
    decreases |s|
  {
    if s != [] && IsSpace(s[|s| - 1]) then
      var r := TrimEnd(s[..|s| - 1]);
      TrimEndStep(s, s[..|s| - 1], r);
      r
    else s
  }

  lemma TrimEndStep(s: string, t: string, r: string)
    requires s != [] && IsSpace(s[|s| - 1]) && t == s[..|s| - 1]
    requires |r| <= |t| && r == t[..|r|] && AllSpace(t[|r|..])
    ensures r == s[..|r|] && AllSpace(s[|r|..])
  {
    assert t[..|r|] == s[..|r|];
    assert forall i :: |r| <= i < |t| ==> s[i] == t[|r|..][i - |r|];
  }

  /** `s.strip()`: the slice of `s` left after removing whitespace at both ends. */
  function Strip(s: string): (r: string)
    ensures Trimmed(r)
    ensures exists i, j :: 0 <= i <= j <= |s| && r == s[i..j] && AllSpace(s[..i]) && AllSpace(s[j..])
  {
    TrimBoth(s, TrimStart(s), TrimEnd(TrimStart(s)));
    TrimEnd(TrimStart(s))
  }

  /** What trimming both ends leaves, from what each end's trimming promises:
      a trimmed slice with only whitespace around it. */
  lemma TrimBoth(s: string, t: string, r: string)
    requires |t| <= |s| && t == s[|s| - |t|..] && AllSpace(s[..|s| - |t|]) && (t == [] || !IsSpace(t[0]))
    requires |r| <= |t| && r == t[..|r|] && AllSpace(t[|r|..]) && (r == [] || !IsSpace(r[|r| - 1]))
    ensures var i := |s| - |t|;
      i + |r| <= |s| && r == s[i..i + |r|] && AllSpace(s[..i]) && AllSpace(s[i + |r|..]) && Trimmed(r)
  {
    SuffixSlices(s, |s| - |t|, t, |r|);
    assert r == [] || r[0] == t[0];
  }

  /** Slicing a suffix of `s` is slicing `s`. */
  lemma SuffixSlices(s: string, i: nat, t: string, n: nat)
    requires i <= |s| && t == s[i..] && n <= |t|
    ensures t[..n] == s[i..i + n] && t[n..] == s[i + n..]
  {
  }

  lemma StripTrimmed(s: string)
    requires Trimmed(s)
    ensures Strip(s) == s
  {
  }

  /** `s.strip()` is empty exactly when `s` is all whitespace. */
  lemma StripBlank(s: string)
    ensures Strip(s) == "" <==> AllSpace(s)
  {
    var i, j :| 0 <= i <= j <= |s| && Strip(s) == s[i..j] && AllSpace(s[..i]) && AllSpace(s[j..]);
    if Strip(s) == "" {
      forall k | 0 <= k < |s| ensures IsSpace(s[k]) {
        if k < i {
          assert s[..i][k] == s[k];
        } else {
          assert s[j..][k - j] == s[k];
        }
      }
    }
  }

  /** Stripping keeps only characters of its argument. */
  lemma StripKeepsOut(s: string, c: char)
    requires c !in s
    ensures c !in Strip(s)
  {
    var i, j :| 0 <= i <= j <= |s| && Strip(s) == s[i..j];
    assert forall k :: 0 <= k < j - i ==> s[i..j][k] == s[i + k];
  }

  /** A slice of `s` has no character `s` lacks. */
  lemma SliceKeepsOut(s: string, i: nat, j: nat, c: char)
    requires c !in s && i <= j <= |s|
    ensures c !in s[i..j]
  {
    assert forall k :: 0 <= k < j - i ==> s[i..j][k] == s[i + k];
  }

  /** `s.index(c)` when `c in s`, else None: the first occurrence. */
  function IndexOf(s: string, c: char): (r: Option<nat>)
    ensures r.None? <==> c !in s
    ensures r.Some? ==> r.value < |s| && s[r.value] == c && c !in s[..r.value]
  {
    if s == [] then None
    else if s[0] == c then Some(0)
    else
      match IndexOf(s[1..], c)
      case None => None
      case Some(i) =>
        assert s[..i + 1] == [s[0]] + s[1..][..i];
        Some(i + 1)
  }

  /** The first occurrence is the only index with no earlier occurrence. */
  lemma IndexOfIs(s: string, c: char, i: nat)
    requires i < |s| && s[i] == c && c !in s[..i]
    ensures IndexOf(s, c) == Some(i)
  {
  }

  /** `sep.join(parts)` */
  function Join(parts: seq<string>, sep: char): string
  {
    if parts == [] then ""
    else if |parts| == 1 then parts[0]
    else parts[0] + [sep] + Join(parts[1..], sep)
  }

  /** Joining non-empty parts starts with the first part's first character
      and ends with the last part's last character. */
  lemma {:induction false} JoinEnds(parts: seq<string>, sep: char)
    requires parts != [] && forall i :: 0 <= i < |parts| ==> parts[i] != ""
    ensures var s := Join(parts, sep);
      s != "" && s[0] == parts[0][0] && s[|s| - 1] == parts[|parts| - 1][|parts[|parts| - 1]| - 1]
    decreases |parts|
  {
    if |parts| > 1 {
      JoinEnds(parts[1..], sep);
    }
  }

  /** A character the join lacks is in none of its parts. */
  lemma {:induction false} JoinKeepsOut(parts: seq<string>, sep: char, i: nat, c: char)
    requires i < |parts| && c !in Join(parts, sep)
    ensures c !in parts[i]
    decreases |parts|
  {
    if |parts| > 1 {
      var s := Join(parts, sep);
      assert s == parts[0] + [sep] + Join(parts[1..], sep);
      if i == 0 {
        assert forall k :: 0 <= k < |parts[0]| ==> s[k] == parts[0][k];
      } else {
        var rest := Join(parts[1..], sep);
        assert forall k :: 0 <= k < |rest| ==> s[|parts[0]| + 1 + k] == rest[k];
        JoinKeepsOut(parts[1..], sep, i - 1, c);
      }
    }
  }

  /** A character of the join other than the separator is a character of a part. */
  lemma {:induction false} JoinHolds(parts: seq<string>, sep: char, c: char)
    requires c != sep && c in Join(parts, sep)
    ensures exists i :: 0 <= i < |parts| && c in parts[i]
    decreases |parts|
  {
    if |parts| > 1 {
      var s := Join(parts, sep);
      var rest := Join(parts[1..], sep);
      assert s == parts[0] + [sep] + rest;
      if c !in parts[0] {
        var k :| 0 <= k < |s| && s[k] == c;
        assert k > |parts[0]|;
        assert rest[k - |parts[0]| - 1] == c;
        JoinHolds(parts[1..], sep, c);
        var i :| 0 <= i < |parts[1..]| && c in parts[1..][i];
        assert parts[i + 1] == parts[1..][i];
      }
    } else {
      assert parts != [];
    }
  }

  /** `s.split(sep)`: cut at every occurrence of `sep`; an empty string gives `[""]`. */
  function Split(s: string, sep: char): (parts: seq<string>)
    ensures |parts| >= 1
    ensures forall i :: 0 <= i < |parts| ==> sep !in parts[i]
    ensures Join(parts, sep) == s
    decreases |s|
  {
    match IndexOf(s, sep)
    case None => [s]
    case Some(i) =>
      var rest := Split(s[i + 1..], sep);
      assert s == s[..i] + [sep] + s[i + 1..];
      [s[..i]] + rest
  }

  /** Splitting a joined list gives the list back when no piece holds the separator. */
  lemma {:induction false} SplitJoin(parts: seq<string>, sep: char)
    requires |parts| >= 1
    requires forall i :: 0 <= i < |parts| ==> sep !in parts[i]
    ensures Split(Join(parts, sep), sep) == parts
    decreases |parts|
  {
    if |parts| > 1 {
      var p := parts[0];
      var s := Join(parts, sep);
      assert s == p + [sep] + Join(parts[1..], sep);
      assert s[|p|] == sep;
      assert s[..|p|] == p;
      assert s[|p| + 1..] == Join(parts[1..], sep);
      SplitJoin(parts[1..], sep);
    }
  }

  /** The decimal digit for `d`. */
  function Digit(d: nat): (c: char)
    requires d < 10
    ensures '0' <= c <= '9'
  {
    ('0' as int + d) as char
  }

  /** `str(n)` for a natural number. */
  function NatToString(n: nat): (s: string)
    ensures |s| >= 1
    ensures forall i :: 0 <= i < |s| ==> '0' <= s[i] <= '9'
    ensures |s| == 1 <==> n < 10
  {
    if n < 10 then [Digit(n)] else NatToString(n / 10) + [Digit(n % 10)]
  }

  /** Distinct numbers have distinct decimal forms. */
  lemma {:induction false} NatToStringInjective(a: nat, b: nat)
    requires NatToString(a) == NatToString(b)
    ensures a == b
  {
    var s := NatToString(a);
    if a < 10 {
      assert b < 10;
      assert Digit(a) as int == Digit(b) as int;
    } else {
      assert b >= 10;
      assert s[..|s| - 1] == NatToString(a / 10) == NatToString(b / 10);
      NatToStringInjective(a / 10, b / 10);
      assert Digit(a % 10) as int == Digit(b % 10) as int;
    }
  }

  /** `f"{prefix}{n}"`: the name numbered `n` in a family of names. */
  function Numbered(prefix: string, n: nat): string {
    prefix + NatToString(n)
  }

  /** Distinct numbers give distinct names. */
  lemma NumberedInjective(prefix: string, a: nat, b: nat)
    requires Numbered(prefix, a) == Numbered(prefix, b)
    ensures a == b
  {
    assert NatToString(a) == Numbered(prefix, a)[|prefix|..];
    assert NatToString(b) == Numbered(prefix, b)[|prefix|..];
    NatToStringInjective(a, b);
  }

  lemma NumberedDistinct(prefix: string, a: nat, b: nat)
    requires a != b
    ensures Numbered(prefix, a) != Numbered(prefix, b)
  {
    if Numbered(prefix, a) == Numbered(prefix, b) {
      NumberedInjective(prefix, a, b);
    }
  }

  /** `str(i)` for an integer. */
  function IntToString(i: int): string
  {
    if i < 0 then "-" + NatToString(-i) else NatToString(i)
  }
}
