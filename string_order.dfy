/** Python's `<` on strings (code-point lexicographic order) and `sorted()`
    of a list of strings. */
module StringOrder {

  /** `a < b` for Python strings: the first differing code point decides;
      a proper prefix comes first. */
  predicate Below(a: string, b: string)
    decreases |a|
  {
    if a == [] then b != []
    else if b == [] then false
    else if a[0] == b[0] then Below(a[1..], b[1..])
    else a[0] < b[0]
  }

  predicate AtMost(a: string, b: string) {
    a == b || Below(a, b)
  }

  lemma {:induction false} BelowIrreflexive(a: string)
    ensures !Below(a, a)
    decreases |a|
  {
    if a != [] {
      BelowIrreflexive(a[1..]);
    }
  }

  lemma {:induction false} BelowTransitive(a: string, b: string, c: string)
    requires Below(a, b) && Below(b, c)
    ensures Below(a, c)
    decreases |a|
  {
    if a != [] && b != [] && c != [] && a[0] == b[0] && b[0] == c[0] {
      BelowTransitive(a[1..], b[1..], c[1..]);
    }
  }

  lemma {:induction false} BelowTotal(a: string, b: string)
    requires a != b
    ensures Below(a, b) || Below(b, a)
    decreases |a|
  {
    if a != [] && b != [] && a[0] == b[0] {
      assert a == [a[0]] + a[1..] && b == [b[0]] + b[1..];
      BelowTotal(a[1..], b[1..]);
    }
  }

  lemma BelowAsymmetric(a: string, b: string)
    requires Below(a, b)
    ensures !Below(b, a)
  {
    if Below(b, a) {
      BelowTransitive(a, b, a);
      BelowIrreflexive(a);
    }
  }

  /** Every earlier element is at most every later one. */
  predicate Sorted(s: seq<string>) {
    forall i, j :: 0 <= i < j < |s| ==> AtMost(s[i], s[j])
  }

  /** Insert `x` into sorted `s` before the first element above it. */
  function Insert(x: string, s: seq<string>): (r: seq<string>)
    requires Sorted(s)
    ensures Sorted(r)
    ensures multiset(r) == multiset(s) + multiset{x}
  {
    if s == [] then [x]
    else if AtMost(x, s[0]) then
      assert forall j :: 0 <= j < |s| ==> AtMost(x, s[j]) by {
        forall j | 0 <= j < |s| ensures AtMost(x, s[j]) {
          if x != s[0] && s[0] != s[j] { BelowTransitive(x, s[0], s[j]); }
        }
      }
      [x] + s
    else
      var rest := Insert(x, s[1..]);
      BelowTotal(x, s[0]);
      assert s == [s[0]] + s[1..];
      forall j | 0 <= j < |rest| ensures AtMost(s[0], rest[j]) {
        assert rest[j] in multiset(rest);
        if rest[j] != x {
          assert rest[j] in s[1..];
        }
      }
      SortedCons(s[0], rest);
      [s[0]] + rest
  }

  /** A sorted list with an element at most all of it put in front stays sorted. */
  lemma SortedCons(h: string, t: seq<string>)
    requires Sorted(t) && forall j :: 0 <= j < |t| ==> AtMost(h, t[j])
    ensures Sorted([h] + t)
  {
    forall i, j | 0 <= i < j < |[h] + t| ensures AtMost(([h] + t)[i], ([h] + t)[j]) {
      if i > 0 {
        assert ([h] + t)[i] == t[i - 1];
      }
    }
  }

  /** `sorted(s)`: a sorted permutation of `s`. */
  function SortStrings(s: seq<string>): (r: seq<string>)
    ensures Sorted(r)
    ensures multiset(r) == multiset(s)
  {
    if s == [] then []
    else
      assert s == s[..|s| - 1] + [s[|s| - 1]];
      Insert(s[|s| - 1], SortStrings(s[..|s| - 1]))
  }

  /** A sorted list without repeats is strictly increasing. */
  lemma SortedDistinctStrict(s: seq<string>, i: int, j: int)
    requires Sorted(s)
    requires forall a, b :: 0 <= a < b < |s| ==> s[a] != s[b]
    requires 0 <= i < j < |s|
    ensures Below(s[i], s[j])
  {
  }
}
