/** A ledger record: a Python `dict[str, str]`, which remembers the order in
    which its keys were first assigned.  It is kept as the list of its
    `items()`; assignment keeps an existing key in place and appends a new one. */
module Records {
  import opened Wrappers
  import opened Seqs

  datatype Pair = Pair(key: string, value: string)

  type Record = seq<Pair>

  predicate HasKey(r: Record, k: string) {
    exists i :: 0 <= i < |r| && r[i].key == k
  }

  /** `list(r)`: the keys in order. */
  function Keys(r: Record): (ks: seq<string>)
    ensures |ks| == |r| && forall i :: 0 <= i < |r| ==> ks[i] == r[i].key
    ensures forall k :: k in ks <==> HasKey(r, k)
  {
    seq(|r|, i requires 0 <= i < |r| => r[i].key)
  }

  /** No key occurs twice: true of every dict's `items()`. */
  predicate DistinctKeys(r: Record) {
    forall i, j :: 0 <= i < j < |r| ==> r[i].key != r[j].key
  }

  /** The position of `k` among the keys, if present (the first one). */
  function KeyIndex(r: Record, k: string): (i: Option<nat>)
    ensures i.None? <==> !HasKey(r, k)
    ensures i.Some? ==> i.value < |r| && r[i.value].key == k && forall j :: 0 <= j < i.value ==> r[j].key != k
  {
    if r == [] then None
    else if r[0].key == k then Some(0)
    else
      assert forall j :: 1 <= j < |r| ==> r[j] == r[1..][j - 1];
      match KeyIndex(r[1..], k)
      case None => None
      case Some(i) => Some(i + 1)
  }

  lemma KeyIndexIs(r: Record, k: string, i: nat)
    requires i < |r| && r[i].key == k && forall j :: 0 <= j < i ==> r[j].key != k
    ensures KeyIndex(r, k) == Some(i)
  {
  }

  /** Two records with the same keys at the same positions locate every key alike. */
  lemma SameKeysSameIndex(r: Record, r': Record, k: string)
    requires |r| == |r'| && forall i :: 0 <= i < |r| ==> r'[i].key == r[i].key
    ensures KeyIndex(r', k) == KeyIndex(r, k)
  {
    match KeyIndex(r, k)
    case None =>
    case Some(i) => KeyIndexIs(r', k, i);
  }

  /** `r.get(k)` */
  function Get(r: Record, k: string): (v: Option<string>)
    ensures v.Some? <==> HasKey(r, k)
  {
    match KeyIndex(r, k)
    case None => None
    case Some(i) => Some(r[i].value)
  }

  /** With distinct keys, `Get` finds the value stored beside the key. */
  lemma GetAt(r: Record, i: int)
    requires DistinctKeys(r) && 0 <= i < |r|
    ensures Get(r, r[i].key) == Some(r[i].value)
  {
  }

  /** `r[k]` for a key known to be present. */
  function ValueOf(r: Record, k: string): string
    requires HasKey(r, k)
  {
    Get(r, k).value
  }

  /** `r[k] = v`: the new value is visible under `k`, every other key reads as
      before, an existing key keeps its position and a new key goes last. */
  function Put(r: Record, k: string, v: string): (r': Record)
    ensures Get(r', k) == Some(v)
    ensures !HasKey(r, k) ==> r' == r + [Pair(k, v)]
    ensures DistinctKeys(r) ==> DistinctKeys(r')
  {
    match KeyIndex(r, k)
    case None =>
      AppendLocates(r, Pair(k, v));
      r + [Pair(k, v)]
    case Some(i) =>
      forall k' ensures KeyIndex(r[i := Pair(k, v)], k') == KeyIndex(r, k')
        ensures HasKey(r[i := Pair(k, v)], k') <==> HasKey(r, k')
      {
        SameKeysSameIndex(r, r[i := Pair(k, v)], k');
      }
      r[i := Pair(k, v)]
  }

  /** `r[k] = v`: every other key reads as before, an existing key keeps its
      position and a new key goes last. */
  lemma PutFacts(r: Record, k: string, v: string)
    ensures forall k' :: k' != k ==> Get(Put(r, k, v), k') == Get(r, k')
    ensures forall k' :: HasKey(Put(r, k, v), k') <==> HasKey(r, k') || k' == k
    ensures HasKey(r, k) ==> |Put(r, k, v)| == |r| && forall i :: 0 <= i < |r| ==> Put(r, k, v)[i].key == r[i].key
    ensures DistinctKeys(r) && HasKey(r, k) ==>
              forall i :: 0 <= i < |r| ==> Put(r, k, v)[i] == (if r[i].key == k then Pair(k, v) else r[i])
  {
    match KeyIndex(r, k)
    case None =>
      AppendLocates(r, Pair(k, v));
    case Some(i) =>
      forall k' ensures KeyIndex(r[i := Pair(k, v)], k') == KeyIndex(r, k')
        ensures HasKey(r[i := Pair(k, v)], k') <==> HasKey(r, k')
      {
        SameKeysSameIndex(r, r[i := Pair(k, v)], k');
      }
  }

  /** Every pair of `Put(r, k, v)` is a pair of `r` or the new one. */
  lemma PutPairs(r: Record, k: string, v: string)
    ensures forall i :: 0 <= i < |Put(r, k, v)| ==> Put(r, k, v)[i] in r || Put(r, k, v)[i] == Pair(k, v)
  {
  }

  /** Appending a pair with a new key leaves every other key where it was. */
  lemma AppendLocates(r: Record, p: Pair)
    requires !HasKey(r, p.key)
    ensures KeyIndex(r + [p], p.key) == Some(|r|)
    ensures forall k :: k != p.key ==> KeyIndex(r + [p], k) == KeyIndex(r, k)
    ensures forall k :: HasKey(r + [p], k) <==> HasKey(r, k) || k == p.key
  {
    KeyIndexIs(r + [p], p.key, |r|);
    forall k | k != p.key
      ensures KeyIndex(r + [p], k) == KeyIndex(r, k)
      ensures HasKey(r + [p], k) <==> HasKey(r, k)
    {
      match KeyIndex(r, k)
      case None =>
        forall i | 0 <= i < |r| + 1 ensures (r + [p])[i].key != k {
          if i < |r| { assert (r + [p])[i] == r[i]; }
        }
      case Some(i) => KeyIndexIs(r + [p], k, i);
    }
  }

  /** The dict built by assigning the pairs in turn,
      `d = {}` then `d[k] = v` for each `(k, v)` of `ps`. */
  function FromPairs(ps: seq<Pair>): (r: Record)
    ensures DistinctKeys(r)
    ensures forall k :: HasKey(r, k) <==> HasKey(ps, k)
  {
    if ps == [] then []
    else
      var init := ps[..|ps| - 1];
      var last := ps[|ps| - 1];
      assert forall k :: HasKey(ps, k) <==> HasKey(init, k) || k == last.key by {
        assert forall i :: 0 <= i < |init| ==> init[i] == ps[i];
      }
      PutFacts(FromPairs(init), last.key, last.value);
      Put(FromPairs(init), last.key, last.value)
  }

  /** One more assignment: the dict built so far, with the last pair put in. */
  lemma FromPairsSnoc(ps: seq<Pair>, p: Pair)
    ensures FromPairs(ps + [p]) == Put(FromPairs(ps), p.key, p.value)
  {
    assert (ps + [p])[..|ps|] == ps;
  }

  /** The value of the last pair for `k`, if any: what a dict built from `ps`
      holds under `k` when later assignments win. */
  function LastValue(ps: seq<Pair>, k: string): Option<string>
  {
    if ps == [] then None
    else if ps[|ps| - 1].key == k then Some(ps[|ps| - 1].value)
    else LastValue(ps[..|ps| - 1], k)
  }

  /** Building from one more pair assigns it. */
  lemma FromPairsStep(ps: seq<Pair>, i: nat)
    requires i < |ps|
    ensures FromPairs(ps[..i + 1]) == Put(FromPairs(ps[..i]), ps[i].key, ps[i].value)
  {
    PrefixSnoc(ps, i);
    assert ps[..i + 1][..i] == ps[..i];
  }

  /** One assignment into the empty dict. */
  lemma FromPairsFirst(ps: seq<Pair>)
    requires ps != []
    ensures FromPairs(ps[..1]) == [ps[0]]
  {
    FromPairsStep(ps, 0);
    assert ps[..0] == [];
    assert [] + [Pair(ps[0].key, ps[0].value)] == [ps[0]];
  }

  /** Last write wins: a key reads as the value of the last pair that set it. */
  lemma {:induction false} FromPairsGet(ps: seq<Pair>, k: string)
    ensures Get(FromPairs(ps), k) == LastValue(ps, k)
    decreases |ps|
  {
    if ps != [] {
      FromPairsGet(ps[..|ps| - 1], k);
      PutGet(FromPairs(ps[..|ps| - 1]), ps[|ps| - 1].key, ps[|ps| - 1].value, k);
    }
  }

  /** Every pair of the built dict is one of the pairs it was built from. */
  lemma {:induction false} FromPairsPairs(ps: seq<Pair>)
    ensures forall p :: p in FromPairs(ps) ==> p in ps
    decreases |ps|
  {
    if ps != [] {
      var init := ps[..|ps| - 1];
      FromPairsPairs(init);
      PutPairs(FromPairs(init), ps[|ps| - 1].key, ps[|ps| - 1].value);
      assert forall p :: p in init ==> p in ps;
    }
  }

  /** Pairs whose keys are already distinct build exactly themselves, in order. */
  lemma {:induction false} FromPairsDistinct(ps: seq<Pair>)
    requires DistinctKeys(ps)
    ensures FromPairs(ps) == ps
    decreases |ps|
  {
    if ps != [] {
      var init, last := ps[..|ps| - 1], ps[|ps| - 1];
      assert forall i :: 0 <= i < |init| ==> init[i] == ps[i];
      FromPairsDistinct(init);
      assert !HasKey(init, last.key);
      AppendLast([], ps);
    }
  }

  /** When every pair for `k` carries `v`, the last one does too. */
  lemma {:induction false} LastValueUniform(ps: seq<Pair>, k: string, v: string)
    requires forall i :: 0 <= i < |ps| && ps[i].key == k ==> ps[i].value == v
    ensures LastValue(ps, k) == if HasKey(ps, k) then Some(v) else None
    decreases |ps|
  {
    if ps != [] {
      var init := ps[..|ps| - 1];
      assert forall i :: 0 <= i < |init| ==> init[i] == ps[i];
      LastValueUniform(init, k, v);
    }
  }

  /** The keys in order of first assignment. */
  function FirstOccurrences(ks: seq<string>): seq<string>
  {
    if ks == [] then []
    else
      var seen := FirstOccurrences(ks[..|ks| - 1]);
      if ks[|ks| - 1] in seen then seen else seen + [ks[|ks| - 1]]
  }

  /** A repeated key keeps the position of its first assignment. */
  lemma {:induction false} FromPairsKeys(ps: seq<Pair>)
    ensures Keys(FromPairs(ps)) == FirstOccurrences(Keys(ps))
    decreases |ps|
  {
    if ps != [] {
      var init, last := ps[..|ps| - 1], ps[|ps| - 1];
      FromPairsKeys(init);
      assert Keys(ps)[..|ps| - 1] == Keys(init);
      var r := FromPairs(init);
      if HasKey(r, last.key) {
        KeysSamePositions(r, Put(r, last.key, last.value));
      } else {
        KeysAppend(r, Pair(last.key, last.value));
      }
    }
  }

  lemma KeysSamePositions(r: Record, r': Record)
    requires |r| == |r'| && forall i :: 0 <= i < |r| ==> r'[i].key == r[i].key
    ensures Keys(r') == Keys(r)
  {
  }

  lemma KeysAppend(r: Record, p: Pair)
    ensures Keys(r + [p]) == Keys(r) + [p.key]
  {
  }

  /** Extending a record at the back does not change what its keys read. */
  lemma ExtendGet(r: Record, more: seq<Pair>, k: string)
    requires HasKey(r, k)
    ensures Get(r + more, k) == Get(r, k)
  {
    var i := KeyIndex(r, k).value;
    assert forall j :: 0 <= j <= i ==> (r + more)[j] == r[j];
    KeyIndexIs(r + more, k, i);
  }

  lemma FirstOccurrencesSnoc(ks: seq<string>, k: string)
    ensures FirstOccurrences(ks + [k]) ==
      if k in FirstOccurrences(ks) then FirstOccurrences(ks) else FirstOccurrences(ks) + [k]
  {
    assert (ks + [k])[..|ks|] == ks;
  }

  /** `big` is `small` with more pairs after it. */
  predicate Extends(big: Record, small: Record) {
    |small| <= |big| && big[..|small|] == small
  }

  /** A record that only grows at the back keeps reading its keys as before. */
  lemma ExtendsGet(big: Record, small: Record, k: string)
    requires Extends(big, small) && HasKey(small, k)
    ensures Get(big, k) == Get(small, k)
  {
    assert big == small + big[|small|..];
    ExtendGet(small, big[|small|..], k);
  }

  lemma ExtendsTrans(a: Record, b: Record, c: Record)
    requires Extends(a, b) && Extends(b, c)
    ensures Extends(a, c)
  {
    assert a[..|c|] == a[..|b|][..|c|];
  }

  /** The last pair for `k` in `a + b` is in `b` when `b` sets `k` at all. */
  lemma {:induction false} LastValueAppend(a: seq<Pair>, b: seq<Pair>, k: string)
    ensures LastValue(a + b, k) == if HasKey(b, k) then LastValue(b, k) else LastValue(a, k)
    decreases |b|
  {
    if b == [] {
      assert a + b == a;
    } else {
      var init := b[..|b| - 1];
      assert (a + b)[..|a + b| - 1] == a + init;
      assert forall i :: 0 <= i < |init| ==> init[i] == b[i];
      LastValueAppend(a, init, k);
    }
  }

  lemma {:induction false} LastValueAbsent(ps: seq<Pair>, k: string)
    requires !HasKey(ps, k)
    ensures LastValue(ps, k) == None
    decreases |ps|
  {
    if ps != [] {
      var init := ps[..|ps| - 1];
      assert forall i :: 0 <= i < |init| ==> init[i] == ps[i];
      LastValueAbsent(init, k);
    }
  }

  /** A key only the distinct pairs `a` set reads in `FromPairs(a + b)` as in `a`. */
  lemma FromPairsPrefixGet(a: seq<Pair>, b: seq<Pair>, k: string)
    requires DistinctKeys(a) && !HasKey(b, k)
    ensures Get(FromPairs(a + b), k) == Get(a, k)
  {
    FromPairsGet(a + b, k);
    LastValueAppend(a, b, k);
    FromPairsGet(a, k);
    FromPairsDistinct(a);
  }

  lemma HasKeyAppend(a: seq<Pair>, b: seq<Pair>, k: string)
    ensures HasKey(a + b, k) <==> HasKey(a, k) || HasKey(b, k)
  {
    if HasKey(a + b, k) {
      var j :| 0 <= j < |a + b| && (a + b)[j].key == k;
      if j >= |a| {
        assert (a + b)[j] == b[j - |a|];
      }
    }
    if HasKey(a, k) {
      var j :| 0 <= j < |a| && a[j].key == k;
      assert (a + b)[j] == a[j];
    }
    if HasKey(b, k) {
      var j :| 0 <= j < |b| && b[j].key == k;
      assert (a + b)[|a| + j] == b[j];
    }
  }

  /** `Put` read back: the new value under its key, the old ones elsewhere. */
  lemma PutGet(r: Record, k: string, v: string, k': string)
    ensures Get(Put(r, k, v), k') == if k' == k then Some(v) else Get(r, k')
  {
    PutFacts(r, k, v);
  }
}
