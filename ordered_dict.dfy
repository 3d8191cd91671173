/**
 * A Python `dict` as an association list. A dict remembers the position at
 * which a key was FIRST inserted and the value that was LAST stored under it;
 * `Put` is `d[k] = v` and `FromPairs` is a dict comprehension
 * `{k: v for ...}`, whose later pairs overwrite earlier ones.
 */
module OrderedDict {
  import opened Wrappers

  type Dict<V> = seq<(string, V)>

  /** The keys present in `d`. */
  function KeySet<V>(d: Dict<V>): set<string> {
    set i | 0 <= i < |d| :: d[i].0
  }

  /** No key occurs twice: what every dict built by `Put` satisfies. */
  predicate UniqueKeys<V>(d: Dict<V>) {
    forall i, j :: 0 <= i < j < |d| ==> d[i].0 != d[j].0
  }

  /** Index of the first entry with key `k`, or `|d|` when there is none. */
  function Find<V>(d: Dict<V>, k: string): (i: nat)
    ensures i <= |d|
    ensures i < |d| ==> d[i].0 == k
    ensures forall j :: 0 <= j < i ==> d[j].0 != k
  {
    if |d| == 0 then 0
    else if d[0].0 == k then 0
    else 1 + Find(d[1..], k)
  }

  /** `Find` is pinned down by its contract: the first index holding `k`. */
  lemma FindIs<V>(d: Dict<V>, k: string, i: nat)
    requires i <= |d|
    requires i < |d| ==> d[i].0 == k
    requires forall j :: 0 <= j < i ==> d[j].0 != k
    ensures Find(d, k) == i
  {
  }

  /** `k in d` */
  predicate HasKey<V>(d: Dict<V>, k: string) {
    Find(d, k) < |d|
  }

  lemma HasKeyIsKeySet<V>(d: Dict<V>, k: string)
    ensures HasKey(d, k) <==> k in KeySet(d)
  {
  }

  /** `d.get(k)` */
  function Get<V>(d: Dict<V>, k: string): (r: Option<V>)
    ensures r.Some? <==> HasKey(d, k)
    ensures r.Some? ==> (k, r.value) in d
    ensures UniqueKeys(d) ==> forall i :: 0 <= i < |d| && d[i].0 == k ==> r == Some(d[i].1)
  {
    var i := Find(d, k);
    if i < |d| then Some(d[i].1) else None
  }

  /** `d[k] = v`: an existing key keeps its position and takes the new value, a new key goes last. */
  function Put<V>(d: Dict<V>, k: string, v: V): (r: Dict<V>)
    ensures Get(r, k) == Some(v)
    ensures forall k' :: k' != k ==> Get(r, k') == Get(d, k')
    ensures KeySet(r) == KeySet(d) + {k}
    ensures UniqueKeys(d) ==> UniqueKeys(r)
    ensures forall e :: e in r ==> e in d || e == (k, v)
    ensures HasKey(d, k) ==> |r| == |d| && forall i :: 0 <= i < |d| ==> r[i].0 == d[i].0
    ensures !HasKey(d, k) ==> |r| == |d| + 1 && r[..|d|] == d && r[|d|].0 == k
  {
    var i := Find(d, k);
    var r := if i < |d| then d[i := (k, v)] else d + [(k, v)];
    PutFacts(d, k, v, r);
    r
  }

  lemma PutFacts<V>(d: Dict<V>, k: string, v: V, r: Dict<V>)
    requires r == if Find(d, k) < |d| then d[Find(d, k) := (k, v)] else d + [(k, v)]
    ensures Get(r, k) == Some(v)
    ensures forall k' :: k' != k ==> Get(r, k') == Get(d, k')
    ensures KeySet(r) == KeySet(d) + {k}
  {
    var i := Find(d, k);
    assert r[i] == (k, v);
    assert forall j :: 0 <= j < i ==> r[j] == d[j];
    FindIs(r, k, i);
    forall k' | k' != k ensures Get(r, k') == Get(d, k') {
      SameKeysFind(d, r, i, k');
    }
    PutKeySet(d, k, v, r);
  }

  lemma PutKeySet<V>(d: Dict<V>, k: string, v: V, r: Dict<V>)
    requires r == if Find(d, k) < |d| then d[Find(d, k) := (k, v)] else d + [(k, v)]
    ensures KeySet(r) == KeySet(d) + {k}
  {
    var i := Find(d, k);
    assert r[i] == (k, v);
    if i < |d| {
      assert forall j :: 0 <= j < |d| ==> r[j].0 == d[j].0;
    } else {
      assert forall j :: 0 <= j < |d| ==> r[j] == d[j];
    }
  }

  /** Storing under key `k` at index `i` (or appending, when `i == |d|`) leaves lookups of other keys alone. */
  lemma SameKeysFind<V>(d: Dict<V>, r: Dict<V>, i: nat, k': string)
    requires i <= |d| && |r| >= |d|
    requires forall j :: 0 <= j < |d| && j != i ==> r[j] == d[j]
    requires i < |r| && r[i].0 != k' && (i < |d| ==> d[i].0 != k')
    requires |r| == |d| || |r| == |d| + 1
    requires |r| == |d| + 1 ==> i == |d|
    ensures Get(r, k') == Get(d, k')
  {
  }

  /** The dict comprehension over `ps`, in order: later pairs overwrite earlier ones. */
  function FromPairs<V>(ps: seq<(string, V)>): (d: Dict<V>)
    ensures UniqueKeys(d)
    ensures KeySet(d) == KeySet(ps)
    ensures forall e :: e in d ==> e in ps
  {
    if |ps| == 0 then []
    else
      var last := ps[|ps| - 1];
      var d' := FromPairs(ps[..|ps| - 1]);
      assert KeySet(ps) == KeySet(ps[..|ps| - 1]) + {last.0} by {
        assert forall i :: 0 <= i < |ps| - 1 ==> ps[..|ps| - 1][i] == ps[i];
      }
      Put(d', last.0, last.1)
  }

  /** The comprehension one pair further on is one more `d[k] = v`. */
  lemma FromPairsSnoc<V>(ps: seq<(string, V)>, i: nat)
    requires i < |ps|
    ensures FromPairs(ps[..i + 1]) == Put(FromPairs(ps[..i]), ps[i].0, ps[i].1)
  {
    assert ps[..i + 1][..i] == ps[..i];
  }

  lemma FromPairsOne<V>(e: (string, V))
    ensures FromPairs([e]) == [e]
  {
  }

  /** Last write wins: the value under a key is that of the key's last pair. */
  lemma {:induction false} FromPairsLastWins<V>(ps: seq<(string, V)>, i: nat)
    requires i < |ps|
    requires forall j :: i < j < |ps| ==> ps[j].0 != ps[i].0
    ensures Get(FromPairs(ps), ps[i].0) == Some(ps[i].1)
  {
    if i < |ps| - 1 {
      FromPairsLastWins(ps[..|ps| - 1], i);
    }
  }

  /** One more pair either keeps every key in place or appends a key not seen before. */
  lemma FromPairsStep<V>(ps: seq<(string, V)>)
    requires |ps| > 0
    ensures var d' := FromPairs(ps[..|ps| - 1]);
            var d := FromPairs(ps);
            && |d'| <= |d|
            && (forall i :: 0 <= i < |d'| ==> d[i].0 == d'[i].0)
            && (|d| > |d'| ==> |d| == |d'| + 1 && d[|d'|].0 == ps[|ps| - 1].0
                               && ps[|ps| - 1].0 !in KeySet(ps[..|ps| - 1]))
  {
  }

  /** First insertion wins the position: keys appear in the order of their first pair. */
  lemma {:induction false} FromPairsKeyOrder<V>(ps: seq<(string, V)>, a: nat, b: nat)
    requires a < b < |FromPairs(ps)|
    ensures Find(ps, FromPairs(ps)[a].0) < Find(ps, FromPairs(ps)[b].0)
  {
    var init := ps[..|ps| - 1];
    var d' := FromPairs(init);
    var d := FromPairs(ps);
    FromPairsStep(ps);
    assert d'[a] in d';
    FindPrefix(ps, d[a].0);
    if b < |d'| {
      assert d'[b] in d';
      FromPairsKeyOrder(init, a, b);
      FindPrefix(ps, d[b].0);
    } else {
      FindLast(ps);
    }
  }

  /** A key already among the earlier pairs is first found there. */
  lemma FindPrefix<V>(ps: seq<(string, V)>, k: string)
    requires |ps| > 0 && k in KeySet(ps[..|ps| - 1])
    ensures Find(ps, k) == Find(ps[..|ps| - 1], k) < |ps| - 1
  {
  }

  /** A key new with the last pair is first found at that pair. */
  lemma FindLast<V>(ps: seq<(string, V)>)
    requires |ps| > 0 && ps[|ps| - 1].0 !in KeySet(ps[..|ps| - 1])
    ensures Find(ps, ps[|ps| - 1].0) == |ps| - 1
  {
    var init := ps[..|ps| - 1];
    forall j | 0 <= j < |init| ensures ps[j].0 != ps[|ps| - 1].0 {
      assert init[j] == ps[j];
    }
    FindIs(ps, ps[|ps| - 1].0, |ps| - 1);
  }
}
