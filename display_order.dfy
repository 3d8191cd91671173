/**
 * `sorted(services, key=lambda x: x["DisplayName"])`: Python compares `str`
 * keys lexicographically by code point, and `sorted` is stable, so records
 * with equal display names keep their input order.
 */
module DisplayOrder {
  import opened Services

  /** Python's `a <= b` on `str`: code-point lexicographic order, a prefix first. */
  predicate StrLessEq(a: string, b: string)
    ensures a <= b ==> StrLessEq(a, b)
  {
    if |a| == 0 then true
    else if |b| == 0 then false
    else if a[0] != b[0] then a[0] < b[0]
    else StrLessEq(a[1..], b[1..])
  }

  /** `a` comes first at the first position where the two differ. */
  predicate FirstDifferenceLess(a: string, b: string) {
    exists k :: 0 <= k < |a| && k < |b| && a[..k] == b[..k] && a[k] < b[k]
  }

  /** `StrLessEq` is the lexicographic order: `a` is a prefix of `b`, or wins at the first difference. */
  lemma {:induction false} StrLessEqIsLexicographic(a: string, b: string)
    ensures StrLessEq(a, b) <==> a <= b || FirstDifferenceLess(a, b)
  {
    if |a| > 0 && |b| > 0 {
      if a[0] == b[0] {
        StrLessEqIsLexicographic(a[1..], b[1..]);
        FirstDifferenceTail(a, b);
        assert a == [a[0]] + a[1..] && b == [b[0]] + b[1..];
        assert a <= b ==> a[1..] <= b[1..];
      } else if a[0] < b[0] {
        assert a[..0] == b[..0];
      } else {
        FirstDifferenceHead(a, b);
      }
    }
  }

  lemma FirstDifferenceHead(a: string, b: string)
    requires |a| > 0 && |b| > 0
    ensures FirstDifferenceLess(a, b) ==> a[0] <= b[0]
  {
  }

  lemma FirstDifferenceTail(a: string, b: string)
    requires |a| > 0 && |b| > 0 && a[0] == b[0]
    ensures FirstDifferenceLess(a, b) <==> FirstDifferenceLess(a[1..], b[1..])
  {
    if FirstDifferenceLess(a, b) {
      FirstDifferenceDrop(a, b);
    }
    if FirstDifferenceLess(a[1..], b[1..]) {
      FirstDifferenceCons(a, b);
    }
  }

  lemma FirstDifferenceDrop(a: string, b: string)
    requires |a| > 0 && |b| > 0 && a[0] == b[0] && FirstDifferenceLess(a, b)
    ensures FirstDifferenceLess(a[1..], b[1..])
  {
    var k :| 0 <= k < |a| && k < |b| && a[..k] == b[..k] && a[k] < b[k];
    assert k != 0;
    var a', b' := a[1..], b[1..];
    assert a'[..k - 1] == a[..k][1..] && b'[..k - 1] == b[..k][1..];
    assert a'[k - 1] == a[k] && b'[k - 1] == b[k];
  }

  lemma FirstDifferenceCons(a: string, b: string)
    requires |a| > 0 && |b| > 0 && a[0] == b[0] && FirstDifferenceLess(a[1..], b[1..])
    ensures FirstDifferenceLess(a, b)
  {
    var a', b' := a[1..], b[1..];
    var k :| 0 <= k < |a'| && k < |b'| && a'[..k] == b'[..k] && a'[k] < b'[k];
    assert a[..k + 1] == [a[0]] + a'[..k] && b[..k + 1] == [b[0]] + b'[..k];
    assert a[k + 1] == a'[k] && b[k + 1] == b'[k];
  }

  lemma StrLessEqRefl(a: string)
    ensures StrLessEq(a, a)
  {
  }

  lemma {:induction false} StrLessEqTotal(a: string, b: string)
    ensures StrLessEq(a, b) || StrLessEq(b, a)
  {
    if |a| > 0 && |b| > 0 && a[0] == b[0] { StrLessEqTotal(a[1..], b[1..]); }
  }

  lemma {:induction false} StrLessEqTrans(a: string, b: string, c: string)
    requires StrLessEq(a, b) && StrLessEq(b, c)
    ensures StrLessEq(a, c)
  {
    if |a| > 0 && |b| > 0 && |c| > 0 && a[0] == b[0] == c[0] {
      StrLessEqTrans(a[1..], b[1..], c[1..]);
    }
  }

  lemma {:induction false} StrLessEqAntisym(a: string, b: string)
    requires StrLessEq(a, b) && StrLessEq(b, a)
    ensures a == b
  {
    if |a| > 0 && |b| > 0 {
      StrLessEqAntisym(a[1..], b[1..]);
      assert a == [a[0]] + a[1..] && b == [b[0]] + b[1..];
    }
  }

  predicate HasDisplayNames(s: seq<Record>) {
    forall i :: 0 <= i < |s| ==> DisplayNameKey in s[i]
  }

  predicate SortedByDisplayName(s: seq<Record>)
    requires HasDisplayNames(s)
  {
    forall i, j :: 0 <= i < j < |s| ==> StrLessEq(s[i][DisplayNameKey], s[j][DisplayNameKey])
  }

  /** The records of `s` whose display name is `d`, in order. */
  function WithDisplayName(s: seq<Record>, d: string): seq<Record>
    requires HasDisplayNames(s)
  {
    if |s| == 0 then []
    else if s[0][DisplayNameKey] == d then [s[0]] + WithDisplayName(s[1..], d)
    else WithDisplayName(s[1..], d)
  }

  /** Insert `x` before the first record whose display name is not below `x`'s. */
  function Insert(x: Record, t: seq<Record>): (r: seq<Record>)
    requires DisplayNameKey in x && HasDisplayNames(t)
    ensures multiset(r) == multiset(t) + multiset{x}
    ensures HasDisplayNames(r)
    ensures SortedByDisplayName(t) ==> SortedByDisplayName(r)
  {
    if |t| == 0 then [x]
    else if StrLessEq(x[DisplayNameKey], t[0][DisplayNameKey]) then
      var r := [x] + t;
      InsertFrontSorted(x, t);
      r
    else
      var rest := Insert(x, t[1..]);
      var r := [t[0]] + rest;
      assert t == [t[0]] + t[1..];
      assert forall y :: y in rest ==> y == x || y in t[1..] by {
        forall y | y in rest ensures y == x || y in t[1..] {
          assert y in multiset(rest);
        }
      }
      InsertBehindSorted(x, t, rest);
      r
  }

  lemma InsertFrontSorted(x: Record, t: seq<Record>)
    requires DisplayNameKey in x && HasDisplayNames(t) && |t| > 0
    requires StrLessEq(x[DisplayNameKey], t[0][DisplayNameKey])
    ensures HasDisplayNames([x] + t)
    ensures SortedByDisplayName(t) ==> SortedByDisplayName([x] + t)
  {
    var r := [x] + t;
    if SortedByDisplayName(t) {
      forall i, j | 0 <= i < j < |r|
        ensures StrLessEq(r[i][DisplayNameKey], r[j][DisplayNameKey])
      {
        if i == 0 && j > 1 {
          StrLessEqTrans(x[DisplayNameKey], t[0][DisplayNameKey], t[j - 1][DisplayNameKey]);
        }
      }
    }
  }

  lemma InsertBehindSorted(x: Record, t: seq<Record>, rest: seq<Record>)
    requires DisplayNameKey in x && HasDisplayNames(t) && HasDisplayNames(rest) && |t| > 0
    requires !StrLessEq(x[DisplayNameKey], t[0][DisplayNameKey])
    requires forall y :: y in rest ==> y == x || y in t[1..]
    requires SortedByDisplayName(t[1..]) ==> SortedByDisplayName(rest)
    ensures HasDisplayNames([t[0]] + rest)
    ensures SortedByDisplayName(t) ==> SortedByDisplayName([t[0]] + rest)
  {
    var r := [t[0]] + rest;
    if SortedByDisplayName(t) {
      assert SortedByDisplayName(t[1..]);
      StrLessEqTotal(x[DisplayNameKey], t[0][DisplayNameKey]);
      forall i, j | 0 <= i < j < |r|
        ensures StrLessEq(r[i][DisplayNameKey], r[j][DisplayNameKey])
      {
        if i == 0 {
          var y := rest[j - 1];
          assert y in rest;
          if y != x {
            var k :| 0 <= k < |t[1..]| && t[1..][k] == y;
            assert t[k + 1] == y;
          }
        }
      }
    }
  }

  /** The stable sort by display name. */
  function SortByDisplayName(s: seq<Record>): (r: seq<Record>)
    requires HasDisplayNames(s)
    ensures HasDisplayNames(r)
    ensures SortedByDisplayName(r)
    ensures multiset(r) == multiset(s)
  {
    if |s| == 0 then []
    else
      assert s == [s[0]] + s[1..];
      Insert(s[0], SortByDisplayName(s[1..]))
  }

  lemma {:induction false} InsertKeepsGroups(x: Record, t: seq<Record>, d: string)
    requires DisplayNameKey in x && HasDisplayNames(t)
    ensures WithDisplayName(Insert(x, t), d) ==
            (if x[DisplayNameKey] == d then [x] else []) + WithDisplayName(t, d)
  {
    if |t| > 0 {
      if StrLessEq(x[DisplayNameKey], t[0][DisplayNameKey]) {
        assert ([x] + t)[1..] == t;
      } else {
        StrLessEqRefl(x[DisplayNameKey]);
        InsertKeepsGroups(x, t[1..], d);
        var r := [t[0]] + Insert(x, t[1..]);
        assert r[1..] == Insert(x, t[1..]);
      }
    }
  }

  /** Stability: the records sharing one display name come out in their input order. */
  lemma {:induction false} SortIsStable(s: seq<Record>, d: string)
    requires HasDisplayNames(s)
    ensures WithDisplayName(SortByDisplayName(s), d) == WithDisplayName(s, d)
  {
    if |s| > 0 {
      SortIsStable(s[1..], d);
      InsertKeepsGroups(s[0], SortByDisplayName(s[1..]), d);
    }
  }

  /** Sorting an already sorted snapshot gives it back unchanged. */
  lemma {:induction false} SortOfSortedIsIdentity(s: seq<Record>)
    requires HasDisplayNames(s) && SortedByDisplayName(s)
    ensures SortByDisplayName(s) == s
  {
    if |s| > 0 {
      var t := s[1..];
      SortedTail(s);
      SortOfSortedIsIdentity(t);
      if |t| > 0 {
        assert t[0] == s[1];
        assert StrLessEq(s[0][DisplayNameKey], t[0][DisplayNameKey]);
      }
      assert Insert(s[0], t) == [s[0]] + t;
      assert s == [s[0]] + t;
    }
  }

  lemma SortedTail(s: seq<Record>)
    requires HasDisplayNames(s) && SortedByDisplayName(s) && |s| > 0
    ensures HasDisplayNames(s[1..]) && SortedByDisplayName(s[1..])
  {
  }

  /** Sorting twice is sorting once. */
  lemma SortIsIdempotent(s: seq<Record>)
    requires HasDisplayNames(s)
    ensures SortByDisplayName(SortByDisplayName(s)) == SortByDisplayName(s)
  {
    SortOfSortedIsIdentity(SortByDisplayName(s));
  }
}
