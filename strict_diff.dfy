/**
 * `Program.configurations_difference`: the strict comparison, which assumes
 * both snapshots hold the same services and reports per-field changes.
 */
module StrictDiff {
  import opened Wrappers
  import opened OrderedDict
  import opened Services

  /** `{"OldValue": ..., "NewValue": ...}` */
  datatype Change = Change(oldValue: string, newValue: string)

  /** One emitted entry: changed field name to its change. */
  type FieldDiff = map<string, Change>

  datatype DiffError =
    | CountMismatch(current: nat, backup: nat)  // the `ValueError` on differing lengths
    | NotFound(name: string)                    // the `KeyError` of the name lookup

  /** The saved fields on which `bac` and `cur` disagree, with both values. */
  function FieldDiffOf(bac: Record, cur: Record): (r: FieldDiff)
    requires HasSavedKeys(bac) && HasSavedKeys(cur)
    ensures forall k :: k in r <==> k in SavedKeySet && bac[k] != cur[k]
    ensures forall k :: k in r ==> r[k].oldValue == bac[k] && r[k].newValue == cur[k]
    ensures r == map[] <==> Project(bac) == Project(cur)
  {
    var r := map k | k in SavedKeySet && bac[k] != cur[k] :: Change(bac[k], cur[k]);
    assert Project(bac) == Project(cur) ==> r == map[] by {
      if Project(bac) == Project(cur) {
        forall k | k in SavedKeySet ensures bac[k] == cur[k] {
          assert Project(bac)[k] == bac[k] && Project(cur)[k] == cur[k];
        }
      }
    }
    assert r == map[] ==> Project(bac) == Project(cur) by {
      if r == map[] {
        forall k | k in SavedKeySet ensures bac[k] == cur[k] {
          assert k !in r;
        }
      }
    }
    r
  }

  /** Preconditions of the strict diff: every record carries the saved keys. */
  predicate Diffable(olds: seq<Record>, news: seq<Record>) {
    AllSaved(olds) && AllSaved(news)
  }

  /**
   * The entries emitted for `news`, in order: one per record that differs from
   * the record of the same name in `idx`.
   */
  function StrictEntries(idx: Dict<Record>, news: seq<Record>): (es: seq<FieldDiff>)
    requires AllSavedIn(idx) && AllSaved(news)
    requires forall i :: 0 <= i < |news| ==> HasKey(idx, news[i][NameKey])
    ensures |es| <= |news|
  {
    if |news| == 0 then []
    else
      var init := news[..|news| - 1];
      var cur := news[|news| - 1];
      var bac := Get(idx, cur[NameKey]).value;
      assert bac in Values(idx) by { assert (cur[NameKey], bac) in idx; }
      var rest := StrictEntries(idx, init);
      if cur != bac then rest + [FieldDiffOf(bac, cur)] else rest
  }

  /** `configurations_difference(services_old, services_new)` */
  method ConfigurationsDifference(olds: seq<Record>, news: seq<Record>)
    returns (r: Result<seq<FieldDiff>, DiffError>)
    requires Diffable(olds, news)
    ensures |news| != |olds| ==> r == Failure(CountMismatch(|news|, |olds|))
    ensures |news| == |olds| ==>
              (r.Success? <==> forall i :: 0 <= i < |news| ==> news[i][NameKey] in Names(olds))
    ensures r.Success? ==> r.value == StrictEntries(IndexByName(olds), news)
    ensures r.Failure? && |news| == |olds| ==>
              exists i :: 0 <= i < |news| && r == Failure(NotFound(news[i][NameKey]))
                          && news[i][NameKey] !in Names(olds)
                          && forall j :: 0 <= j < i ==> news[j][NameKey] in Names(olds)
  {
    var oldIndex := IndexByName(olds);
    if |news| != |olds| {
      return Failure(CountMismatch(|news|, |olds|));
    }
    r := DiffAgainstIndex(oldIndex, news);
    IndexHasNames(olds);
  }

  /** The loop of `configurations_difference`, over the name index of the old snapshot. */
  method DiffAgainstIndex(idx: Dict<Record>, news: seq<Record>)
    returns (r: Result<seq<FieldDiff>, DiffError>)
    requires AllSavedIn(idx) && AllSaved(news)
    ensures r.Success? <==> forall i :: 0 <= i < |news| ==> HasKey(idx, news[i][NameKey])
    ensures r.Success? ==> r.value == StrictEntries(idx, news)
    ensures r.Failure? ==>
              exists i :: 0 <= i < |news| && r == Failure(NotFound(news[i][NameKey]))
                          && !HasKey(idx, news[i][NameKey])
                          && forall j :: 0 <= j < i ==> HasKey(idx, news[j][NameKey])
  {
    var diffs: seq<FieldDiff> := [];
    var i := 0;
    while i < |news|
      invariant 0 <= i <= |news|
      invariant forall j :: 0 <= j < i ==> HasKey(idx, news[j][NameKey])
      invariant diffs == StrictEntries(idx, news[..i])
    {
      var cur := news[i];
      var name := cur[NameKey];
      var found := Get(idx, name);
      if found.None? {
        return Failure(NotFound(name));
      }
      StrictEntriesSnoc(idx, news, i);
      var bac := found.value;
      if cur != bac {
        diffs := diffs + [FieldDiffOf(bac, cur)];
      }
      i := i + 1;
    }
    assert news[..i] == news;
    r := Success(diffs);
  }

  /** One more new record extends the entries by at most its own. */
  lemma StrictEntriesSnoc(idx: Dict<Record>, news: seq<Record>, i: nat)
    requires AllSavedIn(idx) && AllSaved(news) && i < |news|
    requires forall j :: 0 <= j <= i ==> HasKey(idx, news[j][NameKey])
    ensures var cur := news[i];
            var bac := Get(idx, cur[NameKey]).value;
            && HasSavedKeys(bac)
            && StrictEntries(idx, news[..i + 1]) ==
               StrictEntries(idx, news[..i]) + (if cur != bac then [FieldDiffOf(bac, cur)] else [])
  {
    assert news[..i + 1][..i] == news[..i];
    var bac := Get(idx, news[i][NameKey]).value;
    assert (news[i][NameKey], bac) in idx;
  }

  /** The name index holds exactly the names of the snapshot. */
  lemma IndexHasNames(s: seq<Record>)
    requires AllNamed(s)
    ensures forall n :: HasKey(IndexByName(s), n) <==> n in Names(s)
  {
    forall n ensures HasKey(IndexByName(s), n) <==> n in Names(s) {
      HasKeyIsKeySet(IndexByName(s), n);
    }
  }

  /** Entries follow the order of the new snapshot: the diff of a concatenation concatenates. */
  lemma {:induction false} StrictEntriesAppend(idx: Dict<Record>, a: seq<Record>, b: seq<Record>)
    requires AllSavedIn(idx) && AllSaved(a) && AllSaved(b)
    requires forall i :: 0 <= i < |a| ==> HasKey(idx, a[i][NameKey])
    requires forall i :: 0 <= i < |b| ==> HasKey(idx, b[i][NameKey])
    ensures StrictEntries(idx, a + b) == StrictEntries(idx, a) + StrictEntries(idx, b)
  {
    if |b| > 0 {
      var b' := b[..|b| - 1];
      assert (a + b)[..|a + b| - 1] == a + b';
      assert (a + b)[|a + b| - 1] == b[|b| - 1];
      StrictEntriesAppend(idx, a, b');
    } else {
      assert a + b == a;
    }
  }

  /** No entries exactly when every new record equals the old record of its name. */
  lemma {:induction false} StrictEntriesEmptyIff(idx: Dict<Record>, news: seq<Record>)
    requires AllSavedIn(idx) && AllSaved(news)
    requires forall i :: 0 <= i < |news| ==> HasKey(idx, news[i][NameKey])
    ensures StrictEntries(idx, news) == [] <==>
            forall i :: 0 <= i < |news| ==> Get(idx, news[i][NameKey]) == Some(news[i])
  {
    if |news| > 0 {
      var init := news[..|news| - 1];
      StrictEntriesEmptyIff(idx, init);
      assert forall i :: 0 <= i < |init| ==> init[i] == news[i];
    }
  }

  /**
   * Every entry is the field diff of some new record against the old record
   * of its name, the two differ as whole records, and `Name` never appears.
   */
  lemma StrictEntriesAreFieldDiffs(idx: Dict<Record>, news: seq<Record>, e: FieldDiff)
    requires AllSavedIn(idx) && WellKeyed(idx) && AllSaved(news)
    requires forall i :: 0 <= i < |news| ==> HasKey(idx, news[i][NameKey])
    requires e in StrictEntries(idx, news)
    ensures NameKey !in e
    ensures exists i :: 0 <= i < |news| && Get(idx, news[i][NameKey]).value != news[i]
                        && e == FieldDiffOf(Get(idx, news[i][NameKey]).value, news[i])
  {
    StrictEntryOrigin(idx, news, e);
    var i :| 0 <= i < |news| && Get(idx, news[i][NameKey]).value != news[i]
             && e == FieldDiffOf(Get(idx, news[i][NameKey]).value, news[i]);
    var bac := Get(idx, news[i][NameKey]).value;
    assert (news[i][NameKey], bac) in idx;
  }

  lemma {:induction false} StrictEntryOrigin(idx: Dict<Record>, news: seq<Record>, e: FieldDiff)
    requires AllSavedIn(idx) && AllSaved(news)
    requires forall i :: 0 <= i < |news| ==> HasKey(idx, news[i][NameKey])
    requires e in StrictEntries(idx, news)
    ensures exists i :: 0 <= i < |news| && Get(idx, news[i][NameKey]).value != news[i]
                        && e == FieldDiffOf(Get(idx, news[i][NameKey]).value, news[i])
  {
    var n := |news| - 1;
    var init := news[..n];
    if e in StrictEntries(idx, init) {
      StrictEntryOrigin(idx, init, e);
      var i :| 0 <= i < |init| && Get(idx, init[i][NameKey]).value != init[i]
               && e == FieldDiffOf(Get(idx, init[i][NameKey]).value, init[i]);
      assert init[i] == news[i];
    } else {
      var bac := Get(idx, news[n][NameKey]).value;
      assert bac != news[n] && e == FieldDiffOf(bac, news[n]);
    }
  }

  /** Comparing a snapshot with unique names against itself reports nothing. */
  lemma StrictSelfDiffIsEmpty(s: seq<Record>)
    requires AllSaved(s) && UniqueNames(s)
    ensures forall i :: 0 <= i < |s| ==> HasKey(IndexByName(s), s[i][NameKey])
    ensures StrictEntries(IndexByName(s), s) == []
  {
    forall i | 0 <= i < |s| ensures Get(IndexByName(s), s[i][NameKey]) == Some(s[i]) {
      IndexByNameUnique(s, i);
    }
    StrictEntriesEmptyIff(IndexByName(s), s);
  }
}
