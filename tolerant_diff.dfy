/**
 * `Program.print_backup_difference` without its printing: compares a loaded
 * snapshot with the live list, optionally matching services by normalized
 * name, and reports the drifted, deleted and new services as three lists.
 */
module TolerantDiff {
  import opened Wrappers
  import opened OrderedDict
  import opened Services
  import opened Normalizer
  import opened Snapshot

  /** The three lists the function prints (`new` is a keyword here, so `added`). */
  datatype DiffReport = DiffReport(changed: seq<Record>, deleted: seq<Record>, added: seq<Record>)

  // ---------------------------------------------------------------------------
  // Rekeying by normalized name (`ignore_suffix`)
  // ---------------------------------------------------------------------------

  /** For each entry: its normalized name, and a copy of its record carrying that name. */
  function RenamePairs(d: Dict<Record>): (ps: seq<(string, Record)>)
    ensures |ps| == |d|
    ensures forall i :: 0 <= i < |d| ==>
              ps[i] == (NormalizeName(d[i].0), d[i].1[NameKey := NormalizeName(d[i].0)])
  {
    seq(|d|, i requires 0 <= i < |d| => (NormalizeName(d[i].0), d[i].1[NameKey := NormalizeName(d[i].0)]))
  }

  /** The normalized forms of a set of names. */
  function NormalizedSet(names: set<string>): set<string> {
    set n | n in names :: NormalizeName(n)
  }

  lemma RenamePairsKeys(d: Dict<Record>)
    ensures KeySet(RenamePairs(d)) == NormalizedSet(KeySet(d))
  {
  }

  lemma RenamePairsRecords(d: Dict<Record>, e: (string, Record))
    requires e in RenamePairs(d)
    ensures NameKey in e.1 && e.1[NameKey] == e.0
    ensures AllSavedIn(d) ==> HasSavedKeys(e.1)
    ensures ExactlySavedIn(d) ==> e.1.Keys == SavedKeySet
  {
  }

  /** The dict that the rekeying loop leaves behind. */
  function Rekeyed(d: Dict<Record>): (r: Dict<Record>)
    ensures UniqueKeys(r) && WellKeyed(r)
    ensures KeySet(r) == NormalizedSet(KeySet(d))
    ensures AllSavedIn(d) ==> AllSavedIn(r)
    ensures ExactlySavedIn(d) ==> ExactlySavedIn(r)
  {
    var ps := RenamePairs(d);
    var r := FromPairs(ps);
    RenamePairsKeys(d);
    forall i | 0 <= i < |r|
      ensures NameKey in r[i].1 && r[i].1[NameKey] == r[i].0
      ensures AllSavedIn(d) ==> HasSavedKeys(r[i].1)
      ensures ExactlySavedIn(d) ==> r[i].1.Keys == SavedKeySet
    {
      assert r[i] in r;
      RenamePairsRecords(d, r[i]);
    }
    r
  }

  /**
   * The `ignore_suffix` loop: every entry moves to its normalized name with a
   * copy of its record renamed accordingly; on a collision the later entry wins.
   */
  method RekeyByNormalizedName(d: Dict<Record>) returns (r: Dict<Record>)
    ensures r == Rekeyed(d)
  {
    ghost var ps := RenamePairs(d);
    var newDict: Dict<Record> := [];
    var i := 0;
    while i < |d|
      invariant 0 <= i <= |d|
      invariant newDict == FromPairs(ps[..i])
    {
      var serviceName := d[i].0;
      var newName := NormalizeName(serviceName);
      var newService := d[i].1[NameKey := newName];
      FromPairsSnoc(ps, i);
      newDict := Put(newDict, newName, newService);
      i := i + 1;
    }
    assert ps[..i] == ps;
    r := newDict;
  }

  /**
   * Rekeying, last write wins: a normalized name is bound to the renamed copy
   * of the last entry that normalizes to it.
   */
  lemma RekeyedLastWins(d: Dict<Record>, i: nat)
    requires i < |d|
    requires forall j :: i < j < |d| ==> NormalizeName(d[j].0) != NormalizeName(d[i].0)
    ensures Get(Rekeyed(d), NormalizeName(d[i].0)) ==
            Some(d[i].1[NameKey := NormalizeName(d[i].0)])
  {
    FromPairsLastWins(RenamePairs(d), i);
  }

  /** Rekeying changes nothing but the name: each entry is some input record renamed. */
  lemma RekeyedOnlyRenames(d: Dict<Record>, e: (string, Record))
    requires e in Rekeyed(d)
    ensures exists i :: 0 <= i < |d| && e.0 == NormalizeName(d[i].0) && e.1 == d[i].1[NameKey := e.0]
  {
    var ps := RenamePairs(d);
    assert e in ps;
    var i :| 0 <= i < |ps| && ps[i] == e;
  }

  /** The name-keyed dict of one side, rekeyed when suffixes are ignored. */
  function Side(s: seq<Record>, ignoreSuffix: bool): (d: Dict<Record>)
    requires AllNamed(s)
    ensures UniqueKeys(d) && WellKeyed(d)
    ensures KeySet(d) == if ignoreSuffix then NormalizedSet(Names(s)) else Names(s)
    ensures AllSaved(s) ==> AllSavedIn(d)
    ensures ExactlySaved(s) ==> ExactlySavedIn(d)
  {
    if ignoreSuffix then Rekeyed(IndexByName(s)) else IndexByName(s)
  }

  // ---------------------------------------------------------------------------
  // Changed services
  // ---------------------------------------------------------------------------

  /**
   * The changed entry: the live record with every field that differs from the
   * backup replaced by `"<backup value> -> <live value>"`.
   */
  function Overlay(bac: Record, cur: Record): (r: Record)
    requires HasSavedKeys(bac) && cur.Keys == SavedKeySet
    ensures r.Keys == cur.Keys
    ensures forall k :: k in cur && cur[k] == bac[k] ==> r[k] == cur[k]
    ensures forall k :: k in cur && cur[k] != bac[k] ==> r[k] == bac[k] + " -> " + cur[k]
  {
    cur[NameKey := Mark(bac, cur, NameKey)]
       [DisplayNameKey := Mark(bac, cur, DisplayNameKey)]
       [StartTypeKey := Mark(bac, cur, StartTypeKey)]
  }

  /** The value shown for one field: `"old -> new"` when it changed, else the live value. */
  function Mark(bac: Record, cur: Record, k: string): string
    requires k in bac && k in cur
  {
    if cur[k] != bac[k] then bac[k] + " -> " + cur[k] else cur[k]
  }

  /** The overlay shows nothing exactly when the live record agrees with the backup on its fields. */
  lemma OverlayUnchangedIff(bac: Record, cur: Record)
    requires HasSavedKeys(bac) && cur.Keys == SavedKeySet
    ensures Overlay(bac, cur) == cur <==> forall k :: k in cur ==> cur[k] == bac[k]
  {
  }

  /** What the tolerant diff requires: backup records carry the saved keys, live records exactly those. */
  predicate Comparable(b: Dict<Record>, l: Dict<Record>) {
    WellKeyed(b) && AllSavedIn(b) && ExactlySavedIn(l)
  }

  /** The backup record stored under the name of `cur`. */
  function Counterpart(b: Dict<Record>, cur: Record): (bac: Record)
    requires WellKeyed(b) && AllSavedIn(b) && NameKey in cur && HasKey(b, cur[NameKey])
    ensures HasSavedKeys(bac) && bac[NameKey] == cur[NameKey]
    ensures Get(b, cur[NameKey]) == Some(bac)
  {
    var bac := Get(b, cur[NameKey]).value;
    assert (cur[NameKey], bac) in b;
    bac
  }

  /**
   * The live record `cur` is reported: its name is in the backup, the two
   * records differ, and so do their `StartType`s. The whole-record test adds
   * nothing once the `StartType`s differ.
   */
  predicate StartTypeDrifted(b: Dict<Record>, cur: Record)
    requires WellKeyed(b) && AllSavedIn(b) && HasSavedKeys(cur)
    ensures StartTypeDrifted(b, cur) <==>
              Get(b, cur[NameKey]).Some? && cur[StartTypeKey] != Get(b, cur[NameKey]).value[StartTypeKey]
  {
    && HasKey(b, cur[NameKey])
    && cur != Counterpart(b, cur)
    && cur[StartTypeKey] != Counterpart(b, cur)[StartTypeKey]
  }

  /** The entry reported for a drifted live record. */
  function DriftEntry(b: Dict<Record>, cur: Record): (x: Record)
    requires WellKeyed(b) && AllSavedIn(b) && cur.Keys == SavedKeySet && HasKey(b, cur[NameKey])
    ensures x.Keys == SavedKeySet
    ensures x[NameKey] == cur[NameKey]
    ensures x[DisplayNameKey] == cur[DisplayNameKey] <==> cur[DisplayNameKey] == Counterpart(b, cur)[DisplayNameKey]
    ensures cur[StartTypeKey] != Counterpart(b, cur)[StartTypeKey] ==>
              x[StartTypeKey] == Counterpart(b, cur)[StartTypeKey] + " -> " + cur[StartTypeKey]
  {
    var x := Overlay(Counterpart(b, cur), cur);
    assert x[DisplayNameKey] == cur[DisplayNameKey] ==> cur[DisplayNameKey] == Counterpart(b, cur)[DisplayNameKey] by {
      var bac := Counterpart(b, cur);
      if cur[DisplayNameKey] != bac[DisplayNameKey] {
        assert |x[DisplayNameKey]| == |bac[DisplayNameKey]| + 4 + |cur[DisplayNameKey]|;
      }
    }
    x
  }

  /** The `services_diff` list for the live entries `l`, in their order. */
  function Drift(b: Dict<Record>, l: Dict<Record>): (changed: seq<Record>)
    requires Comparable(b, l)
    ensures |changed| <= |l|
  {
    if |l| == 0 then []
    else
      var cur := l[|l| - 1].1;
      Drift(b, l[..|l| - 1]) + (if StartTypeDrifted(b, cur) then [DriftEntry(b, cur)] else [])
  }

  lemma DriftSnoc(b: Dict<Record>, l: Dict<Record>, i: nat)
    requires Comparable(b, l) && i < |l|
    ensures Drift(b, l[..i + 1]) ==
            Drift(b, l[..i]) + (if StartTypeDrifted(b, l[i].1) then [DriftEntry(b, l[i].1)] else [])
  {
    assert l[..i + 1][..i] == l[..i];
  }

  /** One step of the loop: the lookup and the two tests decide the entry. */
  lemma DriftStep(b: Dict<Record>, cur: Record, found: Option<Record>)
    requires WellKeyed(b) && AllSavedIn(b) && cur.Keys == SavedKeySet
    requires found == Get(b, cur[NameKey])
    ensures found.Some? ==> HasSavedKeys(found.value)
    ensures StartTypeDrifted(b, cur) <==>
              found.Some? && cur != found.value && cur[StartTypeKey] != found.value[StartTypeKey]
    ensures StartTypeDrifted(b, cur) ==> DriftEntry(b, cur) == Overlay(found.value, cur)
  {
  }

  /** The loop over the live dict that collects `services_diff`. */
  method ChangedServices(b: Dict<Record>, l: Dict<Record>) returns (changed: seq<Record>)
    requires Comparable(b, l)
    ensures changed == Drift(b, l)
  {
    changed := [];
    var i := 0;
    while i < |l|
      invariant 0 <= i <= |l|
      invariant changed == Drift(b, l[..i])
    {
      DriftSnoc(b, l, i);
      var servCur := l[i].1;
      var servName := servCur[NameKey];
      var found := Get(b, servName);
      DriftStep(b, servCur, found);
      if found.Some? {
        var servBac := found.value;
        if servCur != servBac {
          if servCur[StartTypeKey] != servBac[StartTypeKey] {
            changed := changed + [Overlay(servBac, servCur)];
          }
        }
      }
      i := i + 1;
    }
    assert l[..i] == l;
  }

  /** Every drifted live service is reported, as the overlay of its two records. */
  lemma {:induction false} DriftReportsEvery(b: Dict<Record>, l: Dict<Record>, i: nat)
    requires Comparable(b, l) && i < |l|
    requires StartTypeDrifted(b, l[i].1)
    ensures DriftEntry(b, l[i].1) in Drift(b, l)
  {
    var n := |l| - 1;
    if i < n {
      var init := l[..n];
      assert init[i] == l[i];
      DriftReportsEvery(b, init, i);
    }
  }

  /** Every reported entry comes from a drifted live service. */
  lemma {:induction false} DriftReportsOnly(b: Dict<Record>, l: Dict<Record>, x: Record)
    requires Comparable(b, l) && x in Drift(b, l)
    ensures exists i :: 0 <= i < |l| && StartTypeDrifted(b, l[i].1) && x == DriftEntry(b, l[i].1)
  {
    var n := |l| - 1;
    var init := l[..n];
    if x in Drift(b, init) {
      DriftReportsOnly(b, init, x);
      var i :| 0 <= i < |init| && StartTypeDrifted(b, init[i].1) && x == DriftEntry(b, init[i].1);
      assert init[i] == l[i];
    } else {
      assert StartTypeDrifted(b, l[n].1) && x == DriftEntry(b, l[n].1);
    }
  }

  lemma {:induction false} MissingEmptyIff(d: Dict<Record>, other: Dict<Record>)
    requires WellKeyed(d)
    ensures Missing(d, other) == [] <==> KeySet(d) <= KeySet(other)
  {
    if |d| > 0 {
      MissingEmptyIff(d[1..], other);
      HasKeyIsKeySet(other, d[0].0);
      KeySetCons(d);
    }
  }

  /** No change is reported when every matched live record equals its backup record. */
  lemma {:induction false} DriftEmptyWhenMatchedEqual(b: Dict<Record>, l: Dict<Record>)
    requires Comparable(b, l)
    requires forall i :: 0 <= i < |l| && HasKey(b, l[i].1[NameKey]) ==> Get(b, l[i].1[NameKey]) == Some(l[i].1)
    ensures Drift(b, l) == []
  {
    if |l| > 0 {
      var init := l[..|l| - 1];
      assert forall i :: 0 <= i < |init| ==> init[i] == l[i];
      DriftEmptyWhenMatchedEqual(b, init);
    }
  }

  // ---------------------------------------------------------------------------
  // Deleted and new services
  // ---------------------------------------------------------------------------

  /** `[service for service in d.values() if service["Name"] not in other]` */
  function Missing(d: Dict<Record>, other: Dict<Record>): (r: seq<Record>)
    requires WellKeyed(d)
    ensures |r| <= |d|
    ensures forall x :: x in r ==> x in Values(d)
    ensures AllNamed(r)
  {
    if |d| == 0 then []
    else
      var rest := Missing(d[1..], other);
      assert forall x :: x in Values(d[1..]) ==> x in Values(d) by {
        forall x | x in Values(d[1..]) ensures x in Values(d) {
          var i :| 0 <= i < |d[1..]| && d[1..][i].1 == x;
          assert d[i + 1].1 == x;
        }
      }
      assert d[0].1 in Values(d);
      if HasKey(other, d[0].1[NameKey]) then rest else [d[0].1] + rest
  }

  lemma KeySetCons(d: Dict<Record>)
    requires |d| > 0
    ensures KeySet(d) == {d[0].0} + KeySet(d[1..])
  {
  }

  lemma NamesCons(x: Record, s: seq<Record>)
    requires NameKey in x && AllNamed(s)
    ensures AllNamed([x] + s)
    ensures Names([x] + s) == {x[NameKey]} + Names(s)
  {
    var r := [x] + s;
    assert r[0] == x;
    forall n | n in Names(r) ensures n in {x[NameKey]} + Names(s) {
      var i :| 0 <= i < |r| && r[i][NameKey] == n;
      if i > 0 { assert r[i] == s[i - 1]; }
    }
    forall n | n in Names(s) ensures n in Names(r) {
      var i :| 0 <= i < |s| && s[i][NameKey] == n;
      assert r[i + 1] == s[i];
    }
  }

  /** The reported names are exactly the keys of `d` that `other` lacks. */
  lemma {:induction false} MissingNames(d: Dict<Record>, other: Dict<Record>)
    requires WellKeyed(d)
    ensures Names(Missing(d, other)) == KeySet(d) - KeySet(other)
  {
    if |d| > 0 {
      MissingNames(d[1..], other);
      HasKeyIsKeySet(other, d[0].0);
      KeySetCons(d);
      if !HasKey(other, d[0].1[NameKey]) {
        NamesCons(d[0].1, Missing(d[1..], other));
      }
    }
  }

  // ---------------------------------------------------------------------------
  // The whole comparison
  // ---------------------------------------------------------------------------

  /**
   * The report for a backup snapshot and a live list: the drifted live
   * services, the backup services that are not live and the live services
   * that are not in the backup.
   */
  function Difference(backup: seq<Record>, live: seq<Record>, ignoreSuffix: bool): (r: DiffReport)
    requires AllSaved(backup) && ExactlySaved(live)
    ensures |r.changed| <= |Side(live, ignoreSuffix)|
    ensures AllNamed(r.deleted) && AllNamed(r.added)
    ensures Names(r.deleted) == KeySet(Side(backup, ignoreSuffix)) - KeySet(Side(live, ignoreSuffix))
    ensures Names(r.added) == KeySet(Side(live, ignoreSuffix)) - KeySet(Side(backup, ignoreSuffix))
  {
    var b := Side(backup, ignoreSuffix);
    var l := Side(live, ignoreSuffix);
    MissingNames(b, l);
    MissingNames(l, b);
    DiffReport(Drift(b, l), Missing(b, l), Missing(l, b))
  }

  /**
   * Deleted holds exactly the backup names absent from the live side, new
   * exactly the live names absent from the backup; the two are disjoint and
   * every name on either side is matched or reported.
   */
  lemma DifferencePartition(backup: seq<Record>, live: seq<Record>, ignoreSuffix: bool)
    requires AllSaved(backup) && ExactlySaved(live)
    ensures var r := Difference(backup, live, ignoreSuffix);
            var bk := KeySet(Side(backup, ignoreSuffix));
            var lk := KeySet(Side(live, ignoreSuffix));
            && Names(r.deleted) == bk - lk
            && Names(r.added) == lk - bk
            && Names(r.deleted) !! Names(r.added)
            && bk == (bk * lk) + Names(r.deleted)
            && lk == (bk * lk) + Names(r.added)
  {
    var b := Side(backup, ignoreSuffix);
    var l := Side(live, ignoreSuffix);
    MissingNames(b, l);
    MissingNames(l, b);
  }

  /** A snapshot compared with itself shows no drift, nothing deleted and nothing new. */
  lemma DifferenceWithItselfIsEmpty(s: seq<Record>, ignoreSuffix: bool)
    requires ExactlySaved(s) && AllSaved(s)
    ensures Difference(s, s, ignoreSuffix) == DiffReport([], [], [])
  {
    var d := Side(s, ignoreSuffix);
    forall i | 0 <= i < |d| && HasKey(d, d[i].1[NameKey])
      ensures Get(d, d[i].1[NameKey]) == Some(d[i].1)
    {
    }
    DriftEmptyWhenMatchedEqual(d, d);
    MissingEmptyIff(d, d);
  }

  /**
   * `print_backup_difference(filename, ignore_suffix)` with the file already
   * parsed and the live services already enumerated: a load error ends it,
   * otherwise it reports against the live list.
   */
  method BackupDifference(parsed: Json, rawLive: seq<Record>, ignoreSuffix: bool)
    returns (r: Result<DiffReport, LoadError>)
    requires AllSaved(rawLive)
    ensures Loaded(parsed).Failure? ==> r == Failure(Loaded(parsed).error)
    ensures Loaded(parsed).Success? ==>
              r == Success(Difference(Loaded(parsed).value, ListServices(rawLive), ignoreSuffix))
  {
    var loaded := LoadServices(parsed);
    if loaded.Failure? {
      return Failure(loaded.error);
    }
    var servicesBackup := loaded.value;
    var backupDict := IndexByName(servicesBackup);
    var servicesCurrent := ListServices(rawLive);
    var currentDict := IndexByName(servicesCurrent);
    if ignoreSuffix {
      backupDict := RekeyByNormalizedName(backupDict);
      currentDict := RekeyByNormalizedName(currentDict);
    }
    var servicesDiff := ChangedServices(backupDict, currentDict);
    var deletedServices := Missing(backupDict, currentDict);
    var newServices := Missing(currentDict, backupDict);
    r := Success(DiffReport(servicesDiff, deletedServices, newServices));
  }

  // ---------------------------------------------------------------------------
  // Worked examples
  // ---------------------------------------------------------------------------

  /** A record as `list_services` produces it. */
  function Service(name: string, display: string, startType: string): (r: Record)
    ensures r.Keys == SavedKeySet
    ensures r[NameKey] == name && r[DisplayNameKey] == display && r[StartTypeKey] == startType
  {
    SavedKeysDistinct();
    map[NameKey := name, DisplayNameKey := display, StartTypeKey := startType]
  }

  lemma IndexOfOne(x: Record)
    requires NameKey in x
    ensures IndexByName([x]) == [(x[NameKey], x)]
  {
  }

  lemma IndexOfTwo(x: Record, y: Record)
    requires NameKey in x && NameKey in y && x[NameKey] != y[NameKey]
    ensures IndexByName([x, y]) == [(x[NameKey], x), (y[NameKey], y)]
  {
    var ps := NamePairs([x, y]);
    assert ps[..1] == [(x[NameKey], x)];
    assert ps[..1][..0] == [];
    assert FromPairs(ps[..1]) == [(x[NameKey], x)];
  }

  lemma RekeyedOne(k: string, r: Record)
    ensures Rekeyed([(k, r)]) == [(NormalizeName(k), r[NameKey := NormalizeName(k)])]
  {
    var e := (NormalizeName(k), r[NameKey := NormalizeName(k)]);
    assert RenamePairs([(k, r)]) == [e];
    FromPairsOne(e);
  }

  lemma ServiceRenamed(n: string, d: string, t: string, n': string)
    ensures Service(n, d, t)[NameKey := n'] == Service(n', d, t)
  {
  }

  lemma DriftOfOne(b: Dict<Record>, k: string, cur: Record)
    requires WellKeyed(b) && AllSavedIn(b) && cur.Keys == SavedKeySet
    ensures Drift(b, [(k, cur)]) == if StartTypeDrifted(b, cur) then [DriftEntry(b, cur)] else []
  {
  }

  /** Two records that differ only in start type overlay to `"old -> new"` there. */
  lemma OverlayStartType(n: string, d: string, s: string, t: string)
    requires s != t
    ensures Overlay(Service(n, d, s), Service(n, d, t)) == Service(n, d, s + " -> " + t)
  {
  }

  /**
   * A backed-up automatic service that is now disabled is reported as changed
   * with `"Automatic -> Disabled"`; a live service absent from the backup is new.
   */
  lemma DriftAndNewExample()
    ensures Difference([Service("A", "disp A", "Automatic")],
                       [Service("A", "disp A", "Disabled"), Service("B", "disp B", "Manual")], false) ==
            DiffReport([Service("A", "disp A", "Automatic -> Disabled")], [], [Service("B", "disp B", "Manual")])
  {
    var a := Service("A", "disp A", "Automatic");
    var a' := Service("A", "disp A", "Disabled");
    var b := Service("B", "disp B", "Manual");
    IndexOfOne(a);
    IndexOfTwo(a', b);
    DriftAndNewSides(a, a', b);
  }

  lemma DriftAndNewSides(a: Record, a': Record, b: Record)
    requires a == Service("A", "disp A", "Automatic")
    requires a' == Service("A", "disp A", "Disabled")
    requires b == Service("B", "disp B", "Manual")
    ensures Drift([("A", a)], [("A", a'), ("B", b)]) == [Service("A", "disp A", "Automatic -> Disabled")]
    ensures Missing([("A", a)], [("A", a'), ("B", b)]) == []
    ensures Missing([("A", a'), ("B", b)], [("A", a)]) == [b]
  {
    DriftAndNewDrift(a, a', b);
    var bk := [("A", a)];
    var lv := [("A", a'), ("B", b)];
    assert HasKey(lv, "A");
    assert !HasKey(bk, "B");
  }

  lemma DriftAndNewDrift(a: Record, a': Record, b: Record)
    requires a == Service("A", "disp A", "Automatic")
    requires a' == Service("A", "disp A", "Disabled")
    requires b == Service("B", "disp B", "Manual")
    ensures Drift([("A", a)], [("A", a'), ("B", b)]) == [Service("A", "disp A", "Automatic -> Disabled")]
  {
    var bk := [("A", a)];
    var lv := [("A", a'), ("B", b)];
    assert Get(bk, "A") == Some(a);
    assert Counterpart(bk, a') == a;
    assert a' != a by { assert a'[StartTypeKey] != a[StartTypeKey]; }
    assert StartTypeDrifted(bk, a');
    assert !HasKey(bk, "B");
    OverlayStartType("A", "disp A", "Automatic", "Disabled");
    assert "Automatic" + " -> " + "Disabled" == "Automatic -> Disabled";
    DriftOfOne(bk, "A", a');
    DriftSnoc(bk, lv, 1);
    assert lv[..1] == [("A", a')];
    assert lv[..2] == lv;
  }

  /**
   * With `ignore_suffix` a per-user service whose random suffix changed is
   * matched by its stem, and only its start-type change is reported; without
   * it the same pair shows up as one deleted and one new service.
   */
  lemma SuffixExample()
    ensures Difference([Service("Sync_ab12", "Sync", "Manual")], [Service("Sync_cd34", "Sync", "Disabled")], true) ==
            DiffReport([Service("Sync", "Sync", "Manual -> Disabled")], [], [])
    ensures Difference([Service("Sync_ab12", "Sync", "Manual")], [Service("Sync_cd34", "Sync", "Disabled")], false) ==
            DiffReport([], [Service("Sync_ab12", "Sync", "Manual")], [Service("Sync_cd34", "Sync", "Disabled")])
  {
    var was := Service("Sync_ab12", "Sync", "Manual");
    var now := Service("Sync_cd34", "Sync", "Disabled");
    StripsMatchedSuffix("Sync", "ab12");
    StripsMatchedSuffix("Sync", "cd34");
    assert "Sync" + "_" + "ab12" == "Sync_ab12";
    assert "Sync" + "_" + "cd34" == "Sync_cd34";
    IndexOfOne(was);
    IndexOfOne(now);
    RekeyedOne("Sync_ab12", was);
    RekeyedOne("Sync_cd34", now);
    ServiceRenamed("Sync_ab12", "Sync", "Manual", "Sync");
    ServiceRenamed("Sync_cd34", "Sync", "Disabled", "Sync");
    SuffixMatched();
    SuffixUnmatched();
  }

  lemma SuffixMatched()
    ensures var bk := [("Sync", Service("Sync", "Sync", "Manual"))];
            var lv := [("Sync", Service("Sync", "Sync", "Disabled"))];
            Drift(bk, lv) == [Service("Sync", "Sync", "Manual -> Disabled")]
            && Missing(bk, lv) == [] && Missing(lv, bk) == []
  {
    SuffixMatchedDrift();
  }

  lemma SuffixMatchedDrift()
    ensures var bk := [("Sync", Service("Sync", "Sync", "Manual"))];
            var lv := [("Sync", Service("Sync", "Sync", "Disabled"))];
            Drift(bk, lv) == [Service("Sync", "Sync", "Manual -> Disabled")]
  {
    var was := Service("Sync", "Sync", "Manual");
    var now := Service("Sync", "Sync", "Disabled");
    var bk := [("Sync", was)];
    assert Get(bk, "Sync") == Some(was);
    assert Counterpart(bk, now) == was;
    assert now != was by { assert now[StartTypeKey] != was[StartTypeKey]; }
    assert StartTypeDrifted(bk, now);
    OverlayStartType("Sync", "Sync", "Manual", "Disabled");
    assert "Manual" + " -> " + "Disabled" == "Manual -> Disabled";
    DriftOfOne(bk, "Sync", now);
  }

  lemma SuffixUnmatched()
    ensures var was := Service("Sync_ab12", "Sync", "Manual");
            var now := Service("Sync_cd34", "Sync", "Disabled");
            var bk := [("Sync_ab12", was)];
            var lv := [("Sync_cd34", now)];
            Drift(bk, lv) == [] && Missing(bk, lv) == [was] && Missing(lv, bk) == [now]
  {
  }
}
