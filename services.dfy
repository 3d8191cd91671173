/**
 * A service record as the program handles it: a dict of string fields, of
 * which three are saved (`Program._only_save_rows`). Records read back from a
 * snapshot file may carry further keys; they are kept, and take part in
 * whole-record equality, exactly as the dicts do.
 */
module Services {
  import opened Wrappers
  import opened OrderedDict

  type Record = map<string, string>

  const NameKey: string := "Name"
  const DisplayNameKey: string := "DisplayName"
  const StartTypeKey: string := "StartType"

  /** `_only_save_rows`, in its declared order. */
  const SavedKeys: seq<string> := [NameKey, DisplayNameKey, StartTypeKey]
  const SavedKeySet: set<string> := {NameKey, DisplayNameKey, StartTypeKey}

  /** The three saved keys are distinct strings. */
  lemma SavedKeysDistinct()
    ensures NameKey != DisplayNameKey && NameKey != StartTypeKey && DisplayNameKey != StartTypeKey
  {
  }

  predicate HasSavedKeys(r: Record) {
    NameKey in r && DisplayNameKey in r && StartTypeKey in r
  }

  predicate AllNamed(s: seq<Record>) {
    forall i :: 0 <= i < |s| ==> NameKey in s[i]
  }

  predicate AllSaved(s: seq<Record>) {
    forall i :: 0 <= i < |s| ==> HasSavedKeys(s[i])
  }

  /** Records with exactly the saved keys, as `list_services` returns them. */
  predicate ExactlySaved(s: seq<Record>) {
    forall i :: 0 <= i < |s| ==> s[i].Keys == SavedKeySet
  }

  /** The `Name` values occurring in `s`. */
  function Names(s: seq<Record>): set<string>
    requires AllNamed(s)
  {
    set i | 0 <= i < |s| :: s[i][NameKey]
  }

  /** `{k: v for k, v in service.items() if k in _only_save_rows}` */
  function Project(r: Record): (p: Record)
    ensures p.Keys == r.Keys * SavedKeySet
    ensures forall k :: k in p ==> p[k] == r[k]
    ensures HasSavedKeys(r) ==> p.Keys == SavedKeySet
  {
    map k | k in r && k in SavedKeySet :: r[k]
  }

  /** A name-keyed dict whose every key is the `Name` field of its record. */
  predicate WellKeyed(d: Dict<Record>) {
    forall i :: 0 <= i < |d| ==> NameKey in d[i].1 && d[i].1[NameKey] == d[i].0
  }

  predicate AllSavedIn(d: Dict<Record>) {
    forall i :: 0 <= i < |d| ==> HasSavedKeys(d[i].1)
  }

  predicate ExactlySavedIn(d: Dict<Record>) {
    forall i :: 0 <= i < |d| ==> d[i].1.Keys == SavedKeySet
  }

  /** The records stored in a dict. */
  function Values(d: Dict<Record>): set<Record> {
    set i | 0 <= i < |d| :: d[i].1
  }

  function NamePairs(s: seq<Record>): (ps: seq<(string, Record)>)
    requires AllNamed(s)
    ensures |ps| == |s|
    ensures forall i :: 0 <= i < |s| ==> ps[i] == (s[i][NameKey], s[i])
  {
    seq(|s|, i requires 0 <= i < |s| => (s[i][NameKey], s[i]))
  }

  /** `{service["Name"]: service for service in services}` */
  function IndexByName(s: seq<Record>): (d: Dict<Record>)
    requires AllNamed(s)
    ensures UniqueKeys(d) && WellKeyed(d)
    ensures KeySet(d) == Names(s)
    ensures forall e :: e in d ==> e.1 in s
    ensures AllSaved(s) ==> AllSavedIn(d)
    ensures ExactlySaved(s) ==> ExactlySavedIn(d)
  {
    var ps := NamePairs(s);
    assert KeySet(ps) == Names(s) by {
      assert forall i :: 0 <= i < |s| ==> ps[i].0 == s[i][NameKey];
    }
    assert forall e :: e in ps ==> NameKey in e.1 && e.1[NameKey] == e.0;
    var d := FromPairs(ps);
    assert forall i :: 0 <= i < |d| ==> d[i] in ps;
    d
  }

  /** Last write wins: a name is bound to the last record that carries it. */
  lemma IndexByNameLastWins(s: seq<Record>, i: nat)
    requires AllNamed(s) && i < |s|
    requires forall j :: i < j < |s| ==> s[j][NameKey] != s[i][NameKey]
    ensures Get(IndexByName(s), s[i][NameKey]) == Some(s[i])
  {
    FromPairsLastWins(NamePairs(s), i);
  }

  predicate UniqueNames(s: seq<Record>)
    requires AllNamed(s)
  {
    forall i, j :: 0 <= i < j < |s| ==> s[i][NameKey] != s[j][NameKey]
  }

  /** With unique names every record is its own name's entry. */
  lemma IndexByNameUnique(s: seq<Record>, i: nat)
    requires AllNamed(s) && UniqueNames(s) && i < |s|
    ensures Get(IndexByName(s), s[i][NameKey]) == Some(s[i])
  {
    IndexByNameLastWins(s, i);
  }
}
