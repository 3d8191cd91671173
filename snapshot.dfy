/**
 * Reading a snapshot back (`Program.load_services_from_file`) and shaping the
 * live list (`Program.list_services`). The JSON text and the file are outside
 * the model: loading starts from the value `json.load` produced.
 */
module Snapshot {
  import opened Wrappers
  import opened Services
  import opened DisplayOrder

  /**
   * A parsed JSON value. Object members are strings here, which is what the
   * snapshot format stores; member order inside an object plays no part.
   */
  datatype Json =
    | JNull
    | JBool(b: bool)
    | JNumber(n: int)
    | JString(s: string)
    | JArray(items: seq<Json>)
    | JObject(fields: map<string, string>)

  /** The two `ValueError`s that loading raises. */
  datatype LoadError =
    | NotAListOfServices
    | MissingKey(key: string, service: Record)

  /** `isinstance(services, list) and all(isinstance(service, dict) ...)` */
  predicate IsServiceList(j: Json)
    ensures j == JArray([]) ==> IsServiceList(j)
    ensures j.JObject? ==> !IsServiceList(j)
    ensures j.JArray? && (exists x :: x in j.items && !x.JObject?) ==> !IsServiceList(j)
  {
    j.JArray? && forall i :: 0 <= i < |j.items| ==> j.items[i].JObject?
  }

  function Objects(j: Json): (s: seq<Record>)
    requires IsServiceList(j)
    ensures |s| == |j.items|
    ensures forall i :: 0 <= i < |s| ==> s[i] == j.items[i].fields
  {
    seq(|j.items|, i requires 0 <= i < |j.items| => j.items[i].fields)
  }

  /** The first of `_only_save_rows`, in order, that `r` lacks. */
  function MissingSavedKey(r: Record): (k: Option<string>)
    ensures k.None? <==> HasSavedKeys(r)
    ensures k.Some? ==> k.value in SavedKeySet && k.value !in r
    ensures k == Some(DisplayNameKey) ==> NameKey in r
    ensures k == Some(StartTypeKey) ==> NameKey in r && DisplayNameKey in r
  {
    if NameKey !in r then Some(NameKey)
    else if DisplayNameKey !in r then Some(DisplayNameKey)
    else if StartTypeKey !in r then Some(StartTypeKey)
    else None
  }

  /** The first record lacking a saved key, with that key. */
  function FirstMissing(s: seq<Record>): (m: Option<(string, Record)>)
    ensures m.None? <==> AllSaved(s)
  {
    if |s| == 0 then None
    else match MissingSavedKey(s[0])
      case Some(k) => Some((k, s[0]))
      case None => FirstMissing(s[1..])
  }

  /** What loading a parsed snapshot yields. */
  function Loaded(parsed: Json): (r: Result<seq<Record>, LoadError>)
    ensures r.Success? ==> IsServiceList(parsed) && AllSaved(r.value)
  {
    if !IsServiceList(parsed) then Failure(NotAListOfServices)
    else
      var services := Objects(parsed);
      match FirstMissing(services)
      case Some((k, r)) => Failure(MissingKey(k, r))
      case None =>
        var v := SortByDisplayName(services);
        assert AllSaved(v) by {
          forall i | 0 <= i < |v| ensures HasSavedKeys(v[i]) {
            assert v[i] in multiset(services);
          }
        }
        Success(v)
  }

  /** `load_services_from_file` once `json.load` has run: validate shape and keys, then sort. */
  method LoadServices(parsed: Json) returns (r: Result<seq<Record>, LoadError>)
    ensures r == Loaded(parsed)
  {
    if !parsed.JArray? {
      return Failure(NotAListOfServices);
    }
    var items := parsed.items;
    var n := 0;
    while n < |items|
      invariant 0 <= n <= |items|
      invariant forall i :: 0 <= i < n ==> items[i].JObject?
    {
      if !items[n].JObject? {
        return Failure(NotAListOfServices);
      }
      n := n + 1;
    }
    var services := Objects(parsed);
    var i := 0;
    while i < |services|
      invariant 0 <= i <= |services|
      invariant FirstMissing(services) == FirstMissing(services[i..])
    {
      var service := services[i];
      assert |SavedKeys| == 3 && SavedKeys[0] == NameKey
        && SavedKeys[1] == DisplayNameKey && SavedKeys[2] == StartTypeKey;
      var j := 0;
      while j < |SavedKeys|
        invariant 0 <= j <= |SavedKeys|
        invariant forall k :: 0 <= k < j ==> SavedKeys[k] in service
      {
        if SavedKeys[j] !in service {
          assert services[i..][0] == service;
          return Failure(MissingKey(SavedKeys[j], service));
        }
        j := j + 1;
      }
      assert HasSavedKeys(service);
      assert services[i..][0] == service && services[i..][1..] == services[i + 1..];
      i := i + 1;
    }
    r := Success(SortByDisplayName(services));
  }

  /** Loading fails on anything but a list of objects, before any key is looked at. */
  lemma LoadRejectsShape(parsed: Json)
    requires !IsServiceList(parsed)
    ensures Loaded(parsed) == Failure(NotAListOfServices)
  {
  }

  /**
   * A missing key is reported for the first record lacking one, naming the
   * first of `Name`, `DisplayName`, `StartType` it lacks; no list comes back.
   */
  lemma {:induction false} LoadReportsFirstMissing(parsed: Json, key: string, service: Record)
    requires IsServiceList(parsed)
    requires Loaded(parsed) == Failure(MissingKey(key, service))
    ensures exists i :: 0 <= i < |Objects(parsed)| && Objects(parsed)[i] == service
                        && AllSaved(Objects(parsed)[..i])
    ensures key in SavedKeySet && key !in service
    ensures key == DisplayNameKey ==> NameKey in service
    ensures key == StartTypeKey ==> NameKey in service && DisplayNameKey in service
  {
    FirstMissingIsFirst(Objects(parsed));
  }

  lemma {:induction false} FirstMissingIsFirst(s: seq<Record>)
    requires FirstMissing(s).Some?
    ensures exists i :: 0 <= i < |s| && s[i] == FirstMissing(s).value.1 && AllSaved(s[..i])
    ensures MissingSavedKey(FirstMissing(s).value.1) == Some(FirstMissing(s).value.0)
  {
    if MissingSavedKey(s[0]).None? {
      FirstMissingIsFirst(s[1..]);
      var i :| 0 <= i < |s[1..]| && s[1..][i] == FirstMissing(s).value.1 && AllSaved(s[1..][..i]);
      assert s[..i + 1] == [s[0]] + s[1..][..i];
      assert s[i + 1] == s[1..][i];
    } else {
      assert s[..0] == [];
    }
  }

  /** Loading succeeds exactly on a list of objects that all carry the three saved keys. */
  lemma LoadSucceedsIff(parsed: Json)
    ensures Loaded(parsed).Success? <==> IsServiceList(parsed) && AllSaved(Objects(parsed))
  {
  }

  /** A successful load is a permutation of the records, sorted by display name, stable. */
  lemma LoadSortsStably(parsed: Json, d: string)
    requires Loaded(parsed).Success?
    ensures IsServiceList(parsed)
    ensures var v := Loaded(parsed).value;
            && AllSaved(v)
            && multiset(v) == multiset(Objects(parsed))
            && SortedByDisplayName(v)
            && WithDisplayName(v, d) == WithDisplayName(Objects(parsed), d)
  {
    SortIsStable(Objects(parsed), d);
  }

  /** The live records cut down to the saved keys (`services_cut`). */
  function Cut(raw: seq<Record>): (s: seq<Record>)
    ensures |s| == |raw|
    ensures forall i :: 0 <= i < |s| ==> s[i] == Project(raw[i])
  {
    seq(|raw|, i requires 0 <= i < |raw| => Project(raw[i]))
  }

  /**
   * `list_services` after the enumeration: keep only the saved keys of every
   * record, then sort by display name. The enumeration reports all three keys.
   */
  function ListServices(raw: seq<Record>): (s: seq<Record>)
    requires AllSaved(raw)
    ensures ExactlySaved(s) && AllSaved(s)
    ensures SortedByDisplayName(s)
    ensures multiset(s) == multiset(Cut(raw))
  {
    var cut := Cut(raw);
    var s := SortByDisplayName(cut);
    assert forall i :: 0 <= i < |s| ==> s[i].Keys == SavedKeySet by {
      forall i | 0 <= i < |s| ensures s[i].Keys == SavedKeySet {
        assert s[i] in multiset(cut);
      }
    }
    s
  }

  /** What `json.dump` writes for a list of records, as a parsed value. */
  function Dumped(s: seq<Record>): (j: Json)
    ensures IsServiceList(j) && Objects(j) == s
  {
    JArray(seq(|s|, i requires 0 <= i < |s| => JObject(s[i])))
  }

  /** Saving the live list and loading it back gives the same snapshot. */
  lemma SaveLoadRoundTrip(raw: seq<Record>)
    requires AllSaved(raw)
    ensures Loaded(Dumped(ListServices(raw))) == Success(ListServices(raw))
  {
    var s := ListServices(raw);
    SortOfSortedIsIdentity(s);
  }
}
