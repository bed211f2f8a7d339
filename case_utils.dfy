/** The read side of the case engine: ranking a user's attempts, expanding the
    `*_to_display` objects of a step against the catalogue, and attaching each step's
    data to the step rows of a case. */
module CaseUtils {
  import opened Common
  import opened CaseTypes
  import opened OrderedMaps
  import opened StepTables

  // ---------------------------------------------------------------------------
  // sortAttempts
  // ---------------------------------------------------------------------------

  /** An `attempt` row as `sortAttempts` reads it; a null `is_finished` reads as false
      and `timestamp_started` is a number. */
  datatype Attempt = Attempt(id: string, userId: string, caseId: string, isFinished: bool, timestampStarted: int)

  /** Some attempt of `s` is for case `c`. */
  predicate HasCase(s: seq<Attempt>, c: string)
    decreases |s|
  {
    |s| > 0 && (s[|s| - 1].caseId == c || HasCase(s[..|s| - 1], c))
  }

  lemma {:induction false} HasCaseAt(s: seq<Attempt>, j: nat, c: string)
    requires j < |s| && s[j].caseId == c
    ensures HasCase(s, c)
  {
    if j < |s| - 1 {
      assert s[..|s| - 1][j] == s[j];
      HasCaseAt(s[..|s| - 1], j, c);
    }
  }

  lemma {:induction false} HasCaseExtends(s: seq<Attempt>, n: nat, c: string)
    requires n <= |s| && HasCase(s[..n], c)
    ensures HasCase(s, c)
    decreases |s| - n
  {
    if n < |s| {
      var t := s[..n + 1];
      assert t[..n] == s[..n];
      assert HasCase(t, c);
      HasCaseExtends(s, n + 1, c);
    } else {
      assert s[..n] == s;
    }
  }

  lemma HasCaseDrops(s: seq<Attempt>, c: string)
    requires HasCase(s, c) && s[|s| - 1].caseId != c
    ensures HasCase(s[..|s| - 1], c)
  {
  }

  /** The position of the attempt the scan of `sortAttempts` keeps for case `c`: a
      later attempt replaces the kept one only when it started strictly later. */
  function LatestIndex(s: seq<Attempt>, c: string): (k: nat)
    requires HasCase(s, c)
    decreases |s|
    ensures k < |s| && s[k].caseId == c
  {
    var n := |s| - 1;
    if s[n].caseId != c then
      HasCaseDrops(s, c);
      LatestIndex(s[..n], c)
    else if HasCase(s[..n], c) && s[n].timestampStarted <= s[..n][LatestIndex(s[..n], c)].timestampStarted then
      LatestIndex(s[..n], c)
    else n
  }

  /** The attempt `sortAttempts` keeps for case `c`. */
  function Latest(s: seq<Attempt>, c: string): (a: Attempt)
    requires HasCase(s, c)
    ensures a in s && a.caseId == c
  {
    s[LatestIndex(s, c)]
  }

  /** The case ids of `s`, each once, in the order in which they first appear. */
  function CaseOrder(s: seq<Attempt>): (order: seq<string>)
    decreases |s|
    ensures Distinct(order)
    ensures forall c :: c in order <==> HasCase(s, c)
  {
    if s == [] then []
    else
      var n := |s| - 1;
      var p := CaseOrder(s[..n]);
      forall c | HasCase(s[..n], c) ensures HasCase(s, c) {
        HasCaseExtends(s, n, c);
      }
      forall c | HasCase(s, c) && c != s[n].caseId ensures HasCase(s[..n], c) {
        HasCaseDrops(s, c);
      }
      if s[n].caseId in p then p else p + [s[n].caseId]
  }

  /** The ids of `order` whose kept attempt is unfinished, in the same order. */
  function UnfinishedKeys(s: seq<Attempt>, order: seq<string>): (r: seq<string>)
    requires forall c :: c in order ==> HasCase(s, c)
    ensures forall c :: c in r <==> c in order && !Latest(s, c).isFinished
    ensures Distinct(order) ==> Distinct(r)
  {
    if order == [] then []
    else
      var m := |order| - 1;
      var p := UnfinishedKeys(s, order[..m]);
      assert forall c :: c in order[..m] ==> c in order;
      if Latest(s, order[m]).isFinished then p else p + [order[m]]
  }

  /** The kept attempt of each id of `ks`, in order. */
  function LatestOf(s: seq<Attempt>, ks: seq<string>): (r: seq<Attempt>)
    requires forall c :: c in ks ==> HasCase(s, c)
    ensures |r| == |ks|
    ensures forall i :: 0 <= i < |ks| ==> r[i] == Latest(s, ks[i])
  {
    if ks == [] then []
    else
      var m := |ks| - 1;
      assert forall c :: c in ks[..m] ==> c in ks;
      LatestOf(s, ks[..m]) + [Latest(s, ks[m])]
  }

  /** What `sortAttempts(attempts)` returns: per case, in first-appearance order, the
      kept attempt, unless it is finished. */
  function SortedAttempts(s: seq<Attempt>): (r: seq<Attempt>)
    ensures forall e :: e in r ==> e in s && !e.isFinished
  {
    var ks := UnfinishedKeys(s, CaseOrder(s));
    var r := LatestOf(s, ks);
    forall e | e in r
      ensures e in s && !e.isFinished
    {
      var i :| 0 <= i < |r| && r[i] == e;
      assert ks[i] in ks;
    }
    r
  }

  /** Reading one more attempt adds its case at the end of the order if it is new. */
  lemma CaseOrderStep(s: seq<Attempt>, i: nat)
    requires i < |s|
    ensures CaseOrder(s[..i + 1]) ==
      if s[i].caseId in CaseOrder(s[..i]) then CaseOrder(s[..i]) else CaseOrder(s[..i]) + [s[i].caseId]
  {
    assert s[..i + 1][..i] == s[..i];
  }

  /** Reading one more attempt changes only the kept attempt of its own case, and that
      only when it started strictly later. */
  lemma LatestStep(s: seq<Attempt>, i: nat, c: string)
    requires i < |s| && HasCase(s[..i + 1], c)
    ensures s[i].caseId != c ==> HasCase(s[..i], c) && Latest(s[..i + 1], c) == Latest(s[..i], c)
    ensures s[i].caseId == c && HasCase(s[..i], c) && s[i].timestampStarted <= Latest(s[..i], c).timestampStarted
      ==> Latest(s[..i + 1], c) == Latest(s[..i], c)
    ensures s[i].caseId == c && !(HasCase(s[..i], c) && s[i].timestampStarted <= Latest(s[..i], c).timestampStarted)
      ==> Latest(s[..i + 1], c) == s[i]
  {
    var t := s[..i + 1];
    assert t[..i] == s[..i];
    assert t[i] == s[i];
    if s[i].caseId != c {
      HasCaseDrops(t, c);
    }
    if HasCase(s[..i], c) {
      var k := LatestIndex(s[..i], c);
      assert t[k] == s[..i][k];
    }
  }

  /** The values half of one step of the first loop. */
  lemma FillValues(s: seq<Attempt>, i: nat, values: map<string, Attempt>)
    requires i < |s|
    requires forall c :: c in values ==> HasCase(s[..i], c) && values[c] == Latest(s[..i], c)
    requires forall c :: HasCase(s[..i], c) ==> c in values
    ensures var e := s[i];
      var v := if e.caseId in values && e.timestampStarted <= values[e.caseId].timestampStarted then values
        else values[e.caseId := e];
      forall c :: c in v ==> HasCase(s[..i + 1], c) && v[c] == Latest(s[..i + 1], c)
  {
    var e := s[i];
    var v := if e.caseId in values && e.timestampStarted <= values[e.caseId].timestampStarted then values
      else values[e.caseId := e];
    assert s[..i + 1][..i] == s[..i];
    assert s[..i + 1][i] == e;
    forall c | c in v
      ensures HasCase(s[..i + 1], c) && v[c] == Latest(s[..i + 1], c)
    {
      if c != e.caseId {
        HasCaseExtends(s[..i + 1], i, c);
      }
      LatestStep(s, i, c);
    }
  }

  /** The key-order half of one step of the first loop. */
  lemma FillKeys(s: seq<Attempt>, i: nat, d: Dict<Attempt>)
    requires i < |s| && Wf(d) && d.keys == CaseOrder(s[..i])
    ensures s[i].caseId in d.values ==> d.keys == CaseOrder(s[..i + 1]) && Set(d, s[i].caseId, s[i]).keys == d.keys
    ensures s[i].caseId !in d.values ==> Set(d, s[i].caseId, s[i]).keys == CaseOrder(s[..i + 1])
  {
    CaseOrderStep(s, i);
  }

  /** The dictionary after the second loop of `sortAttempts` has visited `order[..i]`. */
  predicate Pruned(s: seq<Attempt>, order: seq<string>, i: nat, d: Dict<Attempt>)
    requires i <= |order|
    requires forall c :: c in order ==> HasCase(s, c)
  {
    && Wf(d)
    && d.keys == UnfinishedKeys(s, order[..i]) + order[i..]
    && forall c :: c in d.values ==> HasCase(s, c) && d.values[c] == Latest(s, c)
  }

  /** Visiting one more id keeps it when its attempt is unfinished. */
  lemma UnfinishedKeysStep(s: seq<Attempt>, order: seq<string>, i: nat)
    requires i < |order|
    requires forall c :: c in order ==> HasCase(s, c)
    ensures forall c :: c in order[..i] ==> HasCase(s, c)
    ensures UnfinishedKeys(s, order[..i + 1]) ==
      UnfinishedKeys(s, order[..i]) + if Latest(s, order[i]).isFinished then [] else [order[i]]
  {
    assert forall x :: x in order[..i] ==> x in order;
    assert forall x :: x in order[..i + 1] ==> x in order;
    assert order[..i + 1][..i] == order[..i];
  }

  /** The key-order half of one step of the second loop. */
  lemma PruneKeys(s: seq<Attempt>, order: seq<string>, i: nat, keys: seq<string>)
    requires i < |order|
    requires forall c :: c in order ==> HasCase(s, c)
    requires Distinct(keys) && keys == UnfinishedKeys(s, order[..i]) + order[i..]
    ensures Latest(s, order[i]).isFinished ==> Remove(keys, order[i]) == UnfinishedKeys(s, order[..i + 1]) + order[i + 1..]
    ensures !Latest(s, order[i]).isFinished ==> keys == UnfinishedKeys(s, order[..i + 1]) + order[i + 1..]
  {
    var c, rest := order[i], order[i + 1..];
    assert order[i..] == [c] + rest;
    assert c in order;
    UnfinishedKeysStep(s, order, i);
    KeysStep(keys, UnfinishedKeys(s, order[..i]), c, rest, UnfinishedKeys(s, order[..i + 1]), Latest(s, c).isFinished);
  }

  /** The key order before and after visiting `c`, which sits between the visited
      keys `done` and the unvisited `rest`: deleted when finished, kept otherwise. */
  lemma KeysStep(keys: seq<string>, done: seq<string>, c: string, rest: seq<string>, next: seq<string>, finished: bool)
    requires Distinct(keys) && keys == done + ([c] + rest)
    requires next == done + if finished then [] else [c]
    ensures finished ==> Remove(keys, c) == next + rest
    ensures !finished ==> keys == next + rest
  {
    assert keys[|done|] == c;
    if finished {
      RemoveAt(keys, |done|);
      assert keys[..|done|] == done;
      assert keys[|done| + 1..] == rest;
    }
  }

  /** One step of the second loop: the entry of `order[i]` is deleted when its attempt
      is finished. */
  lemma PruneStep(s: seq<Attempt>, order: seq<string>, i: nat, d: Dict<Attempt>)
    requires i < |order|
    requires forall c :: c in order ==> HasCase(s, c)
    requires Pruned(s, order, i, d)
    ensures order[i] in d.values
    ensures Pruned(s, order, i + 1, if d.values[order[i]].isFinished then Delete(d, order[i]) else d)
  {
    assert d.keys[|UnfinishedKeys(s, order[..i])|] == order[i];
    PruneKeys(s, order, i, d.keys);
  }

  /** The first loop of `sortAttempts`: map each case id to its kept attempt. */
  method CollectLatest(attempts: seq<Attempt>) returns (latest: Dict<Attempt>)
    ensures Wf(latest)
    ensures latest.keys == CaseOrder(attempts)
    ensures forall c :: c in latest.values ==> HasCase(attempts, c) && latest.values[c] == Latest(attempts, c)
  {
    latest := Empty();
    for i := 0 to |attempts|
      invariant Wf(latest)
      invariant latest.keys == CaseOrder(attempts[..i])
      invariant forall c :: c in latest.values ==> HasCase(attempts[..i], c) && latest.values[c] == Latest(attempts[..i], c)
    {
      var e := attempts[i];
      FillKeys(attempts, i, latest);
      assert forall c :: HasCase(attempts[..i], c) ==> c in latest.keys;
      FillValues(attempts, i, latest.values);
      if e.caseId in latest.values {
        if e.timestampStarted > latest.values[e.caseId].timestampStarted {
          latest := Set(latest, e.caseId, e);
        }
      } else {
        latest := Set(latest, e.caseId, e);
      }
    }
    assert attempts[..|attempts|] == attempts;
  }

  /** The second loop of `sortAttempts`: visit the keys in `order` and delete every
      entry whose attempt is finished. */
  method DeleteFinished(attempts: seq<Attempt>, order: seq<string>, latest0: Dict<Attempt>) returns (latest: Dict<Attempt>)
    requires forall c :: c in order ==> HasCase(attempts, c)
    requires Pruned(attempts, order, 0, latest0)
    ensures Wf(latest)
    ensures latest.keys == UnfinishedKeys(attempts, order)
    ensures forall c :: c in latest.values ==> HasCase(attempts, c) && latest.values[c] == Latest(attempts, c)
  {
    latest := latest0;
    for i := 0 to |order|
      invariant Pruned(attempts, order, i, latest)
    {
      var c := order[i];
      PruneStep(attempts, order, i, latest);
      if latest.values[c].isFinished {
        latest := Delete(latest, c);
      }
    }
    assert order[..|order|] == order;
  }

  /** `Array.from(map.values())`: the values in key order. */
  method ValuesInOrder(attempts: seq<Attempt>, latest: Dict<Attempt>) returns (result: seq<Attempt>)
    requires Wf(latest)
    requires forall c :: c in latest.values ==> HasCase(attempts, c) && latest.values[c] == Latest(attempts, c)
    ensures result == LatestOf(attempts, latest.keys)
  {
    result := [];
    for i := 0 to |latest.keys|
      invariant result == LatestOf(attempts, latest.keys[..i])
    {
      assert latest.keys[..i + 1][..i] == latest.keys[..i];
      result := result + [latest.values[latest.keys[i]]];
    }
    assert latest.keys[..|latest.keys|] == latest.keys;
  }

  /** `sortAttempts(attempts)`: fill a `Map` from case id to the kept attempt, delete
      the finished ones, and list what is left in key order. */
  method SortAttempts(attempts: seq<Attempt>) returns (result: seq<Attempt>)
    ensures result == SortedAttempts(attempts)
  {
    var latest := CollectLatest(attempts);
    var order := latest.keys;
    assert order[..0] == [] && order[0..] == order;
    latest := DeleteFinished(attempts, order, latest);
    result := ValuesInOrder(attempts, latest);
  }

  // Properties of the ranking

  /** The kept attempt of a case started no earlier than any attempt of that case. */
  lemma {:induction false} LatestIsMaximal(s: seq<Attempt>, j: nat)
    requires j < |s|
    ensures HasCase(s, s[j].caseId)
    ensures s[j].timestampStarted <= Latest(s, s[j].caseId).timestampStarted
  {
    var c := s[j].caseId;
    var n := |s| - 1;
    HasCaseAt(s, j, c);
    if j < n {
      assert s[..n][j] == s[j];
      LatestIsMaximal(s[..n], j);
    }
    if HasCase(s[..n], c) {
      var k := LatestIndex(s[..n], c);
      assert s[..n][k] == s[k];
    }
  }

  /** Ties go to the first attempt seen: every attempt of the case before the kept
      one started strictly earlier. */
  lemma {:induction false} LatestIsFirstOfLatest(s: seq<Attempt>, j: nat)
    requires j < |s| && HasCase(s, s[j].caseId) && j < LatestIndex(s, s[j].caseId)
    ensures s[j].timestampStarted < Latest(s, s[j].caseId).timestampStarted
  {
    var c := s[j].caseId;
    var n := |s| - 1;
    var k := LatestIndex(s, c);
    assert s[..n][j] == s[j];
    if k < n {
      assert HasCase(s[..n], c) && k == LatestIndex(s[..n], c) by {
        if s[n].caseId != c {
          HasCaseDrops(s, c);
        }
      }
      assert s[..n][k] == s[k];
      LatestIsFirstOfLatest(s[..n], j);
    } else {
      HasCaseAt(s[..n], j, c);
      LatestIsMaximal(s[..n], j);
      var k' := LatestIndex(s[..n], c);
      assert s[..n][k'] == s[k'];
    }
  }

  /** Each entry of the result is the kept attempt of its own case, is unfinished and
      is one of the input attempts. */
  lemma SortedAttemptsEntries(s: seq<Attempt>, i: nat)
    requires i < |SortedAttempts(s)|
    ensures var e := SortedAttempts(s)[i];
      && HasCase(s, e.caseId) && e == Latest(s, e.caseId) && !e.isFinished && e in s
  {
    var ks := UnfinishedKeys(s, CaseOrder(s));
    assert ks[i] in ks;
  }

  /** The result holds at most one entry per case. */
  lemma SortedAttemptsDistinct(s: seq<Attempt>, i: nat, j: nat)
    requires i < j < |SortedAttempts(s)|
    ensures SortedAttempts(s)[i].caseId != SortedAttempts(s)[j].caseId
  {
    var ks := UnfinishedKeys(s, CaseOrder(s));
    assert ks[i] in ks && ks[j] in ks;
  }

  /** A case appears in the result exactly when it has attempts and its kept attempt
      is unfinished; an earlier unfinished attempt does not bring it back. */
  lemma SortedAttemptsComplete(s: seq<Attempt>, c: string)
    ensures (exists i :: 0 <= i < |SortedAttempts(s)| && SortedAttempts(s)[i].caseId == c)
      <==> HasCase(s, c) && !Latest(s, c).isFinished
  {
    var ks := UnfinishedKeys(s, CaseOrder(s));
    var r := SortedAttempts(s);
    if HasCase(s, c) && !Latest(s, c).isFinished {
      assert c in ks;
      var i :| 0 <= i < |ks| && ks[i] == c;
      assert r[i].caseId == c;
    }
    if exists i :: 0 <= i < |r| && r[i].caseId == c {
      var i :| 0 <= i < |r| && r[i].caseId == c;
      assert ks[i] in ks;
    }
  }

  /** The position of the first attempt of case `c`. */
  function FirstIndex(s: seq<Attempt>, c: string): (k: nat)
    requires HasCase(s, c)
    decreases |s|
    ensures k < |s| && s[k].caseId == c
    ensures forall j :: 0 <= j < k ==> s[j].caseId != c
  {
    var n := |s| - 1;
    if HasCase(s[..n], c) then
      var k := FirstIndex(s[..n], c);
      assert forall j :: 0 <= j <= k ==> s[..n][j] == s[j];
      k
    else
      assert forall j :: 0 <= j < n ==> s[j].caseId != c by {
        forall j | 0 <= j < n ensures s[j].caseId != c {
          if s[j].caseId == c {
            HasCaseAt(s[..n], j, c);
          }
        }
      }
      n
  }

  /** The ids of `ks` are listed in the order in which their cases first appear in `s`. */
  predicate ByFirstAppearance(s: seq<Attempt>, ks: seq<string>)
    requires forall c :: c in ks ==> HasCase(s, c)
  {
    forall i, j :: 0 <= i < j < |ks| ==> FirstIndex(s, ks[i]) < FirstIndex(s, ks[j])
  }

  lemma {:induction false} CaseOrderByFirstAppearance(s: seq<Attempt>)
    ensures ByFirstAppearance(s, CaseOrder(s))
  {
    if s != [] {
      var n := |s| - 1;
      var p := CaseOrder(s[..n]);
      CaseOrderByFirstAppearance(s[..n]);
      forall c | c in p ensures HasCase(s, c) && FirstIndex(s, c) == FirstIndex(s[..n], c) < n {
        HasCaseExtends(s, n, c);
      }
      forall i, j | 0 <= i < j < |p| ensures FirstIndex(s, p[i]) < FirstIndex(s, p[j]) {
        assert p[i] in p && p[j] in p;
      }
      if s[n].caseId !in p {
        ByFirstAppearanceSnoc(s, p, s[n].caseId);
      }
    }
  }

  lemma ByFirstAppearancePrefix(s: seq<Attempt>, ks: seq<string>, m: nat)
    requires m <= |ks| && forall c :: c in ks ==> HasCase(s, c)
    requires ByFirstAppearance(s, ks)
    ensures forall c :: c in ks[..m] ==> HasCase(s, c)
    ensures ByFirstAppearance(s, ks[..m])
  {
    assert forall c :: c in ks[..m] ==> c in ks;
    assert forall i :: 0 <= i < m ==> ks[..m][i] == ks[i];
  }

  /** Appending an id whose case first appears after all those listed keeps the order. */
  lemma ByFirstAppearanceSnoc(s: seq<Attempt>, ks: seq<string>, x: string)
    requires HasCase(s, x) && forall c :: c in ks ==> HasCase(s, c)
    requires ByFirstAppearance(s, ks)
    requires forall c :: c in ks ==> FirstIndex(s, c) < FirstIndex(s, x)
    ensures forall c :: c in ks + [x] ==> HasCase(s, c)
    ensures ByFirstAppearance(s, ks + [x])
  {
    var r := ks + [x];
    forall i, j | 0 <= i < j < |r| ensures FirstIndex(s, r[i]) < FirstIndex(s, r[j]) {
      assert r[i] == ks[i];
      if j < |ks| {
        assert r[j] == ks[j];
      }
    }
  }

  lemma {:induction false} UnfinishedKeysByFirstAppearance(s: seq<Attempt>, order: seq<string>)
    requires forall c :: c in order ==> HasCase(s, c)
    requires ByFirstAppearance(s, order)
    ensures ByFirstAppearance(s, UnfinishedKeys(s, order))
  {
    if order != [] {
      var m := |order| - 1;
      ByFirstAppearancePrefix(s, order, m);
      UnfinishedKeysByFirstAppearance(s, order[..m]);
      var p := UnfinishedKeys(s, order[..m]);
      if !Latest(s, order[m]).isFinished {
        forall c | c in p ensures FirstIndex(s, c) < FirstIndex(s, order[m]) {
          var a :| 0 <= a < m && order[..m][a] == c;
          assert order[a] == c;
        }
        ByFirstAppearanceSnoc(s, p, order[m]);
      }
    }
  }

  /** The result lists the cases in the order in which each first appears among the
      attempts. */
  lemma SortedAttemptsOrder(s: seq<Attempt>, i: nat, j: nat)
    requires i < j < |SortedAttempts(s)|
    ensures HasCase(s, SortedAttempts(s)[i].caseId) && HasCase(s, SortedAttempts(s)[j].caseId)
    ensures FirstIndex(s, SortedAttempts(s)[i].caseId) < FirstIndex(s, SortedAttempts(s)[j].caseId)
  {
    CaseOrderByFirstAppearance(s);
    UnfinishedKeysByFirstAppearance(s, CaseOrder(s));
    var ks := UnfinishedKeys(s, CaseOrder(s));
    assert ks[i] in ks && ks[j] in ks;
  }

  // ---------------------------------------------------------------------------
  // fetchExaminationsToDisplay / fetchTreatmentsToDisplay
  // ---------------------------------------------------------------------------

  /** A row of `examination_type`, `examination_subtype`, `treatment_type` or
      `treatment_subtype`. */
  datatype Taxon = Taxon(id: string, name: string)

  /** A row of `examination_list` or `treatment_list`. */
  datatype CatalogueItem = CatalogueItem(id: string, name: string, typeId: string, subtypeId: string)

  /** The three tables one expander reads: the types, the subtypes, and the items in
      the order the storage layer returns them (sorted by name). */
  datatype Catalogue = Catalogue(types: seq<Taxon>, subtypes: seq<Taxon>, items: seq<CatalogueItem>)

  /** Subtype name to the catalogue items of that subtype. */
  type Subtypes = Dict<seq<CatalogueItem>>

  /** Type name to its subtypes object. */
  type Display = Dict<Subtypes>

  /** `rows.find(row => row.id === id)`: the first row with that id. */
  function FindById(ts: seq<Taxon>, id: string): (r: Option<Taxon>)
    ensures r.Some? ==> r.value in ts && r.value.id == id
  {
    if ts == [] then None
    else if ts[0].id == id then Some(ts[0])
    else FindById(ts[1..], id)
  }

  /** The search fails exactly when no row has the id. */
  lemma {:induction false} FindByIdNone(ts: seq<Taxon>, id: string)
    ensures FindById(ts, id).None? <==> forall k :: 0 <= k < |ts| ==> ts[k].id != id
  {
    if ts != [] && ts[0].id != id {
      FindByIdNone(ts[1..], id);
      assert forall k :: 1 <= k < |ts| ==> ts[k] == ts[1..][k - 1];
    }
  }

  /** `items.filter(item => item.<kind>_subtype_id === subtypeId)`. */
  function ItemsOf(items: seq<CatalogueItem>, subtypeId: string): (r: seq<CatalogueItem>)
    ensures |r| <= |items|
    ensures forall x :: x in r <==> x in items && x.subtypeId == subtypeId
  {
    Filter(items, (x: CatalogueItem) => x.subtypeId == subtypeId)
  }

  /** The inner loop: for each subtype id of `ids` found in the subtype table, the
      subtype's name is set to the items of that subtype; ids not found are skipped. */
  function SubtypesOf(cat: Catalogue, ids: seq<string>): (d: Subtypes)
    ensures Wf(d)
  {
    if ids == [] then Empty()
    else
      var n := |ids| - 1;
      var d := SubtypesOf(cat, ids[..n]);
      match FindById(cat.subtypes, ids[n])
      case None => d
      case Some(st) => Set(d, st.name, ItemsOf(cat.items, st.id))
  }

  /** The outer loop: for each entry whose type id is found in the type table, the
      type's name is set to the subtypes object of the entry's ids. */
  function DisplayOf(cat: Catalogue, entries: ToDisplay): (d: Display)
    ensures Wf(d)
  {
    if entries == [] then Empty()
    else
      var n := |entries| - 1;
      var d := DisplayOf(cat, entries[..n]);
      match FindById(cat.types, entries[n].0)
      case None => d
      case Some(t) => Set(d, t.name, SubtypesOf(cat, entries[n].1))
  }

  /** `fetchExaminationsToDisplay(obj)` and `fetchTreatmentsToDisplay(obj)`: the same
      nested loops over the object's entries and each entry's subtype ids. */
  method ExpandToDisplay(cat: Catalogue, entries: ToDisplay) returns (display: Display)
    ensures display == DisplayOf(cat, entries)
  {
    display := Empty();
    for i := 0 to |entries|
      invariant display == DisplayOf(cat, entries[..i])
    {
      assert entries[..i + 1][..i] == entries[..i];
      var (typeId, subtypeIds) := entries[i];
      var found := FindById(cat.types, typeId);
      if found.Some? {
        var subTypes: Subtypes := Empty();
        for j := 0 to |subtypeIds|
          invariant subTypes == SubtypesOf(cat, subtypeIds[..j])
        {
          assert subtypeIds[..j + 1][..j] == subtypeIds[..j];
          var sub := FindById(cat.subtypes, subtypeIds[j]);
          if sub.Some? {
            subTypes := Set(subTypes, sub.value.name, ItemsOf(cat.items, sub.value.id));
          }
        }
        assert subtypeIds[..|subtypeIds|] == subtypeIds;
        display := Set(display, found.value.name, subTypes);
      }
    }
    assert entries[..|entries|] == entries;
  }

  /** The id `id` is found in `ts` under the name `name`. */
  predicate NamedAs(ts: seq<Taxon>, id: string, name: string) {
    FindById(ts, id).Some? && FindById(ts, id).value.name == name
  }

  /** One more subtype id: the subtypes object gains or replaces the entry of the
      subtype found, if any. */
  lemma SubtypesOfStep(cat: Catalogue, ids: seq<string>)
    requires ids != []
    ensures var n := |ids| - 1;
      var found := FindById(cat.subtypes, ids[n]);
      SubtypesOf(cat, ids).values == if found.None? then SubtypesOf(cat, ids[..n]).values
        else SubtypesOf(cat, ids[..n]).values[found.value.name := ItemsOf(cat.items, found.value.id)]
  {
  }

  /** A subtype name is a key of the subtypes object exactly when one of the ids is
      found under that name: ids not in the subtype table leave no trace. */
  lemma {:induction false} SubtypesOfKeys(cat: Catalogue, ids: seq<string>, name: string)
    ensures name in SubtypesOf(cat, ids).values <==> (exists j :: 0 <= j < |ids| && NamedAs(cat.subtypes, ids[j], name))
  {
    if ids != [] {
      var n := |ids| - 1;
      SubtypesOfKeys(cat, ids[..n], name);
      SubtypesOfStep(cat, ids);
      if name in SubtypesOf(cat, ids).values && !NamedAs(cat.subtypes, ids[n], name) {
        var j :| 0 <= j < n && NamedAs(cat.subtypes, ids[..n][j], name);
        assert ids[..n][j] == ids[j];
      }
      if j :| 0 <= j < |ids| && NamedAs(cat.subtypes, ids[j], name) {
        if j < n {
          assert ids[..n][j] == ids[j];
        }
      }
    }
  }

  /** The position of the last id of `ids` found in `ts` under `name`, or -1. */
  function LastNamed(ts: seq<Taxon>, ids: seq<string>, name: string): (j: int)
    ensures -1 <= j < |ids|
    ensures j >= 0 ==> NamedAs(ts, ids[j], name)
    ensures forall j' :: j < j' < |ids| ==> !NamedAs(ts, ids[j'], name)
  {
    if ids == [] then -1
    else
      var n := |ids| - 1;
      if NamedAs(ts, ids[n], name) then n
      else
        var j := LastNamed(ts, ids[..n], name);
        assert forall j' :: 0 <= j' < n ==> ids[..n][j'] == ids[j'];
        j
  }

  /** The items under a subtype name are exactly the catalogue items of the last
      subtype id found under that name. */
  lemma {:induction false} SubtypesOfItems(cat: Catalogue, ids: seq<string>, name: string)
    requires name in SubtypesOf(cat, ids).values
    ensures var j := LastNamed(cat.subtypes, ids, name);
      j >= 0 && SubtypesOf(cat, ids).values[name] == ItemsOf(cat.items, FindById(cat.subtypes, ids[j]).value.id)
  {
    var n := |ids| - 1;
    SubtypesOfStep(cat, ids);
    if !NamedAs(cat.subtypes, ids[n], name) {
      SubtypesOfItems(cat, ids[..n], name);
      var j := LastNamed(cat.subtypes, ids[..n], name);
      assert ids[..n][j] == ids[j];
    }
  }

  /** A found type maps to an empty subtypes object exactly when none of its subtype
      ids is in the subtype table. */
  lemma SubtypesOfEmpty(cat: Catalogue, ids: seq<string>)
    ensures SubtypesOf(cat, ids).values == map[]
      <==> forall j :: 0 <= j < |ids| ==> FindById(cat.subtypes, ids[j]).None?
  {
    var d := SubtypesOf(cat, ids);
    if d.values != map[] {
      var name :| name in d.values;
      SubtypesOfKeys(cat, ids, name);
    }
    forall j | 0 <= j < |ids| && FindById(cat.subtypes, ids[j]).Some?
      ensures d.values != map[]
    {
      SubtypesOfKeys(cat, ids, FindById(cat.subtypes, ids[j]).value.name);
    }
  }

  /** One more entry: the result gains or replaces the entry of the type found, if any. */
  lemma DisplayOfStep(cat: Catalogue, entries: ToDisplay)
    requires entries != []
    ensures var n := |entries| - 1;
      var found := FindById(cat.types, entries[n].0);
      DisplayOf(cat, entries).values == if found.None? then DisplayOf(cat, entries[..n]).values
        else DisplayOf(cat, entries[..n]).values[found.value.name := SubtypesOf(cat, entries[n].1)]
  {
  }

  /** A type name is a key of the result exactly when one of the entries' type ids is
      found under that name: type ids not in the type table leave no trace. */
  lemma {:induction false} DisplayOfKeys(cat: Catalogue, entries: ToDisplay, name: string)
    ensures name in DisplayOf(cat, entries).values
      <==> (exists k :: 0 <= k < |entries| && NamedAs(cat.types, entries[k].0, name))
  {
    if entries != [] {
      var n := |entries| - 1;
      DisplayOfKeys(cat, entries[..n], name);
      DisplayOfStep(cat, entries);
      if name in DisplayOf(cat, entries).values && !NamedAs(cat.types, entries[n].0, name) {
        var k :| 0 <= k < n && NamedAs(cat.types, entries[..n][k].0, name);
        assert entries[..n][k] == entries[k];
      }
      if k :| 0 <= k < |entries| && NamedAs(cat.types, entries[k].0, name) {
        if k < n {
          assert entries[..n][k] == entries[k];
        }
      }
    }
  }

  /** The position of the last entry whose type id is found in `ts` under `name`, or -1. */
  function LastNamedEntry(ts: seq<Taxon>, entries: ToDisplay, name: string): (k: int)
    ensures -1 <= k < |entries|
    ensures k >= 0 ==> NamedAs(ts, entries[k].0, name)
    ensures forall k' :: k < k' < |entries| ==> !NamedAs(ts, entries[k'].0, name)
  {
    if entries == [] then -1
    else
      var n := |entries| - 1;
      if NamedAs(ts, entries[n].0, name) then n
      else
        var k := LastNamedEntry(ts, entries[..n], name);
        assert forall k' :: 0 <= k' < n ==> entries[..n][k'] == entries[k'];
        k
  }

  /** Under a type name sits the subtypes object of the last entry whose type id is
      found under that name. */
  lemma {:induction false} DisplayOfSubtypes(cat: Catalogue, entries: ToDisplay, name: string)
    requires name in DisplayOf(cat, entries).values
    ensures var k := LastNamedEntry(cat.types, entries, name);
      k >= 0 && DisplayOf(cat, entries).values[name] == SubtypesOf(cat, entries[k].1)
  {
    var n := |entries| - 1;
    DisplayOfStep(cat, entries);
    if !NamedAs(cat.types, entries[n].0, name) {
      DisplayOfSubtypes(cat, entries[..n], name);
      var k := LastNamedEntry(cat.types, entries[..n], name);
      assert entries[..n][k] == entries[k];
    }
  }

  // ---------------------------------------------------------------------------
  // fetchStepData
  // ---------------------------------------------------------------------------

  /** A row of `diagnosis_list`. */
  datatype DiagnosisItem = DiagnosisItem(id: string, name: string, medicalFieldId: string)

  /** `diagnosis_list.findAll({ where: { medical_field_id } })`, in table order. */
  function DiagnosesOf(list: seq<DiagnosisItem>, medicalFieldId: string): (r: seq<DiagnosisItem>)
    ensures |r| <= |list|
    ensures forall x :: x in r <==> x in list && x.medicalFieldId == medicalFieldId
  {
    Filter(list, (x: DiagnosisItem) => x.medicalFieldId == medicalFieldId)
  }

  /** Everything the read side consults besides the step and payload tables. */
  datatype Catalogues = Catalogues(examinations: Catalogue, treatments: Catalogue, diagnoses: seq<DiagnosisItem>)

  /** The `stepData` attached to a step. Examination and Treatment rows carry their
      expanded to-display object beside them, Diagnosis rows the diagnoses of the
      case's field. Introduction and Summary rows may be missing (`findOne` gives
      null and that null is attached). */
  datatype StepContent =
    | IntroductionContent(introduction: Option<IntroductionRow>)
    | ExaminationContent(examination: ExaminationRow, examinationDisplay: Display)
    | DiagnosisContent(diagnosis: DiagnosisRow, diagnosisList: seq<DiagnosisItem>)
    | TreatmentContent(treatment: TreatmentRow, treatmentDisplay: Display)
    | SummaryContent(summary: Option<SummaryRow>)

  /** A step row as the case reader returns it, with the `stepData` it was given. */
  datatype StepView = StepView(row: StepRow, stepData: Option<StepContent>)

  /** `c` is what the reader attaches for a step of kind `m` whose payload row is `pl`:
      that row itself (null for a missing Introduction or Summary row), beside it the
      to-display object expanded against the catalogue for an Examination or a
      Treatment, and the diagnoses of the field `medicalFieldId` for a Diagnosis. */
  predicate Describes(c: StepContent, m: ModuleType, pl: Option<Payload>, cats: Catalogues, medicalFieldId: string) {
    match c
    case IntroductionContent(row) =>
      m == Introduction && pl == (if row.Some? then Some(IntroductionPayload(row.value)) else None)
    case ExaminationContent(row, display) =>
      m == Examination && pl == Some(ExaminationPayload(row))
      && display == DisplayOf(cats.examinations, row.examinationToDisplay)
    case DiagnosisContent(row, list) =>
      m == Diagnosis && pl == Some(DiagnosisPayload(row)) && list == DiagnosesOf(cats.diagnoses, medicalFieldId)
    case TreatmentContent(row, display) =>
      m == Treatment && pl == Some(TreatmentPayload(row))
      && display == DisplayOf(cats.treatments, row.treatmentsToDisplay)
    case SummaryContent(row) =>
      m == Summary && pl == (if row.Some? then Some(SummaryPayload(row.value)) else None)
  }

  /** What `fetchExaminationStep` and `fetchTreatmentStep` return for payload id `p`:
      the row with its to-display object expanded, or None when the row is missing
      (the reader then dereferences null and throws). */
  function DisplayedContentOf(t: Tables, cats: Catalogues, m: ModuleType, p: Id): (r: Option<StepContent>)
    requires m == Examination || m == Treatment
    ensures r.None? <==> PayloadAt(t, m, p).None?
    ensures forall f :: r.Some? ==> Describes(r.value, m, PayloadAt(t, m, p), cats, f)
  {
    match PayloadAt(t, m, p)
    case Some(ExaminationPayload(row)) =>
      Some(ExaminationContent(row, DisplayOf(cats.examinations, row.examinationToDisplay)))
    case Some(TreatmentPayload(row)) =>
      Some(TreatmentContent(row, DisplayOf(cats.treatments, row.treatmentsToDisplay)))
    case _ => None
  }

  /** The `stepData` that `fetchStepData` attaches for a step of kind `m` whose payload
      id is `p`, or None when reading it throws: the Examination, Diagnosis and
      Treatment readers dereference a row that is not there. */
  function ContentOf(t: Tables, cats: Catalogues, medicalFieldId: string, m: ModuleType, p: Id): (r: Option<StepContent>)
    ensures r.None? <==> m in {Examination, Diagnosis, Treatment} && PayloadAt(t, m, p).None?
    ensures r.Some? ==> Describes(r.value, m, PayloadAt(t, m, p), cats, medicalFieldId)
    ensures m == Introduction && PayloadAt(t, m, p).None? ==> r == Some(IntroductionContent(None))
    ensures m == Summary && PayloadAt(t, m, p).None? ==> r == Some(SummaryContent(None))
  {
    match m
    case Introduction =>
      Some(IntroductionContent(match PayloadAt(t, m, p) case Some(IntroductionPayload(row)) => Some(row) case _ => None))
    case Examination => DisplayedContentOf(t, cats, m, p)
    case Diagnosis =>
      (match PayloadAt(t, m, p)
       case Some(DiagnosisPayload(row)) => Some(DiagnosisContent(row, DiagnosesOf(cats.diagnoses, medicalFieldId)))
       case _ => None)
    case Treatment => DisplayedContentOf(t, cats, m, p)
    case Summary =>
      Some(SummaryContent(match PayloadAt(t, m, p) case Some(SummaryPayload(row)) => Some(row) case _ => None))
  }

  /** One step after `fetchStepData` has visited it, or None when visiting it throws.
      A step whose identifier is outside 0..4 matches no branch and is left as is. */
  function Fetched(t: Tables, cats: Catalogues, medicalFieldId: string, v: StepView): (r: Option<StepView>)
    ensures r.Some? ==> r.value.row == v.row
    ensures ModuleTypeOf(v.row.moduleTypeIdentifier).None? ==> r == Some(v)
    ensures ModuleTypeOf(v.row.moduleTypeIdentifier).Some? && r.Some? ==>
      var m := ModuleTypeOf(v.row.moduleTypeIdentifier).value;
      r.value.stepData.Some? && Describes(r.value.stepData.value, m, PayloadAt(t, m, v.row.stepId), cats, medicalFieldId)
  {
    match ModuleTypeOf(v.row.moduleTypeIdentifier)
    case None => Some(v)
    case Some(m) =>
      match ContentOf(t, cats, medicalFieldId, m, v.row.stepId)
      case None => None
      case Some(c) => Some(v.(stepData := Some(c)))
  }

  /** `fetchExaminationStep` / `fetchTreatmentStep`: read the row, then replace its
      to-display object by the expanded one. */
  method FetchDisplayedStep(t: Tables, cats: Catalogues, m: ModuleType, p: Id) returns (r: Option<StepContent>)
    requires m == Examination || m == Treatment
    ensures r == DisplayedContentOf(t, cats, m, p)
  {
    var row := PayloadAt(t, m, p);
    match row {
      case Some(ExaminationPayload(e)) =>
        var display := ExpandToDisplay(cats.examinations, e.examinationToDisplay);
        r := Some(ExaminationContent(e, display));
      case Some(TreatmentPayload(e)) =>
        var display := ExpandToDisplay(cats.treatments, e.treatmentsToDisplay);
        r := Some(TreatmentContent(e, display));
      case _ =>
        r := None;
    }
  }

  /** `fetchStepData(steps, medicalFieldId)`: attach its data to each step in turn. A
      step whose read throws ends the call; the steps before it keep their data and
      the rest stay as they were. */
  method FetchStepData(steps: array<StepView>, t: Tables, cats: Catalogues, medicalFieldId: string)
    returns (ok: bool)
    modifies steps
    ensures ok <==> forall i :: 0 <= i < steps.Length ==> Fetched(t, cats, medicalFieldId, old(steps[i])).Some?
    ensures ok ==> forall i :: 0 <= i < steps.Length ==> steps[i] == Fetched(t, cats, medicalFieldId, old(steps[i])).value
    ensures !ok ==> exists k :: (0 <= k < steps.Length
      && Fetched(t, cats, medicalFieldId, old(steps[k])).None?
      && (forall i :: 0 <= i < k ==>
            Fetched(t, cats, medicalFieldId, old(steps[i])).Some?
            && steps[i] == Fetched(t, cats, medicalFieldId, old(steps[i])).value)
      && (forall i :: k <= i < steps.Length ==> steps[i] == old(steps[i])))
  {
    for i := 0 to steps.Length
      invariant forall j :: 0 <= j < i ==> Fetched(t, cats, medicalFieldId, old(steps[j])).Some?
      invariant forall j :: 0 <= j < i ==> steps[j] == Fetched(t, cats, medicalFieldId, old(steps[j])).value
      invariant forall j :: i <= j < steps.Length ==> steps[j] == old(steps[j])
    {
      var step := steps[i];
      var kind := ModuleTypeOf(step.row.moduleTypeIdentifier);
      if kind.Some? {
        var m := kind.value;
        var content: Option<StepContent>;
        if m == Examination || m == Treatment {
          content := FetchDisplayedStep(t, cats, m, step.row.stepId);
        } else {
          content := ContentOf(t, cats, medicalFieldId, m, step.row.stepId);
        }
        if content.None? {
          return false;
        }
        steps[i] := step.(stepData := content);
      }
    }
    return true;
  }

  /** A Diagnosis step is given exactly the diagnoses of the case's medical field. */
  lemma DiagnosisEnriched(t: Tables, cats: Catalogues, medicalFieldId: string, v: StepView)
    requires ModuleTypeOf(v.row.moduleTypeIdentifier) == Some(Diagnosis)
    requires Fetched(t, cats, medicalFieldId, v).Some?
    ensures var w := Fetched(t, cats, medicalFieldId, v).value;
      && w.stepData.Some? && w.stepData.value.DiagnosisContent?
      && forall x :: x in w.stepData.value.diagnosisList <==> x in cats.diagnoses && x.medicalFieldId == medicalFieldId
  {
  }

  /** Reading back the steps of consistent tables never throws: every step row of a
      known kind points at a payload row of its kind. */
  lemma ConsistentStepsFetch(t: Tables, cats: Catalogues, medicalFieldId: string, v: StepView)
    requires Consistent(t) && v.row in t.steps.Values
    ensures Fetched(t, cats, medicalFieldId, v).Some?
  {
    var s :| s in t.steps && t.steps[s] == v.row;
    assert StepPointsAtPayload(t, t.steps[s]);
  }

  /** Creating a case's steps and reading them back: every step row `insertSteps`
      creates reads back without a throw, with the data of the descriptor it was made
      for, expanded as the reader expands it. */
  lemma InsertThenFetch(t: Tables, ds: seq<StepDescriptor>, caseId: Id, cats: Catalogues, medicalFieldId: string, s: Id)
    requires Fresh(t)
    requires var u := InsertStepsFrom(t, ds, 0, caseId); s in u.steps && s !in t.steps
    ensures var u := InsertStepsFrom(t, ds, 0, caseId); var row := u.steps[s];
      var w := Fetched(u, cats, medicalFieldId, StepView(row, None));
      && row.caseId == caseId && row.index < |ds| && ModuleTypeOf(row.moduleTypeIdentifier).Some?
      && w.Some? && w.value.row == row && w.value.stepData.Some?
      && var m := ModuleTypeOf(row.moduleTypeIdentifier).value;
         Describes(w.value.stepData.value, m, Some(PayloadOf(m, ds[row.index].stepData)), cats, medicalFieldId)
  {
    var u := InsertStepsFrom(t, ds, 0, caseId);
    InsertStepsRows(t, ds, 0, caseId);
    assert InsertedFor(u, ds, caseId, u.steps[s]);
  }
}
