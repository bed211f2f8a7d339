/** The answer rows nested under an Examination step (`step_specific_values`) and a
    Treatment step (`step_specific_treatment`), and the loops of the insert and
    update paths that write them. Each loop touches one table and the id counter,
    so it is stated over that table alone; `StepTables` lifts it to all tables. */
module AnswerTables {
  import opened Common
  import opened CaseTypes

  /** One table of rows with the counter the storage layer draws new ids from. */
  datatype Table<R> = Table(rows: map<Id, R>, nextId: Id)

  /** A table after a loop over answers, and whether the loop finished (false: it
      threw "Resource not found"; the writes made before the throw stay). */
  datatype Outcome<R> = Outcome(table: Table<R>, ok: bool)

  /** Every row id in use is below the counter. */
  predicate TableFresh<R>(tb: Table<R>) {
    Below(tb.rows, tb.nextId)
  }

  /** `create`: one new row under the next id. */
  function Add<R>(tb: Table<R>, row: R): Table<R> {
    Table(tb.rows[tb.nextId := row], tb.nextId + 1)
  }

  lemma AddGrows<R>(tb: Table<R>, row: R)
    requires TableFresh(tb)
    ensures var u := Add(tb, row);
      && TableFresh(u) && Submap(tb.rows, u.rows) && |u.rows| == |tb.rows| + 1
      && MapsTo(u.rows, tb.nextId, row)
  {
    assert tb.nextId !in tb.rows;
  }

  function ValueOf(examinationStepId: Id, v: ValueInput): ValueRow {
    ValueRow(examinationStepId, v.examinationId, v.value, v.isNormal)
  }

  function TreatmentAnswerOf(treatmentStepId: Id, a: TreatmentInput): TreatmentAnswerRow {
    TreatmentAnswerRow(treatmentStepId, a.treatmentId, a.value)
  }

  // ---------------------------------------------------------------------------
  // Insert path
  // ---------------------------------------------------------------------------

  /** The loop of `insertExaminationStep`: creates the answers `vs`, in order, each
      under a new id and owned by the Examination row `examinationStepId`. */
  function InsertValues(tb: Table<ValueRow>, examinationStepId: Id, vs: seq<ValueInput>): (u: Table<ValueRow>)
    decreases |vs|
    ensures u.nextId == tb.nextId + |vs|
  {
    if vs == [] then tb
    else InsertValues(Add(tb, ValueOf(examinationStepId, vs[0])), examinationStepId, vs[1..])
  }

  /** The loop of `insertTreatmentStep`: creates the answers `ts`, in order, each
      under a new id and owned by the Treatment row `treatmentStepId`. */
  function InsertTreatmentAnswers(tb: Table<TreatmentAnswerRow>, treatmentStepId: Id, ts: seq<TreatmentInput>)
    : (u: Table<TreatmentAnswerRow>)
    decreases |ts|
    ensures u.nextId == tb.nextId + |ts|
  {
    if ts == [] then tb
    else InsertTreatmentAnswers(Add(tb, TreatmentAnswerOf(treatmentStepId, ts[0])), treatmentStepId, ts[1..])
  }

  /** Creating the answers of an Examination adds exactly one row per answer under new
      ids and keeps every existing row. */
  lemma {:induction false} InsertValuesAdds(tb: Table<ValueRow>, e: Id, vs: seq<ValueInput>)
    requires TableFresh(tb)
    decreases |vs|
    ensures var u := InsertValues(tb, e, vs);
      && TableFresh(u) && Submap(tb.rows, u.rows)
      && u.nextId == tb.nextId + |vs| && |u.rows| == |tb.rows| + |vs|
  {
    if vs != [] {
      AddGrows(tb, ValueOf(e, vs[0]));
      InsertValuesAdds(Add(tb, ValueOf(e, vs[0])), e, vs[1..]);
    }
  }

  /** `InsertValues` leaves every row below the counter as it was. */
  lemma {:induction false} InsertValuesKeeps(tb: Table<ValueRow>, e: Id, vs: seq<ValueInput>, k: Id)
    requires k in tb.rows && k < tb.nextId
    decreases |vs|
    ensures MapsTo(InsertValues(tb, e, vs).rows, k, tb.rows[k])
  {
    if vs != [] {
      InsertValuesKeeps(Add(tb, ValueOf(e, vs[0])), e, vs[1..], k);
    }
  }

  /** The rows `InsertValues` creates are the answers, in order, under consecutive
      ids from the counter. */
  lemma {:induction false} InsertValuesRows(tb: Table<ValueRow>, e: Id, vs: seq<ValueInput>)
    decreases |vs|
    ensures forall j :: 0 <= j < |vs| ==> MapsTo(InsertValues(tb, e, vs).rows, tb.nextId + j, ValueOf(e, vs[j]))
  {
    if vs != [] {
      var tb' := Add(tb, ValueOf(e, vs[0]));
      InsertValuesRows(tb', e, vs[1..]);
      InsertValuesKeeps(tb', e, vs[1..], tb.nextId);
      forall j | 0 < j < |vs|
        ensures MapsTo(InsertValues(tb', e, vs[1..]).rows, tb.nextId + j, ValueOf(e, vs[j]))
      {
        assert vs[1..][j - 1] == vs[j];
      }
    }
  }

  /** Every row `InsertValues` creates lies in the id range it consumed and is owned by
      the Examination row `e`. */
  lemma {:induction false} InsertValuesOwned(tb: Table<ValueRow>, e: Id, vs: seq<ValueInput>)
    decreases |vs|
    ensures var u := InsertValues(tb, e, vs);
      forall k :: k in u.rows && k !in tb.rows ==> tb.nextId <= k < tb.nextId + |vs| && u.rows[k].examinationStepId == e
  {
    if vs != [] {
      var tb' := Add(tb, ValueOf(e, vs[0]));
      InsertValuesOwned(tb', e, vs[1..]);
      InsertValuesKeeps(tb', e, vs[1..], tb.nextId);
    }
  }

  /** Creating the answers of a Treatment adds exactly one row per answer under new ids
      and keeps every existing row. */
  lemma {:induction false} InsertTreatmentAnswersAdds(tb: Table<TreatmentAnswerRow>, e: Id, ts: seq<TreatmentInput>)
    requires TableFresh(tb)
    decreases |ts|
    ensures var u := InsertTreatmentAnswers(tb, e, ts);
      && TableFresh(u) && Submap(tb.rows, u.rows)
      && u.nextId == tb.nextId + |ts| && |u.rows| == |tb.rows| + |ts|
  {
    if ts != [] {
      AddGrows(tb, TreatmentAnswerOf(e, ts[0]));
      InsertTreatmentAnswersAdds(Add(tb, TreatmentAnswerOf(e, ts[0])), e, ts[1..]);
    }
  }

  /** `InsertTreatmentAnswers` leaves every row below the counter as it was. */
  lemma {:induction false} InsertTreatmentAnswersKeeps(tb: Table<TreatmentAnswerRow>, e: Id, ts: seq<TreatmentInput>, k: Id)
    requires k in tb.rows && k < tb.nextId
    decreases |ts|
    ensures MapsTo(InsertTreatmentAnswers(tb, e, ts).rows, k, tb.rows[k])
  {
    if ts != [] {
      InsertTreatmentAnswersKeeps(Add(tb, TreatmentAnswerOf(e, ts[0])), e, ts[1..], k);
    }
  }

  /** The rows `InsertTreatmentAnswers` creates are the answers, in order, under
      consecutive ids from the counter. */
  lemma {:induction false} InsertTreatmentAnswersRows(tb: Table<TreatmentAnswerRow>, e: Id, ts: seq<TreatmentInput>)
    decreases |ts|
    ensures forall j :: 0 <= j < |ts| ==>
      MapsTo(InsertTreatmentAnswers(tb, e, ts).rows, tb.nextId + j, TreatmentAnswerOf(e, ts[j]))
  {
    if ts != [] {
      var tb' := Add(tb, TreatmentAnswerOf(e, ts[0]));
      InsertTreatmentAnswersRows(tb', e, ts[1..]);
      InsertTreatmentAnswersKeeps(tb', e, ts[1..], tb.nextId);
      forall j | 0 < j < |ts|
        ensures MapsTo(InsertTreatmentAnswers(tb', e, ts[1..]).rows, tb.nextId + j, TreatmentAnswerOf(e, ts[j]))
      {
        assert ts[1..][j - 1] == ts[j];
      }
    }
  }

  /** Every row `InsertTreatmentAnswers` creates lies in the id range it consumed and
      is owned by the Treatment row `e`. */
  lemma {:induction false} InsertTreatmentAnswersOwned(tb: Table<TreatmentAnswerRow>, e: Id, ts: seq<TreatmentInput>)
    decreases |ts|
    ensures var u := InsertTreatmentAnswers(tb, e, ts);
      forall k :: k in u.rows && k !in tb.rows ==> tb.nextId <= k < tb.nextId + |ts| && u.rows[k].treatmentStepId == e
  {
    if ts != [] {
      var tb' := Add(tb, TreatmentAnswerOf(e, ts[0]));
      InsertTreatmentAnswersOwned(tb', e, ts[1..]);
      InsertTreatmentAnswersKeeps(tb', e, ts[1..], tb.nextId);
    }
  }

  // ---------------------------------------------------------------------------
  // Update path
  // ---------------------------------------------------------------------------

  /** One Examination answer on update: an id names any existing value row, whose
      `value` and `is_normal` are overwritten (a missing row throws); no id creates a
      row owned by the Examination row. */
  function UpdateValue(tb: Table<ValueRow>, examinationStepId: Id, v: ValueInput): (o: Outcome<ValueRow>)
    ensures o.ok <==> v.id.None? || v.id.value in tb.rows
    ensures tb.rows.Keys <= o.table.rows.Keys
    ensures o.table.nextId == tb.nextId + (if v.id.None? && o.ok then 1 else 0)
    ensures v.id.None? ==> MapsTo(o.table.rows, tb.nextId, ValueOf(examinationStepId, v))
  {
    match v.id
    case None => Outcome(Add(tb, ValueOf(examinationStepId, v)), true)
    case Some(k) =>
      if k in tb.rows then Outcome(Table(tb.rows[k := tb.rows[k].(value := v.value, isNormal := v.isNormal)], tb.nextId), true)
      else Outcome(tb, false)
  }

  /** The loop of `updateExaminationStep` over the answers; the first throw ends it. */
  function UpdateValues(tb: Table<ValueRow>, examinationStepId: Id, vs: seq<ValueInput>): (o: Outcome<ValueRow>)
    decreases |vs|
    ensures tb.rows.Keys <= o.table.rows.Keys
    ensures tb.nextId <= o.table.nextId <= tb.nextId + |vs|
    ensures o.ok ==> forall j :: 0 <= j < |vs| && vs[j].id.Some? ==> vs[j].id.value in o.table.rows
  {
    if vs == [] then Outcome(tb, true)
    else
      var o := UpdateValue(tb, examinationStepId, vs[0]);
      if o.ok then UpdateValues(o.table, examinationStepId, vs[1..]) else o
  }

  /** One Treatment answer on update: an id names any existing answer row, whose
      `value` is overwritten (a missing row throws); no id creates a row owned by the
      Treatment row. */
  function UpdateTreatmentAnswer(tb: Table<TreatmentAnswerRow>, treatmentStepId: Id, a: TreatmentInput)
    : (o: Outcome<TreatmentAnswerRow>)
    ensures o.ok <==> a.id.None? || a.id.value in tb.rows
    ensures tb.rows.Keys <= o.table.rows.Keys
    ensures o.table.nextId == tb.nextId + (if a.id.None? && o.ok then 1 else 0)
    ensures a.id.None? ==> MapsTo(o.table.rows, tb.nextId, TreatmentAnswerOf(treatmentStepId, a))
  {
    match a.id
    case None => Outcome(Add(tb, TreatmentAnswerOf(treatmentStepId, a)), true)
    case Some(k) =>
      if k in tb.rows then Outcome(Table(tb.rows[k := tb.rows[k].(value := a.value)], tb.nextId), true)
      else Outcome(tb, false)
  }

  /** The loop of `updateTreatmentStep` over the answers; the first throw ends it. */
  function UpdateTreatmentAnswers(tb: Table<TreatmentAnswerRow>, treatmentStepId: Id, ts: seq<TreatmentInput>)
    : (o: Outcome<TreatmentAnswerRow>)
    decreases |ts|
    ensures tb.rows.Keys <= o.table.rows.Keys
    ensures tb.nextId <= o.table.nextId <= tb.nextId + |ts|
    ensures o.ok ==> forall j :: 0 <= j < |ts| && ts[j].id.Some? ==> ts[j].id.value in o.table.rows
  {
    if ts == [] then Outcome(tb, true)
    else
      var o := UpdateTreatmentAnswer(tb, treatmentStepId, ts[0]);
      if o.ok then UpdateTreatmentAnswers(o.table, treatmentStepId, ts[1..]) else o
  }

  /** What an update may do to existing value rows: none disappears, and each changes
      at most `value` and `is_normal`. */
  predicate ValuesExtend(a: map<Id, ValueRow>, b: map<Id, ValueRow>) {
    forall k :: k in a ==> k in b && b[k] == a[k].(value := b[k].value, isNormal := b[k].isNormal)
  }

  /** What an update may do to existing treatment answers: none disappears, and each
      changes at most `value`. */
  predicate AnswersExtend(a: map<Id, TreatmentAnswerRow>, b: map<Id, TreatmentAnswerRow>) {
    forall k :: k in a ==> k in b && b[k] == a[k].(value := b[k].value)
  }

  /** Every answer of `vs` that carries an id names an existing row. */
  predicate KnownValueIds(tb: Table<ValueRow>, vs: seq<ValueInput>) {
    forall j :: 0 <= j < |vs| && vs[j].id.Some? ==> vs[j].id.value in tb.rows
  }

  /** Every id carried by an answer lies below the counter: it can name only a row that
      existed before the loop, never one the loop creates. */
  predicate ValueIdsBelow(tb: Table<ValueRow>, vs: seq<ValueInput>) {
    forall j :: 0 <= j < |vs| && vs[j].id.Some? ==> vs[j].id.value < tb.nextId
  }

  /** Some answer after position `j` names the row `k` again. */
  predicate ValueNamedLater(vs: seq<ValueInput>, j: nat, k: Id) {
    exists j' :: j < j' < |vs| && vs[j'].id == Some(k)
  }

  predicate KnownAnswerIds(tb: Table<TreatmentAnswerRow>, ts: seq<TreatmentInput>) {
    forall j :: 0 <= j < |ts| && ts[j].id.Some? ==> ts[j].id.value in tb.rows
  }

  predicate AnswerIdsBelow(tb: Table<TreatmentAnswerRow>, ts: seq<TreatmentInput>) {
    forall j :: 0 <= j < |ts| && ts[j].id.Some? ==> ts[j].id.value < tb.nextId
  }

  predicate AnswerNamedLater(ts: seq<TreatmentInput>, j: nat, k: Id) {
    exists j' :: j < j' < |ts| && ts[j'].id == Some(k)
  }

  /** Updating the answers of an Examination keeps the ids fresh and changes existing
      rows only in `value` and `is_normal`. */
  lemma {:induction false} UpdateValuesExtends(tb: Table<ValueRow>, e: Id, vs: seq<ValueInput>)
    requires TableFresh(tb)
    decreases |vs|
    ensures var u := UpdateValues(tb, e, vs).table;
      TableFresh(u) && tb.nextId <= u.nextId && ValuesExtend(tb.rows, u.rows)
  {
    if vs != [] {
      var o := UpdateValue(tb, e, vs[0]);
      if vs[0].id.None? {
        AddGrows(tb, ValueOf(e, vs[0]));
      }
      if o.ok {
        UpdateValuesExtends(o.table, e, vs[1..]);
      }
    }
  }

  /** The loop over the answers of an Examination finishes exactly when every id it
      carries names an existing value row. */
  lemma {:induction false} UpdateValuesOk(tb: Table<ValueRow>, e: Id, vs: seq<ValueInput>)
    requires TableFresh(tb) && ValueIdsBelow(tb, vs)
    decreases |vs|
    ensures UpdateValues(tb, e, vs).ok <==> KnownValueIds(tb, vs)
  {
    if vs != [] {
      var o := UpdateValue(tb, e, vs[0]);
      if o.ok {
        if vs[0].id.None? {
          AddGrows(tb, ValueOf(e, vs[0]));
        }
        assert ValueIdsBelow(o.table, vs[1..]) by {
          forall j | 0 <= j < |vs[1..]| && vs[1..][j].id.Some?
            ensures vs[1..][j].id.value < o.table.nextId
          {
            assert vs[1..][j] == vs[j + 1];
          }
        }
        UpdateValuesOk(o.table, e, vs[1..]);
        if KnownValueIds(tb, vs) {
          forall j | 0 <= j < |vs[1..]| && vs[1..][j].id.Some?
            ensures vs[1..][j].id.value in o.table.rows
          {
            assert vs[1..][j] == vs[j + 1];
          }
        } else {
          var j :| 0 <= j < |vs| && vs[j].id.Some? && vs[j].id.value !in tb.rows;
          assert vs[1..][j - 1] == vs[j];
        }
      }
    }
  }

  /** A row that no answer names, below the counter, keeps its content. */
  lemma {:induction false} UpdateValuesKeeps(tb: Table<ValueRow>, e: Id, vs: seq<ValueInput>, k: Id)
    requires k in tb.rows && k < tb.nextId
    requires forall j :: 0 <= j < |vs| ==> vs[j].id != Some(k)
    decreases |vs|
    ensures MapsTo(UpdateValues(tb, e, vs).table.rows, k, tb.rows[k])
  {
    if vs != [] {
      var o := UpdateValue(tb, e, vs[0]);
      if o.ok {
        forall j | 0 <= j < |vs[1..]|
          ensures vs[1..][j].id != Some(k)
        {
          assert vs[1..][j] == vs[j + 1];
        }
        UpdateValuesKeeps(o.table, e, vs[1..], k);
      }
    }
  }

  /** When the loop finishes, a row named by an answer that no later answer names again
      holds that answer's `value` and `is_normal`, the rest of the row as it was (for
      an id below the counter, that is, a row that existed before the loop). */
  lemma {:induction false} UpdateValuesWrites(tb: Table<ValueRow>, e: Id, vs: seq<ValueInput>, j: nat)
    requires TableFresh(tb) && j < |vs| && vs[j].id.Some? && vs[j].id.value < tb.nextId
    requires !ValueNamedLater(vs, j, vs[j].id.value)
    requires UpdateValues(tb, e, vs).ok
    decreases |vs|
    ensures var k := vs[j].id.value;
      k in tb.rows && MapsTo(UpdateValues(tb, e, vs).table.rows, k, tb.rows[k].(value := vs[j].value, isNormal := vs[j].isNormal))
  {
    var k := vs[j].id.value;
    var o := UpdateValue(tb, e, vs[0]);
    if vs[0].id.None? {
      AddGrows(tb, ValueOf(e, vs[0]));
    }
    if j == 0 {
      forall j' | 0 <= j' < |vs[1..]|
        ensures vs[1..][j'].id != Some(k)
      {
        assert vs[1..][j'] == vs[j' + 1];
      }
      UpdateValuesKeeps(o.table, e, vs[1..], k);
    } else {
      assert vs[1..][j - 1] == vs[j];
      UpdateValuesWrites(o.table, e, vs[1..], j - 1);
    }
  }

  /** Every value row the loop creates is owned by the Examination row `e`. */
  lemma {:induction false} UpdateValuesOwned(tb: Table<ValueRow>, e: Id, vs: seq<ValueInput>)
    requires TableFresh(tb)
    decreases |vs|
    ensures var u := UpdateValues(tb, e, vs).table;
      forall k :: k in u.rows && k !in tb.rows ==> u.rows[k].examinationStepId == e
  {
    if vs != [] {
      var o := UpdateValue(tb, e, vs[0]);
      if o.ok {
        if vs[0].id.None? {
          AddGrows(tb, ValueOf(e, vs[0]));
        }
        UpdateValuesOwned(o.table, e, vs[1..]);
        UpdateValuesExtends(o.table, e, vs[1..]);
      }
    }
  }

  /** How many of `ids` are absent: the answers that carry no id, each of which the
      update loop creates. */
  function NewCount(ids: seq<Option<Id>>): nat {
    if ids == [] then 0 else (if ids[0].None? then 1 else 0) + NewCount(ids[1..])
  }

  function ValueIds(vs: seq<ValueInput>): seq<Option<Id>> {
    seq(|vs|, j requires 0 <= j < |vs| => vs[j].id)
  }

  function AnswerIds(ts: seq<TreatmentInput>): seq<Option<Id>> {
    seq(|ts|, j requires 0 <= j < |ts| => ts[j].id)
  }

  /** Counting the answers without id splits off the first one. */
  lemma ValueIdsCount(vs: seq<ValueInput>)
    requires vs != []
    ensures NewCount(ValueIds(vs)) == (if vs[0].id.None? then 1 else 0) + NewCount(ValueIds(vs[1..]))
  {
    assert ValueIds(vs)[1..] == ValueIds(vs[1..]);
  }

  /** The same split for the answers before position `j`. */
  lemma ValueIdsPrefix(vs: seq<ValueInput>, j: nat)
    requires 0 < j <= |vs|
    ensures NewCount(ValueIds(vs[..j])) == (if vs[0].id.None? then 1 else 0) + NewCount(ValueIds(vs[1..][..j - 1]))
  {
    var pre := vs[..j];
    assert pre[0] == vs[0] && pre[1..] == vs[1..][..j - 1];
    ValueIdsCount(pre);
  }

  lemma AnswerIdsCount(ts: seq<TreatmentInput>)
    requires ts != []
    ensures NewCount(AnswerIds(ts)) == (if ts[0].id.None? then 1 else 0) + NewCount(AnswerIds(ts[1..]))
  {
    assert AnswerIds(ts)[1..] == AnswerIds(ts[1..]);
  }

  /** The same split for the answers before position `j`. */
  lemma AnswerIdsPrefix(ts: seq<TreatmentInput>, j: nat)
    requires 0 < j <= |ts|
    ensures NewCount(AnswerIds(ts[..j])) == (if ts[0].id.None? then 1 else 0) + NewCount(AnswerIds(ts[1..][..j - 1]))
  {
    var pre := ts[..j];
    assert pre[0] == ts[0] && pre[1..] == ts[1..][..j - 1];
    AnswerIdsCount(pre);
  }

  /** One answer of the update loop keeps the ids fresh; the only row it can add is one
      for an answer without id, under the old counter. */
  lemma UpdateValueFresh(tb: Table<ValueRow>, e: Id, v: ValueInput)
    requires TableFresh(tb)
    ensures var o := UpdateValue(tb, e, v);
      && TableFresh(o.table)
      && (forall k :: k in o.table.rows && k !in tb.rows ==> v.id.None? && k == tb.nextId)
  {
    if v.id.None? {
      AddGrows(tb, ValueOf(e, v));
    }
  }

  /** When the loop over an Examination's answers finishes, it has drawn one id per
      answer without id, and the new ids are exactly those from the old counter up to
      the new one (for ids below the counter). */
  lemma {:induction false} UpdateValuesNewIds(tb: Table<ValueRow>, e: Id, vs: seq<ValueInput>)
    requires TableFresh(tb) && ValueIdsBelow(tb, vs) && UpdateValues(tb, e, vs).ok
    decreases |vs|
    ensures var u := UpdateValues(tb, e, vs).table;
      && u.nextId == tb.nextId + NewCount(ValueIds(vs))
      && (forall k :: tb.nextId <= k < u.nextId ==> k in u.rows)
      && (forall k :: k in u.rows && k !in tb.rows ==> tb.nextId <= k)
  {
    if vs != [] {
      var o := UpdateValue(tb, e, vs[0]);
      var tb1, rest := o.table, vs[1..];
      var u := UpdateValues(tb1, e, rest).table;
      assert o.ok && UpdateValues(tb, e, vs).table == u;
      UpdateValueFresh(tb, e, vs[0]);
      assert ValueIdsBelow(tb1, rest) by {
        forall j | 0 <= j < |rest| && rest[j].id.Some?
          ensures rest[j].id.value < tb1.nextId
        {
          assert rest[j] == vs[j + 1];
        }
      }
      UpdateValuesNewIds(tb1, e, rest);
      ValueIdsCount(vs);
      forall k | tb.nextId <= k < u.nextId
        ensures k in u.rows
      {
        if k < tb1.nextId {
          assert k == tb.nextId && k in tb1.rows;
        }
      }
    }
  }

  /** When the loop over an Examination's answers finishes, the answer at position `j` without id
      is the value row under the old counter plus the number of answers before it
      without id, owned by `e` (for ids below the counter). */
  lemma {:induction false} UpdateValuesNewRows(tb: Table<ValueRow>, e: Id, vs: seq<ValueInput>, j: nat)
    requires TableFresh(tb) && ValueIdsBelow(tb, vs) && UpdateValues(tb, e, vs).ok
    requires j < |vs| && vs[j].id.None?
    decreases |vs|
    ensures MapsTo(UpdateValues(tb, e, vs).table.rows, tb.nextId + NewCount(ValueIds(vs[..j])), ValueOf(e, vs[j]))
  {
    var o := UpdateValue(tb, e, vs[0]);
    var tb1, rest := o.table, vs[1..];
    assert o.ok && UpdateValues(tb, e, vs) == UpdateValues(tb1, e, rest);
    UpdateValueFresh(tb, e, vs[0]);
    if j == 0 {
      assert ValueIds(vs[..0]) == [];
      forall j' | 0 <= j' < |rest|
        ensures rest[j'].id != Some(tb.nextId)
      {
        assert rest[j'] == vs[j' + 1];
      }
      UpdateValuesKeeps(tb1, e, rest, tb.nextId);
    } else {
      assert ValueIdsBelow(tb1, rest) by {
        forall j' | 0 <= j' < |rest| && rest[j'].id.Some?
          ensures rest[j'].id.value < tb1.nextId
        {
          assert rest[j'] == vs[j' + 1];
        }
      }
      ValueIdsPrefix(vs, j);
      assert rest[j - 1] == vs[j];
      UpdateValuesNewRows(tb1, e, rest, j - 1);
    }
  }

  /** When the loop over an Examination's answers finishes, it has created one value row
      per answer without id and no other: the new ids are exactly those from the old
      counter up to the new one, and the answer at position `j` without id is the row
      under the old counter plus the number of answers before it without id, owned by
      `e` (for ids below the counter, that is, no answer names a row the loop creates). */
  lemma UpdateValuesCreates(tb: Table<ValueRow>, e: Id, vs: seq<ValueInput>)
    requires TableFresh(tb) && ValueIdsBelow(tb, vs) && UpdateValues(tb, e, vs).ok
    ensures var u := UpdateValues(tb, e, vs).table;
      && u.nextId == tb.nextId + NewCount(ValueIds(vs))
      && (forall k :: tb.nextId <= k < u.nextId ==> k in u.rows)
      && (forall k :: k in u.rows && k !in tb.rows ==> tb.nextId <= k)
      && (forall j :: 0 <= j < |vs| && vs[j].id.None? ==>
            MapsTo(u.rows, tb.nextId + NewCount(ValueIds(vs[..j])), ValueOf(e, vs[j])))
  {
    UpdateValuesNewIds(tb, e, vs);
    forall j | 0 <= j < |vs| && vs[j].id.None?
      ensures MapsTo(UpdateValues(tb, e, vs).table.rows, tb.nextId + NewCount(ValueIds(vs[..j])), ValueOf(e, vs[j]))
    {
      UpdateValuesNewRows(tb, e, vs, j);
    }
  }

  /** Updating the answers of a Treatment keeps the ids fresh and changes existing rows
      only in `value`. */
  lemma {:induction false} UpdateTreatmentAnswersExtends(tb: Table<TreatmentAnswerRow>, e: Id, ts: seq<TreatmentInput>)
    requires TableFresh(tb)
    decreases |ts|
    ensures var u := UpdateTreatmentAnswers(tb, e, ts).table;
      TableFresh(u) && tb.nextId <= u.nextId && AnswersExtend(tb.rows, u.rows)
  {
    if ts != [] {
      var o := UpdateTreatmentAnswer(tb, e, ts[0]);
      if ts[0].id.None? {
        AddGrows(tb, TreatmentAnswerOf(e, ts[0]));
      }
      if o.ok {
        UpdateTreatmentAnswersExtends(o.table, e, ts[1..]);
      }
    }
  }

  /** The loop over the answers of a Treatment finishes exactly when every id it
      carries names an existing answer row. */
  lemma {:induction false} UpdateTreatmentAnswersOk(tb: Table<TreatmentAnswerRow>, e: Id, ts: seq<TreatmentInput>)
    requires TableFresh(tb) && AnswerIdsBelow(tb, ts)
    decreases |ts|
    ensures UpdateTreatmentAnswers(tb, e, ts).ok <==> KnownAnswerIds(tb, ts)
  {
    if ts != [] {
      var o := UpdateTreatmentAnswer(tb, e, ts[0]);
      if o.ok {
        if ts[0].id.None? {
          AddGrows(tb, TreatmentAnswerOf(e, ts[0]));
        }
        assert AnswerIdsBelow(o.table, ts[1..]) by {
          forall j | 0 <= j < |ts[1..]| && ts[1..][j].id.Some?
            ensures ts[1..][j].id.value < o.table.nextId
          {
            assert ts[1..][j] == ts[j + 1];
          }
        }
        UpdateTreatmentAnswersOk(o.table, e, ts[1..]);
        if KnownAnswerIds(tb, ts) {
          forall j | 0 <= j < |ts[1..]| && ts[1..][j].id.Some?
            ensures ts[1..][j].id.value in o.table.rows
          {
            assert ts[1..][j] == ts[j + 1];
          }
        } else {
          var j :| 0 <= j < |ts| && ts[j].id.Some? && ts[j].id.value !in tb.rows;
          assert ts[1..][j - 1] == ts[j];
        }
      }
    }
  }

  /** A row that no answer names, below the counter, keeps its content. */
  lemma {:induction false} UpdateTreatmentAnswersKeeps(tb: Table<TreatmentAnswerRow>, e: Id, ts: seq<TreatmentInput>, k: Id)
    requires k in tb.rows && k < tb.nextId
    requires forall j :: 0 <= j < |ts| ==> ts[j].id != Some(k)
    decreases |ts|
    ensures MapsTo(UpdateTreatmentAnswers(tb, e, ts).table.rows, k, tb.rows[k])
  {
    if ts != [] {
      var o := UpdateTreatmentAnswer(tb, e, ts[0]);
      if o.ok {
        forall j | 0 <= j < |ts[1..]|
          ensures ts[1..][j].id != Some(k)
        {
          assert ts[1..][j] == ts[j + 1];
        }
        UpdateTreatmentAnswersKeeps(o.table, e, ts[1..], k);
      }
    }
  }

  /** When the loop finishes, a row named by an answer that no later answer names again
      holds that answer's `value`, the rest of the row as it was (for an id below the
      counter). */
  lemma {:induction false} UpdateTreatmentAnswersWrites(tb: Table<TreatmentAnswerRow>, e: Id, ts: seq<TreatmentInput>, j: nat)
    requires TableFresh(tb) && j < |ts| && ts[j].id.Some? && ts[j].id.value < tb.nextId
    requires !AnswerNamedLater(ts, j, ts[j].id.value)
    requires UpdateTreatmentAnswers(tb, e, ts).ok
    decreases |ts|
    ensures var k := ts[j].id.value;
      k in tb.rows && MapsTo(UpdateTreatmentAnswers(tb, e, ts).table.rows, k, tb.rows[k].(value := ts[j].value))
  {
    var k := ts[j].id.value;
    var o := UpdateTreatmentAnswer(tb, e, ts[0]);
    if ts[0].id.None? {
      AddGrows(tb, TreatmentAnswerOf(e, ts[0]));
    }
    if j == 0 {
      forall j' | 0 <= j' < |ts[1..]|
        ensures ts[1..][j'].id != Some(k)
      {
        assert ts[1..][j'] == ts[j' + 1];
      }
      UpdateTreatmentAnswersKeeps(o.table, e, ts[1..], k);
    } else {
      assert ts[1..][j - 1] == ts[j];
      UpdateTreatmentAnswersWrites(o.table, e, ts[1..], j - 1);
    }
  }

  /** Every answer row the loop creates is owned by the Treatment row `e`. */
  lemma {:induction false} UpdateTreatmentAnswersOwned(tb: Table<TreatmentAnswerRow>, e: Id, ts: seq<TreatmentInput>)
    requires TableFresh(tb)
    decreases |ts|
    ensures var u := UpdateTreatmentAnswers(tb, e, ts).table;
      forall k :: k in u.rows && k !in tb.rows ==> u.rows[k].treatmentStepId == e
  {
    if ts != [] {
      var o := UpdateTreatmentAnswer(tb, e, ts[0]);
      if o.ok {
        if ts[0].id.None? {
          AddGrows(tb, TreatmentAnswerOf(e, ts[0]));
        }
        UpdateTreatmentAnswersOwned(o.table, e, ts[1..]);
        UpdateTreatmentAnswersExtends(o.table, e, ts[1..]);
      }
    }
  }
  /** One answer of the update loop keeps the ids fresh; the only row it can add is one
      for an answer without id, under the old counter. */
  lemma UpdateTreatmentAnswerFresh(tb: Table<TreatmentAnswerRow>, e: Id, a: TreatmentInput)
    requires TableFresh(tb)
    ensures var o := UpdateTreatmentAnswer(tb, e, a);
      && TableFresh(o.table)
      && (forall k :: k in o.table.rows && k !in tb.rows ==> a.id.None? && k == tb.nextId)
  {
    if a.id.None? {
      AddGrows(tb, TreatmentAnswerOf(e, a));
    }
  }

  /** When the loop over a Treatment's answers finishes, it has drawn one id per
      answer without id, and the new ids are exactly those from the old counter up to
      the new one (for ids below the counter). */
  lemma {:induction false} UpdateTreatmentAnswersNewIds(tb: Table<TreatmentAnswerRow>, e: Id, ts: seq<TreatmentInput>)
    requires TableFresh(tb) && AnswerIdsBelow(tb, ts) && UpdateTreatmentAnswers(tb, e, ts).ok
    decreases |ts|
    ensures var u := UpdateTreatmentAnswers(tb, e, ts).table;
      && u.nextId == tb.nextId + NewCount(AnswerIds(ts))
      && (forall k :: tb.nextId <= k < u.nextId ==> k in u.rows)
      && (forall k :: k in u.rows && k !in tb.rows ==> tb.nextId <= k)
  {
    if ts != [] {
      var o := UpdateTreatmentAnswer(tb, e, ts[0]);
      var tb1, rest := o.table, ts[1..];
      var u := UpdateTreatmentAnswers(tb1, e, rest).table;
      assert o.ok && UpdateTreatmentAnswers(tb, e, ts).table == u;
      UpdateTreatmentAnswerFresh(tb, e, ts[0]);
      assert AnswerIdsBelow(tb1, rest) by {
        forall j | 0 <= j < |rest| && rest[j].id.Some?
          ensures rest[j].id.value < tb1.nextId
        {
          assert rest[j] == ts[j + 1];
        }
      }
      UpdateTreatmentAnswersNewIds(tb1, e, rest);
      AnswerIdsCount(ts);
      forall k | tb.nextId <= k < u.nextId
        ensures k in u.rows
      {
        if k < tb1.nextId {
          assert k == tb.nextId && k in tb1.rows;
        }
      }
    }
  }

  /** When the loop over a Treatment's answers finishes, the answer at position `j` without id
      is the answer row under the old counter plus the number of answers before it
      without id, owned by `e` (for ids below the counter). */
  lemma {:induction false} UpdateTreatmentAnswersNewRows(tb: Table<TreatmentAnswerRow>, e: Id, ts: seq<TreatmentInput>, j: nat)
    requires TableFresh(tb) && AnswerIdsBelow(tb, ts) && UpdateTreatmentAnswers(tb, e, ts).ok
    requires j < |ts| && ts[j].id.None?
    decreases |ts|
    ensures MapsTo(UpdateTreatmentAnswers(tb, e, ts).table.rows, tb.nextId + NewCount(AnswerIds(ts[..j])), TreatmentAnswerOf(e, ts[j]))
  {
    var o := UpdateTreatmentAnswer(tb, e, ts[0]);
    var tb1, rest := o.table, ts[1..];
    assert o.ok && UpdateTreatmentAnswers(tb, e, ts) == UpdateTreatmentAnswers(tb1, e, rest);
    UpdateTreatmentAnswerFresh(tb, e, ts[0]);
    if j == 0 {
      assert AnswerIds(ts[..0]) == [];
      forall j' | 0 <= j' < |rest|
        ensures rest[j'].id != Some(tb.nextId)
      {
        assert rest[j'] == ts[j' + 1];
      }
      UpdateTreatmentAnswersKeeps(tb1, e, rest, tb.nextId);
    } else {
      assert AnswerIdsBelow(tb1, rest) by {
        forall j' | 0 <= j' < |rest| && rest[j'].id.Some?
          ensures rest[j'].id.value < tb1.nextId
        {
          assert rest[j'] == ts[j' + 1];
        }
      }
      AnswerIdsPrefix(ts, j);
      assert rest[j - 1] == ts[j];
      UpdateTreatmentAnswersNewRows(tb1, e, rest, j - 1);
    }
  }

  /** When the loop over a Treatment's answers finishes, it has created one answer row
      per answer without id and no other: the new ids are exactly those from the old
      counter up to the new one, and the answer at position `j` without id is the row
      under the old counter plus the number of answers before it without id, owned by
      `e` (for ids below the counter, that is, no answer names a row the loop creates). */
  lemma UpdateTreatmentAnswersCreates(tb: Table<TreatmentAnswerRow>, e: Id, ts: seq<TreatmentInput>)
    requires TableFresh(tb) && AnswerIdsBelow(tb, ts) && UpdateTreatmentAnswers(tb, e, ts).ok
    ensures var u := UpdateTreatmentAnswers(tb, e, ts).table;
      && u.nextId == tb.nextId + NewCount(AnswerIds(ts))
      && (forall k :: tb.nextId <= k < u.nextId ==> k in u.rows)
      && (forall k :: k in u.rows && k !in tb.rows ==> tb.nextId <= k)
      && (forall j :: 0 <= j < |ts| && ts[j].id.None? ==>
            MapsTo(u.rows, tb.nextId + NewCount(AnswerIds(ts[..j])), TreatmentAnswerOf(e, ts[j])))
  {
    UpdateTreatmentAnswersNewIds(tb, e, ts);
    forall j | 0 <= j < |ts| && ts[j].id.None?
      ensures MapsTo(UpdateTreatmentAnswers(tb, e, ts).table.rows, tb.nextId + NewCount(AnswerIds(ts[..j])), TreatmentAnswerOf(e, ts[j]))
    {
      UpdateTreatmentAnswersNewRows(tb, e, ts, j);
    }
  }
}
