/** What `insertSteps` and `updateSteps` do to the storage tables, as functions from
    the tables before a call to the tables after it, and what they guarantee. The
    class `DatabaseUtils.Database` performs the same writes row by row and is proved
    to end in the state these functions describe. */
module StepTables {
  import opened Common
  import opened CaseTypes
  import opened AnswerTables

  // ---------------------------------------------------------------------------
  // Table invariants and relations between two states of the tables
  // ---------------------------------------------------------------------------

  /** Every id in use is below `nextId`, so the next id handed out is new. */
  predicate Fresh(t: Tables) {
    && Below(t.cases, t.nextId)
    && Below(t.steps, t.nextId)
    && Below(t.payloads, t.nextId)
    && Below(t.values, t.nextId)
    && Below(t.treatmentAnswers, t.nextId)
  }

  /** `u` keeps every row of `t` as it was: the tables only gained rows. */
  predicate Grows(t: Tables, u: Tables) {
    && u.cases == t.cases
    && t.nextId <= u.nextId
    && Submap(t.steps, u.steps)
    && Submap(t.payloads, u.payloads)
    && Submap(t.values, u.values)
    && Submap(t.treatmentAnswers, u.treatmentAnswers)
  }

  /** A payload row keeps its table: every row of `a` is in `b`, of the same kind. */
  predicate PayloadsKept(a: map<Id, Payload>, b: map<Id, Payload>) {
    forall p :: p in a ==> p in b && KindOf(b[p]) == KindOf(a[p])
  }

  /** A step row changes at most its `index`. */
  predicate StepsReindexed(a: map<Id, StepRow>, b: map<Id, StepRow>) {
    forall s :: s in a ==> s in b && b[s] == a[s].(index := b[s].index)
  }

  /** What saving a case may do to existing rows: no row disappears, a step row
      changes at most its `index`, a payload row keeps its table, a value row changes
      at most `value` and `is_normal`, a treatment answer at most `value`; cases are
      untouched. */
  predicate Extends(t: Tables, u: Tables) {
    && u.cases == t.cases
    && t.nextId <= u.nextId
    && StepsReindexed(t.steps, u.steps)
    && PayloadsKept(t.payloads, u.payloads)
    && ValuesExtend(t.values, u.values)
    && AnswersExtend(t.treatmentAnswers, u.treatmentAnswers)
  }

  lemma GrowsExtends(t: Tables, u: Tables)
    requires Grows(t, u)
    ensures Extends(t, u)
  {
  }

  lemma GrowsTransitive(t: Tables, u: Tables, v: Tables)
    requires Grows(t, u) && Grows(u, v)
    ensures Grows(t, v)
  {
  }

  lemma ExtendsTransitive(t: Tables, u: Tables, v: Tables)
    requires Extends(t, u) && Extends(u, v)
    ensures Extends(t, v)
  {
  }

  // ---------------------------------------------------------------------------
  // Payload rows
  // ---------------------------------------------------------------------------

  /** The fields a step kind copies out of `stepData` into its payload row, the same
      on create and on update. */
  function PayloadOf(m: ModuleType, d: StepData): (p: Payload)
    ensures KindOf(p) == m
  {
    match m
    case Introduction =>
      IntroductionPayload(IntroductionRow(d.description, d.prompt, d.feedbackCorrect, d.feedbackIncorrect))
    case Examination =>
      ExaminationPayload(ExaminationRow(d.prompt, d.examinationToDisplay, d.feedbackCorrect,
                                        d.feedbackIncorrect, d.maxNbrTests))
    case Diagnosis =>
      DiagnosisPayload(DiagnosisRow(d.prompt, d.diagnosisId, d.feedbackCorrect, d.feedbackIncorrect))
    case Treatment =>
      TreatmentPayload(TreatmentRow(d.prompt, d.treatmentsToDisplay, d.feedbackCorrect, d.feedbackIncorrect))
    case Summary =>
      SummaryPayload(SummaryRow(d.process, d.additionalInfo, d.additionalLinks))
  }

  /** `<kind>.findOne({ where: { id: p } })`: the row `p` of the table of kind `m`. */
  function PayloadAt(t: Tables, m: ModuleType, p: Id): Option<Payload> {
    if p in t.payloads && KindOf(t.payloads[p]) == m then Some(t.payloads[p]) else None
  }

  /** The invariant of the step indirection: a step row whose kind is one of the five
      points at an existing payload row of that kind. */
  predicate Consistent(t: Tables) {
    forall s :: s in t.steps ==> StepPointsAtPayload(t, t.steps[s])
  }

  predicate StepPointsAtPayload(t: Tables, row: StepRow) {
    match ModuleTypeOf(row.moduleTypeIdentifier)
    case None => true
    case Some(m) => PayloadAt(t, m, row.stepId).Some?
  }

  // ---------------------------------------------------------------------------
  // Insert path: insertSteps and the five insert*Step
  // ---------------------------------------------------------------------------

  /** The value rows and the id counter, as the loops over Examination answers see
      them, and the tables with those replaced. */
  function ValuesOf(t: Tables): Table<ValueRow> {
    Table(t.values, t.nextId)
  }

  function WithValues(t: Tables, tb: Table<ValueRow>): Tables {
    t.(values := tb.rows, nextId := tb.nextId)
  }

  /** The treatment answer rows and the id counter, and the tables with those replaced. */
  function AnswersOf(t: Tables): Table<TreatmentAnswerRow> {
    Table(t.treatmentAnswers, t.nextId)
  }

  function WithAnswers(t: Tables, tb: Table<TreatmentAnswerRow>): Tables {
    t.(treatmentAnswers := tb.rows, nextId := tb.nextId)
  }

  /** `insert<Kind>Step(stepData, index, caseId)`: a payload row of kind `m` under a new
      id, its nested answers for Examination and Treatment, then the step row
      pointing at the payload. The step row records `stepData`'s own identifier. */
  function InsertAs(t: Tables, m: ModuleType, d: StepData, index: nat, caseId: Id): (u: Tables)
    ensures u.cases == t.cases
    ensures u.payloads == t.payloads[t.nextId := PayloadOf(m, d)]
    ensures t.nextId + 2 <= u.nextId
  {
    var p := t.nextId;
    var t2 := InsertNested(t.(payloads := t.payloads[p := PayloadOf(m, d)], nextId := p + 1), m, p, d);
    t2.(steps := t2.steps[t2.nextId := StepRow(caseId, index, d.moduleTypeIdentifier, p)], nextId := t2.nextId + 1)
  }

  /** The nested answers an Examination or a Treatment creates under its payload row `p`. */
  function InsertNested(t: Tables, m: ModuleType, p: Id, d: StepData): (u: Tables)
    ensures u == t.(values := u.values, treatmentAnswers := u.treatmentAnswers, nextId := u.nextId)
    ensures m != Examination ==> u.values == t.values
    ensures m != Treatment ==> u.treatmentAnswers == t.treatmentAnswers
    ensures t.nextId <= u.nextId
  {
    if m == Examination then WithValues(t, InsertValues(ValuesOf(t), p, d.stepSpecificValues))
    else if m == Treatment then WithAnswers(t, InsertTreatmentAnswers(AnswersOf(t), p, d.stepSpecificTreatments))
    else t
  }

  /** The body of the `insertSteps` loop for one descriptor: dispatch on
      `stepData.module_type_identifier`; no branch for other identifiers. */
  function InsertStep(t: Tables, d: StepData, index: nat, caseId: Id): (u: Tables)
    ensures u.cases == t.cases
    ensures u == t <==> ModuleTypeOf(d.moduleTypeIdentifier).None?
  {
    match ModuleTypeOf(d.moduleTypeIdentifier)
    case None => t
    case Some(m) => InsertAs(t, m, d, index, caseId)
  }

  /** `insertSteps(steps, caseId)` from position `i` on; each descriptor's position is
      its index. */
  function InsertStepsFrom(t: Tables, ds: seq<StepDescriptor>, i: nat, caseId: Id): (u: Tables)
    requires i <= |ds|
    decreases |ds| - i
    ensures u.cases == t.cases
    ensures t.nextId + 2 * RecognisedFrom(ds, i) <= u.nextId
  {
    if i == |ds| then t
    else InsertStepsFrom(InsertStep(t, ds[i].stepData, i, caseId), ds, i + 1, caseId)
  }

  predicate Recognised(d: StepDescriptor) {
    ModuleTypeOf(d.stepData.moduleTypeIdentifier).Some?
  }

  /** The number of descriptors from position `i` on that `insertSteps` dispatches. */
  function RecognisedFrom(ds: seq<StepDescriptor>, i: nat): nat
    requires i <= |ds|
    decreases |ds| - i
  {
    if i == |ds| then 0 else (if Recognised(ds[i]) then 1 else 0) + RecognisedFrom(ds, i + 1)
  }

  // ---------------------------------------------------------------------------
  // Update path: updateSteps and the five update*Step
  // ---------------------------------------------------------------------------

  /** The tables after a call and whether it finished (false: it threw
      "Resource not found"; the writes made before the throw stay in `tables`). */
  datatype Run = Run(tables: Tables, ok: bool)

  /** `update<Kind>Step(stepData, index, ..., stepTableId, moduleTableId, caseId)`.
      Without `moduleTableId` it is `insert<Kind>Step`. With it, the payload row and
      the step row must both exist (else it throws before writing); the payload is
      overwritten, the nested answers are updated or created, and last the step row
      gets the new index. */
  function UpdateAs(t: Tables, m: ModuleType, d: StepDescriptor, index: nat, caseId: Id): (r: Run)
    ensures r.tables.cases == t.cases
    ensures d.moduleTableId.None? ==> r.ok
    ensures d.moduleTableId.Some? ==> r.tables.steps.Keys == t.steps.Keys && r.tables.payloads.Keys == t.payloads.Keys
  {
    match d.moduleTableId
    case None => Run(InsertAs(t, m, d.stepData, index, caseId), true)
    case Some(p) =>
      if PayloadAt(t, m, p).None? || d.stepTableId.None? || d.stepTableId.value !in t.steps then Run(t, false)
      else
        var s := d.stepTableId.value;
        var r := UpdateNested(t.(payloads := t.payloads[p := PayloadOf(m, d.stepData)]), m, p, d.stepData);
        if r.ok then Run(r.tables.(steps := r.tables.steps[s := r.tables.steps[s].(index := index)]), true)
        else r
  }

  /** The nested answers an Examination or a Treatment updates or creates under its
      payload row `p`. */
  function UpdateNested(t: Tables, m: ModuleType, p: Id, d: StepData): (r: Run)
    ensures r.tables == t.(values := r.tables.values, treatmentAnswers := r.tables.treatmentAnswers, nextId := r.tables.nextId)
    ensures m != Examination && m != Treatment ==> r == Run(t, true)
    ensures t.nextId <= r.tables.nextId
  {
    if m == Examination then
      var o := UpdateValues(ValuesOf(t), p, d.stepSpecificValues);
      Run(WithValues(t, o.table), o.ok)
    else if m == Treatment then
      var o := UpdateTreatmentAnswers(AnswersOf(t), p, d.stepSpecificTreatments);
      Run(WithAnswers(t, o.table), o.ok)
    else Run(t, true)
  }

  /** The body of the `updateSteps` loop: dispatch on the descriptor's own
      `module_type_identifier`; no branch for other identifiers. */
  function UpdateStep(t: Tables, d: StepDescriptor, index: nat, caseId: Id): (r: Run)
    ensures r.tables.cases == t.cases
    ensures ModuleTypeOf(d.moduleTypeIdentifier).None? ==> r == Run(t, true)
    ensures !r.ok ==> d.moduleTableId.Some?
  {
    match ModuleTypeOf(d.moduleTypeIdentifier)
    case None => Run(t, true)
    case Some(m) => UpdateAs(t, m, d, index, caseId)
  }

  /** `updateSteps(steps, caseId)` from position `i` on; the first throw ends it. */
  function UpdateStepsFrom(t: Tables, ds: seq<StepDescriptor>, i: nat, caseId: Id): (r: Run)
    requires i <= |ds|
    decreases |ds| - i
    ensures r.tables.cases == t.cases
    ensures !r.ok ==> exists j :: i <= j < |ds| && ds[j].moduleTableId.Some?
  {
    if i == |ds| then Run(t, true)
    else
      var r := UpdateStep(t, ds[i], i, caseId);
      if r.ok then UpdateStepsFrom(r.tables, ds, i + 1, caseId) else r
  }

  // ---------------------------------------------------------------------------
  // What the insert path guarantees
  // ---------------------------------------------------------------------------

  /** The nested answers touch only their own table and the id counter, keep the ids
      fresh and only add rows. */
  lemma InsertNestedAdds(t: Tables, m: ModuleType, p: Id, d: StepData)
    requires Fresh(t)
    ensures var u := InsertNested(t, m, p, d);
      && Fresh(u) && Grows(t, u)
      && u == t.(values := u.values, treatmentAnswers := u.treatmentAnswers, nextId := u.nextId)
      && (m != Examination ==> u.values == t.values)
      && (m != Treatment ==> u.treatmentAnswers == t.treatmentAnswers)
  {
    if m == Examination {
      InsertValuesAdds(ValuesOf(t), p, d.stepSpecificValues);
    } else if m == Treatment {
      InsertTreatmentAnswersAdds(AnswersOf(t), p, d.stepSpecificTreatments);
    }
  }

  /** One `insert<Kind>Step`: the payload table of kind `m` gains exactly the row
      `PayloadOf(m, d)` under a new id `p`; the step table gains exactly one row, under
      a new id, which records the case, the index, `stepData`'s identifier and `p`;
      no existing row changes. */
  lemma InsertAsAdds(t: Tables, m: ModuleType, d: StepData, index: nat, caseId: Id)
    requires Fresh(t)
    ensures var u := InsertAs(t, m, d, index, caseId); var p := t.nextId;
      && Fresh(u) && Grows(t, u)
      && p !in t.payloads && u.payloads == t.payloads[p := PayloadOf(m, d)]
      && (exists s: Id :: s !in t.steps && u.steps == t.steps[s := StepRow(caseId, index, d.moduleTypeIdentifier, p)])
  {
    var p := t.nextId;
    var t1 := t.(payloads := t.payloads[p := PayloadOf(m, d)], nextId := p + 1);
    var t2 := InsertNested(t1, m, p, d);
    assert p !in t.payloads;
    InsertNestedAdds(t1, m, p, d);
    var s: Id := t2.nextId;
    assert s !in t.steps;
  }

  /** The value rows after `insertExaminationStep` are what its loop makes of the
      value rows before it, drawing ids after the payload row's. */
  lemma InsertExaminationTable(t: Tables, d: StepData, index: nat, caseId: Id)
    requires Fresh(t)
    ensures var u := InsertAs(t, Examination, d, index, caseId);
      && TableFresh(Table(t.values, t.nextId + 1))
      && u.values == InsertValues(Table(t.values, t.nextId + 1), t.nextId, d.stepSpecificValues).rows
      && u.treatmentAnswers == t.treatmentAnswers
  {
  }

  /** `insertExaminationStep` creates exactly one value row per element of
      `step_specific_values`. */
  lemma InsertExaminationCount(t: Tables, d: StepData, index: nat, caseId: Id)
    requires Fresh(t)
    ensures |InsertAs(t, Examination, d, index, caseId).values| == |t.values| + |d.stepSpecificValues|
  {
    InsertExaminationTable(t, d, index, caseId);
    InsertValuesAdds(Table(t.values, t.nextId + 1), t.nextId, d.stepSpecificValues);
  }

  /** The value rows `insertExaminationStep` creates are the elements of
      `step_specific_values`, in order under consecutive ids right after the payload
      row's. */
  lemma InsertExaminationValues(t: Tables, d: StepData, index: nat, caseId: Id)
    requires Fresh(t)
    ensures var u := InsertAs(t, Examination, d, index, caseId); var vs := d.stepSpecificValues;
      forall j :: 0 <= j < |vs| ==> MapsTo(u.values, t.nextId + 1 + j, ValueOf(t.nextId, vs[j]))
  {
    InsertExaminationTable(t, d, index, caseId);
    InsertValuesRows(Table(t.values, t.nextId + 1), t.nextId, d.stepSpecificValues);
  }

  /** Every value row `insertExaminationStep` creates is owned by its new payload row. */
  lemma InsertExaminationOwned(t: Tables, d: StepData, index: nat, caseId: Id)
    requires Fresh(t)
    ensures var u := InsertAs(t, Examination, d, index, caseId);
      forall k :: k in u.values && k !in t.values ==> u.values[k].examinationStepId == t.nextId
  {
    InsertExaminationTable(t, d, index, caseId);
    InsertValuesOwned(Table(t.values, t.nextId + 1), t.nextId, d.stepSpecificValues);
  }

  /** The answer rows after `insertTreatmentStep` are what its loop makes of the answer
      rows before it, drawing ids after the payload row's. */
  lemma InsertTreatmentTable(t: Tables, d: StepData, index: nat, caseId: Id)
    requires Fresh(t)
    ensures var u := InsertAs(t, Treatment, d, index, caseId);
      && TableFresh(Table(t.treatmentAnswers, t.nextId + 1))
      && u.treatmentAnswers
         == InsertTreatmentAnswers(Table(t.treatmentAnswers, t.nextId + 1), t.nextId, d.stepSpecificTreatments).rows
      && u.values == t.values
  {
  }

  /** `insertTreatmentStep` creates exactly one answer row per element of
      `step_specific_treatments`. */
  lemma InsertTreatmentCount(t: Tables, d: StepData, index: nat, caseId: Id)
    requires Fresh(t)
    ensures |InsertAs(t, Treatment, d, index, caseId).treatmentAnswers| == |t.treatmentAnswers| + |d.stepSpecificTreatments|
  {
    InsertTreatmentTable(t, d, index, caseId);
    InsertTreatmentAnswersAdds(Table(t.treatmentAnswers, t.nextId + 1), t.nextId, d.stepSpecificTreatments);
  }

  /** The answer rows `insertTreatmentStep` creates are the elements of
      `step_specific_treatments`, in order under consecutive ids right after the
      payload row's. */
  lemma InsertTreatmentAnswerRows(t: Tables, d: StepData, index: nat, caseId: Id)
    requires Fresh(t)
    ensures var u := InsertAs(t, Treatment, d, index, caseId); var ts := d.stepSpecificTreatments;
      forall j :: 0 <= j < |ts| ==> MapsTo(u.treatmentAnswers, t.nextId + 1 + j, TreatmentAnswerOf(t.nextId, ts[j]))
  {
    InsertTreatmentTable(t, d, index, caseId);
    InsertTreatmentAnswersRows(Table(t.treatmentAnswers, t.nextId + 1), t.nextId, d.stepSpecificTreatments);
  }

  /** Every answer row `insertTreatmentStep` creates is owned by its new payload row. */
  lemma InsertTreatmentOwned(t: Tables, d: StepData, index: nat, caseId: Id)
    requires Fresh(t)
    ensures var u := InsertAs(t, Treatment, d, index, caseId);
      forall k :: k in u.treatmentAnswers && k !in t.treatmentAnswers ==> u.treatmentAnswers[k].treatmentStepId == t.nextId
  {
    InsertTreatmentTable(t, d, index, caseId);
    InsertTreatmentAnswersOwned(Table(t.treatmentAnswers, t.nextId + 1), t.nextId, d.stepSpecificTreatments);
  }

  /** The other three kinds create no answer rows. */
  lemma InsertOtherNoAnswers(t: Tables, m: ModuleType, d: StepData, index: nat, caseId: Id)
    requires m != Examination && m != Treatment
    ensures var u := InsertAs(t, m, d, index, caseId);
      u.values == t.values && u.treatmentAnswers == t.treatmentAnswers
  {
  }

  /** One pass of the `insertSteps` loop keeps the ids fresh and only adds rows. */
  lemma InsertStepGrows(t: Tables, d: StepData, index: nat, caseId: Id)
    requires Fresh(t)
    ensures Fresh(InsertStep(t, d, index, caseId)) && Grows(t, InsertStep(t, d, index, caseId))
  {
    if ModuleTypeOf(d.moduleTypeIdentifier).Some? {
      InsertAsAdds(t, ModuleTypeOf(d.moduleTypeIdentifier).value, d, index, caseId);
    }
  }

  /** `insert<Kind>Step` for the kind its identifier names keeps every step row
      pointing at a payload row of its kind. */
  lemma InsertAsConsistent(t: Tables, m: ModuleType, d: StepData, index: nat, caseId: Id)
    requires Fresh(t) && Consistent(t) && ModuleTypeOf(d.moduleTypeIdentifier) == Some(m)
    ensures Consistent(InsertAs(t, m, d, index, caseId))
  {
    var u := InsertAs(t, m, d, index, caseId);
    InsertAsAdds(t, m, d, index, caseId);
    forall s | s in u.steps
      ensures StepPointsAtPayload(u, u.steps[s])
    {
      if s in t.steps {
        assert StepPointsAtPayload(t, t.steps[s]);
      }
    }
  }

  /** The step row `row` of `u` is one `insertSteps` created for the descriptor at its
      index: it belongs to the case, records the descriptor's identifier, and points
      at a payload row holding that descriptor's data. */
  predicate InsertedFor(u: Tables, ds: seq<StepDescriptor>, caseId: Id, row: StepRow) {
    && row.caseId == caseId
    && row.index < |ds|
    && row.moduleTypeIdentifier == ds[row.index].stepData.moduleTypeIdentifier
    && match ModuleTypeOf(row.moduleTypeIdentifier)
       case None => false
       case Some(m) => PayloadAt(u, m, row.stepId) == Some(PayloadOf(m, ds[row.index].stepData))
  }

  /** `insertSteps` only adds rows, keeps the ids fresh, and adds exactly one step row
      per descriptor whose identifier is one of the five. */
  lemma {:induction false} InsertStepsGrows(t: Tables, ds: seq<StepDescriptor>, i: nat, caseId: Id)
    requires Fresh(t) && i <= |ds|
    decreases |ds| - i
    ensures var u := InsertStepsFrom(t, ds, i, caseId);
      Fresh(u) && Grows(t, u) && |u.steps| == |t.steps| + RecognisedFrom(ds, i)
  {
    if i < |ds| {
      var d := ds[i].stepData;
      var t1 := InsertStep(t, d, i, caseId);
      InsertStepGrows(t, d, i, caseId);
      match ModuleTypeOf(d.moduleTypeIdentifier) {
        case None =>
        case Some(m) =>
          InsertAsAdds(t, m, d, i, caseId);
          var s: Id :| s !in t.steps && t1.steps == t.steps[s := StepRow(caseId, i, d.moduleTypeIdentifier, t.nextId)];
      }
      InsertStepsGrows(t1, ds, i + 1, caseId);
      GrowsTransitive(t, t1, InsertStepsFrom(t1, ds, i + 1, caseId));
    }
  }

  /** Every step row `insertSteps` creates is one it made for a descriptor at or after
      position `i`, as `InsertedFor` describes. */
  lemma {:induction false} InsertStepsRows(t: Tables, ds: seq<StepDescriptor>, i: nat, caseId: Id)
    requires Fresh(t) && i <= |ds|
    decreases |ds| - i
    ensures var u := InsertStepsFrom(t, ds, i, caseId);
      forall s :: s in u.steps && s !in t.steps ==> i <= u.steps[s].index && InsertedFor(u, ds, caseId, u.steps[s])
  {
    if i < |ds| {
      var d := ds[i].stepData;
      var t1 := InsertStep(t, d, i, caseId);
      InsertStepGrows(t, d, i, caseId);
      var u := InsertStepsFrom(t1, ds, i + 1, caseId);
      InsertStepsRows(t1, ds, i + 1, caseId);
      match ModuleTypeOf(d.moduleTypeIdentifier) {
        case None =>
        case Some(m) =>
          InsertAsAdds(t, m, d, i, caseId);
          InsertStepsGrows(t1, ds, i + 1, caseId);
          var s: Id :| s !in t.steps && t1.steps == t.steps[s := StepRow(caseId, i, d.moduleTypeIdentifier, t.nextId)];
          assert u.steps[s] == t1.steps[s];
          assert u.payloads[t.nextId] == t1.payloads[t.nextId];
      }
    }
  }

  /** Conversely, every descriptor at or after position `i` whose identifier is one of
      the five gets a new step row carrying its position as index. */
  lemma {:induction false} InsertStepsCovers(t: Tables, ds: seq<StepDescriptor>, i: nat, caseId: Id, j: nat)
    requires Fresh(t) && i <= j < |ds| && Recognised(ds[j])
    decreases |ds| - i
    ensures var u := InsertStepsFrom(t, ds, i, caseId);
      exists s :: s in u.steps && s !in t.steps && u.steps[s].index == j
  {
    var d := ds[i].stepData;
    var t1 := InsertStep(t, d, i, caseId);
    InsertStepGrows(t, d, i, caseId);
    var u := InsertStepsFrom(t1, ds, i + 1, caseId);
    InsertStepsGrows(t1, ds, i + 1, caseId);
    if j == i {
      var m := ModuleTypeOf(d.moduleTypeIdentifier).value;
      InsertAsAdds(t, m, d, i, caseId);
      var s: Id :| s !in t.steps && t1.steps == t.steps[s := StepRow(caseId, i, d.moduleTypeIdentifier, t.nextId)];
      assert u.steps[s] == t1.steps[s];
    } else {
      InsertStepsCovers(t1, ds, i + 1, caseId, j);
      var s' :| s' in u.steps && s' !in t1.steps && u.steps[s'].index == j;
      assert s' !in t.steps;
    }
  }

  /** `insertSteps` keeps every step row pointing at a payload row of its kind. */
  lemma {:induction false} InsertStepsConsistent(t: Tables, ds: seq<StepDescriptor>, i: nat, caseId: Id)
    requires Fresh(t) && Consistent(t) && i <= |ds|
    decreases |ds| - i
    ensures Consistent(InsertStepsFrom(t, ds, i, caseId))
  {
    if i < |ds| {
      var d := ds[i].stepData;
      InsertStepGrows(t, d, i, caseId);
      if ModuleTypeOf(d.moduleTypeIdentifier).Some? {
        InsertAsConsistent(t, ModuleTypeOf(d.moduleTypeIdentifier).value, d, i, caseId);
      }
      InsertStepsConsistent(InsertStep(t, d, i, caseId), ds, i + 1, caseId);
    }
  }

  // ---------------------------------------------------------------------------
  // What the update path guarantees
  // ---------------------------------------------------------------------------

  /** The nested update loops touch only their answer table and the id counter, keep
      the ids fresh and change existing answers only as `Extends` allows; the other
      kinds have no nested loop and always finish. */
  lemma UpdateNestedExtends(t: Tables, m: ModuleType, p: Id, d: StepData)
    requires Fresh(t)
    ensures var r := UpdateNested(t, m, p, d);
      && Fresh(r.tables) && Extends(t, r.tables)
      && r.tables.steps == t.steps && r.tables.payloads == t.payloads
      && (m != Examination && m != Treatment ==> r == Run(t, true))
  {
    if m == Examination {
      UpdateValuesExtends(ValuesOf(t), p, d.stepSpecificValues);
    } else if m == Treatment {
      UpdateTreatmentAnswersExtends(AnswersOf(t), p, d.stepSpecificTreatments);
    }
  }

  /** The rows an `update<Kind>Step` with a `moduleTableId` needs: the payload row of
      its kind and the step row. */
  predicate RowsFound(t: Tables, m: ModuleType, d: StepDescriptor) {
    && d.moduleTableId.Some? && PayloadAt(t, m, d.moduleTableId.value).Some?
    && d.stepTableId.Some? && d.stepTableId.value in t.steps
  }

  /** With a `moduleTableId` whose payload row or step row is missing,
      `update<Kind>Step` throws "Resource not found" before writing anything. */
  lemma UpdateAsNotFound(t: Tables, m: ModuleType, d: StepDescriptor, index: nat, caseId: Id)
    requires d.moduleTableId.Some? && !RowsFound(t, m, d)
    ensures UpdateAs(t, m, d, index, caseId) == Run(t, false)
  {
  }

  /** `update<Kind>Step` keeps the ids fresh and changes existing rows only as
      `Extends` allows, whether it finishes or throws. */
  lemma UpdateAsExtends(t: Tables, m: ModuleType, d: StepDescriptor, index: nat, caseId: Id)
    requires Fresh(t)
    ensures Fresh(UpdateAs(t, m, d, index, caseId).tables) && Extends(t, UpdateAs(t, m, d, index, caseId).tables)
  {
    match d.moduleTableId {
      case None =>
        InsertAsAdds(t, m, d.stepData, index, caseId);
        GrowsExtends(t, InsertAs(t, m, d.stepData, index, caseId));
      case Some(p) =>
        if RowsFound(t, m, d) {
          UpdateFoundExtends(t, m, d, index, caseId);
        }
    }
  }

  /** The found case of `UpdateAsExtends`: the payload overwrite keeps the kind, and the
      nested loop and the index update only extend the tables. */
  lemma UpdateFoundExtends(t: Tables, m: ModuleType, d: StepDescriptor, index: nat, caseId: Id)
    requires Fresh(t) && RowsFound(t, m, d)
    ensures Fresh(UpdateAs(t, m, d, index, caseId).tables) && Extends(t, UpdateAs(t, m, d, index, caseId).tables)
  {
    var p := d.moduleTableId.value;
    var t1 := t.(payloads := t.payloads[p := PayloadOf(m, d.stepData)]);
    assert Fresh(t1) && Extends(t, t1);
    UpdateNestedExtends(t1, m, p, d.stepData);
    var t2 := UpdateNested(t1, m, p, d.stepData).tables;
    ExtendsTransitive(t, t1, t2);
    var s := d.stepTableId.value;
    var t3 := t2.(steps := t2.steps[s := t2.steps[s].(index := index)]);
    assert Extends(t2, t3);
    ExtendsTransitive(t, t2, t3);
  }

  /** With both rows found, the payload row is overwritten with the descriptor's data
      and no other payload row changes. */
  lemma UpdateAsPayload(t: Tables, m: ModuleType, d: StepDescriptor, index: nat, caseId: Id)
    requires Fresh(t) && RowsFound(t, m, d)
    ensures UpdateAs(t, m, d, index, caseId).tables.payloads
      == t.payloads[d.moduleTableId.value := PayloadOf(m, d.stepData)]
  {
    var p := d.moduleTableId.value;
    UpdateNestedExtends(t.(payloads := t.payloads[p := PayloadOf(m, d.stepData)]), m, p, d.stepData);
  }

  /** With both rows found, a finished update sets the step row's `index` and changes
      no other step row; a throw in the nested loop leaves the step rows as they were. */
  lemma UpdateAsIndex(t: Tables, m: ModuleType, d: StepDescriptor, index: nat, caseId: Id)
    requires Fresh(t) && RowsFound(t, m, d)
    ensures var r := UpdateAs(t, m, d, index, caseId); var s := d.stepTableId.value;
      && (r.ok ==> r.tables.steps == t.steps[s := t.steps[s].(index := index)])
      && (!r.ok ==> r.tables.steps == t.steps)
  {
    var p := d.moduleTableId.value;
    UpdateNestedExtends(t.(payloads := t.payloads[p := PayloadOf(m, d.stepData)]), m, p, d.stepData);
  }

  /** With both rows found, Introduction, Diagnosis and Summary always finish; an
      Examination (Treatment) finishes exactly when every answer id it carries names an
      existing value (answer) row. */
  lemma UpdateAsOk(t: Tables, m: ModuleType, d: StepDescriptor, index: nat, caseId: Id)
    requires Fresh(t) && RowsFound(t, m, d)
    requires ValueIdsBelow(ValuesOf(t), d.stepData.stepSpecificValues)
    requires AnswerIdsBelow(AnswersOf(t), d.stepData.stepSpecificTreatments)
    ensures var r := UpdateAs(t, m, d, index, caseId);
      && (m != Examination && m != Treatment ==> r.ok)
      && (m == Examination ==> (r.ok <==> KnownValueIds(ValuesOf(t), d.stepData.stepSpecificValues)))
      && (m == Treatment ==> (r.ok <==> KnownAnswerIds(AnswersOf(t), d.stepData.stepSpecificTreatments)))
  {
    var p := d.moduleTableId.value;
    var t1 := t.(payloads := t.payloads[p := PayloadOf(m, d.stepData)]);
    assert ValuesOf(t1) == ValuesOf(t) && AnswersOf(t1) == AnswersOf(t);
    if m == Examination {
      UpdateValuesOk(ValuesOf(t), p, d.stepData.stepSpecificValues);
    } else if m == Treatment {
      UpdateTreatmentAnswersOk(AnswersOf(t), p, d.stepData.stepSpecificTreatments);
    }
  }

  /** With both rows found, the value rows after `updateExaminationStep` are what its loop makes
      of the value rows before it, drawing ids from the same counter. */
  lemma UpdateExaminationTable(t: Tables, d: StepDescriptor, index: nat, caseId: Id)
    requires RowsFound(t, Examination, d)
    ensures var r := UpdateAs(t, Examination, d, index, caseId);
      var o := UpdateValues(ValuesOf(t), d.moduleTableId.value, d.stepData.stepSpecificValues);
      && r.ok == o.ok && r.tables.values == o.table.rows && r.tables.nextId == o.table.nextId
      && r.tables.treatmentAnswers == t.treatmentAnswers
  {
  }

  /** With both rows found, a finished `updateExaminationStep` creates one value row per
      answer without id and no other, owned by its payload row: the answer at position
      `j` without id is the row under the old counter plus the number of answers before
      it without id; the treatment answers are untouched (for answer ids below the
      counter). */
  lemma UpdateExaminationCreates(t: Tables, d: StepDescriptor, index: nat, caseId: Id)
    requires Fresh(t) && RowsFound(t, Examination, d)
    requires ValueIdsBelow(ValuesOf(t), d.stepData.stepSpecificValues)
    requires UpdateAs(t, Examination, d, index, caseId).ok
    ensures var u := UpdateAs(t, Examination, d, index, caseId).tables;
      var vs := d.stepData.stepSpecificValues; var p := d.moduleTableId.value;
      && u.nextId == t.nextId + NewCount(ValueIds(vs))
      && (forall k :: t.nextId <= k < u.nextId ==> k in u.values)
      && (forall k :: k in u.values && k !in t.values ==> t.nextId <= k)
      && (forall j :: 0 <= j < |vs| && vs[j].id.None? ==>
            MapsTo(u.values, t.nextId + NewCount(ValueIds(vs[..j])), ValueOf(p, vs[j])))
      && u.treatmentAnswers == t.treatmentAnswers
  {
    UpdateExaminationTable(t, d, index, caseId);
    UpdateValuesCreates(ValuesOf(t), d.moduleTableId.value, d.stepData.stepSpecificValues);
  }

  /** With both rows found, the treatment answer rows after `updateTreatmentStep` are what its loop makes
      of the treatment answer rows before it, drawing ids from the same counter. */
  lemma UpdateTreatmentTable(t: Tables, d: StepDescriptor, index: nat, caseId: Id)
    requires RowsFound(t, Treatment, d)
    ensures var r := UpdateAs(t, Treatment, d, index, caseId);
      var o := UpdateTreatmentAnswers(AnswersOf(t), d.moduleTableId.value, d.stepData.stepSpecificTreatments);
      && r.ok == o.ok && r.tables.treatmentAnswers == o.table.rows && r.tables.nextId == o.table.nextId
      && r.tables.values == t.values
  {
  }

  /** With both rows found, a finished `updateTreatmentStep` creates one answer row per
      answer without id and no other, owned by its payload row: the answer at position
      `j` without id is the row under the old counter plus the number of answers before
      it without id; the value rows are untouched (for answer ids below the counter). */
  lemma UpdateTreatmentCreates(t: Tables, d: StepDescriptor, index: nat, caseId: Id)
    requires Fresh(t) && RowsFound(t, Treatment, d)
    requires AnswerIdsBelow(AnswersOf(t), d.stepData.stepSpecificTreatments)
    requires UpdateAs(t, Treatment, d, index, caseId).ok
    ensures var u := UpdateAs(t, Treatment, d, index, caseId).tables;
      var ts := d.stepData.stepSpecificTreatments; var p := d.moduleTableId.value;
      && u.nextId == t.nextId + NewCount(AnswerIds(ts))
      && (forall k :: t.nextId <= k < u.nextId ==> k in u.treatmentAnswers)
      && (forall k :: k in u.treatmentAnswers && k !in t.treatmentAnswers ==> t.nextId <= k)
      && (forall j :: 0 <= j < |ts| && ts[j].id.None? ==>
            MapsTo(u.treatmentAnswers, t.nextId + NewCount(AnswerIds(ts[..j])), TreatmentAnswerOf(p, ts[j])))
      && u.values == t.values
  {
    UpdateTreatmentTable(t, d, index, caseId);
    UpdateTreatmentAnswersCreates(AnswersOf(t), d.moduleTableId.value, d.stepData.stepSpecificTreatments);
  }

  /** The descriptor's own identifier and its `stepData`'s agree, or the step already
      exists; then the insert fallback records the kind it dispatched on. */
  predicate Agrees(d: StepDescriptor) {
    d.moduleTableId.Some? || d.moduleTypeIdentifier == d.stepData.moduleTypeIdentifier
  }

  /** Without a `moduleTableId`, one pass of the `updateSteps` loop is one pass of the
      `insertSteps` loop, provided both identifiers agree. */
  lemma UpdateFallbackIsInsert(t: Tables, d: StepDescriptor, index: nat, caseId: Id)
    requires d.moduleTableId.None? && Agrees(d)
    ensures UpdateStep(t, d, index, caseId) == Run(InsertStep(t, d.stepData, index, caseId), true)
  {
  }

  /** When the identifiers disagree, the insert fallback leaves a step row whose kind
      names a table that does not hold its payload row. */
  lemma UpdateFallbackMismatch(t: Tables, d: StepDescriptor, index: nat, caseId: Id)
    requires Fresh(t) && d.moduleTableId.None?
    requires ModuleTypeOf(d.moduleTypeIdentifier).Some? && ModuleTypeOf(d.stepData.moduleTypeIdentifier).Some?
    requires ModuleTypeOf(d.moduleTypeIdentifier) != ModuleTypeOf(d.stepData.moduleTypeIdentifier)
    ensures !Consistent(UpdateStep(t, d, index, caseId).tables)
  {
    var m := ModuleTypeOf(d.moduleTypeIdentifier).value;
    var u := InsertAs(t, m, d.stepData, index, caseId);
    InsertAsAdds(t, m, d.stepData, index, caseId);
    var s: Id :| s !in t.steps && u.steps == t.steps[s := StepRow(caseId, index, d.stepData.moduleTypeIdentifier, t.nextId)];
    assert !StepPointsAtPayload(u, u.steps[s]);
  }

  /** A state change that only extends the tables and adds no step row keeps every
      step row pointing at a payload row of its kind. */
  lemma ExtendsConsistent(t: Tables, u: Tables)
    requires Consistent(t) && Extends(t, u) && u.steps.Keys == t.steps.Keys
    ensures Consistent(u)
  {
    forall s | s in u.steps
      ensures StepPointsAtPayload(u, u.steps[s])
    {
      assert StepPointsAtPayload(t, t.steps[s]);
    }
  }

  /** One pass of the `updateSteps` loop keeps every step row pointing at a payload row
      of its kind, whether it finishes or throws, when the identifiers agree. */
  lemma UpdateStepConsistent(t: Tables, d: StepDescriptor, index: nat, caseId: Id)
    requires Fresh(t) && Consistent(t) && Agrees(d)
    ensures Consistent(UpdateStep(t, d, index, caseId).tables)
  {
    match ModuleTypeOf(d.moduleTypeIdentifier) {
      case None =>
      case Some(m) =>
        if d.moduleTableId.None? {
          InsertAsConsistent(t, m, d.stepData, index, caseId);
        } else if RowsFound(t, m, d) {
          UpdateAsExtends(t, m, d, index, caseId);
          UpdateAsIndex(t, m, d, index, caseId);
          ExtendsConsistent(t, UpdateAs(t, m, d, index, caseId).tables);
        }
    }
  }

  /** One pass of the `updateSteps` loop keeps the ids fresh and only extends the
      tables. */
  lemma UpdateStepExtends(t: Tables, d: StepDescriptor, index: nat, caseId: Id)
    requires Fresh(t)
    ensures Fresh(UpdateStep(t, d, index, caseId).tables) && Extends(t, UpdateStep(t, d, index, caseId).tables)
  {
    match ModuleTypeOf(d.moduleTypeIdentifier) {
      case None =>
      case Some(m) => UpdateAsExtends(t, m, d, index, caseId);
    }
  }

  /** `updateSteps` keeps the ids fresh and only extends the tables: no row is
      deleted, cases are untouched, and existing rows change only where `Extends`
      allows, also when it throws part-way. */
  lemma {:induction false} UpdateStepsExtends(t: Tables, ds: seq<StepDescriptor>, i: nat, caseId: Id)
    requires Fresh(t) && i <= |ds|
    decreases |ds| - i
    ensures Fresh(UpdateStepsFrom(t, ds, i, caseId).tables) && Extends(t, UpdateStepsFrom(t, ds, i, caseId).tables)
  {
    if i < |ds| {
      var r := UpdateStep(t, ds[i], i, caseId);
      UpdateStepExtends(t, ds[i], i, caseId);
      if r.ok {
        UpdateStepsExtends(r.tables, ds, i + 1, caseId);
        ExtendsTransitive(t, r.tables, UpdateStepsFrom(r.tables, ds, i + 1, caseId).tables);
      }
    } else {
      assert Extends(t, t);
    }
  }

  /** `updateSteps` keeps every step row pointing at a payload row of its kind when
      each descriptor's identifiers agree. */
  lemma {:induction false} UpdateStepsConsistent(t: Tables, ds: seq<StepDescriptor>, i: nat, caseId: Id)
    requires Fresh(t) && Consistent(t) && i <= |ds|
    requires forall j :: i <= j < |ds| ==> Agrees(ds[j])
    decreases |ds| - i
    ensures Consistent(UpdateStepsFrom(t, ds, i, caseId).tables)
  {
    if i < |ds| {
      var r := UpdateStep(t, ds[i], i, caseId);
      UpdateStepExtends(t, ds[i], i, caseId);
      UpdateStepConsistent(t, ds[i], i, caseId);
      if r.ok {
        UpdateStepsConsistent(r.tables, ds, i + 1, caseId);
      }
    }
  }
}
