/** The storage layer as the request handlers drive it: one object holding every
    table, whose methods perform the writes of `insertSteps`, `updateSteps` and the
    ten `insert<Kind>Step` / `update<Kind>Step` helpers one row at a time. Each method
    is proved to leave the tables in the state the matching function of `StepTables`
    describes, so every lemma proved there holds of these methods. */
module DatabaseUtils {
  import opened Common
  import opened CaseTypes
  import opened AnswerTables
  import opened StepTables

  class Database {
    var cases: map<Id, MedicalCaseRow>
    var steps: map<Id, StepRow>
    var payloads: map<Id, Payload>
    var values: map<Id, ValueRow>
    var treatmentAnswers: map<Id, TreatmentAnswerRow>
    /** The id the storage layer hands to the next row it creates. */
    var nextId: Id

    /** The tables as one value. */
    function State(): Tables
      reads this
    {
      Tables(cases, steps, payloads, values, treatmentAnswers, nextId)
    }

    /** Every id in use is below `nextId`. */
    predicate Valid()
      reads this
    {
      Fresh(State())
    }

    /** An empty database. */
    constructor ()
      ensures State() == Tables(map[], map[], map[], map[], map[], 0)
      ensures Valid()
    {
      cases, steps, payloads, values, treatmentAnswers := map[], map[], map[], map[], map[];
      nextId := 0;
    }

    // -------------------------------------------------------------------------
    // Row creation
    // -------------------------------------------------------------------------

    /** `<kind>.create(...)`: a payload row under a new id. */
    method CreatePayload(row: Payload) returns (p: Id)
      modifies this
      ensures p == old(nextId)
      ensures State() == old(State()).(payloads := old(payloads)[p := row], nextId := p + 1)
    {
      p := nextId;
      payloads := payloads[p := row];
      nextId := nextId + 1;
    }

    /** `step.create(...)`: a step row under a new id. */
    method CreateStep(row: StepRow)
      modifies this
      ensures State() == old(State()).(steps := old(steps)[old(nextId) := row], nextId := old(nextId) + 1)
    {
      steps := steps[nextId := row];
      nextId := nextId + 1;
    }

    /** The loop of `insertExaminationStep`: one value row per answer, in order. */
    method CreateValues(examinationStepId: Id, vs: seq<ValueInput>)
      modifies this
      ensures State() == WithValues(old(State()), InsertValues(ValuesOf(old(State())), examinationStepId, vs))
    {
      var i := 0;
      while i < |vs|
        invariant 0 <= i <= |vs|
        invariant State() == WithValues(old(State()), Table(values, nextId))
        invariant InsertValues(Table(values, nextId), examinationStepId, vs[i..])
          == InsertValues(ValuesOf(old(State())), examinationStepId, vs)
      {
        assert vs[i..][1..] == vs[i + 1..];
        values := values[nextId := ValueOf(examinationStepId, vs[i])];
        nextId := nextId + 1;
        i := i + 1;
      }
      assert vs[i..] == [];
    }

    /** The loop of `insertTreatmentStep`: one treatment answer row per answer, in order. */
    method CreateTreatmentAnswers(treatmentStepId: Id, ts: seq<TreatmentInput>)
      modifies this
      ensures State() == WithAnswers(old(State()), InsertTreatmentAnswers(AnswersOf(old(State())), treatmentStepId, ts))
    {
      var i := 0;
      while i < |ts|
        invariant 0 <= i <= |ts|
        invariant State() == WithAnswers(old(State()), Table(treatmentAnswers, nextId))
        invariant InsertTreatmentAnswers(Table(treatmentAnswers, nextId), treatmentStepId, ts[i..])
          == InsertTreatmentAnswers(AnswersOf(old(State())), treatmentStepId, ts)
      {
        assert ts[i..][1..] == ts[i + 1..];
        treatmentAnswers := treatmentAnswers[nextId := TreatmentAnswerOf(treatmentStepId, ts[i])];
        nextId := nextId + 1;
        i := i + 1;
      }
      assert ts[i..] == [];
    }

    // -------------------------------------------------------------------------
    // insertSteps and the five insert<Kind>Step
    // -------------------------------------------------------------------------

    method InsertIntroductionStep(d: StepData, index: nat, caseId: Id)
      modifies this
      ensures State() == InsertAs(old(State()), Introduction, d, index, caseId)
    {
      var p := CreatePayload(PayloadOf(Introduction, d));
      CreateStep(StepRow(caseId, index, d.moduleTypeIdentifier, p));
    }

    method InsertExaminationStep(d: StepData, index: nat, caseId: Id)
      modifies this
      ensures State() == InsertAs(old(State()), Examination, d, index, caseId)
    {
      var p := CreatePayload(PayloadOf(Examination, d));
      CreateValues(p, d.stepSpecificValues);
      CreateStep(StepRow(caseId, index, d.moduleTypeIdentifier, p));
    }

    method InsertDiagnosisStep(d: StepData, index: nat, caseId: Id)
      modifies this
      ensures State() == InsertAs(old(State()), Diagnosis, d, index, caseId)
    {
      var p := CreatePayload(PayloadOf(Diagnosis, d));
      CreateStep(StepRow(caseId, index, d.moduleTypeIdentifier, p));
    }

    method InsertTreatmentStep(d: StepData, index: nat, caseId: Id)
      modifies this
      ensures State() == InsertAs(old(State()), Treatment, d, index, caseId)
    {
      var p := CreatePayload(PayloadOf(Treatment, d));
      CreateTreatmentAnswers(p, d.stepSpecificTreatments);
      CreateStep(StepRow(caseId, index, d.moduleTypeIdentifier, p));
    }

    method InsertSummaryStep(d: StepData, index: nat, caseId: Id)
      modifies this
      ensures State() == InsertAs(old(State()), Summary, d, index, caseId)
    {
      var p := CreatePayload(PayloadOf(Summary, d));
      CreateStep(StepRow(caseId, index, d.moduleTypeIdentifier, p));
    }

    /** `insertSteps(steps, caseId)`: each descriptor is stored at its position, by the
        helper its `stepData.module_type_identifier` selects; other identifiers are
        skipped. The ids stay fresh. */
    method InsertSteps(ds: seq<StepDescriptor>, caseId: Id)
      requires Valid()
      modifies this
      ensures State() == InsertStepsFrom(old(State()), ds, 0, caseId)
      ensures Valid()
    {
      InsertStepsGrows(State(), ds, 0, caseId);
      for i := 0 to |ds|
        invariant InsertStepsFrom(State(), ds, i, caseId) == InsertStepsFrom(old(State()), ds, 0, caseId)
      {
        var d := ds[i].stepData;
        if d.moduleTypeIdentifier == 0 {
          InsertIntroductionStep(d, i, caseId);
        } else if d.moduleTypeIdentifier == 1 {
          InsertExaminationStep(d, i, caseId);
        } else if d.moduleTypeIdentifier == 2 {
          InsertDiagnosisStep(d, i, caseId);
        } else if d.moduleTypeIdentifier == 3 {
          InsertTreatmentStep(d, i, caseId);
        } else if d.moduleTypeIdentifier == 4 {
          InsertSummaryStep(d, i, caseId);
        }
      }
    }

    // -------------------------------------------------------------------------
    // updateSteps and the five update<Kind>Step
    // -------------------------------------------------------------------------

    /** The `findOne` lookups of `update<Kind>Step`: the payload row `p` in the table of
        kind `m`, and the step row named by the descriptor. */
    predicate RowsExist(m: ModuleType, d: StepDescriptor)
      reads this
    {
      RowsFound(State(), m, d)
    }

    /** The loop of `updateExaminationStep` over the answers: an answer with an id
        overwrites that value row (a missing row ends it with `ok == false`), one
        without creates a row owned by `examinationStepId`. */
    method UpdateValueRows(examinationStepId: Id, vs: seq<ValueInput>) returns (ok: bool)
      modifies this
      ensures State() == WithValues(old(State()), UpdateValues(ValuesOf(old(State())), examinationStepId, vs).table)
      ensures ok == UpdateValues(ValuesOf(old(State())), examinationStepId, vs).ok
    {
      var i := 0;
      while i < |vs|
        invariant 0 <= i <= |vs|
        invariant State() == WithValues(old(State()), Table(values, nextId))
        invariant UpdateValues(Table(values, nextId), examinationStepId, vs[i..])
          == UpdateValues(ValuesOf(old(State())), examinationStepId, vs)
      {
        assert vs[i..][1..] == vs[i + 1..];
        ghost var o := UpdateValue(Table(values, nextId), examinationStepId, vs[i]);
        match vs[i].id {
          case None =>
            values := values[nextId := ValueOf(examinationStepId, vs[i])];
            nextId := nextId + 1;
          case Some(k) =>
            if k !in values {
              return false;
            }
            values := values[k := values[k].(value := vs[i].value, isNormal := vs[i].isNormal)];
        }
        assert o.ok && Table(values, nextId) == o.table;
        i := i + 1;
      }
      assert vs[i..] == [];
      return true;
    }

    /** The loop of `updateTreatmentStep` over the answers: an answer with an id
        overwrites that answer row's value (a missing row ends it with `ok == false`),
        one without creates a row owned by `treatmentStepId`. */
    method UpdateTreatmentAnswerRows(treatmentStepId: Id, ts: seq<TreatmentInput>) returns (ok: bool)
      modifies this
      ensures State() == WithAnswers(old(State()), UpdateTreatmentAnswers(AnswersOf(old(State())), treatmentStepId, ts).table)
      ensures ok == UpdateTreatmentAnswers(AnswersOf(old(State())), treatmentStepId, ts).ok
    {
      var i := 0;
      while i < |ts|
        invariant 0 <= i <= |ts|
        invariant State() == WithAnswers(old(State()), Table(treatmentAnswers, nextId))
        invariant UpdateTreatmentAnswers(Table(treatmentAnswers, nextId), treatmentStepId, ts[i..])
          == UpdateTreatmentAnswers(AnswersOf(old(State())), treatmentStepId, ts)
      {
        assert ts[i..][1..] == ts[i + 1..];
        ghost var o := UpdateTreatmentAnswer(Table(treatmentAnswers, nextId), treatmentStepId, ts[i]);
        match ts[i].id {
          case None =>
            treatmentAnswers := treatmentAnswers[nextId := TreatmentAnswerOf(treatmentStepId, ts[i])];
            nextId := nextId + 1;
          case Some(k) =>
            if k !in treatmentAnswers {
              return false;
            }
            treatmentAnswers := treatmentAnswers[k := treatmentAnswers[k].(value := ts[i].value)];
        }
        assert o.ok && Table(treatmentAnswers, nextId) == o.table;
        i := i + 1;
      }
      assert ts[i..] == [];
      return true;
    }

    /** `step.update({ index })` on the step row the descriptor names. */
    method SetIndex(s: Id, index: nat)
      requires s in steps
      modifies this
      ensures State() == old(State()).(steps := old(steps)[s := old(steps)[s].(index := index)])
    {
      steps := steps[s := steps[s].(index := index)];
    }

    /** `<kind>Step.update(...)` on the payload row `p`. */
    method SetPayload(p: Id, row: Payload)
      modifies this
      ensures State() == old(State()).(payloads := old(payloads)[p := row])
    {
      payloads := payloads[p := row];
    }

    method UpdateIntroductionStep(d: StepDescriptor, index: nat, caseId: Id) returns (ok: bool)
      modifies this
      ensures Run(State(), ok) == UpdateAs(old(State()), Introduction, d, index, caseId)
    {
      if d.moduleTableId.None? {
        InsertIntroductionStep(d.stepData, index, caseId);
        return true;
      }
      if !RowsExist(Introduction, d) {
        return false;
      }
      SetPayload(d.moduleTableId.value, PayloadOf(Introduction, d.stepData));
      SetIndex(d.stepTableId.value, index);
      return true;
    }

    method UpdateExaminationStep(d: StepDescriptor, index: nat, caseId: Id) returns (ok: bool)
      modifies this
      ensures Run(State(), ok) == UpdateAs(old(State()), Examination, d, index, caseId)
    {
      if d.moduleTableId.None? {
        InsertExaminationStep(d.stepData, index, caseId);
        return true;
      }
      if !RowsExist(Examination, d) {
        return false;
      }
      var p := d.moduleTableId.value;
      SetPayload(p, PayloadOf(Examination, d.stepData));
      ok := UpdateValueRows(p, d.stepData.stepSpecificValues);
      if !ok {
        return;
      }
      SetIndex(d.stepTableId.value, index);
    }

    method UpdateDiagnosisStep(d: StepDescriptor, index: nat, caseId: Id) returns (ok: bool)
      modifies this
      ensures Run(State(), ok) == UpdateAs(old(State()), Diagnosis, d, index, caseId)
    {
      if d.moduleTableId.None? {
        InsertDiagnosisStep(d.stepData, index, caseId);
        return true;
      }
      if !RowsExist(Diagnosis, d) {
        return false;
      }
      SetPayload(d.moduleTableId.value, PayloadOf(Diagnosis, d.stepData));
      SetIndex(d.stepTableId.value, index);
      return true;
    }

    method UpdateTreatmentStep(d: StepDescriptor, index: nat, caseId: Id) returns (ok: bool)
      modifies this
      ensures Run(State(), ok) == UpdateAs(old(State()), Treatment, d, index, caseId)
    {
      if d.moduleTableId.None? {
        InsertTreatmentStep(d.stepData, index, caseId);
        return true;
      }
      if !RowsExist(Treatment, d) {
        return false;
      }
      var p := d.moduleTableId.value;
      SetPayload(p, PayloadOf(Treatment, d.stepData));
      ok := UpdateTreatmentAnswerRows(p, d.stepData.stepSpecificTreatments);
      if !ok {
        return;
      }
      SetIndex(d.stepTableId.value, index);
    }

    method UpdateSummaryStep(d: StepDescriptor, index: nat, caseId: Id) returns (ok: bool)
      modifies this
      ensures Run(State(), ok) == UpdateAs(old(State()), Summary, d, index, caseId)
    {
      if d.moduleTableId.None? {
        InsertSummaryStep(d.stepData, index, caseId);
        return true;
      }
      if !RowsExist(Summary, d) {
        return false;
      }
      SetPayload(d.moduleTableId.value, PayloadOf(Summary, d.stepData));
      SetIndex(d.stepTableId.value, index);
      return true;
    }

    /** `updateSteps(steps, caseId)`: each descriptor, at its position, by the helper
        its own `module_type_identifier` selects; other identifiers are skipped, and
        the first "Resource not found" ends it with `ok == false`, keeping the writes
        made so far. The ids stay fresh and existing rows change only as `Extends`
        allows. */
    method UpdateSteps(ds: seq<StepDescriptor>, caseId: Id) returns (ok: bool)
      requires Valid()
      modifies this
      ensures Run(State(), ok) == UpdateStepsFrom(old(State()), ds, 0, caseId)
      ensures Valid() && Extends(old(State()), State())
    {
      UpdateStepsExtends(State(), ds, 0, caseId);
      var i := 0;
      while i < |ds|
        invariant 0 <= i <= |ds|
        invariant UpdateStepsFrom(State(), ds, i, caseId) == UpdateStepsFrom(old(State()), ds, 0, caseId)
      {
        var d := ds[i];
        var stepOk := true;
        if d.moduleTypeIdentifier == 0 {
          stepOk := UpdateIntroductionStep(d, i, caseId);
        } else if d.moduleTypeIdentifier == 1 {
          stepOk := UpdateExaminationStep(d, i, caseId);
        } else if d.moduleTypeIdentifier == 2 {
          stepOk := UpdateDiagnosisStep(d, i, caseId);
        } else if d.moduleTypeIdentifier == 3 {
          stepOk := UpdateTreatmentStep(d, i, caseId);
        } else if d.moduleTypeIdentifier == 4 {
          stepOk := UpdateSummaryStep(d, i, caseId);
        }
        if !stepOk {
          return false;
        }
        i := i + 1;
      }
      return true;
    }
  }
}
