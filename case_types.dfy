/** The entities of the case-authoring engine: step descriptors sent by the editor,
    the rows of the storage tables, and the tables themselves as one value. */
module CaseTypes {
  import opened Common

  /** The five step kinds; `module_type_identifier` 0..4 in this order. */
  datatype ModuleType = Introduction | Examination | Diagnosis | Treatment | Summary

  /** The dispatch of `insertSteps`, `updateSteps` and `fetchStepData`: identifiers
      outside 0..4 match no branch. */
  function ModuleTypeOf(identifier: int): (m: Option<ModuleType>)
    ensures m.Some? <==> 0 <= identifier <= 4
  {
    if identifier == 0 then Some(Introduction)
    else if identifier == 1 then Some(Examination)
    else if identifier == 2 then Some(Diagnosis)
    else if identifier == 3 then Some(Treatment)
    else if identifier == 4 then Some(Summary)
    else None
  }

  function Identifier(m: ModuleType): (identifier: int)
    ensures 0 <= identifier <= 4
  {
    match m
    case Introduction => 0
    case Examination => 1
    case Diagnosis => 2
    case Treatment => 3
    case Summary => 4
  }

  /** The identifiers 0..4 and the five step kinds correspond one to one. */
  lemma IdentifierRoundTrip(m: ModuleType, identifier: int)
    ensures ModuleTypeOf(Identifier(m)) == Some(m)
    ensures ModuleTypeOf(identifier) == Some(m) ==> Identifier(m) == identifier
  {
  }

  /** A `*_to_display` JSON object `{type-id: [subtype-id, ...]}`, entries in key order. */
  type ToDisplay = seq<(string, seq<string>)>

  /** One "correct answer" of an Examination step as the editor sends it; `id` is
      present when the row already exists. */
  datatype ValueInput = ValueInput(id: Option<Id>, examinationId: string, value: string, isNormal: bool)

  /** One "correct answer" of a Treatment step as the editor sends it. */
  datatype TreatmentInput = TreatmentInput(id: Option<Id>, treatmentId: string, value: string)

  /** The `stepData` object of a step descriptor. It is one loose JSON object: each
      step kind reads only its own fields from it. */
  datatype StepData = StepData(
    moduleTypeIdentifier: int,
    description: string,
    prompt: string,
    feedbackCorrect: string,
    feedbackIncorrect: string,
    examinationToDisplay: ToDisplay,
    maxNbrTests: int,
    stepSpecificValues: seq<ValueInput>,
    diagnosisId: string,
    treatmentsToDisplay: ToDisplay,
    stepSpecificTreatments: seq<TreatmentInput>,
    process: string,
    additionalInfo: string,
    additionalLinks: string)

  /** One element of the `steps` list of a case payload. `insertSteps` reads only
      `stepData`; `updateSteps` dispatches on the outer `moduleTypeIdentifier` and
      uses the two row ids. */
  datatype StepDescriptor = StepDescriptor(
    moduleTypeIdentifier: int,
    stepTableId: Option<Id>,
    moduleTableId: Option<Id>,
    stepData: StepData)

  datatype IntroductionRow = IntroductionRow(
    description: string, prompt: string, feedbackCorrect: string, feedbackIncorrect: string)

  datatype ExaminationRow = ExaminationRow(
    prompt: string, examinationToDisplay: ToDisplay, feedbackCorrect: string,
    feedbackIncorrect: string, maxNbrTests: int)

  datatype DiagnosisRow = DiagnosisRow(
    prompt: string, diagnosisId: string, feedbackCorrect: string, feedbackIncorrect: string)

  datatype TreatmentRow = TreatmentRow(
    prompt: string, treatmentsToDisplay: ToDisplay, feedbackCorrect: string, feedbackIncorrect: string)

  datatype SummaryRow = SummaryRow(process: string, additionalInfo: string, additionalLinks: string)

  /** `step_specific_values`: owned by the Examination row `examinationStepId`. */
  datatype ValueRow = ValueRow(examinationStepId: Id, examinationId: string, value: string, isNormal: bool)

  /** `step_specific_treatment`: owned by the Treatment row `treatmentStepId`. */
  datatype TreatmentAnswerRow = TreatmentAnswerRow(treatmentStepId: Id, treatmentId: string, value: string)

  /** `step`: position of a step in its case and a pointer to its payload row. */
  datatype StepRow = StepRow(caseId: Id, index: nat, moduleTypeIdentifier: int, stepId: Id)

  /** `medical_case`; `active` is None while the column holds its default. */
  datatype MedicalCaseRow = MedicalCaseRow(
    name: string, medicalFieldId: string, creatorUserId: string, published: bool, active: Option<bool>)

  /** The content of one payload row, tagged with the table that holds it. */
  datatype Payload =
    | IntroductionPayload(introduction: IntroductionRow)
    | ExaminationPayload(examination: ExaminationRow)
    | DiagnosisPayload(diagnosis: DiagnosisRow)
    | TreatmentPayload(treatment: TreatmentRow)
    | SummaryPayload(summary: SummaryRow)

  /** The step kind whose table holds a payload row. */
  function KindOf(p: Payload): ModuleType {
    match p
    case IntroductionPayload(_) => Introduction
    case ExaminationPayload(_) => Examination
    case DiagnosisPayload(_) => Diagnosis
    case TreatmentPayload(_) => Treatment
    case SummaryPayload(_) => Summary
  }

  /** Every table the engine reads or writes, keyed by row id, plus the next id the
      storage layer hands out. Row ids are UUIDs, unique across tables, so the five
      payload tables (`introduction`, `examination`, `diagnosis`, `treatment`,
      `summary`) are held as one map whose rows carry their table as a tag. */
  datatype Tables = Tables(
    cases: map<Id, MedicalCaseRow>,
    steps: map<Id, StepRow>,
    payloads: map<Id, Payload>,
    values: map<Id, ValueRow>,
    treatmentAnswers: map<Id, TreatmentAnswerRow>,
    nextId: Id)
}
