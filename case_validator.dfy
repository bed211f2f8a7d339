/** The schemas a case and each kind of step module must satisfy, and the seven
    `validate*` functions built on them. A validator succeeds exactly when its
    schema's field rules all hold; otherwise it reports every failed rule, in field
    order, with the field's name (and, for step modules, the module's label). */
module CaseValidator {
  import opened Common
  import opened CaseTypes
  import opened ValidationUtils
  import opened SchemaChecks

  // ---------------------------------------------------------------------------
  // Messages and placeholder texts
  // ---------------------------------------------------------------------------

  const NameTooShort := "Fallets namn behöver vara minst ett tecken långt"
  const NoSteps := "Fallet måste innehålla steg"

  const PromptEmpty := "Uppmaning till användaren får inte vara tom"
  const PromptPlaceholder := "Fyll i din uppmaning till användaren"
  const PromptNotFilled := "Uppmaning till användaren är inte ifyllt"
  const CorrectEmpty := "Feedback för korrekt svar får inte vara tom"
  const CorrectPlaceholder := "Fyll i feedback för korrekt svar"
  const CorrectNotFilled := "Feedback för korrekt svar har inte fyllts i"
  const IncorrectEmpty := "Feedback för inkorrekt svar får inte vara tom"
  const IncorrectPlaceholder := "Fyll i feedback för inkorrekt svar"
  const IncorrectNotFilled := "Feedback för inkorrekt svar är inte ifyllt"

  const DescriptionEmpty := "Beskrivning av patientmötet får inte vara tom"
  const DescriptionPlaceholder := "Fyll i din beskrivning av ett patientmöte"
  const DescriptionNotFilled := "Beskrivning av patientmötet är inte ifyllt"
  const IntroductionPromptPlaceholder := "Fyll i din uppmaning till användaren som en Ja/Nej-fråga"

  const ValueEmpty := "Svarsvärdet på utredningen får inte vara tomt"
  const ValuePlaceholder := "Fyll i värde här"
  const ValueNotFilled := "Svarsvärdet för utredning är inte ifyllt"
  const NoValues := "Korrekta utredningar samt svarsvärden är inte ifyllda"
  const MaxTestsTooLow := "Max antal test får inte vara lägre än 1"

  const NoDiagnosis := "Rätt diagnos måste vara vald"
  const NoTreatments := "Korrekta behandlingar är inte ifyllda"

  const InfoPlaceholder := "Fyll i övrig information om sjukdomen till studenten"
  const InfoNotFilled := "Övrig information om sjukdomen är inte ifyllt"
  const LinksPlaceholder := "Fyll i länkar till övrig information om sjukdomen"
  const LinksNotFilled := "Övriga länkar om sjukdomen är inte ifyllda"
  const ProcessEmpty := "Processen får inte vara mindre än ett tecken"
  const ProcessPlaceholder := "Hur hade den korrekta processen sett ut om en läkare tagit sig an fallet?"
  const ProcessNotFilled := "Korrekt procedur är inte ifylld"

  // ---------------------------------------------------------------------------
  // Cases
  // ---------------------------------------------------------------------------

  /** The object a case validator receives. Its `steps` schema accepts any object, so
      only the number of steps matters. */
  datatype CaseForm = CaseForm(name: string, creatorUserId: string, medicalFieldId: string, stepCount: nat)

  const CaseFields := {"name", "creator_user_id", "medical_field_id"}
  const PublishFields := CaseFields + {"steps"}

  predicate CaseInProgressValid(c: CaseForm) {
    |c.name| >= 1 && IsUuid(c.creatorUserId) && IsUuid(c.medicalFieldId)
  }

  function CaseInProgressIssues(c: CaseForm): (issues: seq<Issue>)
    ensures issues == [] <==> CaseInProgressValid(c)
    ensures UnderFields(issues, CaseFields)
  {
    var a := MinLength(["name"], c.name, 1, NameTooShort);
    var b := UuidIssues(["creator_user_id"], c.creatorUserId, InvalidUuid);
    var d := UuidIssues(["medical_field_id"], c.medicalFieldId, InvalidUuid);
    UnderFieldsAppend(a, b, CaseFields);
    UnderFieldsAppend(a + b, d, CaseFields);
    a + b + d
  }

  /** The steps rule comes after the three case fields. */
  function CaseToPublishIssues(c: CaseForm): (issues: seq<Issue>)
    ensures issues == [] <==> CaseInProgressValid(c) && c.stepCount >= 1
    ensures UnderFields(issues, PublishFields)
  {
    var a := CaseInProgressIssues(c);
    var b := NonEmpty(["steps"], seq(c.stepCount, _ => 0), NoSteps);
    UnderFieldsAppend(a, b, PublishFields);
    a + b
  }

  /** `validateCaseInProgress(data)`. */
  function ValidateCaseInProgress(c: CaseForm): (r: ValidationResult)
    ensures r.success <==> CaseInProgressValid(c)
    ensures Reports(r, None, CaseFields)
  {
    ResultReports(CaseInProgressIssues(c), None, CaseFields);
    ResultOf(CaseInProgressIssues(c), None)
  }

  /** `validateCaseToPublish(data)`. */
  function ValidateCaseToPublish(c: CaseForm): (r: ValidationResult)
    ensures r.success <==> CaseInProgressValid(c) && c.stepCount >= 1
    ensures Reports(r, None, PublishFields)
  {
    ResultReports(CaseToPublishIssues(c), None, PublishFields);
    ResultOf(CaseToPublishIssues(c), None)
  }

  /** A case with no steps never validates for publishing, whatever its other fields,
      and its last error is the steps message. */
  lemma NoStepsNeverPublishes(c: CaseForm)
    requires c.stepCount == 0
    ensures var r := ValidateCaseToPublish(c);
      && !r.success
      && r.errors.value[|r.errors.value| - 1] == FieldError(None, Some("steps"), NoSteps)
  {
    var issues := CaseToPublishIssues(c);
    assert issues[|issues| - 1] == Issue(["steps"], NoSteps);
  }

  /** Validity for publishing is validity in progress plus at least one step. */
  lemma PublishableIsInProgress(c: CaseForm)
    ensures ValidateCaseToPublish(c).success <==> ValidateCaseInProgress(c).success && c.stepCount >= 1
  {
  }

  // ---------------------------------------------------------------------------
  // Step modules
  // ---------------------------------------------------------------------------

  const BaseFields := {"prompt", "feedback_correct", "feedback_incorrect"}
  const IntroductionFields := {"description", "prompt", "feedback_correct", "feedback_incorrect"}
  const ExaminationFields := BaseFields + {"examination_to_display", "step_specific_values", "max_nbr_tests"}
  const DiagnosisFields := BaseFields + {"diagnosis_id"}
  const TreatmentFields := BaseFields + {"step_specific_treatments", "treatments_to_display"}
  const SummaryFields := {"additional_info", "additional_links", "process"}

  /** The two feedback rules shared by every question step. */
  predicate FeedbackValid(d: StepData) {
    FilledIn(d.feedbackCorrect, CorrectPlaceholder) && FilledIn(d.feedbackIncorrect, IncorrectPlaceholder)
  }

  function FeedbackIssues(d: StepData): (issues: seq<Issue>)
    ensures issues == [] <==> FeedbackValid(d)
    ensures UnderFields(issues, BaseFields)
  {
    var a := FilledInIssues(["feedback_correct"], d.feedbackCorrect, CorrectEmpty, CorrectPlaceholder, CorrectNotFilled);
    var b := FilledInIssues(["feedback_incorrect"], d.feedbackIncorrect, IncorrectEmpty, IncorrectPlaceholder, IncorrectNotFilled);
    AtPathUnder(a, ["feedback_correct"]);
    AtPathUnder(b, ["feedback_incorrect"]);
    UnderFieldsAppend(a, b, BaseFields);
    a + b
  }

  /** `baseModuleSchema`: prompt and both feedbacks filled in. */
  predicate BaseValid(d: StepData) {
    FilledIn(d.prompt, PromptPlaceholder) && FeedbackValid(d)
  }

  function BaseIssues(d: StepData): (issues: seq<Issue>)
    ensures issues == [] <==> BaseValid(d)
    ensures UnderFields(issues, BaseFields)
  {
    var a := FilledInIssues(["prompt"], d.prompt, PromptEmpty, PromptPlaceholder, PromptNotFilled);
    AtPathUnder(a, ["prompt"]);
    UnderFieldsAppend(a, FeedbackIssues(d), BaseFields);
    a + FeedbackIssues(d)
  }

  /** `introductionSchema`: its own prompt placeholder, plus a description. */
  predicate IntroductionValid(d: StepData) {
    && FilledIn(d.description, DescriptionPlaceholder)
    && FilledIn(d.prompt, IntroductionPromptPlaceholder)
    && FeedbackValid(d)
  }

  function IntroductionIssues(d: StepData): (issues: seq<Issue>)
    ensures issues == [] <==> IntroductionValid(d)
    ensures UnderFields(issues, IntroductionFields)
  {
    var a := FilledInIssues(["description"], d.description, DescriptionEmpty, DescriptionPlaceholder, DescriptionNotFilled);
    var b := FilledInIssues(["prompt"], d.prompt, PromptEmpty, IntroductionPromptPlaceholder, PromptNotFilled);
    AtPathUnder(a, ["description"]);
    AtPathUnder(b, ["prompt"]);
    UnderFieldsAppend(a, b, IntroductionFields);
    UnderFieldsAppend(a + b, FeedbackIssues(d), IntroductionFields);
    a + b + FeedbackIssues(d)
  }

  /** `validateIntroductionModule(data)`. */
  function ValidateIntroductionModule(d: StepData): (r: ValidationResult)
    ensures r.success <==> IntroductionValid(d)
    ensures Reports(r, Some(ModuleLabel(Introduction)), IntroductionFields)
  {
    ResultReports(IntroductionIssues(d), Some(ModuleLabel(Introduction)), IntroductionFields);
    ResultOf(IntroductionIssues(d), Some(ModuleLabel(Introduction)))
  }

  /** The Introduction prompt rule looks for its own, longer placeholder: a prompt that
      still holds the shorter base placeholder passes it, though it fails the base
      rule of the other question steps. */
  lemma IntroductionPromptRule()
    ensures FilledIn(PromptPlaceholder, IntroductionPromptPlaceholder)
    ensures !FilledIn(PromptPlaceholder, PromptPlaceholder)
    ensures !FilledIn(IntroductionPromptPlaceholder, PromptPlaceholder)
  {
    ShorterNeverContains(PromptPlaceholder, IntroductionPromptPlaceholder);
    ContainsItself(PromptPlaceholder);
    assert IntroductionPromptPlaceholder[0..|PromptPlaceholder|] == PromptPlaceholder;
    ContainsAt(IntroductionPromptPlaceholder, PromptPlaceholder, 0);
  }

  /** One Examination answer: a UUID examination and a filled-in value. */
  predicate ValueValid(v: ValueInput) {
    IsUuid(v.examinationId) && FilledIn(v.value, ValuePlaceholder)
  }

  /** The issues of the answer at `at`: its examination id, then its value. */
  function ValueIssues(at: seq<string>, v: ValueInput): (issues: seq<Issue>)
    requires |at| > 0
    ensures issues == [] <==> ValueValid(v)
    ensures UnderField(issues, at[0])
  {
    var a := UuidIssues(at + ["examination_id"], v.examinationId, InvalidUuid);
    var b := FilledInIssues(at + ["value"], v.value, ValueEmpty, ValuePlaceholder, ValueNotFilled);
    AtPathUnder(a, at + ["examination_id"]);
    AtPathUnder(b, at + ["value"]);
    UnderFieldAppend(a, b, at[0]);
    a + b
  }

  /** The element issues of `step_specific_values` from position `j` on. */
  function ValueListIssues(vs: seq<ValueInput>, j: nat): (issues: seq<Issue>)
    requires j <= |vs|
    decreases |vs| - j
    ensures issues == [] <==> forall k :: j <= k < |vs| ==> ValueValid(vs[k])
    ensures UnderField(issues, "step_specific_values")
  {
    if j == |vs| then []
    else
      var a := ValueIssues(["step_specific_values", NatToString(j)], vs[j]);
      var c := ValueListIssues(vs, j + 1);
      UnderFieldAppend(a, c, "step_specific_values");
      a + c
  }

  /** `examinationSchema`. */
  predicate ExaminationValid(d: StepData) {
    && BaseValid(d)
    && UuidEntries(d.examinationToDisplay)
    && |d.stepSpecificValues| >= 1
    && (forall k :: 0 <= k < |d.stepSpecificValues| ==> ValueValid(d.stepSpecificValues[k]))
    && d.maxNbrTests >= 1
  }

  function ExaminationIssues(d: StepData): (issues: seq<Issue>)
    ensures issues == [] <==> ExaminationValid(d)
    ensures UnderFields(issues, ExaminationFields)
  {
    var a := BaseIssues(d);
    var b := UuidRecordIssues("examination_to_display", d.examinationToDisplay, 0);
    var c := NonEmpty(["step_specific_values"], d.stepSpecificValues, NoValues);
    var e := ValueListIssues(d.stepSpecificValues, 0);
    var f := MinNumber(["max_nbr_tests"], d.maxNbrTests, 1, MaxTestsTooLow);
    AtPathUnder(c, ["step_specific_values"]);
    AtPathUnder(f, ["max_nbr_tests"]);
    UnderFieldWidens(b, "examination_to_display", ExaminationFields);
    UnderFieldWidens(c, "step_specific_values", ExaminationFields);
    UnderFieldWidens(e, "step_specific_values", ExaminationFields);
    UnderFieldWidens(f, "max_nbr_tests", ExaminationFields);
    UnderFieldsAppend(a, b, ExaminationFields);
    UnderFieldsAppend(a + b, c, ExaminationFields);
    UnderFieldsAppend(a + b + c, e, ExaminationFields);
    UnderFieldsAppend(a + b + c + e, f, ExaminationFields);
    assert a + b + c + e + f == [] <==> a == [] && b == [] && c == [] && e == [] && f == [];
    a + b + c + e + f
  }

  /** `validateExaminationModule(data)`. */
  function ValidateExaminationModule(d: StepData): (r: ValidationResult)
    ensures r.success <==> ExaminationValid(d)
    ensures Reports(r, Some(ModuleLabel(Examination)), ExaminationFields)
  {
    ResultReports(ExaminationIssues(d), Some(ModuleLabel(Examination)), ExaminationFields);
    ResultOf(ExaminationIssues(d), Some(ModuleLabel(Examination)))
  }

  /** `diagnosisSchema`. */
  predicate DiagnosisValid(d: StepData) {
    BaseValid(d) && IsUuid(d.diagnosisId)
  }

  function DiagnosisIssues(d: StepData): (issues: seq<Issue>)
    ensures issues == [] <==> DiagnosisValid(d)
    ensures UnderFields(issues, DiagnosisFields)
  {
    var b := UuidIssues(["diagnosis_id"], d.diagnosisId, NoDiagnosis);
    AtPathUnder(b, ["diagnosis_id"]);
    UnderFieldsAppend(BaseIssues(d), b, DiagnosisFields);
    BaseIssues(d) + b
  }

  /** `validateDiagnosisModule(data)`. */
  function ValidateDiagnosisModule(d: StepData): (r: ValidationResult)
    ensures r.success <==> DiagnosisValid(d)
    ensures Reports(r, Some(ModuleLabel(Diagnosis)), DiagnosisFields)
  {
    ResultReports(DiagnosisIssues(d), Some(ModuleLabel(Diagnosis)), DiagnosisFields);
    ResultOf(DiagnosisIssues(d), Some(ModuleLabel(Diagnosis)))
  }

  /** The element issues of `step_specific_treatments` from position `j` on: only the
      treatment id is checked. */
  function TreatmentListIssues(ts: seq<TreatmentInput>, j: nat): (issues: seq<Issue>)
    requires j <= |ts|
    decreases |ts| - j
    ensures issues == [] <==> forall k :: j <= k < |ts| ==> IsUuid(ts[k].treatmentId)
    ensures UnderField(issues, "step_specific_treatments")
  {
    if j == |ts| then []
    else
      var at := ["step_specific_treatments", NatToString(j), "treatment_id"];
      var a := UuidIssues(at, ts[j].treatmentId, InvalidUuid);
      AtPathUnder(a, at);
      a + TreatmentListIssues(ts, j + 1)
  }

  /** `treatmentSchema`. */
  predicate TreatmentValid(d: StepData) {
    && BaseValid(d)
    && |d.stepSpecificTreatments| >= 1
    && (forall k :: 0 <= k < |d.stepSpecificTreatments| ==> IsUuid(d.stepSpecificTreatments[k].treatmentId))
    && UuidEntries(d.treatmentsToDisplay)
  }

  function TreatmentIssues(d: StepData): (issues: seq<Issue>)
    ensures issues == [] <==> TreatmentValid(d)
    ensures UnderFields(issues, TreatmentFields)
  {
    var a := BaseIssues(d);
    var b := NonEmpty(["step_specific_treatments"], d.stepSpecificTreatments, NoTreatments);
    var c := TreatmentListIssues(d.stepSpecificTreatments, 0);
    var e := UuidRecordIssues("treatments_to_display", d.treatmentsToDisplay, 0);
    AtPathUnder(b, ["step_specific_treatments"]);
    UnderFieldWidens(b, "step_specific_treatments", TreatmentFields);
    UnderFieldWidens(c, "step_specific_treatments", TreatmentFields);
    UnderFieldWidens(e, "treatments_to_display", TreatmentFields);
    UnderFieldsAppend(a, b, TreatmentFields);
    UnderFieldsAppend(a + b, c, TreatmentFields);
    UnderFieldsAppend(a + b + c, e, TreatmentFields);
    assert a + b + c + e == [] <==> a == [] && b == [] && c == [] && e == [];
    a + b + c + e
  }

  /** `validateTreatmentModule(data)`. */
  function ValidateTreatmentModule(d: StepData): (r: ValidationResult)
    ensures r.success <==> TreatmentValid(d)
    ensures Reports(r, Some(ModuleLabel(Treatment)), TreatmentFields)
  {
    ResultReports(TreatmentIssues(d), Some(ModuleLabel(Treatment)), TreatmentFields);
    ResultOf(TreatmentIssues(d), Some(ModuleLabel(Treatment)))
  }

  /** Treatment answers' values are never looked at: answers with the same treatment
      ids give the same issues, whatever their values. */
  lemma {:induction false} TreatmentListIgnoresValues(ts: seq<TreatmentInput>, us: seq<TreatmentInput>, j: nat)
    requires |us| == |ts| && j <= |ts|
    requires forall k :: 0 <= k < |ts| ==> us[k].treatmentId == ts[k].treatmentId
    decreases |ts| - j
    ensures TreatmentListIssues(us, j) == TreatmentListIssues(ts, j)
  {
    if j < |ts| {
      TreatmentListIgnoresValues(ts, us, j + 1);
      var at := ["step_specific_treatments", NatToString(j), "treatment_id"];
      assert UuidIssues(at, us[j].treatmentId, InvalidUuid) == UuidIssues(at, ts[j].treatmentId, InvalidUuid);
    }
  }

  /** `validateTreatmentModule` gives the same result for answers that differ only
      in their values. */
  lemma TreatmentValueUnchecked(d: StepData, us: seq<TreatmentInput>)
    requires |us| == |d.stepSpecificTreatments|
    requires forall k :: 0 <= k < |us| ==> us[k].treatmentId == d.stepSpecificTreatments[k].treatmentId
    ensures ValidateTreatmentModule(d.(stepSpecificTreatments := us)) == ValidateTreatmentModule(d)
  {
    TreatmentListIgnoresValues(d.stepSpecificTreatments, us, 0);
  }

  /** `summarySchema`: the two extra fields may be empty but must not hold their
      placeholders; the process must be filled in. */
  predicate SummaryValid(d: StepData) {
    && !Contains(d.additionalInfo, InfoPlaceholder)
    && !Contains(d.additionalLinks, LinksPlaceholder)
    && FilledIn(d.process, ProcessPlaceholder)
  }

  function SummaryIssues(d: StepData): (issues: seq<Issue>)
    ensures issues == [] <==> SummaryValid(d)
    ensures UnderFields(issues, SummaryFields)
  {
    var a := Excludes(["additional_info"], d.additionalInfo, InfoPlaceholder, InfoNotFilled);
    var b := Excludes(["additional_links"], d.additionalLinks, LinksPlaceholder, LinksNotFilled);
    var c := FilledInIssues(["process"], d.process, ProcessEmpty, ProcessPlaceholder, ProcessNotFilled);
    AtPathUnder(a, ["additional_info"]);
    AtPathUnder(b, ["additional_links"]);
    AtPathUnder(c, ["process"]);
    UnderFieldsAppend(a, b, SummaryFields);
    UnderFieldsAppend(a + b, c, SummaryFields);
    a + b + c
  }

  /** `validateSummaryModule(data)`. */
  function ValidateSummaryModule(d: StepData): (r: ValidationResult)
    ensures r.success <==> SummaryValid(d)
    ensures Reports(r, Some(ModuleLabel(Summary)), SummaryFields)
  {
    ResultReports(SummaryIssues(d), Some(ModuleLabel(Summary)), SummaryFields);
    ResultOf(SummaryIssues(d), Some(ModuleLabel(Summary)))
  }

  /** Empty additional information and links pass the Summary schema. */
  lemma SummaryExtrasOptional(d: StepData)
    requires d.additionalInfo == [] && d.additionalLinks == []
    ensures ValidateSummaryModule(d).success <==> FilledIn(d.process, ProcessPlaceholder)
  {
  }
}
