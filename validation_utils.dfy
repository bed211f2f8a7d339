/** How validation failures become the `{module?, path, message}` records the API
    returns, and how those records are rendered as text. A schema that rejects its
    input throws a `ZodError` carrying the list of issues it found; any other throw is
    passed on unchanged. */
module ValidationUtils {
  import opened Common
  import opened CaseTypes

  // ---------------------------------------------------------------------------
  // Modules
  // ---------------------------------------------------------------------------

  /** `Modules`: the label each step kind's validation errors carry. */
  function ModuleLabel(m: ModuleType): (name: string)
    ensures ModuleOfLabel(name) == Some(m)
  {
    match m
    case Introduction => "Introduktion"
    case Examination => "Utredning"
    case Diagnosis => "Diagnos"
    case Treatment => "Behandling"
    case Summary => "Sammanfattning"
  }

  /** The step kind a label names, if any. */
  function ModuleOfLabel(name: string): Option<ModuleType> {
    if name == "Introduktion" then Some(Introduction)
    else if name == "Utredning" then Some(Examination)
    else if name == "Diagnos" then Some(Diagnosis)
    else if name == "Behandling" then Some(Treatment)
    else if name == "Sammanfattning" then Some(Summary)
    else None
  }

  /** The five labels are pairwise distinct, so an error's label names its step kind. */
  lemma ModuleLabelsDistinct(m1: ModuleType, m2: ModuleType)
    ensures ModuleLabel(m1) == ModuleLabel(m2) ==> m1 == m2
  {
    assert ModuleOfLabel(ModuleLabel(m1)) == Some(m1);
    assert ModuleOfLabel(ModuleLabel(m2)) == Some(m2);
  }

  // ---------------------------------------------------------------------------
  // Issues, errors and results
  // ---------------------------------------------------------------------------

  /** One issue a schema reports: the path from the validated object to the offending
      value (field name first; array positions and record keys as text) and its
      message. */
  datatype Issue = Issue(path: seq<string>, message: string)

  /** What a validator can throw: a `ZodError` with its issues, or anything else. */
  datatype Failure = ZodError(issues: seq<Issue>) | OtherError(description: string)

  /** One entry of the `errors` list: the module label (case-module validators only),
      the first path segment (`undefined` for an issue on the object itself) and the
      message. */
  datatype FieldError = FieldError(moduleName: Option<string>, path: Option<string>, message: string)

  /** `{success, errors}`; `errors` is `null` on success. */
  datatype ValidationResult = ValidationResult(success: bool, errors: Option<seq<FieldError>>)

  /** A handler either returns a result or throws its argument on. */
  datatype Handled = Returned(result: ValidationResult) | Rethrown(error: Failure)

  /** `{success: true, errors: null}`. */
  const Passed := ValidationResult(true, None)

  /** `e.path[0]`. */
  function FirstSegment(path: seq<string>): Option<string> {
    if path == [] then None else Some(path[0])
  }

  /** `issues.map(e => ({module, path: e.path[0], message: e.message}))`, without the
      `module` key when `moduleName` is `None`. */
  function ErrorsOf(issues: seq<Issue>, moduleName: Option<string>): (errors: seq<FieldError>)
    ensures |errors| == |issues|
    ensures forall i :: 0 <= i < |issues| ==>
      errors[i] == FieldError(moduleName, FirstSegment(issues[i].path), issues[i].message)
  {
    if issues == [] then []
    else [FieldError(moduleName, FirstSegment(issues[0].path), issues[0].message)] + ErrorsOf(issues[1..], moduleName)
  }

  /** `handleZodErrors(error)`: a `ZodError` becomes a failed result with one error per
      issue, in issue order, each holding the issue's first path segment and its
      message; anything else is thrown on. */
  function HandleZodErrors(error: Failure): (h: Handled)
    ensures h.Returned? <==> error.ZodError?
    ensures h.Rethrown? ==> h.error == error
    ensures h.Returned? ==>
      && !h.result.success && h.result.errors.Some?
      && |h.result.errors.value| == |error.issues|
      && forall i :: 0 <= i < |error.issues| ==>
        && h.result.errors.value[i].moduleName.None?
        && h.result.errors.value[i].path == FirstSegment(error.issues[i].path)
        && h.result.errors.value[i].message == error.issues[i].message
  {
    match error
    case ZodError(issues) => Returned(ValidationResult(false, Some(ErrorsOf(issues, None))))
    case OtherError(_) => Rethrown(error)
  }

  /** `handleZodCaseErrors(error, moduleEnum)`: as `HandleZodErrors`, with every error
      tagged with the module label. */
  function HandleZodCaseErrors(error: Failure, name: string): (h: Handled)
    ensures h.Returned? <==> error.ZodError?
    ensures h.Rethrown? ==> h.error == error
    ensures h.Returned? ==>
      && !h.result.success && h.result.errors.Some?
      && |h.result.errors.value| == |error.issues|
      && forall i :: 0 <= i < |error.issues| ==>
        && h.result.errors.value[i].moduleName == Some(name)
        && h.result.errors.value[i].path == FirstSegment(error.issues[i].path)
        && h.result.errors.value[i].message == error.issues[i].message
  {
    match error
    case ZodError(issues) => Returned(ValidationResult(false, Some(ErrorsOf(issues, Some(name)))))
    case OtherError(_) => Rethrown(error)
  }

  /** The body shared by every `validate*`: parse, and on a throw hand the error to
      the handler. A schema throws only `ZodError`s, and only when it found issues. */
  function ResultOf(issues: seq<Issue>, moduleName: Option<string>): (r: ValidationResult)
    ensures r.success <==> issues == []
    ensures r.success ==> r == Passed
    ensures !r.success ==> r.errors.Some? && |r.errors.value| == |issues| > 0
    ensures !r.success ==> forall i :: 0 <= i < |issues| ==>
      r.errors.value[i] == FieldError(moduleName, FirstSegment(issues[i].path), issues[i].message)
  {
    if issues == [] then Passed
    else match moduleName
      case None => HandleZodErrors(ZodError(issues)).result
      case Some(name) => HandleZodCaseErrors(ZodError(issues), name).result
  }

  /** `errorsToString(errors)`: the messages, in order. */
  function ErrorsToString(errors: seq<FieldError>): (messages: seq<string>)
    ensures |messages| == |errors|
    ensures forall i :: 0 <= i < |errors| ==> messages[i] == errors[i].message
  {
    if errors == [] then [] else [errors[0].message] + ErrorsToString(errors[1..])
  }

  /** The messages of a failed result are the messages of the issues, in order. */
  lemma MessagesOfIssues(issues: seq<Issue>, moduleName: Option<string>)
    requires issues != []
    ensures var ms := ErrorsToString(ResultOf(issues, moduleName).errors.value);
      |ms| == |issues| && forall i :: 0 <= i < |issues| ==> ms[i] == issues[i].message
  {
    var r := ResultOf(issues, moduleName);
    assert r.errors.value == ErrorsOf(issues, moduleName);
  }

  /** The literal prefix of `errorWithPathToString`, with its mis-encoded letter. */
  const FieldPrefix := "FÃ¤lt: "
  const MessagePrefix := ", Felmeddelande: "

  /** How the template literal renders a path segment: `undefined` when absent. */
  function PathText(path: Option<string>): string {
    match path
    case None => "undefined"
    case Some(p) => p
  }

  /** `errorWithPathToString(error)`: the prefix, the path, the separator, then the
      message. */
  function ErrorWithPathToString(e: FieldError): (s: string)
    ensures |s| == |FieldPrefix| + |PathText(e.path)| + |MessagePrefix| + |e.message|
    ensures s[..|FieldPrefix|] == FieldPrefix
    ensures s[|FieldPrefix|..|FieldPrefix| + |PathText(e.path)|] == PathText(e.path)
    ensures s[|FieldPrefix| + |PathText(e.path)|..|s| - |e.message|] == MessagePrefix
    ensures s[|s| - |e.message|..] == e.message
  {
    FieldPrefix + PathText(e.path) + MessagePrefix + e.message
  }

  /** Two errors with the same path render alike exactly when their messages agree. */
  lemma ErrorWithPathInjective(a: FieldError, b: FieldError)
    requires PathText(a.path) == PathText(b.path)
    ensures ErrorWithPathToString(a) == ErrorWithPathToString(b) <==> a.message == b.message
  {
    var sa, sb := ErrorWithPathToString(a), ErrorWithPathToString(b);
    if sa == sb {
      assert a.message == sa[|sa| - |a.message|..] == sb[|sb| - |b.message|..] == b.message;
    }
  }
}
