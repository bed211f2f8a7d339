/** The schema checks the validators are built from, each as the list of issues it
    reports for one value. A schema reports the issues of its fields in field order
    (fields added by `extend` after the base fields); a string field with several
    checks reports every check that fails, in the order the checks are chained. */
module SchemaChecks {
  import opened Common
  import opened CaseTypes
  import opened ValidationUtils

  /** The message of a failed `uuid()` check without a message of its own. */
  const InvalidUuid := "Invalid uuid"

  /** Every issue lies under the field `f`. */
  predicate UnderField(issues: seq<Issue>, f: string) {
    forall i :: 0 <= i < |issues| ==> |issues[i].path| > 0 && issues[i].path[0] == f
  }

  /** Every issue lies under one of `fields`. */
  predicate UnderFields(issues: seq<Issue>, fields: set<string>) {
    forall i :: 0 <= i < |issues| ==> |issues[i].path| > 0 && issues[i].path[0] in fields
  }

  lemma UnderFieldWidens(issues: seq<Issue>, f: string, fields: set<string>)
    requires UnderField(issues, f) && f in fields
    ensures UnderFields(issues, fields)
  {
  }

  lemma UnderFieldsAppend(a: seq<Issue>, b: seq<Issue>, fields: set<string>)
    requires UnderFields(a, fields) && UnderFields(b, fields)
    ensures UnderFields(a + b, fields)
  {
    forall i | 0 <= i < |a + b|
      ensures |(a + b)[i].path| > 0 && (a + b)[i].path[0] in fields
    {
      if i >= |a| {
        assert (a + b)[i] == b[i - |a|];
      }
    }
  }

  /** Every issue sits at `path`. */
  predicate AtPath(issues: seq<Issue>, path: seq<string>) {
    forall i :: 0 <= i < |issues| ==> issues[i].path == path
  }

  lemma AtPathAppend(a: seq<Issue>, b: seq<Issue>, path: seq<string>)
    requires AtPath(a, path) && AtPath(b, path)
    ensures AtPath(a + b, path)
  {
    forall i | 0 <= i < |a + b|
      ensures (a + b)[i].path == path
    {
      if i >= |a| {
        assert (a + b)[i] == b[i - |a|];
      }
    }
  }

  lemma AtPathUnder(issues: seq<Issue>, path: seq<string>)
    requires AtPath(issues, path) && |path| > 0
    ensures UnderField(issues, path[0])
  {
  }

  lemma UnderFieldAppend(a: seq<Issue>, b: seq<Issue>, f: string)
    requires UnderField(a, f) && UnderField(b, f)
    ensures UnderField(a + b, f)
  {
    forall i | 0 <= i < |a + b|
      ensures |(a + b)[i].path| > 0 && (a + b)[i].path[0] == f
    {
      if i >= |a| {
        assert (a + b)[i] == b[i - |a|];
      }
    }
  }

  /** Issues whose paths all extend `path` lie under its first segment. */
  lemma ExtendsUnder(issues: seq<Issue>, path: seq<string>)
    requires |path| > 0
    requires forall i :: 0 <= i < |issues| ==> |issues[i].path| > |path| && issues[i].path[..|path|] == path
    ensures UnderField(issues, path[0])
  {
    forall i | 0 <= i < |issues|
      ensures |issues[i].path| > 0 && issues[i].path[0] == path[0]
    {
      assert issues[i].path[..|path|][0] == issues[i].path[0];
    }
  }

  /** `string().min(n, msg)`. */
  function MinLength(path: seq<string>, v: string, n: nat, msg: string): (issues: seq<Issue>)
    ensures issues == [] <==> |v| >= n
    ensures AtPath(issues, path)
  {
    if |v| < n then [Issue(path, msg)] else []
  }

  /** `string().max(n, msg)`. */
  function MaxLength(path: seq<string>, v: string, n: nat, msg: string): (issues: seq<Issue>)
    ensures issues == [] <==> |v| <= n
    ensures AtPath(issues, path)
  {
    if |v| > n then [Issue(path, msg)] else []
  }

  /** `.refine(val => !val.includes(placeholder), { message })`. */
  function Excludes(path: seq<string>, v: string, placeholder: string, msg: string): (issues: seq<Issue>)
    ensures issues == [] <==> !Contains(v, placeholder)
    ensures AtPath(issues, path)
  {
    if Contains(v, placeholder) then [Issue(path, msg)] else []
  }

  /** A field that must be filled in: non-empty and free of its placeholder text. */
  predicate FilledIn(v: string, placeholder: string) {
    |v| >= 1 && !Contains(v, placeholder)
  }

  /** `string().min(1, tooShort).refine(val => !val.includes(placeholder), notFilled)`:
      the refinement runs also when the length check failed. */
  function FilledInIssues(path: seq<string>, v: string, tooShort: string, placeholder: string, notFilled: string)
    : (issues: seq<Issue>)
    ensures issues == [] <==> FilledIn(v, placeholder)
    ensures AtPath(issues, path)
  {
    MinLength(path, v, 1, tooShort) + Excludes(path, v, placeholder, notFilled)
  }

  /** `string().uuid(msg)`. */
  function UuidIssues(path: seq<string>, v: string, msg: string): (issues: seq<Issue>)
    ensures issues == [] <==> IsUuid(v)
    ensures AtPath(issues, path)
  {
    if IsUuid(v) then [] else [Issue(path, msg)]
  }

  /** `number().min(n, msg)`. */
  function MinNumber(path: seq<string>, v: int, n: int, msg: string): (issues: seq<Issue>)
    ensures issues == [] <==> v >= n
    ensures AtPath(issues, path)
  {
    if v < n then [Issue(path, msg)] else []
  }

  /** `array(...).nonempty({ message })`: reported before the issues of the elements. */
  function NonEmpty<T>(path: seq<string>, xs: seq<T>, msg: string): (issues: seq<Issue>)
    ensures issues == [] <==> |xs| >= 1
    ensures AtPath(issues, path)
  {
    if |xs| == 0 then [Issue(path, msg)] else []
  }

  /** Every element of `xs` is a UUID. */
  predicate AllUuids(xs: seq<string>) {
    forall j :: 0 <= j < |xs| ==> IsUuid(xs[j])
  }

  /** `array(string().uuid())` at `path`, from position `j` on; element issues sit at
      `path + [j]`. */
  function UuidListIssues(path: seq<string>, xs: seq<string>, j: nat): (issues: seq<Issue>)
    requires j <= |xs|
    decreases |xs| - j
    ensures issues == [] <==> forall k :: j <= k < |xs| ==> IsUuid(xs[k])
    ensures forall i :: 0 <= i < |issues| ==> |issues[i].path| > |path| && issues[i].path[..|path|] == path
  {
    if j == |xs| then []
    else UuidIssues(path + [NatToString(j)], xs[j], InvalidUuid) + UuidListIssues(path, xs, j + 1)
  }

  /** Every key and every listed id of a `*_to_display` object is a UUID. */
  predicate UuidEntries(entries: ToDisplay) {
    forall i :: 0 <= i < |entries| ==> IsUuid(entries[i].0) && AllUuids(entries[i].1)
  }

  /** `record(string().uuid(), array(string().uuid()))` on the field `f`, from entry `i`
      on: for each entry the key's issue (at `[f, key]`) and then its elements'. */
  function UuidRecordIssues(f: string, entries: ToDisplay, i: nat): (issues: seq<Issue>)
    requires i <= |entries|
    decreases |entries| - i
    ensures issues == [] <==> forall k :: i <= k < |entries| ==> IsUuid(entries[k].0) && AllUuids(entries[k].1)
    ensures UnderField(issues, f)
  {
    if i == |entries| then []
    else
      var key := entries[i].0;
      var a := UuidIssues([f, key], key, InvalidUuid);
      var b := UuidListIssues([f, key], entries[i].1, 0);
      var c := UuidRecordIssues(f, entries, i + 1);
      AtPathUnder(a, [f, key]);
      ExtendsUnder(b, [f, key]);
      UnderFieldAppend(a, b, f);
      UnderFieldAppend(a + b, c, f);
      assert a + b + c == [] <==> a == [] && b == [] && c == [];
      assert b == [] <==> AllUuids(entries[i].1);
      a + b + c
  }

  // ---------------------------------------------------------------------------
  // What a failed validation reports
  // ---------------------------------------------------------------------------

  /** A failed result lists at least one error, each tagged with `moduleName` and
      naming one of the schema's `fields`. */
  predicate Reports(r: ValidationResult, moduleName: Option<string>, fields: set<string>) {
    !r.success ==>
      && r.errors.Some? && |r.errors.value| > 0
      && forall i :: 0 <= i < |r.errors.value| ==>
        && r.errors.value[i].moduleName == moduleName
        && r.errors.value[i].path.Some? && r.errors.value[i].path.value in fields
  }

  /** A result built from issues that all lie under `fields` reports as above. */
  lemma ResultReports(issues: seq<Issue>, moduleName: Option<string>, fields: set<string>)
    requires UnderFields(issues, fields)
    ensures Reports(ResultOf(issues, moduleName), moduleName, fields)
  {
  }
}
