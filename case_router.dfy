/** The state rules of the case handlers: creating a case (POST), deleting it softly
    (DELETE) and flipping its `published` flag (PATCH `/publish`). Each handler is a
    function from the tables to the tables and the reply, and a method that performs
    the same writes on the storage object. */
module CaseRouter {
  import opened Common
  import opened CaseTypes
  import opened StepTables
  import opened DatabaseUtils
  import opened ValidationUtils
  import opened CaseValidator

  /** What a handler answers: the HTTP status and, for a publish the validator
      refused, the validation errors. */
  datatype Reply = Reply(status: int, errors: Option<seq<FieldError>>)

  /** The tables after a handler, and its reply. */
  datatype Handled = Handled(tables: Tables, reply: Reply)

  /** The body of a POST: the case's fields and the descriptors of its steps. */
  datatype NewCase = NewCase(name: string, medicalFieldId: string, creatorUserId: string, steps: seq<StepDescriptor>)

  /** `step.findAll({ where: { case_id } })`, counted. */
  function StepCount(t: Tables, caseId: Id): (n: nat)
    ensures n == 0 <==> forall s :: s in t.steps ==> t.steps[s].caseId != caseId
  {
    var found := set s | s in t.steps && t.steps[s].caseId == caseId;
    assert (exists s :: s in t.steps && t.steps[s].caseId == caseId) ==> |found| > 0 by {
      if exists s :: s in t.steps && t.steps[s].caseId == caseId {
        var s :| s in t.steps && t.steps[s].caseId == caseId;
        assert s in found;
      }
    }
    |found|
  }

  /** The object the PATCH handler gives to `validateCaseToPublish`. */
  function FormOf(t: Tables, id: Id): CaseForm
    requires id in t.cases
  {
    var c := t.cases[id];
    CaseForm(c.name, c.creatorUserId, c.medicalFieldId, StepCount(t, id))
  }

  /** `medical_case.findOne({ where: { name } })` finds a row. */
  predicate NameTaken(t: Tables, name: string)
    ensures NameTaken(t, name) <==> name in (set id | id in t.cases :: t.cases[id].name)
  {
    exists id :: id in t.cases && t.cases[id].name == name
  }

  /** No two cases share a name. */
  predicate NamesUnique(t: Tables) {
    forall a, b :: a in t.cases && b in t.cases && a != b ==> t.cases[a].name != t.cases[b].name
  }

  /** Every case row keeps its fields except, perhaps, `published` and `active`. */
  predicate OnlyFlagsChange(t: Tables, u: Tables) {
    && u == t.(cases := u.cases)
    && u.cases.Keys == t.cases.Keys
    && forall id :: id in t.cases ==>
         u.cases[id] == t.cases[id].(published := u.cases[id].published, active := u.cases[id].active)
  }

  // ---------------------------------------------------------------------------
  // POST /
  // ---------------------------------------------------------------------------

  /** The row `medical_case.create` adds for a new case: unpublished, `active` at its
      default. */
  function NewCaseRow(b: NewCase): MedicalCaseRow {
    MedicalCaseRow(b.name, b.medicalFieldId, b.creatorUserId, false, None)
  }

  /** POST: refused (400) without a body or when a case of that name exists;
      otherwise a new unpublished case under a new id, then its steps (201). */
  function Create(t: Tables, body: Option<NewCase>): (h: Handled)
    requires Fresh(t)
    ensures Fresh(h.tables)
    ensures h.reply.status == 201 <==> body.Some? && !NameTaken(t, body.value.name)
    ensures h.reply.status != 201 ==> h == Handled(t, Reply(400, None))
    ensures h.reply.status == 201 ==>
      && t.nextId !in t.cases
      && h.tables.cases == t.cases[t.nextId := NewCaseRow(body.value)]
      && !h.tables.cases[t.nextId].published
    ensures h.reply.status == 201 ==>
      h.tables == InsertStepsFrom(t.(cases := t.cases[t.nextId := NewCaseRow(body.value)], nextId := t.nextId + 1),
                                  body.value.steps, 0, t.nextId)
  {
    if body.None? || NameTaken(t, body.value.name) then Handled(t, Reply(400, None))
    else
      var b := body.value;
      var id := t.nextId;
      var t1 := t.(cases := t.cases[id := NewCaseRow(b)], nextId := id + 1);
      InsertStepsGrows(t1, b.steps, 0, id);
      Handled(InsertStepsFrom(t1, b.steps, 0, id), Reply(201, None))
  }

  /** The router's create handler over the storage object. */
  method CreateCase(db: Database, body: Option<NewCase>) returns (reply: Reply)
    requires db.Valid()
    modifies db
    ensures Handled(db.State(), reply) == Create(old(db.State()), body)
    ensures db.Valid()
  {
    if body.None? {
      return Reply(400, None);
    }
    var b := body.value;
    if NameTaken(db.State(), b.name) {
      return Reply(400, None);
    }
    var id := db.nextId;
    db.cases := db.cases[id := NewCaseRow(b)];
    db.nextId := id + 1;
    db.InsertSteps(b.steps, id);
    reply := Reply(201, None);
  }

  /** A create that succeeds (the other bodies are refused with no change) gives the
      new case its steps: one new step row per descriptor whose identifier is one of
      the five, each belonging to the new case, carrying its descriptor's position and
      identifier and pointing at a payload row with that descriptor's data; existing
      step rows are untouched. */
  lemma CreateInsertsSteps(t: Tables, b: NewCase)
    requires Fresh(t) && !NameTaken(t, b.name)
    ensures Create(t, Some(b)).reply.status == 201
    ensures var u := Create(t, Some(b)).tables;
      && |u.steps| == |t.steps| + RecognisedFrom(b.steps, 0)
      && (forall s :: s in t.steps ==> s in u.steps && u.steps[s] == t.steps[s])
      && (forall s :: s in u.steps && s !in t.steps ==> InsertedFor(u, b.steps, t.nextId, u.steps[s]))
      && (forall j :: 0 <= j < |b.steps| && Recognised(b.steps[j]) ==>
            exists s :: s in u.steps && s !in t.steps && u.steps[s].index == j)
  {
    var ds := b.steps;
    var id := t.nextId;
    var t1 := t.(cases := t.cases[id := NewCaseRow(b)], nextId := id + 1);
    assert Fresh(t1);
    var u := InsertStepsFrom(t1, ds, 0, id);
    assert Create(t, Some(b)).tables == u;
    InsertStepsGrows(t1, ds, 0, id);
    InsertStepsRows(t1, ds, 0, id);
    forall j | 0 <= j < |ds| && Recognised(ds[j])
      ensures exists s :: s in u.steps && s !in t.steps && u.steps[s].index == j
    {
      InsertStepsCovers(t1, ds, 0, id, j);
    }
  }

  /** Create keeps case names unique: it adds a case only under a name not in use,
      and inserting steps leaves the cases alone. */
  lemma CreateKeepsNamesUnique(t: Tables, body: Option<NewCase>)
    requires Fresh(t) && NamesUnique(t)
    ensures NamesUnique(Create(t, body).tables)
  {
    var h := Create(t, body);
    if h.reply.status == 201 {
      var id := t.nextId;
      forall a, b | a in h.tables.cases && b in h.tables.cases && a != b
        ensures h.tables.cases[a].name != h.tables.cases[b].name
      {
        if a == id {
          assert b in t.cases;
        } else if b == id {
          assert a in t.cases;
        }
      }
    }
  }

  // ---------------------------------------------------------------------------
  // DELETE /
  // ---------------------------------------------------------------------------

  /** DELETE: 400 without an id, 404 for an unknown case, otherwise the case is
      marked inactive and kept (200). */
  function Delete(t: Tables, caseId: Option<Id>): (h: Handled)
    ensures h.reply.status == 200 <==> caseId.Some? && caseId.value in t.cases
    ensures h.reply.status == 400 <==> caseId.None?
    ensures h.reply.status != 200 ==> h.tables == t
    ensures OnlyFlagsChange(t, h.tables)
    ensures forall id :: id in t.cases ==> h.tables.cases[id].published == t.cases[id].published
    ensures forall id :: id in t.cases && caseId != Some(id) ==> h.tables.cases[id] == t.cases[id]
    ensures h.reply.status == 200 ==> h.tables.cases[caseId.value].active == Some(false)
  {
    if caseId.None? then Handled(t, Reply(400, None))
    else if caseId.value !in t.cases then Handled(t, Reply(404, None))
    else
      var id := caseId.value;
      Handled(t.(cases := t.cases[id := t.cases[id].(active := Some(false))]), Reply(200, None))
  }

  /** The router's delete handler over the storage object. */
  method DeleteCase(db: Database, caseId: Option<Id>) returns (reply: Reply)
    requires db.Valid()
    modifies db
    ensures Handled(db.State(), reply) == Delete(old(db.State()), caseId)
    ensures db.Valid()
  {
    if caseId.None? {
      return Reply(400, None);
    }
    var id := caseId.value;
    if id !in db.cases {
      return Reply(404, None);
    }
    db.cases := db.cases[id := db.cases[id].(active := Some(false))];
    reply := Reply(200, None);
  }

  // ---------------------------------------------------------------------------
  // PATCH /publish
  // ---------------------------------------------------------------------------

  /** The PATCH handler finds the case only when its flag is the opposite of the one
      requested. */
  predicate Flippable(t: Tables, id: Option<Id>, publish: bool) {
    id.Some? && id.value in t.cases && t.cases[id.value].published == !publish
  }

  /** For an existing case the lookup succeeds for exactly one of the two requested
      flags, the opposite of the stored one; an unknown id succeeds for neither. */
  lemma FlippableOneWay(t: Tables, id: Option<Id>)
    ensures id.Some? && id.value in t.cases ==> (Flippable(t, id, true) <==> !Flippable(t, id, false))
    ensures !(id.Some? && id.value in t.cases) ==> !Flippable(t, id, true) && !Flippable(t, id, false)
  {
  }

  /** PATCH `/publish`: 400 without an id or when no case with that id has
      `published == !publish`; otherwise the case is validated for publishing, in
      both directions, and only a case that passes has its flag set (200); one that
      fails gets the errors (400). */
  function Publish(t: Tables, id: Option<Id>, publish: bool): (h: Handled)
    ensures id.None? ==> h == Handled(t, Reply(400, None))
    ensures !Flippable(t, id, publish) ==> h == Handled(t, Reply(400, None))
    ensures OnlyFlagsChange(t, h.tables)
    ensures forall c :: c in t.cases ==> h.tables.cases[c].active == t.cases[c].active
    ensures h.reply.status == 200 <==> Flippable(t, id, publish) && ValidateCaseToPublish(FormOf(t, id.value)).success
    ensures h.reply.status == 200 ==> h.tables.cases[id.value].published == publish
    ensures h.reply.status != 200 ==> h.tables == t
    ensures Flippable(t, id, publish) && h.reply.status != 200 ==>
      h.reply.errors == ValidateCaseToPublish(FormOf(t, id.value)).errors
  {
    if !Flippable(t, id, publish) then Handled(t, Reply(400, None))
    else
      var c := id.value;
      var r := ValidateCaseToPublish(FormOf(t, c));
      if r.success then Handled(t.(cases := t.cases[c := t.cases[c].(published := publish)]), Reply(200, None))
      else Handled(t, Reply(400, r.errors))
  }

  /** The router's publish handler over the storage object. */
  method PublishCase(db: Database, id: Option<Id>, publish: bool) returns (reply: Reply)
    requires db.Valid()
    modifies db
    ensures Handled(db.State(), reply) == Publish(old(db.State()), id, publish)
    ensures db.Valid()
  {
    if id.None? {
      return Reply(400, None);
    }
    var c := id.value;
    if !(c in db.cases && db.cases[c].published == !publish) {
      return Reply(400, None);
    }
    var row := db.cases[c];
    var stepCount := |set s | s in db.steps && db.steps[s].caseId == c|;
    var result := ValidateCaseToPublish(CaseForm(row.name, row.creatorUserId, row.medicalFieldId, stepCount));
    if result.success {
      db.cases := db.cases[c := row.(published := publish)];
      return Reply(200, None);
    } else {
      return Reply(400, result.errors);
    }
  }

  /** A case without step rows is never flipped, in either direction, and the last
      error reported is the missing-steps message. */
  lemma NoStepsNeverFlips(t: Tables, id: Id, publish: bool)
    requires id in t.cases && StepCount(t, id) == 0
    ensures Publish(t, Some(id), publish).tables == t
    ensures Flippable(t, Some(id), publish) ==>
      var e := Publish(t, Some(id), publish).reply.errors;
      e.Some? && |e.value| > 0 && e.value[|e.value| - 1] == FieldError(None, Some("steps"), NoSteps)
  {
    NoStepsNeverPublishes(FormOf(t, id));
  }

  /** A case that ends up published by the handler passes the case-in-progress
      rules and has at least one step row. */
  lemma PublishedCaseIsComplete(t: Tables, id: Id)
    requires id in t.cases && !t.cases[id].published
    requires Publish(t, Some(id), true).tables.cases[id].published
    ensures ValidateCaseInProgress(FormOf(t, id)).success && StepCount(t, id) >= 1
  {
    PublishableIsInProgress(FormOf(t, id));
  }

  /** Neither delete nor publish changes a name, so names stay unique. */
  lemma FlagsKeepNamesUnique(t: Tables, u: Tables)
    requires NamesUnique(t) && OnlyFlagsChange(t, u)
    ensures NamesUnique(u)
  {
    forall a, b | a in u.cases && b in u.cases && a != b
      ensures u.cases[a].name != u.cases[b].name
    {
      assert u.cases[a].name == t.cases[a].name && u.cases[b].name == t.cases[b].name;
    }
  }
}
