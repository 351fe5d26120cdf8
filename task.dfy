/** The Task entity: six nullable fields, the validation constraints declared
    on them, and the setters that overwrite one field at a time. */
module TaskEntity {
  import opened Wrappers

  /** The values the status Choice constraint admits. */
  const Statuses: set<string> := {"created", "in_progress", "completed"}

  /** The status the create endpoint assigns when none is given. */
  const DefaultStatus: string := "created"

  /** Bounds of the title Length constraint, counted in characters. */
  const TitleMinLength: nat := 6
  const TitleMaxLength: nat := 255

  /** A task record. Every field is null (None) until something sets it;
      timestamps are readings of an abstract clock. */
  datatype Task = Task(
    id: Option<int>,
    title: Option<string>,
    description: Option<string>,
    status: Option<string>,
    createdAt: Option<nat>,
    updatedAt: Option<nat>)

  /** A newly constructed entity: every field null, no id yet. */
  const Blank: Task := Task(None, None, None, None, None, None)

  // ---------------------------------------------------------------------
  // Validation constraints
  // ---------------------------------------------------------------------

  /** NotBlank: null and the empty string are blank. No normaliser is
      configured, so whitespace is not trimmed. */
  predicate NotBlank(s: Option<string>)
  {
    s.Some? && s.value != ""
  }

  /** Length(min, max): null is not checked; a string must have between
      min and max characters. */
  predicate LengthInRange(s: Option<string>, min: nat, max: nat)
  {
    s.None? || min <= |s.value| <= max
  }

  /** Choice: null is not checked; a string must be one of the choices. */
  predicate InChoices(s: Option<string>, choices: set<string>)
  {
    s.None? || s.value in choices
  }

  /** The validator's verdict on a task: every declared constraint holds.
      Only title and status carry constraints. */
  predicate Valid(t: Task)
    ensures Valid(t) <==>
      && t.title.Some?
      && TitleMinLength <= |t.title.value| <= TitleMaxLength
      && (t.status.Some? ==> t.status.value in Statuses)
  {
    && NotBlank(t.title)
    && LengthInRange(t.title, TitleMinLength, TitleMaxLength)
    && InChoices(t.status, Statuses)
  }

  /** Description, id and the timestamps are unconstrained: two tasks that
      agree on title and status get the same verdict. */
  lemma ValidDependsOnTitleAndStatus(t: Task, u: Task)
    requires t.title == u.title && t.status == u.status
    ensures Valid(t) <==> Valid(u)
  {
  }

  // ---------------------------------------------------------------------
  // Setters. Each stores its argument in one field and leaves every other
  // field as it was; there is no setter for id.
  // ---------------------------------------------------------------------

  function SetTitle(t: Task, title: string): (r: Task)
    ensures r.title == Some(title)
    ensures r.(title := t.title) == t
  {
    t.(title := Some(title))
  }

  function SetDescription(t: Task, description: Option<string>): (r: Task)
    ensures r.description == description
    ensures r.(description := t.description) == t
  {
    t.(description := description)
  }

  function SetStatus(t: Task, status: string): (r: Task)
    ensures r.status == Some(status)
    ensures r.(status := t.status) == t
  {
    t.(status := Some(status))
  }

  function SetCreatedAt(t: Task, at: nat): (r: Task)
    ensures r.createdAt == Some(at)
    ensures r.(createdAt := t.createdAt) == t
  {
    t.(createdAt := Some(at))
  }

  function SetUpdatedAt(t: Task, at: nat): (r: Task)
    ensures r.updatedAt == Some(at)
    ensures r.(updatedAt := t.updatedAt) == t
  {
    t.(updatedAt := Some(at))
  }

  // ---------------------------------------------------------------------
  // Sequences of setter calls
  // ---------------------------------------------------------------------

  /** One call of one of the entity's setters, with its argument. */
  datatype SetterCall =
    | SetTitleTo(title: string)
    | SetDescriptionTo(description: Option<string>)
    | SetStatusTo(status: string)
    | SetCreatedAtTo(createdAt: nat)
    | SetUpdatedAtTo(updatedAt: nat)

  /** The fields a setter can write. */
  datatype Field = TitleField | DescriptionField | StatusField | CreatedAtField | UpdatedAtField

  function Target(call: SetterCall): Field
  {
    match call
    case SetTitleTo(_) => TitleField
    case SetDescriptionTo(_) => DescriptionField
    case SetStatusTo(_) => StatusField
    case SetCreatedAtTo(_) => CreatedAtField
    case SetUpdatedAtTo(_) => UpdatedAtField
  }

  function Call(t: Task, call: SetterCall): Task
  {
    match call
    case SetTitleTo(s) => SetTitle(t, s)
    case SetDescriptionTo(d) => SetDescription(t, d)
    case SetStatusTo(s) => SetStatus(t, s)
    case SetCreatedAtTo(at) => SetCreatedAt(t, at)
    case SetUpdatedAtTo(at) => SetUpdatedAt(t, at)
  }

  /** The task after the calls, made in order. */
  function CallAll(t: Task, calls: seq<SetterCall>): Task
    decreases |calls|
  {
    if calls == [] then t else CallAll(Call(t, calls[0]), calls[1..])
  }

  /** t and u agree on field f. */
  predicate SameOn(f: Field, t: Task, u: Task)
  {
    match f
    case TitleField => t.title == u.title
    case DescriptionField => t.description == u.description
    case StatusField => t.status == u.status
    case CreatedAtField => t.createdAt == u.createdAt
    case UpdatedAtField => t.updatedAt == u.updatedAt
  }

  /** The getter of the field the call targets returns the call's argument. */
  predicate Holds(call: SetterCall, t: Task)
  {
    match call
    case SetTitleTo(s) => t.title == Some(s)
    case SetDescriptionTo(d) => t.description == d
    case SetStatusTo(s) => t.status == Some(s)
    case SetCreatedAtTo(at) => t.createdAt == Some(at)
    case SetUpdatedAtTo(at) => t.updatedAt == Some(at)
  }

  /** No sequence of setter calls changes the id. */
  lemma {:induction false} CallAllKeepsId(t: Task, calls: seq<SetterCall>)
    ensures CallAll(t, calls).id == t.id
    decreases |calls|
  {
    if calls != [] {
      CallAllKeepsId(Call(t, calls[0]), calls[1..]);
    }
  }

  /** A field no call targets keeps its value. */
  lemma {:induction false} CallAllUntouched(t: Task, calls: seq<SetterCall>, f: Field)
    requires forall i :: 0 <= i < |calls| ==> Target(calls[i]) != f
    ensures SameOn(f, t, CallAll(t, calls))
    decreases |calls|
  {
    if calls != [] {
      CallAllUntouched(Call(t, calls[0]), calls[1..], f);
    }
  }

  lemma {:induction false} CallAllAppend(t: Task, a: seq<SetterCall>, b: seq<SetterCall>)
    ensures CallAll(t, a + b) == CallAll(CallAll(t, a), b)
    decreases |a|
  {
    if a == [] {
      assert a + b == b;
    } else {
      assert (a + b)[0] == a[0] && (a + b)[1..] == a[1..] + b;
      CallAllAppend(Call(t, a[0]), a[1..], b);
    }
  }

  /** Each getter returns what the matching setter last stored: after any
      calls, a call, and calls that leave its field alone, the field holds
      that call's argument. */
  lemma LastWriteWins(t: Task, before: seq<SetterCall>, call: SetterCall, after: seq<SetterCall>)
    requires forall i :: 0 <= i < |after| ==> Target(after[i]) != Target(call)
    ensures Holds(call, CallAll(t, before + [call] + after))
  {
    CallAllAppend(t, before + [call], after);
    CallAllAppend(t, before, [call]);
    var mid := CallAll(t, before + [call]);
    assert Holds(call, mid);
    CallAllUntouched(mid, after, Target(call));
  }
}
