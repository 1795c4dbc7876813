/** Validation-message aggregation of the comment form (`onValueChanged` of
    the dish-detail component, with its `formErrors` and
    `validationMessages` tables). */
module Validation {
  import opened Wrappers

  type Field = string
  type ErrorKey = string

  /** Per field, the message shown for each error key. */
  type MessageTable = map<Field, map<ErrorKey, string>>

  /** What the form framework reports about one control: whether the user
      has changed it, whether it passes its validators, and the keys of the
      validators it fails, in the order the framework lists them. */
  datatype Control = Control(dirty: bool, valid: bool, errors: seq<ErrorKey>)

  /** The controls of the form, by name. */
  type Form = map<Field, Control>

  /** The message currently shown under each reported field. */
  type FormErrors = map<Field, string>

  /** `formErrors` as the component starts: only author and comment are reported. */
  const InitialFormErrors: FormErrors := map["author" := "", "comment" := ""]

  /** `validationMessages`. */
  const ValidationMessages: MessageTable := map[
    "author" := map[
      "required" := "Author Name is required.",
      "minlength" := "Author Name must be at least 2 characters long.",
      "maxlength" := "Author cannot be more than 25 characters long."],
    "comment" := map[
      "required" := "Comment is required.",
      "minlength" := "Comment must be at least 2 characters long."]]

  /** The error keys of the validators the form attaches to each control. */
  const AttachedValidators: map<Field, seq<ErrorKey>> := map[
    "author" := ["required", "minlength", "maxlength"],
    "comment" := ["required", "minlength"],
    "rating" := []]

  /** `messages[key]` as JavaScript turns it into text: a key with no
      configured message reads as "undefined". */
  function MessageFor(messages: map<ErrorKey, string>, key: ErrorKey): (s: string)
    ensures key in messages ==> s == messages[key]
    ensures key !in messages ==> s == "undefined"
  {
    if key in messages then messages[key] else "undefined"
  }

  /** What one error key contributes: its message and one space. */
  function Piece(messages: map<ErrorKey, string>, key: ErrorKey): (s: string)
    ensures |s| > 0 && s[|s| - 1] == ' '
  {
    MessageFor(messages, key) + " "
  }

  /** The text built for a list of error keys: each key's message followed
      by one space, in order. */
  function Summary(messages: map<ErrorKey, string>, keys: seq<ErrorKey>): (s: string)
    ensures s == "" <==> |keys| == 0
    ensures |keys| > 0 ==> s[|s| - 1] == ' '
    ensures |s| >= |keys|
  {
    if |keys| == 0 then ""
    else Piece(messages, keys[0]) + Summary(messages, keys[1..])
  }

  /** Summaries concatenate: the text for `a + b` is the text for `a`
      followed by the text for `b`. */
  lemma {:induction false} SummaryAppend(messages: map<ErrorKey, string>, a: seq<ErrorKey>, b: seq<ErrorKey>)
    ensures Summary(messages, a + b) == Summary(messages, a) + Summary(messages, b)
    decreases |a|
  {
    if |a| == 0 {
      assert a + b == b;
    } else {
      assert (a + b)[1..] == a[1..] + b;
      SummaryAppend(messages, a[1..], b);
    }
  }

  /** Extending a prefix of the keys by one key appends that key's message
      and a space. */
  lemma SummaryExtend(messages: map<ErrorKey, string>, keys: seq<ErrorKey>, i: nat)
    requires i < |keys|
    ensures Summary(messages, keys[..i + 1]) == Summary(messages, keys[..i]) + Piece(messages, keys[i])
  {
    var k := [keys[i]];
    assert k[1..] == [];
    assert Piece(messages, keys[i]) + [] == Piece(messages, keys[i]);
    assert Summary(messages, k) == Piece(messages, keys[i]);
    assert keys[..i + 1] == keys[..i] + k;
    SummaryAppend(messages, keys[..i], k);
  }

  /** The text made only of configured messages, each followed by one
      space: a reference for `Summary` that has no "undefined" case. */
  function ConfiguredSummary(messages: map<ErrorKey, string>, keys: seq<ErrorKey>): string
    requires forall i :: 0 <= i < |keys| ==> keys[i] in messages
  {
    if |keys| == 0 then "" else messages[keys[0]] + " " + ConfiguredSummary(messages, keys[1..])
  }

  /** When every error key has a configured message, the summary is the
      configured messages in key order, each followed by a space, and its
      length is the sum of their lengths plus one per key. */
  lemma {:induction false} SummaryOfConfigured(messages: map<ErrorKey, string>, keys: seq<ErrorKey>)
    requires forall i :: 0 <= i < |keys| ==> keys[i] in messages
    ensures |keys| > 0 ==>
              Summary(messages, keys) == messages[keys[0]] + " " + Summary(messages, keys[1..])
    ensures Summary(messages, keys) == ConfiguredSummary(messages, keys)
    ensures |Summary(messages, keys)| == ConfiguredLength(messages, keys)
    decreases |keys|
  {
    if |keys| > 0 {
      SummaryOfConfigured(messages, keys[1..]);
    }
  }

  /** The total length of the configured messages of `keys`, one space each. */
  function ConfiguredLength(messages: map<ErrorKey, string>, keys: seq<ErrorKey>): nat
    requires forall i :: 0 <= i < |keys| ==> keys[i] in messages
  {
    if |keys| == 0 then 0 else |messages[keys[0]]| + 1 + ConfiguredLength(messages, keys[1..])
  }

  /** `form.get(field)`: the named control, or none. */
  function Lookup(form: Form, field: Field): Option<Control> {
    if field in form then Some(form[field]) else None
  }

  /** The message one field receives: non-empty exactly when its control
      exists, is dirty, is invalid and reports at least one error key, and
      then it is the summary of those keys. */
  function FieldMessage(control: Option<Control>, messages: map<ErrorKey, string>): (s: string)
    ensures s != "" <==> control.Some? && control.value.dirty && !control.value.valid && |control.value.errors| > 0
    ensures s != "" ==> s[|s| - 1] == ' '
    ensures control.Some? && control.value.dirty && !control.value.valid ==> s == Summary(messages, control.value.errors)
  {
    if control.Some? && control.value.dirty && !control.value.valid then Summary(messages, control.value.errors)
    else ""
  }

  /** `onValueChanged` as a function: with no form nothing changes; with a
      form, every reported field is recomputed from its control alone. */
  function OnValueChanged(errs: FormErrors, form: Option<Form>, table: MessageTable): (r: FormErrors)
    requires errs.Keys <= table.Keys
    ensures r.Keys == errs.Keys
    ensures form.None? ==> r == errs
    ensures form.Some? ==> forall f :: f in r ==> r[f] == FieldMessage(Lookup(form.value, f), table[f])
  {
    if form.None? then errs
    else map f | f in errs :: FieldMessage(Lookup(form.value, f), table[f])
  }

  /** The inner loop of `onValueChanged`: `+=` of each error key's message
      and a space, key by key. */
  method AppendMessages(messages: map<ErrorKey, string>, keys: seq<ErrorKey>) returns (s: string)
    ensures s == Summary(messages, keys)
  {
    s := "";
    var i := 0;
    while i < |keys|
      invariant 0 <= i <= |keys|
      invariant s == Summary(messages, keys[..i])
    {
      SummaryExtend(messages, keys, i);
      s := s + Piece(messages, keys[i]);
      i := i + 1;
    }
    assert keys[..i] == keys;
  }

  /** The body of `onValueChanged` for one field: clear the message, then,
      when the control is dirty and invalid, append its error messages. */
  method ComputeFieldMessage(control: Option<Control>, messages: map<ErrorKey, string>) returns (message: string)
    ensures message == FieldMessage(control, messages)
  {
    message := "";
    if control.Some? && control.value.dirty && !control.value.valid {
      var text := AppendMessages(messages, control.value.errors);
      message := message + text;
    }
  }

  /** `onValueChanged` step by step: every field of `formErrors`, in
      enumeration order, gets its message recomputed. */
  method RecomputeErrors(errs: FormErrors, form: Option<Form>, table: MessageTable, fields: seq<Field>)
    returns (r: FormErrors)
    requires errs.Keys <= table.Keys
    requires forall i :: 0 <= i < |fields| ==> fields[i] in errs
    requires forall f :: f in errs ==> f in fields
    ensures r == OnValueChanged(errs, form, table)
  {
    if form.None? {
      return errs;
    }
    var controls := form.value;
    r := errs;
    var i := 0;
    while i < |fields|
      invariant 0 <= i <= |fields|
      invariant r.Keys == errs.Keys
      invariant forall j :: 0 <= j < i ==> r[fields[j]] == FieldMessage(Lookup(controls, fields[j]), table[fields[j]])
    {
      var field := fields[i];
      var message := ComputeFieldMessage(Lookup(controls, field), table[field]);
      r := r[field := message];
      i := i + 1;
    }
    assert forall f :: f in r ==> r[f] == OnValueChanged(errs, form, table)[f];
  }

  /** The messages do not depend on the previous ones: two `formErrors`
      with the same fields give the same result for the same form. */
  lemma HistoryIndependent(e1: FormErrors, e2: FormErrors, form: Form, table: MessageTable)
    requires e1.Keys == e2.Keys && e1.Keys <= table.Keys
    ensures OnValueChanged(e1, Some(form), table) == OnValueChanged(e2, Some(form), table)
  {
  }

  /** Recomputing from the recomputed messages changes nothing. */
  lemma Idempotent(errs: FormErrors, form: Option<Form>, table: MessageTable)
    requires errs.Keys <= table.Keys
    ensures OnValueChanged(OnValueChanged(errs, form, table), form, table) == OnValueChanged(errs, form, table)
  {
  }

  /** A form whose controls are all pristine shows no message at all. */
  lemma PristineShowsNothing(errs: FormErrors, form: Form, table: MessageTable)
    requires errs.Keys <= table.Keys
    requires forall f :: f in form ==> !form[f].dirty
    ensures forall f :: f in OnValueChanged(errs, Some(form), table) ==> OnValueChanged(errs, Some(form), table)[f] == ""
  {
  }

  /** Every validator attached to a reported control has a configured message. */
  lemma ValidatorsConfigured()
    ensures forall f :: f in InitialFormErrors ==> f in AttachedValidators && f in ValidationMessages
    ensures forall f, k :: f in InitialFormErrors && k in AttachedValidators[f] ==> k in ValidationMessages[f]
  {
  }

  /** For a reported field whose control fails only validators the form
      attaches, the message shown is made of configured messages alone:
      the "undefined" text of a missing key never appears. */
  lemma {:induction false} AttachedErrorsShowConfiguredMessages(field: Field, c: Control)
    requires field in InitialFormErrors
    requires field in AttachedValidators
    requires forall i :: 0 <= i < |c.errors| ==> c.errors[i] in AttachedValidators[field]
    ensures field in ValidationMessages
    ensures forall i :: 0 <= i < |c.errors| ==> c.errors[i] in ValidationMessages[field]
    ensures FieldMessage(Some(c), ValidationMessages[field])
         == if c.dirty && !c.valid then ConfiguredSummary(ValidationMessages[field], c.errors) else ""
  {
    ValidatorsConfigured();
    SummaryOfConfigured(ValidationMessages[field], c.errors);
  }

  /** Value changes, each a snapshot of the form's controls. */
  function ReportAll(errs: FormErrors, changes: seq<Form>): (r: FormErrors)
    requires errs.Keys <= ValidationMessages.Keys
  {
    if |changes| == 0 then errs
    else ReportAll(OnValueChanged(errs, Some(changes[0]), ValidationMessages), changes[1..])
  }

  /** However many value changes arrive, only author and comment are ever
      reported, and rating never receives an entry. */
  lemma {:induction false} OnlyAuthorAndComment(changes: seq<Form>)
    ensures ReportAll(InitialFormErrors, changes).Keys == {"author", "comment"}
    ensures "rating" !in ReportAll(InitialFormErrors, changes)
  {
    KeysKept(InitialFormErrors, changes);
  }

  /** Value changes never add or remove a field of `formErrors`. */
  lemma {:induction false} KeysKept(errs: FormErrors, changes: seq<Form>)
    requires errs.Keys <= ValidationMessages.Keys
    ensures ReportAll(errs, changes).Keys == errs.Keys
    decreases |changes|
  {
    if |changes| > 0 {
      KeysKept(OnValueChanged(errs, Some(changes[0]), ValidationMessages), changes[1..]);
    }
  }

  /** The worked cases for the author field. */
  lemma Examples()
    ensures FieldMessage(Some(Control(true, false, ["required"])), ValidationMessages["author"])
         == "Author Name is required. "
    ensures FieldMessage(Some(Control(false, false, ["required"])), ValidationMessages["author"]) == ""
    ensures FieldMessage(Some(Control(true, false, ["required", "minlength"])), ValidationMessages["author"])
         == "Author Name is required. " + "Author Name must be at least 2 characters long. "
  {
  }
}
