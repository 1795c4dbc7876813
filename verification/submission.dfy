/** Comment submission as a state transition (`onSubmit` of the dish-detail
    component): the form's value becomes a dated comment appended to the
    dish, and the form is reset to its defaults. */
module Submission {
  import opened Wrappers
  import Validation

  /** A user comment on a dish. */
  datatype Comment = Comment(rating: int, comment: string, author: string, date: string)

  /** The parts of a dish that submission touches. */
  datatype Dish = Dish(id: string, comments: seq<Comment>)

  /** The value of the comment form. */
  datatype FormValue = FormValue(author: string, comment: string, rating: int)

  /** The comment form: its value and the state of its controls. */
  datatype CommentForm = CommentForm(value: FormValue, controls: Validation.Form)

  /** The component's state that `onSubmit` reads or writes. */
  datatype DetailState = DetailState(
    dish: Dish,
    comment: Option<Comment>,
    form: CommentForm,
    formErrors: Validation.FormErrors)

  /** The value `resetForm` is given after a submission. */
  const ResetValue: FormValue := FormValue("", "", 5)

  /** The form value with the submission time filled in. */
  function ToComment(v: FormValue, date: string): (c: Comment)
    ensures c.author == v.author && c.comment == v.comment && c.rating == v.rating && c.date == date
  {
    Comment(v.rating, v.comment, v.author, date)
  }

  /** `resetForm(value)`: the form takes `value` and every control becomes
      pristine again. */
  function ResetForm(form: CommentForm, value: FormValue): (r: CommentForm)
    ensures r.value == value
    ensures r.controls.Keys == form.controls.Keys
    ensures forall f :: f in r.controls ==> !r.controls[f].dirty
    ensures forall f :: f in r.controls ==> r.controls[f].valid == form.controls[f].valid
  {
    CommentForm(value, map f | f in form.controls :: form.controls[f].(dirty := false))
  }

  /** `onSubmit`, with the clock reading `now` (its ISO-8601 text) as a
      parameter. The reset emits a value change, so the messages are
      recomputed as well. */
  function OnSubmit(s: DetailState, now: string): (t: DetailState)
    requires s.formErrors.Keys <= Validation.ValidationMessages.Keys
    ensures |t.dish.comments| == |s.dish.comments| + 1
    ensures t.dish.comments[..|s.dish.comments|] == s.dish.comments
    ensures t.dish.comments[|s.dish.comments|] == ToComment(s.form.value, now)
    ensures t.comment == Some(ToComment(s.form.value, now))
    ensures t.dish.id == s.dish.id
    ensures t.form.value == ResetValue
    ensures t.formErrors.Keys == s.formErrors.Keys
    ensures forall f :: f in t.formErrors ==> t.formErrors[f] == ""
  {
    var c := ToComment(s.form.value, now);
    var form := ResetForm(s.form, ResetValue);
    Validation.PristineShowsNothing(s.formErrors, form.controls, Validation.ValidationMessages);
    DetailState(
      s.dish.(comments := s.dish.comments + [c]),
      Some(c),
      form,
      Validation.OnValueChanged(s.formErrors, Some(form.controls), Validation.ValidationMessages))
  }

  /** One round of use: the user fills the form with `value`, then submits
      it at time `now`. */
  datatype Entry = Entry(value: FormValue, now: string)

  /** The state after the entries are submitted one after another. */
  function SubmitAll(s: DetailState, entries: seq<Entry>): DetailState
    requires s.formErrors.Keys <= Validation.ValidationMessages.Keys
    decreases |entries|
  {
    if |entries| == 0 then s
    else
      var filled := s.(form := s.form.(value := entries[0].value));
      var next := OnSubmit(filled, entries[0].now);
      SubmitAll(next, entries[1..])
  }

  /** The comments each entry becomes, in order. */
  function CommentsOf(entries: seq<Entry>): (cs: seq<Comment>)
    ensures |cs| == |entries|
  {
    if |entries| == 0 then [] else [ToComment(entries[0].value, entries[0].now)] + CommentsOf(entries[1..])
  }

  /** Submissions only ever append: after any series of them the dish holds
      its earlier comments, unchanged and in order, followed by one comment
      per submission in submission order, and the dish is still the same. */
  lemma {:induction false} SubmitAllAppends(s: DetailState, entries: seq<Entry>)
    requires s.formErrors.Keys <= Validation.ValidationMessages.Keys
    ensures SubmitAll(s, entries).dish.comments == s.dish.comments + CommentsOf(entries)
    ensures SubmitAll(s, entries).dish.id == s.dish.id
    decreases |entries|
  {
    if |entries| > 0 {
      var filled := s.(form := s.form.(value := entries[0].value));
      var next := OnSubmit(filled, entries[0].now);
      SubmitAllAppends(next, entries[1..]);
      assert next.dish.comments == s.dish.comments + [ToComment(entries[0].value, entries[0].now)];
    }
  }
}
