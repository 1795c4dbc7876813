# Dish-detail logic of the conFusion restaurant app, in Dafny

The dish-detail page of the conFusion Angular app shows one dish. Its
component (`src/app/dishdetail/dishdetail.component.ts`) holds the only logic
in the app beyond data binding. This project models that logic as pure
functions over immutable values and proves what it promises:

- **Navigation** (`navigation.dfy`) covers `setPrevNext`. Given the ordered
  dish ids and the current dish id, it finds the first occurrence with
  `indexOf`. It then reads the neighbours at `(n + i - 1) % n` and
  `(n + i + 1) % n`, so navigation wraps around both ends of the list.
  - `SetPrevNext` models the code as written for every input. JavaScript's
    truncating `%` is `JsRem`, and an out-of-range read is `None` (`undefined`).
  - `Neighbours` is the same navigation for an id taken from a non-empty list.
- **Validation** (`validation.dfy`) covers `onValueChanged`, with the
  `formErrors` and `validationMessages` tables. Every reported field is first
  cleared. If the field's control is dirty and invalid, the field gets each
  error key's message followed by one space, in the order the errors are listed.
- **Submission** (`submission.dfy`) covers `onSubmit`.
  - The form value, stamped with the submission time, is appended to the
    dish's comments.
  - The form is reset to author `''`, comment `''`, rating `5`, with every
    control pristine.
  - The reset emits a value change, so the messages are recomputed. After a
    submission they are all empty.
- `wrappers.dfy` holds the `Option` type. In this model `None` stands for
  JavaScript's `undefined`.

Parameters stand in for what the component gets from outside:
- the submission time (`new Date().toISOString()`) is the `now` argument of `OnSubmit`;
- the dirty flag, validity and error keys of each control are a `Control`
  value, because Angular's validators decide them;
- the dish-id list and the current dish arrive from the dish service and the
  router, and are plain arguments.

Two behaviours of the code are kept as written:
- `setPrevNext` raises nothing. An empty list leaves both neighbours
  `undefined`. An absent id is taken as index -1
  (`Navigation.OutsideContract`).
- A key with no configured message appends the text `"undefined "`
  (`Validation.MessageFor`). For a control that fails only the validators the
  form attaches, every key has a message, so the field's message is made of
  configured messages alone (`Validation.AttachedErrorsShowConfiguredMessages`).

## Model

| member | source | states |
|---|---|---|
| Navigation.IndexOf | src/app/dishdetail/dishdetail.component.ts:91 | `indexOf` gives -1 exactly when the id is absent; otherwise it gives a position holding the id, with no earlier position holding it |
| Navigation.JsRem | src/app/dishdetail/dishdetail.component.ts:92-93 | JavaScript `%` lies strictly between `-n` and `n` and takes the dividend's sign. It leaves dividends in `(-n, n)` unchanged and ignores whole laps of `n` on either side of zero. Together these determine truncating remainder exactly |
| Navigation.SetPrevNext | src/app/dishdetail/dishdetail.component.ts:90-94 | for any input, `prev` and `next` are defined exactly when the list is non-empty, and when defined they are ids from the list. Out-of-range reads (`JsAt`) give `undefined`; `SetPrevNextFound` and `OutsideContract` pin down which ids are read |
| Navigation.Neighbours | src/app/dishdetail/dishdetail.component.ts:90-94 | for an id in a non-empty list, `prev` and `next` are list members. They are the elements just before and just after its first occurrence, with the last element before the first and the first after the last |
| Navigation.SetPrevNextFound | src/app/dishdetail/dishdetail.component.ts:91-93 | the code as written, run on a found id, reads exactly the circular neighbours of its first occurrence |
| Navigation.WrappedIndices | src/app/dishdetail/dishdetail.component.ts:92-93 | for a found index, the dividends `n + i - 1` and `n + i + 1` are non-negative, and their remainders are the circular predecessor and successor of `i` in `[0, n)` |
| Navigation.WrapAround | src/app/dishdetail/dishdetail.component.ts:92-93 | the first dish's `prev` is the last dish; the last dish's `next` is the first, when the last id is not repeated earlier |
| Navigation.Singleton | src/app/dishdetail/dishdetail.component.ts:92-93 | in a one-dish list, `prev` and `next` are both the dish itself |
| Navigation.NextThenPrev | src/app/dishdetail/dishdetail.component.ts:90-94 | with distinct ids, going to `next` and then `prev` returns to the start, and so does `prev` then `next` |
| Navigation.NeverSelf | src/app/dishdetail/dishdetail.component.ts:90-94 | with distinct ids and at least two dishes, neither neighbour is the current dish |
| Navigation.OutsideContract | src/app/dishdetail/dishdetail.component.ts:91-93 | for an absent id: an empty list gives `undefined` twice; one dish gives that dish twice; otherwise `prev` is the next-to-last dish and `next` the first |
| Navigation.Examples | src/app/dishdetail/dishdetail.component.ts:90-94 | `[a,b,c]` from `a` gives `(c,b)` and from `c` gives `(b,a)`; with `a` repeated, its first occurrence decides |
| Validation.Summary | src/app/dishdetail/dishdetail.component.ts:66-70 | the built text is empty exactly when there are no error keys, always ends in a space otherwise, and has at least one character per key |
| Validation.SummaryAppend | src/app/dishdetail/dishdetail.component.ts:66-70 | the text for two lists of keys joined together is the text of the first followed by the text of the second |
| Validation.SummaryExtend | src/app/dishdetail/dishdetail.component.ts:68 | each `+=` step adds exactly one key's message and a space to the text built so far |
| Validation.SummaryOfConfigured | src/app/dishdetail/dishdetail.component.ts:65-70 | when every key has a configured message, the text equals the configured messages in key order, each followed by a space (`ConfiguredSummary`), and its length is the sum of their lengths plus one per key |
| Validation.FieldMessage | src/app/dishdetail/dishdetail.component.ts:62-71 | a field's message is non-empty exactly when its control exists, is dirty and invalid, and has an error. It is then the summary of those errors and ends in a space |
| Validation.OnValueChanged | src/app/dishdetail/dishdetail.component.ts:56-74 | with no form, `formErrors` is unchanged. With a form, the same fields are kept and each gets the message its own control calls for |
| Validation.AppendMessages | src/app/dishdetail/dishdetail.component.ts:66-70 | the key-by-key `+=` loop produces the summary of all error keys |
| Validation.ComputeFieldMessage | src/app/dishdetail/dishdetail.component.ts:62-71 | clearing a field and then appending its control's error messages yields exactly the field's message |
| Validation.RecomputeErrors | src/app/dishdetail/dishdetail.component.ts:56-74 | the field-by-field loop (clear, then append) produces the same map as the per-field definition, in any enumeration order of the fields |
| Validation.HistoryIndependent | src/app/dishdetail/dishdetail.component.ts:59-63 | because each field is cleared first, the result does not depend on the previous messages |
| Validation.Idempotent | src/app/dishdetail/dishdetail.component.ts:56-74 | recomputing from the recomputed messages gives the same map |
| Validation.PristineShowsNothing | src/app/dishdetail/dishdetail.component.ts:64 | when no control is dirty, every field's message is empty, whatever the validators report |
| Validation.AttachedErrorsShowConfiguredMessages | src/app/dishdetail/dishdetail.component.ts:64-69 | for author or comment, when the control fails only attached validators, each error key has a configured message. The field's message is then the configured messages followed by spaces if the control is dirty and invalid, and empty otherwise; the `undefined` text of `MessageFor` never appears |
| Validation.ValidatorsConfigured | src/app/dishdetail/dishdetail.component.ts:30-49 | every validator attached to author and comment has a configured message |
| Validation.OnlyAuthorAndComment | src/app/dishdetail/dishdetail.component.ts:25-28 | after any series of value changes, only author and comment have entries, and rating never gets one |
| Validation.KeysKept | src/app/dishdetail/dishdetail.component.ts:59-62 | value changes never add or remove a field of `formErrors` |
| Validation.Examples | src/app/dishdetail/dishdetail.component.ts:30-40 | a dirty author failing `required` shows "Author Name is required. ". A pristine one shows nothing. Failing `required` and `minlength` shows both messages, each followed by a space |
| Submission.OnSubmit | src/app/dishdetail/dishdetail.component.ts:96-107 | one more comment, appended last, with the earlier ones unchanged and the same dish. The new comment carries the form's author, comment and rating, dated `now` (`ToComment`). `resetForm` (`ResetForm`) puts the form value back to `('', '', 5)`, and every message is then empty |
| Submission.SubmitAllAppends | src/app/dishdetail/dishdetail.component.ts:100 | after any series of submissions, the comments are the original ones followed by one per submission, in order |

## Left out

- Data loading (`ngOnInit`): fetching dish ids and the dish by route parameter through rxjs subscriptions and `switchMap` is asynchronous plumbing. The model takes the id list and the dish as arguments.
- `goBack` and `Location`, templates and animations: these are UI concerns with no logic of their own.
- The `@ViewChild` form directive: only its wiring is left out. Its `resetForm` call is modelled by `Submission.ResetForm`.
- Angular's validators (`required`, `minLength(2)`, `maxLength(25)`): they live in the framework and are not part of this model. Each control's dirty flag, validity and error-key list are inputs.
- Submission.ResetForm: keeps each control's validity and error keys as they were, because the framework re-runs the validators on reset. The messages depend on those only for dirty controls, and after a reset no control is dirty.
- Submission.OnSubmit: models only the dish fields it touches (id and comments). It assumes the dish has loaded; a submission before then throws in the source.
- The clock: `new Date().toISOString()` is the opaque `now` parameter.
- Object sharing: `push` mutates the dish object the dish service handed out. The model returns a new dish value instead.
- `src/app/services/leader.service.ts`: canned data behind an artificial two-second delay. Its only logic is `filter(...)[0]` over a static array.
