# DynamicForm controller, modelled in Dafny

`DynamicForm` is a React component that renders a form for one of three
categories ("User Information", "Address Information", "Payment Information").
Each category has a fixed list of fields from a built-in catalog. The
component tracks how many required fields are filled, validates on submit, and
keeps the submitted records per category in memory. Those records can be
loaded back into the form for editing, or deleted.

This project models the component's controller: the catalog, the eight state
cells, and the handlers `handleDropdownChange`, `handleInputChange`,
`updateProgress`, `validateForm`, `handleSubmit`, `handleEdit` and
`handleDelete`. It also models the timer callback that clears the feedback
message.

Layout:

- `Wrappers.dfy`: `Option`.
- `Text.dfy`: the whitespace set shared by JavaScript's `\s` and `trim`, the
  letters-only pattern `^[a-zA-Z\s]*$`, and `trim`.
- `Catalog.dfy`: the field catalog (`mockApiResponse`) and its shape.
- `FormLogic.dfy`: the expression-level logic:
  - what counts as filled;
  - the required-field filters;
  - the progress percentage;
  - validation;
  - the letters-only check;
  - the record tagged with its category.
- `RecordStore.dfy`: the two list operations the store performs, the indexed
  assignment of the edit path and the index filter of delete.
- `Form.dfy`: the controller as a state machine. It has:
  - a `FormState` value with one field per state cell;
  - one transition function per handler;
  - the state invariant `Inv` and a lemma per handler that keeps it;
  - the multi-step properties: the edit/submit round trip, the progress lag,
    and worked examples.
- `Controller.dfy`: the component as a class `DynamicForm` whose fields are the
  state cells. Each handler is a method that updates the fields step by step.
  Each event handler method is proved to end in the state the matching `Form`
  transition gives, and to keep the invariant. The two helpers
  `UpdateProgress` and `ValidateForm` state their effect on the one cell each
  may change, `progress` and `feedback`.

One handler runs to completion before the next event. The state updates a
handler queues are applied in the order it issues them. Two consequences the
model keeps:

- `handleInputChange` calls `updateProgress`, whose closure still sees the form
  data from before the input. So the progress bar lags one input behind
  (`Form.ProgressLagsOneInput`).
- `handleDropdownChange` (DynamicForm.jsx:59-81) never calls `setEditIndex`,
  so edit mode survives a category change: `Form.DropdownChange` keeps the
  edit index, and a later submit saves into the newly selected category at
  that index.

## Model

| member | source | states |
|---|---|---|
| Text.LettersOnly | DynamicForm.jsx:89-90 | the pattern accepts exactly the strings whose every character is an ASCII letter or JavaScript whitespace |
| Text.TrimStart | DynamicForm.jsx:106 | the result is a suffix of the input; every dropped character is whitespace; the result does not start with whitespace |
| Text.TrimEnd | DynamicForm.jsx:106 | the result is a prefix of the input; every dropped character is whitespace; the result does not end with whitespace |
| Text.Trim | DynamicForm.jsx:106 | the trimmed string is the infix of the input left after dropping its leading and trailing whitespace: everything before and after it is whitespace, and when non-empty it neither starts nor ends with whitespace |
| Text.TrimEmptyIffBlank | DynamicForm.jsx:153 | trimming yields the empty string exactly when every character is whitespace |
| Catalog.FieldNames | DynamicForm.jsx:26-56 | the names of a field list, position by position |
| Catalog.CatalogShape | DynamicForm.jsx:26-56 | the catalog has exactly the three categories; each has a required field, distinct field names, and options exactly on dropdowns |
| Catalog.CategoryHasRequired | DynamicForm.jsx:26-56 | every catalog category has a non-empty field list with a required field, so the progress denominator is never zero |
| Catalog.Lookup | DynamicForm.jsx:74-75 | a lookup yields fields exactly for catalog categories, and then the catalog's list for that category |
| FormLogic.FilledIsTrimTest | DynamicForm.jsx:106 | "filled" means present, non-empty and non-empty after trimming, as the truthiness-and-trim test reads |
| FormLogic.RequiredFields | DynamicForm.jsx:104 | the filter keeps only required fields and never grows the list |
| FormLogic.RequiredFieldsExact | DynamicForm.jsx:104 | a field is in the filtered list exactly when it is in the list and required, so no required field is dropped |
| FormLogic.RequiredFieldsNonEmpty | DynamicForm.jsx:104 | a list with a required field keeps at least one field through the filter |
| FormLogic.FilledCount | DynamicForm.jsx:105-107 | the filled count never exceeds the required count, and equals it exactly when every required field is filled |
| FormLogic.PercentBounds | DynamicForm.jsx:108 | filled/required*100 lies in [0, 100] and is 100 exactly when filled equals required |
| FormLogic.Progress | DynamicForm.jsx:103-109 | progress is a percentage, and is 100 exactly when every required field is filled |
| FormLogic.FilledCountMonotone | DynamicForm.jsx:105-107 | data that fill a superset of names never have fewer filled required fields |
| FormLogic.ProgressMonotone | DynamicForm.jsx:103-109 | storing a non-blank value never lowers progress |
| FormLogic.FilledPlusMissing | DynamicForm.jsx:104-107 | every required field is counted either as filled by the progress bar or as missing by validation: the two counts add up to the number of required fields |
| FormLogic.Missing | DynamicForm.jsx:152-154 | the error list holds only required, unfilled fields and is empty exactly when all required fields are filled |
| FormLogic.Validate | DynamicForm.jsx:151-160 | validation passes exactly when every required field is filled |
| FormLogic.ValidateIffProgressFull | DynamicForm.jsx:151-160 | validation passes exactly when the progress of the same data would be 100 |
| FormLogic.Accepts | DynamicForm.jsx:88-93 | a value is accepted unless the field is letters-only and the value has a character outside letters and whitespace |
| FormLogic.Tag | DynamicForm.jsx:116 | the record has the data's keys plus the tag key; the tag holds the category; every other value is kept |
| FormLogic.TagAlreadyTagged | DynamicForm.jsx:116 | tagging a record that already carries its category changes nothing |
| RecordStore.ReplaceAt | DynamicForm.jsx:127-128 | indexed assignment: the slot holds the new record, every other entry is kept, and assigning at the length appends |
| RecordStore.Without | DynamicForm.jsx:173 | the filter removes exactly the entry at an in-range index, keeping the others in order, and removes nothing otherwise |
| RecordStore.WithoutSubset | DynamicForm.jsx:173 | nothing appears in the list after a removal that was not there before |
| Form.FormTypeKeyIsNoField | DynamicForm.jsx:26-56 | no catalog field is named `formType`, so the tag never overwrites a field value |
| Form.TaggedRecordFits | DynamicForm.jsx:114-116 | valid data of a category, once tagged, is a record that fits that category |
| Form.StoreFitsUpdate | DynamicForm.jsx:120-123 | replacing one category's list with fitting records keeps the whole store fitting |
| Form.Initial | DynamicForm.jsx:12-23 | the initial state satisfies the invariant, with an empty list per category and no selection, data or edit index |
| Form.DropdownChange | DynamicForm.jsx:59-81 | selection clears data, progress and messages; empty and unknown choices show no fields with their error; a catalog category shows its fields; store and edit index kept |
| Form.DropdownChangeKeepsInv | DynamicForm.jsx:59-81 | a category change keeps the invariant |
| Form.InputChange | DynamicForm.jsx:84-99 | a refused value leaves the data and progress and sets the letters-only error; an accepted one is stored raw, clears the error and sets progress from the data before the input |
| Form.InputChangeKeepsInv | DynamicForm.jsx:84-99 | an input keeps the invariant: values stay under visible names and passed the check |
| Form.ProgressLagsOneInput | DynamicForm.jsx:97-108 | after two accepted inputs the bar shows the progress of the data after the first input only |
| Form.ValidateForm | DynamicForm.jsx:151-160 | a form with an unfilled required field gets the generic feedback; otherwise nothing changes |
| Form.SubmitOutcomeOf | DynamicForm.jsx:112-134 | submit ends incomplete, fails on a missing list, inserts, saves or meets an index past the end, each under exactly its condition |
| Form.ResetAfterSubmit | DynamicForm.jsx:136-141 | after filing, the form has no fields, data or selection, progress 100, no edit index; the error is kept |
| Form.Submit | DynamicForm.jsx:112-148 | the state after a submit for each outcome: feedback only, unchanged, appended then reset, or replaced then reset |
| Form.ResetKeepsInv | DynamicForm.jsx:136-141 | the reset form satisfies the invariant for any fitting store |
| Form.SubmittedListFits | DynamicForm.jsx:118-132 | every record in the list a submit files under the category fits that category |
| Form.FilingKeepsInv | DynamicForm.jsx:114-141 | a submit that files a record keeps the invariant |
| Form.SubmitKeepsInv | DynamicForm.jsx:112-148 | every submit keeps the invariant |
| Form.SubmitInsertAppendsOne | DynamicForm.jsx:118-124 | an insert adds exactly the tagged data at the end of the selected list; every other list is unchanged |
| Form.SubmitEditReplacesOnlyRow | DynamicForm.jsx:125-133 | saving an edit of an existing row replaces that row only; the list keeps its length |
| Form.Edit | DynamicForm.jsx:163-169 | editing loads the stored row, remembers its index and selects its category's fields; store, messages and progress are kept |
| Form.EditKeepsInv | DynamicForm.jsx:163-169 | loading a stored row keeps the invariant |
| Form.EditThenSubmitRoundTrip | DynamicForm.jsx:125-133 | editing a row and submitting it unchanged saves, and leaves the store exactly as it was |
| Form.Delete | DynamicForm.jsx:172-184 | deleting removes the entry at an in-range index, keeping order, touches no other list and sets the deletion feedback |
| Form.DeleteKeepsInv | DynamicForm.jsx:172-178 | a deletion keeps the invariant |
| Form.ClearFeedback | DynamicForm.jsx:144-146 | the timer callback clears the feedback and nothing else |
| Form.HalfOfUserFields | DynamicForm.jsx:103-108 | with only the first name filled, User Information progress is 50 |
| Form.SelectingUserInformation | DynamicForm.jsx:59-81 | selecting User Information from the initial state shows its three fields with nothing filled |
| Form.TypingAnn | DynamicForm.jsx:84-99 | typing "Ann" as first name stores it and shows 0 |
| Form.TypingLee | DynamicForm.jsx:84-99 | then typing "Lee" as last name stores it and shows 50 |
| Form.AnnLeeComplete | DynamicForm.jsx:112-118 | with both names typed, the submit files a new record |
| Form.SubmittingAnnLee | DynamicForm.jsx:112-141 | that submit files one record tagged User Information, shows the success feedback and resets progress to 100 |
| Form.EmptySubmitScenario | DynamicForm.jsx:150-158 | `handleSubmit`, called on Address Information with nothing filled, stores nothing and only sets the generic feedback |
| Form.SubmitBeforeSelecting | DynamicForm.jsx:114-122 | with no category selected validation passes, and the submit fails on the missing list |
| Controller.DynamicForm.constructor | DynamicForm.jsx:12-23 | the new component is in the initial state and satisfies the invariant |
| Controller.DynamicForm.HandleDropdownChange | DynamicForm.jsx:59-81 | the cells end as the dropdown transition gives, and the invariant is kept |
| Controller.DynamicForm.HandleInputChange | DynamicForm.jsx:84-99 | the cells end as the input transition gives, and the invariant is kept |
| Controller.DynamicForm.UpdateProgress | DynamicForm.jsx:103-109 | progress becomes the percentage for the captured data; it is 100 exactly when their required fields are all filled |
| Controller.DynamicForm.ValidateForm | DynamicForm.jsx:151-160 | returns whether every required visible field is filled, and otherwise sets the generic feedback |
| Controller.DynamicForm.HandleSubmit | DynamicForm.jsx:112-148 | returns the outcome and leaves the cells as the submit transition gives; the invariant is kept |
| Controller.DynamicForm.HandleEdit | DynamicForm.jsx:163-169 | the cells end as the edit transition gives, and the invariant is kept |
| Controller.DynamicForm.HandleDelete | DynamicForm.jsx:172-184 | the cells end as the delete transition gives, and the invariant is kept |
| Controller.DynamicForm.ClearFeedback | DynamicForm.jsx:144-146 | only the feedback is cleared, and the invariant is kept |

## Left out

- Rendering is not modelled: the JSX tree, the progress bar, the CSS, and the tables grouped by category.
- The 3-second `setTimeout` is modelled as a separate `ClearFeedback` event that may arrive at any time. The delay itself and the uncancelled timer are not modelled.
- FormLogic.Progress: computes filled/required*100 in exact rational arithmetic. JavaScript divides in IEEE doubles, so with one of Address Information's three required fields filled it shows 33.33333333333333 where the model has exactly 100/3.
- FormLogic.Progress: requires a required field, so the NaN of a category with only optional fields is not modelled. Every catalog category has a required field (`Catalog.CategoryHasRequired`), and progress is only recomputed when an input of a shown category changes.
- Form.Submit: `NoListForCategory` stands for the TypeError the source raises when it spreads or copies the missing list of a selection that is not a catalog category. The model leaves the state unchanged and reports the outcome. It does not model that the error escapes the handler, nor that on the insert path it is raised inside the queued updater.
- Form.Submit: `IndexPastEnd` stands for an edit index beyond the end of its list, reachable after deleting rows during an edit, or by switching category during an edit to a category with a shorter list. JavaScript's assignment there leaves holes; the model leaves the state unchanged.
- The browser's own check of the `required` attributes is not modelled: every submit is taken to reach `handleSubmit`. In the page, the form's submit (DynamicForm.jsx:196, 246) is blocked while a required input (DynamicForm.jsx:234-240) is empty or a required select (DynamicForm.jsx:220-226) shows its "" placeholder, so `validateForm`'s failure branch (DynamicForm.jsx:155-157) is then reached only for whitespace-only values. The `state` select has no `value` prop, so after `handleEdit` it usually shows its placeholder (the inputs were unmounted by the reset after submit), and the browser then blocks saving an Address Information row until a state is chosen again. `Form.EmptySubmitScenario` and `Form.EditThenSubmitRoundTrip` are therefore properties of the handlers, not of clicks. The category select (DynamicForm.jsx:199-203) is not required, so the route of `Form.SubmitBeforeSelecting` is not blocked.
- Form.InputChange: requires the input's name to be a visible field, because only rendered inputs raise change events.
- Form.Edit: requires an existing row, because only rendered rows have edit buttons. Form.Delete likewise requires the category's list.
- Strings are sequences of Unicode scalar values, not UTF-16 code units. The whitespace set of `\s` and `trim` is written out explicitly; it contains no character outside the Basic Multilingual Plane.
- Catalog.Lookup: treats every non-catalog choice as absent. In JavaScript a key of `Object.prototype` such as "toString" would find an inherited property; the dropdown offers no such choice.
- The form data may also hold the `formType` tag after an edit, because the loaded record carries it. The invariant allows exactly this key besides the visible fields' names.
