/**
 The form controller as a state machine: the component's state cells as one
 value, and each event handler as a function from the state before the event
 to the state after it. Each handler runs to completion before the next event,
 so the updates it queues are applied in the order it issues them.
 */
module Form {
  import opened Wrappers
  import opened Text
  import opened Catalog
  import opened FormLogic
  import opened RecordStore

  const SelectPrompt: string := "Please select a valid form type."
  const NotLoaded: string := "Form structure could not be loaded."
  const LettersOnlyError: string := "Only letters are allowed in this field."
  const IncompleteFeedback: string := "Please fill in all required fields."
  const SubmittedFeedback: string := "Form submitted successfully."
  const SavedFeedback: string := "Changes saved successfully."
  const DeletedFeedback: string := "Entry deleted successfully."

  /** The component's state cells; `editIndex` None is `null`. */
  datatype FormState = FormState(
    fields: seq<Field>,                    // formFields
    data: Record,                          // formData
    selection: string,                     // dropdownSelection
    feedback: string,                      // feedbackMessage
    progress: real,                        // progress
    submitted: map<string, seq<Record>>,   // submittedData
    editIndex: Option<nat>,                // editIndex
    error: string)                         // errorMessage

  /**
   How a submit ends. `NoListForCategory` is the TypeError the source raises
   when the selected category has no list in the store (spreading or copying
   `undefined`); `IndexPastEnd` is an edit index beyond the end of the list,
   where the source's array assignment would leave holes.
   */
  datatype SubmitOutcome = Incomplete | Inserted | Saved | NoListForCategory | IndexPastEnd

  /**
   Values the form holds sit under names of the visible fields (or under the
   category tag a record being edited carries) and passed the input check.
   */
  ghost predicate ValuesFit(fields: seq<Field>, data: Record)
  {
    forall k :: k in data && k != FormTypeKey ==> k in FieldNames(fields) && Accepts(k, data[k])
  }

  /**
   A stored record is tagged with the category it is filed under, holds only
   that category's fields, with accepted values, and has every required one filled.
   */
  ghost predicate RecordFits(category: string, r: Record)
  {
    && category in Table
    && FormTypeKey in r && r[FormTypeKey] == category
    && ValuesFit(Table[category], r)
    && AllRequiredFilled(Table[category], r)
  }

  /** Every record filed under every category fits that category. */
  ghost predicate StoreFits(store: map<string, seq<Record>>)
  {
    forall c, r :: c in store && r in store[c] ==> RecordFits(c, r)
  }

  /**
   The state invariant: the store has a list for each catalog category and
   nothing else; the visible fields are those of the selected category (none
   when the selection is not a catalog category); the data fit them; every
   stored record fits its category; progress is a percentage.
   */
  ghost predicate Inv(s: FormState)
  {
    && s.submitted.Keys == Categories
    && (s.selection in Table ==> s.fields == Table[s.selection])
    && (s.selection !in Table ==> s.fields == [])
    && (s.fields != [] ==> HasRequired(s.fields))
    && ValuesFit(s.fields, s.data)
    && (FormTypeKey in s.data ==> s.data[FormTypeKey] == s.selection)
    && StoreFits(s.submitted)
    && 0.0 <= s.progress <= 100.0
  }

  /** No catalog field is called `formType`, so the tag never hides a field value. */
  lemma FormTypeKeyIsNoField(category: string)
    requires category in Table
    ensures FormTypeKey !in FieldNames(Table[category])
  {
    assert FieldNames(UserFields) == ["firstName", "lastName", "age"];
    assert FieldNames(AddressFields) == ["street", "city", "state", "zipCode"];
    assert FieldNames(PaymentFields) == ["cardNumber", "expiryDate", "cvv", "cardholderName"];
  }

  /** Complete data of a category, tagged with that category, make a fitting record. */
  lemma TaggedRecordFits(category: string, data: Record)
    requires category in Table
    requires ValuesFit(Table[category], data) && AllRequiredFilled(Table[category], data)
    ensures RecordFits(category, Tag(data, category))
  {
    FormTypeKeyIsNoField(category);
    var fields := Table[category];
    var r := Tag(data, category);
    forall i | 0 <= i < |fields| && fields[i].required ensures Filled(r, fields[i].name) {
      assert FieldNames(fields)[i] == fields[i].name;
    }
  }

  /** Replacing one category's list by fitting records keeps the whole store fitting. */
  lemma StoreFitsUpdate(store: map<string, seq<Record>>, category: string, entries: seq<Record>)
    requires StoreFits(store)
    requires forall r :: r in entries ==> RecordFits(category, r)
    ensures StoreFits(store[category := entries])
  {
  }

  // ---------------------------------------------------------------------------
  // Initial state

  /** The initial values of the `useState` cells. */
  function Initial(): (s: FormState)
    ensures Inv(s)
    ensures s.submitted.Keys == Categories && forall c :: c in s.submitted ==> s.submitted[c] == []
    ensures s.fields == [] && s.data == map[] && s.selection == "" && s.editIndex == None
  {
    FormState([], map[], "", "", 0.0,
      map[UserInformation := [], AddressInformation := [], PaymentInformation := []], None, "")
  }

  // ---------------------------------------------------------------------------
  // handleDropdownChange

  /**
   Selecting `choice` records it and clears data, progress and both messages.
   An empty choice shows no fields and asks for a valid type; a choice the
   catalog does not list shows no fields and reports that it could not be
   loaded; a catalog category shows exactly its fields, in catalog order. The
   store and the edit index are left as they were.
   */
  function DropdownChange(s: FormState, choice: string): (r: FormState)
    ensures r.selection == choice && r.data == map[] && r.progress == 0.0 && r.feedback == ""
    ensures r.submitted == s.submitted && r.editIndex == s.editIndex
    ensures choice == "" ==> r.fields == [] && r.error == SelectPrompt
    ensures choice != "" && choice !in Table ==> r.fields == [] && r.error == NotLoaded
    ensures choice in Table ==> r.fields == Table[choice] && r.error == ""
  {
    var cleared := s.(selection := choice, fields := [], data := map[], progress := 0.0,
                      feedback := "", error := "");
    if choice == "" then cleared.(error := SelectPrompt)
    else
      var structure := Lookup(choice);
      if structure == [] then cleared.(error := NotLoaded)
      else cleared.(fields := structure)
  }

  lemma DropdownChangeKeepsInv(s: FormState, choice: string)
    requires Inv(s)
    ensures Inv(DropdownChange(s, choice))
  {
    if choice in Table {
      CategoryHasRequired(choice);
    }
  }

  // ---------------------------------------------------------------------------
  // handleInputChange and updateProgress

  /**
   A change of the input `name` to `value`. For a letters-only field, a value
   with any character other than an ASCII letter or whitespace leaves the data
   as they were and sets the letters-only error. Otherwise the raw value is
   stored and the error cleared, and progress is recomputed from the data the
   handler's closure captured: those from before this input.
   */
  function InputChange(s: FormState, name: string, value: string): (r: FormState)
    requires Inv(s)
    requires name in FieldNames(s.fields)  // only rendered inputs raise change events
    ensures r.fields == s.fields && r.selection == s.selection && r.feedback == s.feedback
    ensures r.submitted == s.submitted && r.editIndex == s.editIndex
    ensures Accepts(name, value) ==>
      r.data == s.data[name := value] && r.error == "" && r.progress == Progress(s.fields, s.data)
    ensures !Accepts(name, value) ==>
      r.data == s.data && r.error == LettersOnlyError && r.progress == s.progress
  {
    if !Accepts(name, value) then s.(error := LettersOnlyError)
    else s.(error := "", data := s.data[name := value], progress := Progress(s.fields, s.data))
  }

  lemma InputChangeKeepsInv(s: FormState, name: string, value: string)
    requires Inv(s)
    requires name in FieldNames(s.fields)
    ensures Inv(InputChange(s, name, value))
  {
    if s.selection in Table {
      FormTypeKeyIsNoField(s.selection);
    }
  }

  /**
   The progress shown after an accepted input is that of the data one input
   earlier: after two accepted inputs it reflects only the first of them.
   */
  lemma ProgressLagsOneInput(s: FormState, n1: string, v1: string, n2: string, v2: string)
    requires Inv(s)
    requires n1 in FieldNames(s.fields) && n2 in FieldNames(s.fields)
    requires Accepts(n1, v1) && Accepts(n2, v2)
    ensures Inv(InputChange(s, n1, v1))
    ensures var s2 := InputChange(InputChange(s, n1, v1), n2, v2);
      s2.data == s.data[n1 := v1][n2 := v2] && s2.progress == Progress(s.fields, s.data[n1 := v1])
  {
    InputChangeKeepsInv(s, n1, v1);
  }

  // ---------------------------------------------------------------------------
  // validateForm and handleSubmit

  /** `validateForm`: the generic feedback when a required visible field is not filled. */
  function ValidateForm(s: FormState): (r: FormState)
    ensures r == if AllRequiredFilled(s.fields, s.data) then s else s.(feedback := IncompleteFeedback)
  {
    if Validate(s.fields, s.data) then s else s.(feedback := IncompleteFeedback)
  }

  /** How a submit from state `s` ends. */
  function SubmitOutcomeOf(s: FormState): (o: SubmitOutcome)
    ensures o == Incomplete <==> !AllRequiredFilled(s.fields, s.data)
    ensures o == NoListForCategory <==> AllRequiredFilled(s.fields, s.data) && s.selection !in s.submitted
    ensures o == Inserted <==>
      AllRequiredFilled(s.fields, s.data) && s.selection in s.submitted && s.editIndex.None?
    ensures o == Saved <==>
      && AllRequiredFilled(s.fields, s.data) && s.selection in s.submitted
      && s.editIndex.Some? && s.editIndex.value <= |s.submitted[s.selection]|
    ensures o == IndexPastEnd <==>
      && AllRequiredFilled(s.fields, s.data) && s.selection in s.submitted
      && s.editIndex.Some? && s.editIndex.value > |s.submitted[s.selection]|
  {
    if !Validate(s.fields, s.data) then Incomplete
    else if s.selection !in s.submitted then NoListForCategory
    else match s.editIndex
      case None => Inserted
      case Some(i) => if i <= |s.submitted[s.selection]| then Saved else IndexPastEnd
  }

  /**
   The form after a successful submit: no fields, no data, no selection,
   progress 100, not editing; the error message is left as it was.
   */
  function ResetAfterSubmit(s: FormState, store: map<string, seq<Record>>, message: string): (r: FormState)
    ensures r.fields == [] && r.data == map[] && r.selection == "" && r.progress == 100.0
    ensures r.editIndex == None && r.error == s.error
    ensures r.submitted == store && r.feedback == message
  {
    s.(submitted := store, feedback := message, fields := [], data := map[], selection := "",
       progress := 100.0, editIndex := None)
  }

  /**
   `handleSubmit`: validation failure only sets the feedback; a valid form
   tags its data with the selected category and appends the record to that
   category's list, or, when editing, stores it at the edit index, and then
   resets. The two failing outcomes leave the state as it was.
   */
  function Submit(s: FormState): (r: FormState)
    ensures SubmitOutcomeOf(s) == Incomplete ==> r == s.(feedback := IncompleteFeedback)
    ensures SubmitOutcomeOf(s) in {NoListForCategory, IndexPastEnd} ==> r == s
    ensures SubmitOutcomeOf(s) == Inserted ==>
      var c := s.selection;
      r == ResetAfterSubmit(s, s.submitted[c := s.submitted[c] + [Tag(s.data, c)]], SubmittedFeedback)
    ensures SubmitOutcomeOf(s) == Saved ==>
      var c := s.selection;
      r == ResetAfterSubmit(s, s.submitted[c := ReplaceAt(s.submitted[c], s.editIndex.value, Tag(s.data, c))],
                            SavedFeedback)
  {
    var checked := ValidateForm(s);
    match SubmitOutcomeOf(s)
    case Incomplete => checked
    case NoListForCategory => s
    case IndexPastEnd => s
    case Inserted =>
      var c := s.selection;
      ResetAfterSubmit(s, s.submitted[c := s.submitted[c] + [Tag(s.data, c)]], SubmittedFeedback)
    case Saved =>
      var c := s.selection;
      ResetAfterSubmit(s, s.submitted[c := ReplaceAt(s.submitted[c], s.editIndex.value, Tag(s.data, c))],
                       SavedFeedback)
  }

  /** The reset after a submit keeps the invariant for any store that fits. */
  lemma ResetKeepsInv(s: FormState, store: map<string, seq<Record>>, message: string)
    requires store.Keys == Categories && StoreFits(store)
    ensures Inv(ResetAfterSubmit(s, store, message))
  {
  }

  /** The list a valid submit files under category `c` holds only fitting records. */
  lemma SubmittedListFits(s: FormState)
    requires Inv(s)
    requires SubmitOutcomeOf(s) in {Inserted, Saved}
    ensures var c := s.selection;
      forall r :: r in Submit(s).submitted[c] ==> RecordFits(c, r)
  {
    var c := s.selection;
    var updated := Tag(s.data, c);
    TaggedRecordFits(c, s.data);
    var entries := s.submitted[c];
    var filed := Submit(s).submitted[c];
    forall r | r in filed ensures RecordFits(c, r) {
      var j :| 0 <= j < |filed| && filed[j] == r;
      if j < |entries| && (s.editIndex.None? || j != s.editIndex.value) {
        assert r == entries[j] && r in entries;
      }
    }
  }

  /** The invariant does not constrain the feedback message. */
  lemma FeedbackKeepsInv(s: FormState, message: string)
    requires Inv(s)
    ensures Inv(s.(feedback := message))
  {
  }

  /** A submit that files a record keeps the invariant. */
  lemma FilingKeepsInv(s: FormState)
    requires Inv(s)
    requires SubmitOutcomeOf(s) in {Inserted, Saved}
    ensures Inv(Submit(s))
  {
    var c := s.selection;
    SubmittedListFits(s);
    var store := s.submitted[c := Submit(s).submitted[c]];
    StoreFitsUpdate(s.submitted, c, Submit(s).submitted[c]);
    assert Submit(s) == ResetAfterSubmit(s, store, Submit(s).feedback);
    ResetKeepsInv(s, store, Submit(s).feedback);
  }

  lemma SubmitKeepsInv(s: FormState)
    requires Inv(s)
    ensures Inv(Submit(s))
  {
    match SubmitOutcomeOf(s)
    case Incomplete => FeedbackKeepsInv(s, IncompleteFeedback);
    case NoListForCategory =>
    case IndexPastEnd =>
    case Inserted => FilingKeepsInv(s);
    case Saved => FilingKeepsInv(s);
  }

  /**
   A valid submit in insert mode adds exactly one record, the tagged data, at
   the end of the selected category's list; every other list is unchanged.
   */
  lemma SubmitInsertAppendsOne(s: FormState)
    requires SubmitOutcomeOf(s) == Inserted
    ensures var c := s.selection;
      && Submit(s).submitted.Keys == s.submitted.Keys
      && |Submit(s).submitted[c]| == |s.submitted[c]| + 1
      && Submit(s).submitted[c][..|s.submitted[c]|] == s.submitted[c]
      && Submit(s).submitted[c][|s.submitted[c]|] == s.data[FormTypeKey := c]
      && forall d :: d in s.submitted && d != c ==> Submit(s).submitted[d] == s.submitted[d]
  {
    var c := s.selection;
    assert Submit(s).submitted[c] == s.submitted[c] + [Tag(s.data, c)];
  }

  /**
   A valid submit while editing an existing row replaces only that row: the
   list keeps its length and every other entry, and other lists are unchanged.
   */
  lemma SubmitEditReplacesOnlyRow(s: FormState)
    requires SubmitOutcomeOf(s) == Saved
    requires s.editIndex.value < |s.submitted[s.selection]|
    ensures var c, i := s.selection, s.editIndex.value;
      && Submit(s).submitted.Keys == s.submitted.Keys
      && |Submit(s).submitted[c]| == |s.submitted[c]|
      && Submit(s).submitted[c][i] == s.data[FormTypeKey := c]
      && (forall j :: 0 <= j < |s.submitted[c]| && j != i ==> Submit(s).submitted[c][j] == s.submitted[c][j])
      && (forall d :: d in s.submitted && d != c ==> Submit(s).submitted[d] == s.submitted[d])
      && Submit(s).feedback == SavedFeedback
  {
  }

  // ---------------------------------------------------------------------------
  // handleEdit

  /**
   `handleEdit`: loads the stored record into the form, selects its category
   and that category's fields and remembers the index. Messages and progress
   stay as they were.
   */
  function Edit(s: FormState, index: nat, category: string): (r: FormState)
    requires Inv(s)
    requires category in s.submitted && index < |s.submitted[category]|  // rows exist for rendered buttons only
    ensures r.data == s.submitted[category][index] && r.editIndex == Some(index)
    ensures r.selection == category && r.fields == Table[category] && HasRequired(r.fields)
    ensures r.submitted == s.submitted && r.feedback == s.feedback && r.error == s.error
    ensures r.progress == s.progress
  {
    CategoryHasRequired(category);
    s.(editIndex := Some(index), data := s.submitted[category][index], selection := category,
       fields := Table[category])
  }

  lemma EditKeepsInv(s: FormState, index: nat, category: string)
    requires Inv(s)
    requires category in s.submitted && index < |s.submitted[category]|
    ensures Inv(Edit(s, index, category))
  {
    assert s.submitted[category][index] in s.submitted[category];
    CategoryHasRequired(category);
  }

  /**
   Editing a stored row and submitting it without changes saves a record
   equal to the one already there, because it already carries its category
   tag: the store is as before.
   */
  lemma EditThenSubmitRoundTrip(s: FormState, index: nat, category: string)
    requires Inv(s)
    requires category in s.submitted && index < |s.submitted[category]|
    ensures SubmitOutcomeOf(Edit(s, index, category)) == Saved
    ensures Submit(Edit(s, index, category)).submitted == s.submitted
  {
    var entries := s.submitted[category];
    var r := entries[index];
    assert r in entries;
    TagAlreadyTagged(r, category);
    assert ReplaceAt(entries, index, r) == entries;
  }

  // ---------------------------------------------------------------------------
  // handleDelete and the feedback timer

  /**
   `handleDelete`: drops the entry at `index` from the category's list,
   keeping the order of the rest, and sets the deletion feedback.
   */
  function Delete(s: FormState, index: int, category: string): (r: FormState)
    requires category in s.submitted  // rows exist for rendered buttons only
    ensures r.submitted.Keys == s.submitted.Keys
    ensures var before := s.submitted[category];
      0 <= index < |before| ==> r.submitted[category] == before[..index] + before[index + 1..]
    ensures !(0 <= index < |s.submitted[category]|) ==> r.submitted[category] == s.submitted[category]
    ensures forall c :: c in s.submitted && c != category ==> r.submitted[c] == s.submitted[c]
    ensures r == s.(submitted := r.submitted, feedback := DeletedFeedback)
  {
    s.(submitted := s.submitted[category := Without(s.submitted[category], index)],
       feedback := DeletedFeedback)
  }

  lemma DeleteKeepsInv(s: FormState, index: int, category: string)
    requires Inv(s)
    requires category in s.submitted
    ensures Inv(Delete(s, index, category))
  {
    WithoutSubset(s.submitted[category], index);
    StoreFitsUpdate(s.submitted, category, Without(s.submitted[category], index));
  }

  /** The timer callback scheduled after submit and delete: it clears the feedback. */
  function ClearFeedback(s: FormState): (r: FormState)
    ensures r == s.(feedback := "")
  {
    s.(feedback := "")
  }

  // ---------------------------------------------------------------------------
  // Worked examples

  /** The form right after "User Information" is selected. */
  const UserSelected: FormState :=
    FormState(UserFields, map[], UserInformation, "", 0.0, Initial().submitted, None, "")

  /** ... after "Ann" is then typed as first name: nothing was filled before it. */
  const AnnTyped: FormState :=
    FormState(UserFields, map["firstName" := "Ann"], UserInformation, "", 0.0, Initial().submitted, None, "")

  /** ... after "Lee" is then typed as last name: the bar shows the data before it. */
  const AnnLeeTyped: FormState := FormState(UserFields, map["firstName" := "Ann", "lastName" := "Lee"],
    UserInformation, "", 50.0, Initial().submitted, None, "")

  /** With only "Ann" typed, one of the two required User Information fields is filled. */
  lemma HalfOfUserFields()
    ensures HasRequired(UserFields)
    ensures Progress(UserFields, map["firstName" := "Ann"]) == 50.0
  {
    assert UserFields[0].required;
    assert !Blank("Ann") by { assert !IsWhitespace("Ann"[0]); }
    assert FilledCount(UserFields, map["firstName" := "Ann"]) == 1;
    assert |RequiredFields(UserFields)| == 2;
  }

  lemma SelectingUserInformation()
    ensures DropdownChange(Initial(), UserInformation) == UserSelected && Inv(UserSelected)
    ensures FieldNames(UserFields) == ["firstName", "lastName", "age"]
  {
    DropdownChangeKeepsInv(Initial(), UserInformation);
  }

  lemma TypingAnn()
    ensures Inv(UserSelected) && "firstName" in FieldNames(UserSelected.fields)
    ensures InputChange(UserSelected, "firstName", "Ann") == AnnTyped && Inv(AnnTyped)
  {
    SelectingUserInformation();
    assert UserFields[0].required;
    assert Progress(UserFields, map[]) == 0.0;
    InputChangeKeepsInv(UserSelected, "firstName", "Ann");
  }

  lemma TypingLee()
    ensures Inv(AnnTyped) && "lastName" in FieldNames(AnnTyped.fields)
    ensures InputChange(AnnTyped, "lastName", "Lee") == AnnLeeTyped
  {
    TypingAnn();
    SelectingUserInformation();
    HalfOfUserFields();
  }

  /** Both names are filled, so submitting them files a record. */
  lemma AnnLeeComplete()
    ensures SubmitOutcomeOf(AnnLeeTyped) == Inserted
  {
    assert !Blank("Ann") by { assert !IsWhitespace("Ann"[0]); }
    assert !Blank("Lee") by { assert !IsWhitespace("Lee"[0]); }
    assert AllRequiredFilled(UserFields, AnnLeeTyped.data);
  }

  /** Submitting those two names files one record tagged "User Information" and resets the form. */
  lemma SubmittingAnnLee()
    ensures Submit(AnnLeeTyped).submitted == map[
      UserInformation := [map["firstName" := "Ann", "lastName" := "Lee", FormTypeKey := UserInformation]],
      AddressInformation := [], PaymentInformation := []]
    ensures Submit(AnnLeeTyped).feedback == SubmittedFeedback && Submit(AnnLeeTyped).progress == 100.0
  {
    AnnLeeComplete();
    var filed := [Tag(AnnLeeTyped.data, UserInformation)];
    assert [] + filed == filed;
    assert Submit(AnnLeeTyped) == ResetAfterSubmit(AnnLeeTyped, Initial().submitted[UserInformation := filed],
                                                   SubmittedFeedback);
  }

  /**
   `handleSubmit`, called on "Address Information" with nothing filled in,
   stores nothing and shows the generic feedback; the form keeps its
   selection and fields.
   */
  lemma EmptySubmitScenario()
    ensures var s := DropdownChange(Initial(), AddressInformation);
      && SubmitOutcomeOf(s) == Incomplete
      && Submit(s) == s.(feedback := IncompleteFeedback)
      && Submit(s).submitted == Initial().submitted
      && Submit(s).fields == AddressFields
  {
    var s := DropdownChange(Initial(), AddressInformation);
    assert s.fields == AddressFields && AddressFields[0].required && "street" !in s.data;
  }

  /**
   Submitting before any category is chosen passes validation, since no field
   is shown, and then meets the missing list under the empty category: the
   state is left as it was.
   */
  lemma SubmitBeforeSelecting()
    ensures AllRequiredFilled(Initial().fields, Initial().data)
    ensures SubmitOutcomeOf(Initial()) == NoListForCategory && Submit(Initial()) == Initial()
  {
  }
}
