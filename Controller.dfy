/**
 The `DynamicForm` component as a class: its fields are the state cells and
 its methods the event handlers, each updating the cells step by step. Every
 handler is proved to take the state to what the matching transition of
 module Form gives, and to keep the form invariant.
 */
module Controller {
  import opened Wrappers
  import opened Catalog
  import opened FormLogic
  import opened RecordStore
  import Form

  class DynamicForm {
    var fields: seq<Field>                      // formFields
    var data: Record                            // formData
    var selection: string                       // dropdownSelection
    var feedback: string                        // feedbackMessage
    var progress: real                          // progress
    var submitted: map<string, seq<Record>>     // submittedData
    var editIndex: Option<nat>                  // editIndex (None is null)
    var error: string                           // errorMessage

    /** The state cells as one value. */
    ghost function State(): Form.FormState
      reads this
    {
      Form.FormState(fields, data, selection, feedback, progress, submitted, editIndex, error)
    }

    ghost predicate Valid()
      reads this
    {
      Form.Inv(State())
    }

    /** The initial values of the `useState` cells. */
    constructor ()
      ensures Valid()
      ensures State() == Form.Initial()
    {
      fields := [];
      data := map[];
      selection := "";
      feedback := "";
      progress := 0.0;
      submitted := map[UserInformation := [], AddressInformation := [], PaymentInformation := []];
      editIndex := None;
      error := "";
    }

    /** `handleDropdownChange`. */
    method HandleDropdownChange(choice: string)
      requires Valid()
      modifies this
      ensures Valid()
      ensures State() == Form.DropdownChange(old(State()), choice)
    {
      Form.DropdownChangeKeepsInv(State(), choice);
      selection := choice;
      fields := [];
      data := map[];
      progress := 0.0;
      feedback := "";
      error := "";
      if choice == "" {
        error := Form.SelectPrompt;
        return;
      }
      var structure := Lookup(choice);
      if structure == [] {
        error := Form.NotLoaded;
        return;
      }
      fields := structure;
    }

    /** `handleInputChange`; progress is recomputed from the data captured before the input. */
    method HandleInputChange(name: string, value: string)
      requires Valid()
      requires name in FieldNames(fields)  // only rendered inputs raise change events
      modifies this
      ensures Valid()
      ensures State() == Form.InputChange(old(State()), name, value)
    {
      Form.InputChangeKeepsInv(State(), name, value);
      if !Accepts(name, value) {
        error := Form.LettersOnlyError;
        return;
      }
      error := "";
      var before := data;
      data := data[name := value];
      UpdateProgress(before);
    }

    /**
     `updateProgress`: the percentage of required visible fields filled in
     `snapshot`, the form data its closure captured.
     */
    method UpdateProgress(snapshot: Record)
      requires HasRequired(fields)
      modifies this`progress
      ensures progress == Progress(fields, snapshot)
      ensures 0.0 <= progress <= 100.0
      ensures progress == 100.0 <==> AllRequiredFilled(fields, snapshot)
    {
      progress := Progress(fields, snapshot);
    }

    /**
     `validateForm`: passes exactly when every required visible field is
     filled; on failure it sets the generic feedback message.
     */
    method ValidateForm() returns (ok: bool)
      modifies this`feedback
      ensures ok <==> AllRequiredFilled(fields, data)
      ensures feedback == if ok then old(feedback) else Form.IncompleteFeedback
    {
      ok := Validate(fields, data);
      if !ok {
        feedback := Form.IncompleteFeedback;
      }
    }

    /**
     `handleSubmit`. It is defined in every state, so it asks for no
     invariant; it keeps the invariant whenever that held before.
     */
    method HandleSubmit() returns (outcome: Form.SubmitOutcome)
      modifies this
      ensures old(Valid()) ==> Valid()
      ensures outcome == Form.SubmitOutcomeOf(old(State()))
      ensures State() == Form.Submit(old(State()))
    {
      ghost var before := State();
      var ok := ValidateForm();
      if !ok {
        assert Form.SubmitOutcomeOf(before) == Form.Incomplete;
        if Form.Inv(before) { Form.SubmitKeepsInv(before); }
        return Form.Incomplete;
      }
      var formType := selection;
      if formType !in submitted {
        assert Form.SubmitOutcomeOf(before) == Form.NoListForCategory;
        if Form.Inv(before) { Form.SubmitKeepsInv(before); }
        return Form.NoListForCategory;
      }
      var updated := Tag(data, formType);
      var message;
      match editIndex {
        case None =>
          submitted := submitted[formType := submitted[formType] + [updated]];
          message, outcome := Form.SubmittedFeedback, Form.Inserted;
        case Some(index) =>
          if index > |submitted[formType]| {
            assert Form.SubmitOutcomeOf(before) == Form.IndexPastEnd;
            if Form.Inv(before) { Form.SubmitKeepsInv(before); }
            return Form.IndexPastEnd;
          }
          submitted := submitted[formType := ReplaceAt(submitted[formType], index, updated)];
          message, outcome := Form.SavedFeedback, Form.Saved;
      }
      assert Form.SubmitOutcomeOf(before) == outcome;
      feedback := message;
      fields := [];
      data := map[];
      selection := "";
      progress := 100.0;
      editIndex := None;
      assert State() == Form.ResetAfterSubmit(before, submitted, message);
      if Form.Inv(before) { Form.SubmitKeepsInv(before); }
    }

    /** `handleEdit`. */
    method HandleEdit(index: nat, category: string)
      requires Valid()
      requires category in submitted && index < |submitted[category]|  // rows exist for rendered buttons only
      modifies this
      ensures Valid()
      ensures State() == Form.Edit(old(State()), index, category)
    {
      Form.EditKeepsInv(State(), index, category);
      editIndex := Some(index);
      data := submitted[category][index];
      selection := category;
      fields := Table[category];
    }

    /** `handleDelete`. */
    method HandleDelete(index: int, category: string)
      requires Valid()
      requires category in submitted  // rows exist for rendered buttons only
      modifies this
      ensures Valid()
      ensures State() == Form.Delete(old(State()), index, category)
    {
      Form.DeleteKeepsInv(State(), index, category);
      submitted := submitted[category := Without(submitted[category], index)];
      feedback := Form.DeletedFeedback;
    }

    /** The timer callback scheduled after submit and delete. */
    method ClearFeedback()
      requires Valid()
      modifies this
      ensures Valid()
      ensures State() == Form.ClearFeedback(old(State()))
    {
      feedback := "";
    }
  }
}
