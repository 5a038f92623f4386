/**
 * The state of the edit dialog: the two text fields, the error record and the submitting flag.
 * The entry being edited is the dialog's `item` property, passed to each handler; whether the
 * handler calls the `onClose` property is its boolean result.
 */
module EditWord {
  import opened Wrappers
  import opened Vocabulary
  import opened VocabularyContext
  import opened FormValidation

  class EditWordModal {
    var word: string
    var meaning: string
    var errors: FormErrors
    var isSubmitting: bool

    constructor ()
      ensures word == "" && meaning == "" && errors == NoErrors && !isSubmitting
    {
      word := "";
      meaning := "";
      errors := NoErrors;
      isSubmitting := false;
    }

    /** The effect run when `item` changes: a supplied entry fills the fields and clears the errors. */
    method LoadItem(item: Option<Item>)
      modifies this`word, this`meaning, this`errors
      ensures item.Some? ==> word == item.value.word && meaning == item.value.meaning && errors == NoErrors
      ensures item.None? ==> word == old(word) && meaning == old(meaning) && errors == old(errors)
    {
      if item.Some? {
        word := item.value.word;
        meaning := item.value.meaning;
        errors := NoErrors;
      }
    }

    /** Replaces the error record with the one for the current fields; true when it is empty. */
    method ValidateForm() returns (valid: bool)
      modifies this`errors
      ensures errors == Validate(word, meaning)
      ensures valid <==> NoErrorRecorded(errors)
    {
      var newErrors := CollectErrors(word, meaning);
      errors := newErrors;
      valid := newErrors == NoErrors;
    }

    /**
     * Does nothing without an entry; otherwise validates and, when valid, asks the store to
     * update the entry's id with the raw field values, closing only on success.
     */
    method HandleSubmit(item: Option<Item>, store: VocabularyStore) returns (closed: bool)
      modifies this, store
      ensures word == old(word) && meaning == old(meaning)
      ensures item.None? ==> !closed && errors == old(errors) && isSubmitting == old(isSubmitting)
      ensures item.None? || !NoErrorRecorded(Validate(word, meaning)) ==>
        store.vocabulary == old(store.vocabulary) && store.error == old(store.error)
      ensures item.Some? ==> errors == Validate(word, meaning)
      ensures item.Some? && !NoErrorRecorded(errors) ==> !closed && isSubmitting == old(isSubmitting)
      ensures item.Some? && NoErrorRecorded(errors) ==>
        var updated := !IsDuplicateOther(old(store.vocabulary), item.value.id, word);
        && !isSubmitting
        && closed == updated
        && store.vocabulary == (if updated then Updated(old(store.vocabulary), item.value.id, word, meaning)
                                else old(store.vocabulary))
        && store.error == (if updated then None else Some(DuplicateMessage))
      ensures store.sortOption == old(store.sortOption) && store.isLoading == old(store.isLoading)
    {
      closed := false;
      if item.None? {
        return;
      }
      var valid := ValidateForm();
      if !valid {
        return;
      }
      isSubmitting := true;
      var success := store.UpdateWord(item.value.id, word, meaning);
      if success {
        closed := true;
      }
      isSubmitting := false;
    }

    /** Clears the errors; the dialog is then closed. */
    method HandleClose() returns (closed: bool)
      modifies this`errors
      ensures errors == NoErrors && closed
    {
      errors := NoErrors;
      closed := true;
    }
  }
}
