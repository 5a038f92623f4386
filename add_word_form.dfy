/**
 * The state of the add-word form: the two text fields, the error record and the submitting
 * flag, and the handlers that change them. The store's `AddWord` decides whether the fields
 * are cleared.
 */
module AddWord {
  import opened Wrappers
  import opened Vocabulary
  import opened VocabularyContext
  import opened FormValidation

  class AddWordForm {
    var word: string
    var meaning: string
    var errors: FormErrors
    var isSubmitting: bool

    constructor ()
      ensures word == "" && meaning == "" && errors == NoErrors && !isSubmitting
    {
      word := "";
      meaning := "";
      errors := NoErrors;
      isSubmitting := false;
    }

    /** Replaces the error record with the one for the current fields; true when it is empty. */
    method ValidateForm() returns (valid: bool)
      modifies this`errors
      ensures errors == Validate(word, meaning)
      ensures valid <==> NoErrorRecorded(errors)
    {
      var newErrors := CollectErrors(word, meaning);
      errors := newErrors;
      valid := newErrors == NoErrors;
    }

    /**
     * Validates; when valid, hands the raw field values to the store, and clears the form only
     * when the store accepted the word.
     */
    method HandleSubmit(store: VocabularyStore, idTime: nat, createdAt: nat)
      modifies this, store
      ensures errors == Validate(old(word), old(meaning))
      ensures !NoErrorRecorded(errors) ==>
        && word == old(word) && meaning == old(meaning) && isSubmitting == old(isSubmitting)
        && store.vocabulary == old(store.vocabulary) && store.error == old(store.error)
      ensures NoErrorRecorded(errors) ==>
        var added := !IsDuplicate(old(store.vocabulary), old(word));
        && !isSubmitting
        && store.vocabulary == (if added then old(store.vocabulary) + [NewItem(old(word), old(meaning), idTime, createdAt)]
                                else old(store.vocabulary))
        && store.error == (if added then None else Some(DuplicateMessage))
        && (word, meaning) == (if added then ("", "") else (old(word), old(meaning)))
      ensures store.sortOption == old(store.sortOption) && store.isLoading == old(store.isLoading)
    {
      var valid := ValidateForm();
      if !valid {
        return;
      }
      isSubmitting := true;
      var success := store.AddWord(word, meaning, idTime, createdAt);
      if success {
        word := "";
        meaning := "";
        errors := NoErrors;
      }
      isSubmitting := false;
    }

    method ClearForm()
      modifies this`word, this`meaning, this`errors
      ensures word == "" && meaning == "" && errors == NoErrors
    {
      word := "";
      meaning := "";
      errors := NoErrors;
    }
  }
}
