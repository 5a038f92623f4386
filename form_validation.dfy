/**
 * The validation rule shared by the add form and the edit dialog: each of the two fields is
 * required and must be at least two characters long once trimmed; the word and the meaning
 * are judged independently, each with its own pair of messages.
 */
module FormValidation {
  import opened Wrappers
  import opened Text

  /** The error record; an absent field means that field has no error. */
  datatype FormErrors = FormErrors(word: Option<string>, meaning: Option<string>)

  const NoErrors := FormErrors(None, None)

  const WordRequired := "Vui lòng nhập từ tiếng Anh"
  const WordTooShort := "Từ phải có ít nhất 2 ký tự"
  const MeaningRequired := "Vui lòng nhập nghĩa tiếng Việt"
  const MeaningTooShort := "Nghĩa phải có ít nhất 2 ký tự"

  /** The error record has no key: `Object.keys(newErrors).length === 0`. */
  predicate NoErrorRecorded(e: FormErrors) {
    e.word.None? && e.meaning.None?
  }

  /** The message `validateForm` records for one field: required, too short, or none. */
  function FieldError(value: string, required: string, tooShort: string): (r: Option<string>)
    ensures (forall k :: 0 <= k < |value| ==> IsSpace(value[k])) ==> r == Some(required)
    ensures |Trim(value)| == 1 ==> r == Some(tooShort)
    ensures |Trim(value)| >= 2 <==> r.None?
  {
    var t := Trim(value);
    if t == [] then Some(required) else if |t| < 2 then Some(tooShort) else None
  }

  /** The errors `validateForm` records for the current field values. */
  function Validate(word: string, meaning: string): (e: FormErrors)
    ensures e.word == Some(WordRequired) <==> forall k :: 0 <= k < |word| ==> IsSpace(word[k])
    ensures e.word == Some(WordTooShort) <==> |Trim(word)| == 1
    ensures e.word.None? <==> |Trim(word)| >= 2
    ensures e.meaning == Some(MeaningRequired) <==> forall k :: 0 <= k < |meaning| ==> IsSpace(meaning[k])
    ensures e.meaning == Some(MeaningTooShort) <==> |Trim(meaning)| == 1
    ensures e.meaning.None? <==> |Trim(meaning)| >= 2
    ensures NoErrorRecorded(e) <==> |Trim(word)| >= 2 && |Trim(meaning)| >= 2
  {
    FormErrors(FieldError(word, WordRequired, WordTooShort), FieldError(meaning, MeaningRequired, MeaningTooShort))
  }

  /** Fills a fresh error record field by field, as `validateForm` does before storing it. */
  method CollectErrors(word: string, meaning: string) returns (newErrors: FormErrors)
    ensures newErrors == Validate(word, meaning)
  {
    newErrors := NoErrors;
    var w := Trim(word);
    if w == [] {
      newErrors := newErrors.(word := Some(WordRequired));
    } else if |w| < 2 {
      newErrors := newErrors.(word := Some(WordTooShort));
    }
    var m := Trim(meaning);
    if m == [] {
      newErrors := newErrors.(meaning := Some(MeaningRequired));
    } else if |m| < 2 {
      newErrors := newErrors.(meaning := Some(MeaningTooShort));
    }
  }
}
