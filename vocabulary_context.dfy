/**
 * The vocabulary provider: the state it holds (the list, the sort option, the loading flag and
 * the last error) and the operations that overwrite it. Every operation starts by clearing the
 * error. Storage is given to `LoadVocabulary` as the two strings read from the primary and the
 * backup key, JSON parsing as the function `parse`, and each clock reading as an argument.
 */
module VocabularyContext {
  import opened Wrappers
  import opened Text
  import opened Sorting
  import opened Vocabulary

  class VocabularyStore {
    var vocabulary: seq<Item>
    var sortOption: SortOption
    var isLoading: bool
    var error: Option<string>

    /** The provider's initial state: no entries, sorted by date, loading, no error. */
    constructor ()
      ensures vocabulary == [] && sortOption == Date && isLoading && error == None
    {
      vocabulary := [];
      sortOption := Date;
      isLoading := true;
      error := None;
    }

    /**
     * Reads the primary blob, falling back to the backup when the primary is absent; a blob
     * that does not parse lands in the recovery step, which tries the backup once more.
     */
    method LoadVocabulary(primary: Option<string>, backup: Option<string>, parse: string -> Option<seq<Item>>)
      modifies this
      ensures var r := Load(old(vocabulary), primary, backup, parse);
        vocabulary == r.items && error == r.error
      ensures !isLoading && sortOption == old(sortOption)
    {
      isLoading := true;
      error := None;
      var failed := false;  // JSON.parse threw inside the first try block
      if Present(primary) {
        var parsed := parse(primary.value);
        if parsed.Some? {
          vocabulary := parsed.value;
        } else {
          failed := true;
        }
      } else if Present(backup) {
        var parsed := parse(backup.value);
        if parsed.Some? {
          vocabulary := parsed.value;
        } else {
          failed := true;
        }
      }
      if failed {
        error := Some(LoadFailedMessage);
        if Present(backup) {
          var parsed := parse(backup.value);
          if parsed.Some? {
            vocabulary := parsed.value;
            error := Some(RecoveredMessage);
          }
        }
      }
      isLoading := false;
    }

    /**
     * Appends a new entry unless a stored word equals the raw `word` ignoring case. `idTime` and
     * `createdAt` are the two clock readings the new entry takes.
     */
    method AddWord(word: string, meaning: string, idTime: nat, createdAt: nat) returns (ok: bool)
      modifies this
      ensures ok <==> !IsDuplicate(old(vocabulary), word)
      ensures vocabulary == if ok then old(vocabulary) + [NewItem(word, meaning, idTime, createdAt)] else old(vocabulary)
      ensures error == if ok then None else Some(DuplicateMessage)
      ensures sortOption == old(sortOption) && isLoading == old(isLoading)
    {
      error := None;
      if IsDuplicate(vocabulary, word) {
        error := Some(DuplicateMessage);
        return false;
      }
      vocabulary := vocabulary + [NewItem(word, meaning, idTime, createdAt)];
      ok := true;
    }

    /** Edits word and meaning of the entries with `id`, unless another entry has the word ignoring case. */
    method UpdateWord(id: string, word: string, meaning: string) returns (ok: bool)
      modifies this
      ensures ok <==> !IsDuplicateOther(old(vocabulary), id, word)
      ensures vocabulary == if ok then Updated(old(vocabulary), id, word, meaning) else old(vocabulary)
      ensures error == if ok then None else Some(DuplicateMessage)
      ensures sortOption == old(sortOption) && isLoading == old(isLoading)
    {
      error := None;
      if IsDuplicateOther(vocabulary, id, word) {
        error := Some(DuplicateMessage);
        return false;
      }
      vocabulary := Updated(vocabulary, id, word, meaning);
      ok := true;
    }

    method DeleteWord(id: string)
      modifies this
      ensures vocabulary == Deleted(old(vocabulary), id) && error == None
      ensures sortOption == old(sortOption) && isLoading == old(isLoading)
    {
      error := None;
      vocabulary := Deleted(vocabulary, id);
    }

    method ClearAll()
      modifies this
      ensures vocabulary == [] && error == None
      ensures sortOption == old(sortOption) && isLoading == old(isLoading)
    {
      error := None;
      vocabulary := [];
    }

    method MarkAsReviewed(id: string, now: nat)
      modifies this
      ensures vocabulary == Reviewed(old(vocabulary), id, now) && error == None
      ensures sortOption == old(sortOption) && isLoading == old(isLoading)
    {
      error := None;
      vocabulary := Reviewed(vocabulary, id, now);
    }

    /** Changes the order of the view only; the stored list is left as it is. */
    method SetSortOption(option: SortOption)
      modifies this`sortOption
      ensures sortOption == option
    {
      sortOption := option;
    }

    /**
     * The list the provider exposes: a stable sort of a copy of the stored list, by word under
     * the locale comparison `localeLeq` for 'alphabetical', newest first otherwise.
     */
    function SortedVocabulary(localeLeq: (string, string) -> bool): (r: seq<Item>)
      reads this
      requires sortOption == Alphabetical ==> TotalPreorder(localeLeq)
      ensures multiset(r) == multiset(vocabulary)
      ensures sortOption == Alphabetical ==>
        forall i, j :: 0 <= i < j < |r| ==> localeLeq(r[i].word, r[j].word)
      ensures sortOption != Alphabetical ==>
        forall i, j :: 0 <= i < j < |r| ==> r[i].createdAt >= r[j].createdAt
      ensures forall x :: EquivalentsOf(r, x, ViewOrder(sortOption, localeLeq))
                       == EquivalentsOf(vocabulary, x, ViewOrder(sortOption, localeLeq))
    {
      var le := ViewOrder(sortOption, localeLeq);
      ViewOrderIsTotalPreorder(sortOption, localeLeq);
      SortSorted(vocabulary, le);
      forall x ensures EquivalentsOf(Sort(vocabulary, le), x, le) == EquivalentsOf(vocabulary, x, le) {
        SortStable(vocabulary, x, le);
      }
      Sort(vocabulary, le)
    }
  }
}
