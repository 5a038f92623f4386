/**
 * The vocabulary list and the pure list transformations the store applies to it: the
 * case-insensitive duplicate checks, appending a new entry, editing, deleting and marking
 * entries, the order of the sorted view, and what loading from the two storage keys yields.
 */
module Vocabulary {
  import opened Wrappers
  import opened Text
  import opened Decimal
  import opened Sorting

  /** One vocabulary entry. Times are milliseconds since the epoch. */
  datatype Item = Item(id: string, word: string, meaning: string, createdAt: int, lastReviewed: Option<int>)

  datatype SortOption = Date | Alphabetical

  const DuplicateMessage := "Từ này đã tồn tại"
  const LoadFailedMessage := "Lỗi khi tải dữ liệu"
  const RecoveredMessage := "Đã khôi phục từ bản sao lưu"

  /** Equal ignoring (ASCII) case. */
  predicate SameWord(a: string, b: string) {
    ToLower(a) == ToLower(b)
  }

  /** Some stored word equals `word` ignoring case; `word` is compared as given, untrimmed. */
  function IsDuplicate(items: seq<Item>, word: string): (r: bool)
    ensures r <==> exists i :: 0 <= i < |items| && SameWord(items[i].word, word)
  {
    if items == [] then false
    else SameWord(items[0].word, word) || IsDuplicate(items[1..], word)
  }

  /** Some stored word of an entry whose id is not `id` equals `word` ignoring case. */
  function IsDuplicateOther(items: seq<Item>, id: string, word: string): (r: bool)
    ensures r <==> exists i :: 0 <= i < |items| && items[i].id != id && SameWord(items[i].word, word)
  {
    if items == [] then false
    else (items[0].id != id && SameWord(items[0].word, word)) || IsDuplicateOther(items[1..], id, word)
  }

  /**
   * The entry `addWord` creates. The clock is read twice: once for the id, whose decimal text
   * reads back as `idTime`, and once more for `createdAt`.
   */
  function NewItem(word: string, meaning: string, idTime: nat, createdAt: nat): (r: Item)
    ensures AllDigits(r.id) && DigitsValue(r.id) == idTime
    ensures r.word == Trim(word) && r.meaning == Trim(meaning)
    ensures r.createdAt == createdAt && r.lastReviewed.None?
  {
    DigitsValueOfNatToString(idTime);
    Item(NatToString(idTime), Trim(word), Trim(meaning), createdAt, None)
  }

  /** The list after `updateWord(id, word, meaning)` passed its duplicate check. */
  function Updated(items: seq<Item>, id: string, word: string, meaning: string): (r: seq<Item>)
    ensures |r| == |items|
    ensures forall k :: 0 <= k < |items| ==>
      && r[k].id == items[k].id && r[k].createdAt == items[k].createdAt
      && r[k].lastReviewed == items[k].lastReviewed
      && (items[k].id == id ==> r[k].word == Trim(word) && r[k].meaning == Trim(meaning))
      && (items[k].id != id ==> r[k] == items[k])
  {
    if items == [] then []
    else
      var head := if items[0].id == id then items[0].(word := Trim(word), meaning := Trim(meaning)) else items[0];
      [head] + Updated(items[1..], id, word, meaning)
  }

  /** The list after `deleteWord(id)`: exactly the entries with another id remain. */
  function Deleted(items: seq<Item>, id: string): (r: seq<Item>)
    ensures |r| <= |items|
    ensures forall k :: 0 <= k < |r| ==> r[k].id != id && r[k] in items
  {
    if items == [] then []
    else (if items[0].id == id then [] else [items[0]]) + Deleted(items[1..], id)
  }

  /** The list after `markAsReviewed(id)` at time `now`. */
  function Reviewed(items: seq<Item>, id: string, now: nat): (r: seq<Item>)
    ensures |r| == |items|
    ensures forall k :: 0 <= k < |items| ==>
      && r[k].id == items[k].id && r[k].word == items[k].word
      && r[k].meaning == items[k].meaning && r[k].createdAt == items[k].createdAt
      && (items[k].id == id ==> r[k].lastReviewed == Some(now))
      && (items[k].id != id ==> r[k] == items[k])
  {
    if items == [] then []
    else
      var head := if items[0].id == id then items[0].(lastReviewed := Some(now)) else items[0];
      [head] + Reviewed(items[1..], id, now)
  }

  ghost predicate WordsUnique(items: seq<Item>) {
    forall i, j :: 0 <= i < j < |items| ==> !SameWord(items[i].word, items[j].word)
  }

  ghost predicate IdsUnique(items: seq<Item>) {
    forall i, j :: 0 <= i < j < |items| ==> items[i].id != items[j].id
  }

  /** Appending keeps words unique ignoring case, provided the word was passed already trimmed. */
  lemma AddKeepsWordsUnique(items: seq<Item>, word: string, meaning: string, idTime: nat, createdAt: nat)
    requires WordsUnique(items) && word == Trim(word) && !IsDuplicate(items, word)
    ensures WordsUnique(items + [NewItem(word, meaning, idTime, createdAt)])
  {
    var r := items + [NewItem(word, meaning, idTime, createdAt)];
    forall i, j | 0 <= i < j < |r| ensures !SameWord(r[i].word, r[j].word) {
      if j == |items| {
        assert r[i] == items[i];
      }
    }
  }

  /**
   * With an untrimmed word the duplicate check can pass although the stored, trimmed word
   * clashes: "hello " is not "hello", but it is stored as "hello".
   */
  lemma UntrimmedAddBreaksUniqueness()
    ensures var items := [Item("1", "hello", "hi", 1, None)];
      && WordsUnique(items)
      && !IsDuplicate(items, "hello ")
      && !WordsUnique(items + [NewItem("hello ", "hi", 2, 2)])
  {
    var items := [Item("1", "hello", "hi", 1, None)];
    assert WordsUnique(items);
    assert !IsDuplicate(items, "hello ") by {
      HelloWithSpace();
    }
    assert !WordsUnique(items + [NewItem("hello ", "hi", 2, 2)]) by {
      HelloWithSpace();
      var r := items + [NewItem("hello ", "hi", 2, 2)];
      assert r[0].word == "hello" && r[1].word == "hello";
      assert SameWord(r[0].word, r[1].word);
    }
  }

  lemma HelloWithSpace()
    ensures !SameWord("hello", "hello ")
    ensures Trim("hello ") == "hello"
  {
    assert |ToLower("hello")| == 5;
    TrimUnique("hello ", 0, 5);
    assert "hello "[0..5] == "hello";
  }

  /** Appending keeps ids unique, provided no stored id is the decimal text of `idTime`. */
  lemma AddKeepsIdsUnique(items: seq<Item>, word: string, meaning: string, idTime: nat, createdAt: nat)
    requires IdsUnique(items) && forall k :: 0 <= k < |items| ==> items[k].id != NatToString(idTime)
    ensures IdsUnique(items + [NewItem(word, meaning, idTime, createdAt)])
  {
    var r := items + [NewItem(word, meaning, idTime, createdAt)];
    forall i, j | 0 <= i < j < |r| ensures r[i].id != r[j].id {
      assert r[i] == items[i];
    }
  }

  /**
   * Every stored id is the decimal text of a clock reading taken no later than the entry's
   * creation time, and every creation time is before `now`.
   */
  ghost predicate IdsFromEarlierClock(items: seq<Item>, now: nat) {
    forall k :: 0 <= k < |items| ==>
      exists t: nat :: t <= items[k].createdAt < now && items[k].id == NatToString(t)
  }

  /**
   * Ids come from the clock: when every stored id was read from the clock before `idTime`, the
   * id of the new entry is fresh; and when the creation time is read no earlier than the id,
   * the longer list keeps that shape for any later clock.
   */
  lemma LaterAddHasFreshId(items: seq<Item>, word: string, meaning: string, idTime: nat, createdAt: nat, later: nat)
    requires IdsFromEarlierClock(items, idTime)
    requires idTime <= createdAt < later
    ensures forall k :: 0 <= k < |items| ==> items[k].id != NatToString(idTime)
    ensures IdsFromEarlierClock(items + [NewItem(word, meaning, idTime, createdAt)], later)
  {
    forall k | 0 <= k < |items| ensures items[k].id != NatToString(idTime) {
      var t: nat :| t <= items[k].createdAt < idTime && items[k].id == NatToString(t);
      NatToStringInjective(t, idTime);
    }
    var r := items + [NewItem(word, meaning, idTime, createdAt)];
    forall k | 0 <= k < |r|
      ensures exists t: nat :: t <= r[k].createdAt < later && r[k].id == NatToString(t)
    {
      if k == |items| {
        assert idTime <= r[k].createdAt < later && r[k].id == NatToString(idTime);
      } else {
        assert r[k] == items[k];
        var t: nat :| t <= items[k].createdAt < idTime && items[k].id == NatToString(t);
        assert t <= r[k].createdAt < later && r[k].id == NatToString(t);
      }
    }
  }

  /** Re-saving an entry under a word equal to its own (in any case) passes the update's duplicate check. */
  lemma ResaveOwnWordIsNoDuplicate(items: seq<Item>, k: nat, word: string)
    requires WordsUnique(items) && k < |items| && SameWord(word, items[k].word)
    ensures !IsDuplicateOther(items, items[k].id, word)
  {
    forall i | 0 <= i < |items| && items[i].id != items[k].id
      ensures !SameWord(items[i].word, word)
    {
      assert i != k;
    }
  }

  /** An update of a trimmed word that passed the check keeps words unique, when ids are unique. */
  lemma UpdateKeepsWordsUnique(items: seq<Item>, id: string, word: string, meaning: string)
    requires WordsUnique(items) && IdsUnique(items)
    requires word == Trim(word) && !IsDuplicateOther(items, id, word)
    ensures WordsUnique(Updated(items, id, word, meaning))
  {
    var r := Updated(items, id, word, meaning);
    forall i, j | 0 <= i < j < |r| ensures !SameWord(r[i].word, r[j].word) {
      if items[i].id == id {
        assert items[j].id != id;
      } else if items[j].id == id {
        assert !SameWord(items[i].word, word);
      }
    }
  }

  /** With two entries sharing an id, an update can make their words collide. */
  lemma UpdateWithSharedIdBreaksUniqueness()
    ensures var items := [Item("7", "cat", "mèo", 7, None), Item("7", "dog", "chó", 7, None)];
      && WordsUnique(items)
      && !IsDuplicateOther(items, "7", "bird")
      && !WordsUnique(Updated(items, "7", "bird", "chim"))
  {
    var items := [Item("7", "cat", "mèo", 7, None), Item("7", "dog", "chó", 7, None)];
    assert ToLower("cat")[0] == 'c' && ToLower("dog")[0] == 'd';
    assert Trim("bird") == "bird" by {
      TrimUnique("bird", 0, 4);
      assert "bird"[0..4] == "bird";
    }
    var r := Updated(items, "7", "bird", "chim");
    assert r[0].word == "bird" && r[1].word == "bird";
  }

  /** An update whose id matches no entry leaves the list as it was. */
  lemma UpdateUnknownId(items: seq<Item>, id: string, word: string, meaning: string)
    requires forall k :: 0 <= k < |items| ==> items[k].id != id
    ensures Updated(items, id, word, meaning) == items
  {
  }

  /** Every entry with another id survives the deletion. */
  lemma {:induction false} DeleteKeepsOthers(items: seq<Item>, id: string, x: Item)
    requires x in items && x.id != id
    ensures x in Deleted(items, id)
  {
    if items[0] != x {
      DeleteKeepsOthers(items[1..], id, x);
    }
  }

  /** Deleting twice is deleting once. */
  lemma {:induction false} DeleteIdempotent(items: seq<Item>, id: string)
    ensures Deleted(Deleted(items, id), id) == Deleted(items, id)
  {
    if items != [] {
      var rest := Deleted(items[1..], id);
      DeleteIdempotent(items[1..], id);
      if items[0].id != id {
        assert Deleted(items, id) == [items[0]] + rest;
        assert ([items[0]] + rest)[1..] == rest;
      } else {
        assert Deleted(items, id) == rest;
      }
    }
  }

  /** Deleting distributes over concatenation: the survivors keep their relative order. */
  lemma {:induction false} DeleteKeepsOrder(a: seq<Item>, b: seq<Item>, id: string)
    ensures Deleted(a + b, id) == Deleted(a, id) + Deleted(b, id)
  {
    if a != [] {
      assert (a + b)[1..] == a[1..] + b;
      DeleteKeepsOrder(a[1..], b, id);
    } else {
      assert a + b == b;
    }
  }

  /** Deleting an id no entry has leaves the list as it was. */
  lemma {:induction false} DeleteUnknownId(items: seq<Item>, id: string)
    requires forall k :: 0 <= k < |items| ==> items[k].id != id
    ensures Deleted(items, id) == items
  {
    if items != [] {
      DeleteUnknownId(items[1..], id);
    }
  }

  /** When no other entry shares its id, deleting the id of a stored entry removes exactly that entry. */
  lemma {:induction false} DeleteRemovesOne(items: seq<Item>, k: nat)
    requires k < |items| && forall j :: 0 <= j < |items| && j != k ==> items[j].id != items[k].id
    ensures Deleted(items, items[k].id) == items[..k] + items[k + 1..]
  {
    var id := items[k].id;
    var tail := items[1..];
    if k == 0 {
      assert Deleted(items, id) == Deleted(tail, id);
      DeleteUnknownId(tail, id);
      assert items[..0] + items[1..] == tail;
    } else {
      assert items[0].id != id;
      assert Deleted(items, id) == [items[0]] + Deleted(tail, id);
      assert tail[k - 1] == items[k];
      forall j | 0 <= j < |tail| && j != k - 1 ensures tail[j].id != id {
        assert tail[j] == items[j + 1];
      }
      DeleteRemovesOne(tail, k - 1);
      assert items[..k] == [items[0]] + tail[..k - 1];
      assert items[k + 1..] == tail[k..];
    }
  }

  /** Deleting keeps words and ids unique. */
  lemma {:induction false} DeleteKeepsUniqueness(items: seq<Item>, id: string)
    ensures WordsUnique(items) ==> WordsUnique(Deleted(items, id))
    ensures IdsUnique(items) ==> IdsUnique(Deleted(items, id))
  {
    if items != [] {
      DeleteKeepsUniqueness(items[1..], id);
      var rest := Deleted(items[1..], id);
      var r := Deleted(items, id);
      if items[0].id != id {
        assert r == [items[0]] + rest;
        forall j | 0 < j < |r| ensures r[j] in items[1..] {
          assert r[j] in rest;
        }
      }
    }
  }

  /** Marking as reviewed keeps words and ids, hence their uniqueness. */
  lemma ReviewKeepsUniqueness(items: seq<Item>, id: string, now: nat)
    ensures WordsUnique(items) ==> WordsUnique(Reviewed(items, id, now))
    ensures IdsUnique(items) ==> IdsUnique(Reviewed(items, id, now))
  {
  }

  /** May `a` precede `b` in the sorted view: by word under the locale comparison, or newest first. */
  function ViewOrder(option: SortOption, localeLeq: (string, string) -> bool): (le: (Item, Item) -> bool)
    ensures option == Alphabetical ==> forall a: Item, b: Item :: le(a, b) == localeLeq(a.word, b.word)
    ensures option == Date ==> forall a: Item, b: Item :: le(a, b) <==> b.createdAt - a.createdAt <= 0
  {
    if option == Alphabetical then
      (a: Item, b: Item) => localeLeq(a.word, b.word)
    else
      (a: Item, b: Item) => a.createdAt >= b.createdAt
  }

  lemma ViewOrderIsTotalPreorder(option: SortOption, localeLeq: (string, string) -> bool)
    requires option == Alphabetical ==> TotalPreorder(localeLeq)
    ensures TotalPreorder(ViewOrder(option, localeLeq))
  {
    var le := ViewOrder(option, localeLeq);
    if option == Alphabetical {
      forall a: Item, b: Item ensures le(a, b) == localeLeq(a.word, b.word) {
      }
    }
  }

  /** Stored data is present only when the key holds a non-empty string. */
  predicate Present(blob: Option<string>) {
    blob.Some? && blob.value != ""
  }

  datatype LoadResult = LoadResult(items: seq<Item>, error: Option<string>)

  /**
   * What loading yields from the primary and the backup blob, starting from the list `current`.
   * The list is either kept or replaced by the parse of one of the blobs, and the recovery message
   * appears only when the backup's parse was adopted.
   */
  function Load(current: seq<Item>, primary: Option<string>, backup: Option<string>,
                parse: string -> Option<seq<Item>>): (r: LoadResult)
    ensures || r.items == current
            || (Present(primary) && parse(primary.value) == Some(r.items))
            || (Present(backup) && parse(backup.value) == Some(r.items))
    ensures r.error == Some(RecoveredMessage) ==> Present(backup) && parse(backup.value) == Some(r.items)
    ensures r.error == None || r.error == Some(LoadFailedMessage) || r.error == Some(RecoveredMessage)
  {
    if Present(primary) && parse(primary.value).Some? then
      LoadResult(parse(primary.value).value, None)
    else if !Present(primary) && !Present(backup) then
      LoadResult(current, None)
    else if Present(backup) && parse(backup.value).Some? then
      LoadResult(parse(backup.value).value, if Present(primary) then Some(RecoveredMessage) else None)
    else
      LoadResult(current, Some(LoadFailedMessage))
  }

  /** A non-empty primary that parses becomes the list, without error. */
  lemma LoadPrimary(current: seq<Item>, primary: string, backup: Option<string>,
                    parse: string -> Option<seq<Item>>, items: seq<Item>)
    requires primary != "" && parse(primary) == Some(items)
    ensures Load(current, Some(primary), backup, parse) == LoadResult(items, None)
  {
  }

  /** Without a primary the backup is used if it parses; with neither the list stays as it was. */
  lemma LoadWithoutPrimary(current: seq<Item>, primary: Option<string>, backup: Option<string>,
                           parse: string -> Option<seq<Item>>)
    requires !Present(primary)
    ensures !Present(backup) ==> Load(current, primary, backup, parse) == LoadResult(current, None)
    ensures Present(backup) && parse(backup.value).Some? ==>
      Load(current, primary, backup, parse) == LoadResult(parse(backup.value).value, None)
    ensures Present(backup) && parse(backup.value).None? ==>
      Load(current, primary, backup, parse) == LoadResult(current, Some(LoadFailedMessage))
  {
  }

  /** A corrupt primary reports the load error, which becomes the recovery message when the backup parses. */
  lemma LoadCorruptPrimary(current: seq<Item>, primary: string, backup: Option<string>,
                           parse: string -> Option<seq<Item>>)
    requires primary != "" && parse(primary).None?
    ensures Present(backup) && parse(backup.value).Some? ==>
      Load(current, Some(primary), backup, parse) == LoadResult(parse(backup.value).value, Some(RecoveredMessage))
    ensures !(Present(backup) && parse(backup.value).Some?) ==>
      Load(current, Some(primary), backup, parse) == LoadResult(current, Some(LoadFailedMessage))
  {
  }

  /**
   * Saving writes the same text to both keys; if parsing undoes serialising and the text is not
   * empty, loading what was saved gives back the saved list without error.
   */
  lemma LoadAfterSave(current: seq<Item>, saved: seq<Item>, serialize: seq<Item> -> string,
                      parse: string -> Option<seq<Item>>)
    requires serialize(saved) != "" && parse(serialize(saved)) == Some(saved)
    ensures Load(current, Some(serialize(saved)), Some(serialize(saved)), parse) == LoadResult(saved, None)
  {
  }
}
