/**
 * The two helpers of the to-do application that work on the in-memory
 * collection of to-do lists: validating a proposed list title, and finding a
 * list by its id.
 *
 * A list is a record with an `id` and a `title` (the only fields the helpers
 * read); the collection is an ordered sequence of lists.
 */
module Utils {
  import opened Wrappers

  /** List ids are opaque strings, compared only for equality. */
  type Id = string

  datatype TodoList = TodoList(id: Id, title: string)

  /** Bounds, inclusive, on the raw (untrimmed) length of a list title. */
  const MinTitleLength: nat := 1
  const MaxTitleLength: nat := 100

  /** The two ways a proposed list title can be refused. */
  datatype TitleError = NotUnique | BadLength {
    /** The message the application shows for this error. */
    function Message(): (m: string)
      ensures m == "The titles must be unique" <==> NotUnique?
      ensures m == "The title must be between 1 and 100 characters" <==> BadLength?
    {
      match this
      case NotUnique => "The titles must be unique"
      case BadLength => "The title must be between 1 and 100 characters"
    }
  }

  // ---------------------------------------------------------------------------
  // Reference statements

  /** Some list in `lists` already has exactly this title (case and spaces included). */
  ghost predicate TitleTaken(title: string, lists: seq<TodoList>) {
    exists i :: 0 <= i < |lists| && lists[i].title == title
  }

  /** The raw title's length lies within the allowed bounds. */
  predicate TitleLengthOk(title: string) {
    MinTitleLength <= |title| <= MaxTitleLength
  }

  /** No two lists of the collection share a title. */
  ghost predicate TitlesUnique(lists: seq<TodoList>) {
    forall i, j :: 0 <= i < j < |lists| ==> lists[i].title != lists[j].title
  }

  /** `lists[k]` is the earliest list whose id is `listId`. */
  ghost predicate IsFirstMatch(listId: Id, lists: seq<TodoList>, k: int) {
    0 <= k < |lists| && lists[k].id == listId &&
    forall j :: 0 <= j < k ==> lists[j].id != listId
  }

  // ---------------------------------------------------------------------------
  // error_for_list_title

  /** Whether some list in the collection has exactly this title, scanned
   *  front to back and stopping at the first hit. */
  function AnyHasTitle(title: string, lists: seq<TodoList>): (r: bool)
    ensures r <==> TitleTaken(title, lists)
  {
    if lists == [] then false
    else if lists[0].title == title then true
    else
      var rest := AnyHasTitle(title, lists[1..]);
      assert TitleTaken(title, lists[1..]) ==> TitleTaken(title, lists) by {
        if TitleTaken(title, lists[1..]) {
          var i :| 0 <= i < |lists[1..]| && lists[1..][i].title == title;
          assert lists[i + 1].title == title;
        }
      }
      assert TitleTaken(title, lists) ==> TitleTaken(title, lists[1..]) by {
        if TitleTaken(title, lists) {
          var i :| 0 <= i < |lists| && lists[i].title == title;
          assert i != 0;
          assert lists[1..][i - 1].title == title;
        }
      }
      rest
  }

  /**
   * Validates a proposed title for a new list against the existing lists.
   * The uniqueness check comes first; the length check only applies to a
   * title no existing list has. `None` means the title is acceptable.
   */
  function ErrorForListTitle(title: string, lists: seq<TodoList>): (r: Option<TitleError>)
    ensures TitleTaken(title, lists) ==> r == Some(NotUnique)
    ensures (!TitleTaken(title, lists) && !TitleLengthOk(title)) ==> r == Some(BadLength)
    ensures r == None <==> !TitleTaken(title, lists) && TitleLengthOk(title)
  {
    if AnyHasTitle(title, lists) then Some(NotUnique)
    else if !TitleLengthOk(title) then Some(BadLength)
    else None
  }

  /**
   * A title passes the uniqueness check exactly when adding a list with that
   * title keeps the titles of a collection unique.
   */
  lemma UniquenessCheckKeepsTitlesUnique(lists: seq<TodoList>, l: TodoList)
    requires TitlesUnique(lists)
    ensures TitlesUnique(lists + [l]) <==> ErrorForListTitle(l.title, lists) != Some(NotUnique)
  {
    var all := lists + [l];
    if TitleTaken(l.title, lists) {
      var i :| 0 <= i < |lists| && lists[i].title == l.title;
      assert all[i].title == all[|lists|].title;
    } else {
      forall i, j | 0 <= i < j < |all| ensures all[i].title != all[j].title {
        if j < |lists| {
          assert all[i] == lists[i] && all[j] == lists[j];
        } else {
          assert all[i] == lists[i] && all[j] == l;
        }
      }
    }
  }

  /** A title accepted by the validation can be added without breaking the
   *  uniqueness or the length bound of the collection's titles. */
  lemma AcceptedTitleKeepsInvariant(lists: seq<TodoList>, l: TodoList)
    requires TitlesUnique(lists)
    requires forall i :: 0 <= i < |lists| ==> TitleLengthOk(lists[i].title)
    requires ErrorForListTitle(l.title, lists) == None
    ensures TitlesUnique(lists + [l])
    ensures forall i :: 0 <= i < |lists + [l]| ==> TitleLengthOk((lists + [l])[i].title)
  {
  }

  /**
   * Worked cases: the comparison is exact (case and surrounding spaces make a
   * different title), the length is that of the raw title, a duplicate is
   * reported as such even when it is also too long, and the messages are the
   * application's own.
   */
  lemma ExactComparisonExamples()
    ensures var lists := [TodoList("1", "Groceries")];
      && ErrorForListTitle("Groceries", lists) == Some(NotUnique)
      && ErrorForListTitle("groceries", lists) == None
      && ErrorForListTitle(" Groceries", lists) == None
      && ErrorForListTitle("Groceries ", lists) == None
    ensures ErrorForListTitle("", []) == Some(BadLength)
    ensures ErrorForListTitle(" ", []) == None
    ensures ErrorForListTitle(seq(100, _ => 'x'), []) == None
    ensures ErrorForListTitle(seq(101, _ => 'x'), []) == Some(BadLength)
    ensures ErrorForListTitle(seq(101, _ => 'x'), [TodoList("2", seq(101, _ => 'x'))])
              == Some(NotUnique)
    ensures NotUnique.Message() == "The titles must be unique"
    ensures BadLength.Message() == "The title must be between 1 and 100 characters"
  {
  }

  // ---------------------------------------------------------------------------
  // get_list_by_id

  /**
   * Scans `lists` front to back and returns the first list whose id is
   * `listId`, or `None` when there is none.
   */
  function GetListById(listId: Id, lists: seq<TodoList>): (r: Option<TodoList>)
    ensures r.Some? ==> r.value in lists && r.value.id == listId
    ensures r.Some? ==> exists k :: IsFirstMatch(listId, lists, k) && lists[k] == r.value
    ensures r.None? <==> forall i :: 0 <= i < |lists| ==> lists[i].id != listId
  {
    if lists == [] then None
    else if lists[0].id == listId then
      assert IsFirstMatch(listId, lists, 0);
      Some(lists[0])
    else
      var r := GetListById(listId, lists[1..]);
      if r.Some? then
        assert exists k :: IsFirstMatch(listId, lists, k) && lists[k] == r.value by {
          var k :| IsFirstMatch(listId, lists[1..], k) && lists[1..][k] == r.value;
          assert IsFirstMatch(listId, lists, k + 1);
        }
        r
      else
        assert forall i :: 1 <= i < |lists| ==> lists[i].id == lists[1..][i - 1].id;
        r
  }

  /** The first match determines the result: whenever `lists[k]` is the
   *  earliest list with id `listId`, the lookup returns exactly it. */
  lemma GetListByIdIsFirstMatch(listId: Id, lists: seq<TodoList>, k: int)
    requires IsFirstMatch(listId, lists, k)
    ensures GetListById(listId, lists) == Some(lists[k])
  {
  }

  /** Looking up in a collection with one more list at the end finds the
   *  same list as before, or else the new list when its id matches. */
  lemma {:induction false} GetListByIdAppend(listId: Id, lists: seq<TodoList>, l: TodoList)
    ensures GetListById(listId, lists + [l]) ==
      if GetListById(listId, lists).Some? then GetListById(listId, lists)
      else if l.id == listId then Some(l)
      else None
  {
    if lists == [] {
      assert lists + [l] == [l];
    } else {
      assert (lists + [l])[1..] == lists[1..] + [l];
      if lists[0].id != listId {
        GetListByIdAppend(listId, lists[1..], l);
      }
    }
  }
}
