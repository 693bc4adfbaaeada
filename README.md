# To-do lists: title validation and lookup by id

This project models the two helpers of a small Flask to-do application that
work on the session's collection of to-do lists (`todos/utils.py`):

- `error_for_list_title(title, lists)` decides whether a proposed title for a
  new list is acceptable. A title that some existing list already has, exactly,
  is refused with "The titles must be unique". Otherwise a title whose raw
  length is outside 1–100 characters is refused with "The title must be
  between 1 and 100 characters". Otherwise the result is `None`.
- `get_list_by_id(list_id, lists)` scans the lists in order and returns the
  first one whose id is `list_id`, or `None`.

Neither changes anything, so the model is functional (`utils.dfy`, module `Utils`): a list
is the datatype `TodoList(id, title)`, the collection a `seq<TodoList>`,
Python's `None` the `None` of `Option` (`wrappers.dfy`), and the two messages
are the constructors `NotUnique` and `BadLength` of `TitleError`, whose
`Message()` gives the application's exact text. The `any(...)` scan and the
`for` loop are recursive functions; their contracts tie them to quantified
reference statements (`TitleTaken`, `IsFirstMatch`).

The model follows the code as written:

- the title is not trimmed: its length is that of the raw string, and
  surrounding spaces make a different title;
- the uniqueness check comes before the length check, so a duplicate that is
  also too long gets the uniqueness message;
- a missing id gives `None`, not an exception.

## Model

| member | source | states |
|---|---|---|
| `Utils.TitleError.Message` | todos/utils.py:4-7 | `NotUnique` gives "The titles must be unique", `BadLength` gives "The title must be between 1 and 100 characters", and each message identifies its error |
| `Utils.AnyHasTitle` | todos/utils.py:3 | the scan is true exactly when some list in the collection has a title equal to the given one, with no case folding or trimming |
| `Utils.ErrorForListTitle` | todos/utils.py:2-10 | a title some list already has gives the uniqueness error whatever its length; a title no list has whose raw length is below 1 or above 100 gives the length error; the result is `None` exactly when no list has that title and its length is within 1–100 |
| `Utils.ExactComparisonExamples` | todos/utils.py:2-10 | worked cases: "groceries", " Groceries" and "Groceries " are not duplicates of "Groceries"; "" is too short while a single space is accepted; 100 characters pass and 101 fail; a 101-character duplicate gets the uniqueness error; the two messages are the application's exact strings |
| `Utils.UniquenessCheckKeepsTitlesUnique` | todos/utils.py:3-4 | for a collection whose titles are unique, a new list's title passes the uniqueness check exactly when appending that list keeps the titles unique |
| `Utils.AcceptedTitleKeepsInvariant` | todos/utils.py:2-10 | appending a list whose title the validation accepts to a collection with unique, length-bounded titles gives a collection with unique, length-bounded titles |
| `Utils.GetListById` | todos/utils.py:12-16 | a returned list belongs to the collection, has the requested id, and no earlier list has that id; the result is `None` exactly when no list has that id |
| `Utils.GetListByIdIsFirstMatch` | todos/utils.py:13-15 | whenever `lists[k]` is the earliest list with the requested id, the lookup returns exactly `lists[k]` |
| `Utils.GetListByIdAppend` | todos/utils.py:13-16 | adding a list at the end does not change a lookup that already succeeded; otherwise the lookup finds the new list when its id matches and `None` if not |

## Left out

- `app.py` (route registration, redirects, template rendering, process start-up) is framework and I/O plumbing; its hard-coded lists carry no ids and are placeholder data.
- Session storage, flash messages and HTTP status codes do not appear in the helpers and are not part of this model.
- Creating, renaming and deleting lists and to-dos, toggling and completing to-dos, completion and remaining-count queries, sorting and to-do title validation: the modelled source contains none of them, so the model does not invent them. `AcceptedTitleKeepsInvariant` only states what the validation guarantees to a caller that appends.
- GetListById: it returns the list's value, not the dictionary stored in the collection. In the application, a change made through the returned reference also changes the collection (aliasing); the model does not capture that.
- Fields of a list record other than `id` and `title` (its to-dos) are not modelled: neither helper reads them.
- Python's `KeyError` for a record lacking `title` or `id`: records always carry both fields here.
- Dynamic typing: ids are modelled as strings compared by equality, titles as `seq<char>` whose length is the number of characters (Python's `len` on `str` counts code points; no Unicode normalisation is modelled).
