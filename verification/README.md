# To-do store of a single-page to-do list

The page keeps a list of to-do records `{id, content, regDate, completed}`,
newest first, and a last-id counter. Its store hook offers four operations:

- **add** takes `counter + 1` as the new id and moves the counter to it. It
  puts an uncompleted record at the front of the list.
- **toggle** flips `completed` on the records with a given id.
- **remove** filters out the records with a given id.
- **reconcile on load** replaces the list with the stored one. The counter
  becomes the larger of 0 and the largest stored id.

Two event handlers sit in front of the store. The add form trims its text
and refuses a text that trims to nothing. The delete button removes only
after the user confirms.

The model is functional. A `Store` value holds the list (`seq<Todo>`) and
the counter. Every operation is a pure function from one store to the next.

- `todos.dfy` (module `Todos`) defines the record and the list predicates:
  unique ids, newest first, and ids bounded by a number.
- `text.dfy` (module `Text`) defines trimming. It uses the whitespace set of
  ECMAScript's `String.prototype.trim`: the WhiteSpace and LineTerminator
  productions of ECMA-262, sections 12.2 and 12.3.
- `store.dfy` (module `TodoStore`) holds add, toggle, remove, the max-id
  fold, reconciliation and the start-up state. The invariant `Valid` says
  that ids are unique, the list is strictly descending by id, and the
  counter is at least every id.
- `handlers.dfy` (module `Handlers`) holds the submit and confirmed-delete
  handlers. It also runs whole sessions of user events through them.

Ids and the counter are unbounded integers. Records restored from storage
may carry any number, and the invariant does not need non-negative ids.

The page reads a counter from the key `lastTOdoId` (src/app/page.js:28)
and never writes one. So `Initial` takes the stored counter as an input,
nothing in the model stores it, and reconciliation overwrites it whenever a
stored list exists.

## Model

| member | source | states |
|---|---|---|
| `TodoStore.Add` | src/app/page.js:59-71 | the new id is the old counter plus one and becomes the counter; the new uncompleted record with the given content and date is at index 0; the old list follows unchanged, so the length grows by one; when the counter bounds the old ids, the new id is not among them |
| `TodoStore.AddKeepsValid` | src/app/page.js:60-68 | add keeps the invariant: ids unique, strictly descending by id, counter at least every id |
| `TodoStore.Toggle` | src/app/page.js:52-57 | toggle keeps the length, the order, and every id, content and date; `completed` changes exactly on the records with the given id; every other record is identical |
| `TodoStore.ToggleTwice` | src/app/page.js:53-55 | toggling the same id twice gives back the original list |
| `TodoStore.ToggleKeepsValid` | src/app/page.js:52-57 | toggle keeps the invariant and leaves the counter alone |
| `TodoStore.Remove` | src/app/page.js:73-76 | a record is in the result exactly when it is in the list and its id differs from the given one |
| `TodoStore.RemoveAppend` | src/app/page.js:74 | removal distributes over concatenation, so kept records stay in their original relative order |
| `TodoStore.RemoveAbsent` | src/app/page.js:73-76 | removing an id that no record has leaves the list unchanged |
| `TodoStore.RemovePresent` | src/app/page.js:73-76 | under unique ids, removing the id of the record at index k yields the list without index k, one record shorter |
| `TodoStore.RemoveKeepsDescending` | src/app/page.js:74 | removal keeps a list that is strictly descending by id strictly descending |
| `TodoStore.RemoveKeepsValid` | src/app/page.js:73-76 | removal keeps the invariant and leaves the counter alone |
| `TodoStore.MaxIdFrom` | src/app/page.js:43 | the left fold of `Math.max` over the ids, starting from an accumulator, yields the least number that is at least the accumulator and every id: it is the accumulator or one of the ids |
| `TodoStore.MaxId` | src/app/page.js:43 | the reconciled counter is non-negative, at least every id, and either 0 or the id of some record |
| `TodoStore.MaxIdOfDescending` | src/app/page.js:43 | on a non-empty list that is newest first, the reconciled counter is the larger of 0 and the head's id |
| `TodoStore.Reconcile` | src/app/page.js:38-46 | with no stored list nothing changes; with one, the list becomes the stored list and the counter becomes the largest of 0 and the stored ids |
| `TodoStore.ReconcileThenAddIsFresh` | src/app/page.js:43-44 | after loading, the next add hands out an id that no loaded record has |
| `TodoStore.ReconcileValid` | src/app/page.js:39-45 | loading a newest-first list gives a store that satisfies the invariant |
| `TodoStore.ReconcileForgetsCounter` | src/app/page.js:42-44 | the result of loading a stored list does not depend on the counter or list held before |
| `TodoStore.Initial` | src/app/page.js:21-29 | without a stored list the start-up list is empty and valid whatever the counter; the reconciliation that follows keeps the start-up list and only replaces the counter by the list's max id; the counter is the stored one, or 0 when the key is missing or does not parse to a non-zero integer |
| `TodoStore.StartupValid` | src/app/page.js:21-46 | start-up followed by reconciliation satisfies the invariant whenever the stored list is newest first; with a stored list the counter is its max id, whatever counter was stored |
| `Text.FirstNonBlank` | src/app/page.js:92 | returns the first index at or after the start that holds a non-whitespace character, with only whitespace before it, or the length when there is none |
| `Text.EndOfNonBlank` | src/app/page.js:92 | returns the end of a range once its trailing whitespace is dropped: only whitespace after it, and a non-whitespace character just before it |
| `Text.Trim` | src/app/page.js:92 | the trimmed text is empty, or it starts and ends with a non-whitespace character |
| `Text.TrimIsSlice` | src/app/page.js:92 | the input is a blank prefix, then the trimmed text, then a blank suffix |
| `Text.TrimEmptyIffBlank` | src/app/page.js:92-93 | the trimmed text is empty exactly when every character of the input is whitespace |
| `Text.TrimOfTrimmed` | src/app/page.js:92 | text that is non-empty with no whitespace at either end is its own trim |
| `Text.TrimIdempotent` | src/app/page.js:92 | trimming twice gives the same text as trimming once |
| `Handlers.Submit` | src/app/page.js:89-98 | the submission is refused exactly when the text is all whitespace, and a refused one changes neither list nor counter; otherwise the trimmed text is added under the next id, and the stored content is non-empty with no whitespace at either end |
| `Handlers.ConfirmRemove` | src/app/page.js:169-175 | a declined deletion changes nothing; a confirmed one is `Remove` on the list, so it keeps exactly the records with another id in their original order and keeps the invariant; an absent id changes nothing; under unique ids a present id shrinks the list by one; the counter is untouched |
| `Handlers.Step` | src/app/page.js:89-175 | one user event keeps the invariant and keeps every stored content trimmed and non-empty; only an accepted submission moves the counter, by one, to the id it reports |
| `Handlers.Run` | src/app/page.js:59-175 | over any sequence of events, the ids handed out are consecutive from the starting counter on, and the counter ends at the starting counter plus their number; the invariant and clean contents hold at the end |
| `Handlers.IssuedIdsIncrease` | src/app/page.js:60-61 | ids handed out in one session strictly increase, and none equals an id present at the start, even after deletions |
| `Handlers.ExampleSession` | src/app/page.js:52-175 | from an empty store: add "buy milk" gives id 1, toggle 1, add "walk dog" gives id 2, confirmed delete of 1 leaves only record 2 with the counter at 2 |

## Left out

- React, Recoil and hook machinery (atoms, `useRef`, effect scheduling) is left out. The model holds one store value and applies operations in sequence. The stale closures of `toggle` and `remove` and batched updates across renders are framework concurrency, not store logic.
- `localStorage` and JSON encoding are foreign I/O and a library codec. A stored list is an `Option<seq<Todo>>` that is already decoded; `None` stands for a missing key. Malformed JSON is not modelled; this includes a stored empty string, on which the start-up `JSON.parse` at src/app/page.js:23 throws, and a stored `null`, which makes the load at src/app/page.js:41-43 throw. Nothing models the write-back of the list after each change.
- `parseInt` on the stored counter is not modelled. It is an `Option<int>`, with `None` for a missing key or a value that does not parse to a non-zero integer.
- `dateToStr` and the wall clock are not modelled. `./dateUtil` is not part of this model, so the registration date is an opaque string input to `Add` and `Submit`.
- The `alert` and `confirm` dialogs are not modelled. The confirmation answer is a boolean input. The refusal alert and the refocus of the input field are not modelled.
- The notice snackbar (src/app/page.js:193-235) and its messages are presentational state with no domain content. Rendering, theme, icons and the app bootstrap are presentation too.
- Ids loaded from storage are modelled as integers. JSON can hold other values, which `Math.max` at src/app/page.js:43 treats its own way: a fractional id gives a fractional counter, numeric strings and `null` are converted to numbers, and a missing id or a non-numeric string gives `NaN`.
- TodoStore.Add: ids and the counter are unbounded integers, while JavaScript numbers are doubles. Past 2^53, `++lastTodoIdRef.current` (src/app/page.js:60) rounds to the nearest double; at 2^53 itself it leaves the counter where it is, so ids can repeat. `AddKeepsValid`, `Step` and `Run` therefore describe the page only while ids stay below 2^53.
