# Interactive Set Editor — a Dafny model of the editing loop

The program edits a list of values in a terminal. A cursor highlights one
element. The right and left arrows move the cursor, and it wraps around at
both ends. The space bar replaces the highlighted value with a newly typed
one, and tab appends a typed value. Delete and backspace remove the
highlighted value unless it is the only one left. Enter ends the session.
A typed line that does not convert to the element type becomes the type's
default value (0 for `int`).

The model follows the shape of `Program.cs`:

- `dotnet.dfy` (module `DotNet`) covers the .NET pieces the loop relies on.
  `List<T>` is the class `ItemList`, changed in place by `Set`, `Add` and
  `RemoveAt`. It also holds C#'s truncating `%`, 32-bit wrap-around, and the
  two exceptions the loop body can raise.
- `console_reader.dfy` (module `ConsoleReader`) holds the fallback policy of
  `ConsoleReader.ReadValue<T>`.
- `set_editor.dfy` has two modules. `InteractiveSetEditor` holds the key
  dispatch as a pure step function `Next` on the state (items, cursor). It
  also holds `Intended`, an independent description of the key bindings
  written without modular arithmetic. `Step` and `EditItems` are imperative
  methods that edit an `ItemList` in place and are proved against `Next`
  and `Run`. The module `Sessions` proves properties of whole key sequences.

The step is total, so it has no precondition. On an empty list the loop
body raises `DivideByZeroException` at the wrap-around, or
`ArgumentOutOfRangeException` for the space bar and delete. The model
returns these as `Thrown(...)`. From any valid state nothing raises.

The cursor stays in `[0, Count)`, which includes the last element.

## Model

| member | source | states |
|---|---|---|
| `DotNet.Remainder` | Program.cs:91 | C#'s `%`: `a == Quotient(a, n) * n + r`, `Abs(r) < Abs(n)`, and `r` has the sign of the dividend |
| `DotNet.WrapInt32` | Program.cs:91 | an unchecked 32-bit `int` result: in range, congruent to the exact value modulo 2^32, and equal to it when it fits |
| `DotNet.ItemList.Set` | Program.cs:80 | `list[i] = v` replaces exactly position `i` when `i` is in range; otherwise it throws and the list is unchanged |
| `DotNet.ItemList.Add` | Program.cs:84 | `list.Add(v)` appends `v` after the old contents |
| `DotNet.ItemList.RemoveAt` | Program.cs:88 | `list.RemoveAt(i)` removes exactly position `i` when it is in range; otherwise it throws and the list is unchanged |
| `ConsoleReader.ReadValue` | Program.cs:28-35 | a successful conversion is returned as is; a failed one becomes the default value and is never reported |
| `InteractiveSetEditor.Normalize` | Program.cs:91 | `(count + index) % count` throws exactly when the list is empty; for a cursor in `[-count, 2 * count)` it lands in `[0, count)` and differs from the cursor by a multiple of `count` |
| `InteractiveSetEditor.NormalizeExact` | Program.cs:91 | the wrap-around is exact: -1 goes to `count - 1`, `count` goes to 0, and an in-range cursor is kept |
| `InteractiveSetEditor.NormalizeInt32` | Program.cs:91 | the wrap-around in 32-bit arithmetic, as written; it agrees with `Normalize` while `count + index` fits in an `int` |
| `InteractiveSetEditor.CursorSumOverflows` | Program.cs:91 | with 2^30 + 1 elements and the cursor on the last one, the 32-bit wrap-around moves the cursor to -(2^30 - 2); the exact one keeps it |
| `InteractiveSetEditor.Next` | Program.cs:70-91 | one loop body never raises from a valid state (non-empty list, cursor in range) and leads to a valid state; on an empty list every key except tab raises |
| `InteractiveSetEditor.Dispatch` | Program.cs:70-89 | the if/else chain on the key raises exactly when the space bar, or delete and backspace on a list longer or shorter than one element, meet a cursor outside the list; otherwise the list changes length by at most one and the cursor moves by at most one |
| `InteractiveSetEditor.Intended` | Program.cs:70-91 | a closed-form description of one loop body on a valid state, without modular arithmetic (circular arrows, replace, append, guarded delete with the cursor going to 0 after deleting the last element); it always gives a valid state |
| `InteractiveSetEditor.StepMatchesIntended` | Program.cs:70-91 | from every valid state, the loop body (dispatch followed by `(Count + index) % Count`) does exactly what `Intended` describes |
| `InteractiveSetEditor.ArrowsWrapAround` | Program.cs:70-77 | right moves the cursor up by one and left moves it down by one. Right from the last element goes to 0, left from 0 goes to the last element, and the list is unchanged |
| `InteractiveSetEditor.SpacebarReplacesOnlyCursor` | Program.cs:78-80 | the space bar writes the value at the cursor; the length, every other position and the cursor are unchanged |
| `InteractiveSetEditor.TabAppends` | Program.cs:82-84 | tab grows the list by one, puts the value at the old length, keeps the old prefix and leaves the cursor alone |
| `InteractiveSetEditor.DeleteKeepsLastElement` | Program.cs:86 | delete and backspace on a one-element list leave list and cursor unchanged |
| `InteractiveSetEditor.DeleteRemovesCursorElement` | Program.cs:86-91 | on a longer list they shrink it by one. Earlier elements stay, later ones move down by one, and the cursor stays unless it was on the last element, in which case it goes to 0 |
| `InteractiveSetEditor.UnboundKeysChangeNothing` | Program.cs:69-91 | Enter and any key without a binding leave list and cursor unchanged |
| `InteractiveSetEditor.Step` | Program.cs:69-91 | the loop body on the caller's `List<T>`: the new list and cursor are those `Next` gives. When the body raises, it reports the same exception and the list is unchanged |
| `InteractiveSetEditor.Run` | Program.cs:64-93 | the loop over a finite key sequence reads at most all the keys; a session still waiting for Enter has read every key, and a finished one has read at least one |
| `InteractiveSetEditor.EditItems` | Program.cs:56-93 | the do-while loop, started with the cursor at 0, edits the caller's list in place into exactly the list `Run` gives, and reads exactly as many keys |
| `Sessions.RunKeepsValid` | Program.cs:64-93 | from a valid state, every session keeps the list non-empty and the cursor in range, and never raises |
| `Sessions.RunStopsAtFirstEnter` | Program.cs:69-93 | no key before the last one read is Enter, and a confirmed session's last key is Enter |
| `Sessions.RunConfirmedIffEnter` | Program.cs:93 | from a valid state, a session is confirmed exactly when one of its keys is Enter |
| `Sessions.RunIgnoresLaterKeys` | Program.cs:93 | once a session has ended, keys pressed after it change nothing |
| `Sessions.EmptyListNeedsTabFirst` | Program.cs:61-91 | on an empty list, the session raises exactly when the first key is not tab |
| `Sessions.EditScenario` | Program.cs:104-107 | on 26, 10, -13, 17, 3: right, right, space with 99, tab with 5, then Enter gives 26, 10, 99, 17, 3, 5 |
| `Sessions.UnreadableInputStoresDefault` | Program.cs:28-35 | space with input that does not convert writes 0 into an integer list |
| `Sessions.SingletonScenario` | Program.cs:86 | on the list [1], delete followed by Enter leaves [1] |
| `Sessions.EditDefaultList` | Program.cs:104-107 | Main's list, copied and then edited in place by `EditItems` with right, right, space 99, tab 5, Enter: the copy stays 26, 10, -13, 17, 3 and the list becomes 26, 10, 99, 17, 3, 5 |

## Left out

- Console I/O is not modelled. This covers `Console.Clear`, `ReadKey`, `ReadLine`, the colours and `CursorVisible`. It also covers the help screen `ShowManual` (Program.cs:44-54) and the key press it discards, and the rendering in `PrintData` (Program.cs:5-14).
- `Convert.ChangeType` (Program.cs:30) is a library call. The model takes only its outcome, as an `Option`, and `default(T)` is passed in as `defaultValue`.
- The printing and the final key press of `Main` (Program.cs:109-112) are not modelled. `EditDefaultList` builds Main's list, keeps a copy and runs `EditItems` on it with one fixed key sequence.
- The interactive loop ends only when the user presses Enter. The model runs it over a finite key sequence. A sequence without Enter ends in the `Waiting` status.
- What happens after an exception leaves `EditItems` is not modelled. The model stops the session with status `Crashed` and keeps the list as it was when the exception was raised.
- `InteractiveSetEditor.Step`, `InteractiveSetEditor.Next` and `InteractiveSetEditor.EditItems` use unbounded integers for the cursor and the count. This is the corrected behaviour from the finding below. The 32-bit version is `NormalizeInt32`. The `List<T>` capacity limit is not modelled either.

## Findings

| source | as written | input that shows it | evidently intended | confidence | as-written member | corrected member |
|---|---|---|---|---|---|---|
| Program.cs:91 | `items.Count + index` is an unchecked 32-bit `int` sum, so it wraps to a negative number once it passes 2^31 - 1 | a list of 2^30 + 1 elements, cursor on the last element (index 2^30), any key that leaves the cursor in place: the sum wraps and the cursor becomes -(2^30 - 2) | the cursor stays at 2^30 | low, not executed: it needs over a billion elements, and a project built with checked arithmetic would throw `OverflowException` instead | `InteractiveSetEditor.CursorSumOverflows` | `InteractiveSetEditor.NormalizeExact` |
