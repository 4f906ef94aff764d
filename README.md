# node-todo task store, modelled in Dafny

`todo.js` is a command-line to-do list kept in a JSON file next to the
program. Each run does one thing. Only `add` with a description and `ls`
read the file, always as a whole list; `add` writes the whole list back.
An unknown or absent action, and `add` without a description, fail before
the file is read:

- `todo add <description>` rejects a missing or empty description with
  `Description is required`; otherwise it appends a task with
  id = number of stored tasks + 1 and status `pending`, writes the list back
  and logs `Task created with ID: <id>`.
- `todo ls` logs `ID: <id> - <description>` for each stored task, in
  store order.
- Any other action (including none) is the error `Unknown action: <action>`.
  Every error is caught at the top level and its message is written to the
  error stream; nothing propagates.

The model treats the file's contents as a value `seq<Task>` that a run takes
and (for `add`) returns, and the console as a returned `Console` holding the
lines written to each stream.

- `decimal.dfy` (module `Decimal`): how a template literal renders an id,
  and a reader for numerals proved to be its inverse.
- `tasks.dfy` (module `Tasks`): the `Task` record, `createTask` as the
  method `CreateTask`, the function `StoreAfterCreate` that specifies the
  store it leaves, `CreateAll` for a series of creates, and the id lemmas.
- `listing.dfy` (module `Listing`): `listTasks` as the loop `ListTasks`,
  the line format `TaskLine` and a line reader `ParseTaskLine` that gives the
  id and description back.
- `cli.dfy` (module `Cli`): the top-level `switch` and `try`/`catch` as
  `Run`, over the whole `process.argv`.

The id rule counts tasks; it does not look at the ids already stored. A
create leaves ids 1..n+1 exactly when the store held ids 1..n
(`CreatePreservesSequentialIds`), so creates from an empty store number
their tasks 1..N (`CreateAllFromEmpty`). On a store of n tasks, a create
repeats an id exactly when the store already holds a task with id n + 1
(`CreateRepeatsIdExactly`, with `CountBasedIdCanCollide` as a witness). The
model therefore claims uniqueness only under `IdsSequential`.

The code has no update, delete or status filter. It prints no table and no
"no tasks" notice: an empty store lists nothing. `pending` is the only
status it sets.

## Model

| member | source | states |
|---|---|---|
| `Decimal.NatToString` | todo.js:39 | an id renders as a canonical decimal numeral: non-empty, digits only, no leading zero, one digit exactly when the id is below 10 |
| `Decimal.ValueOfNatToString` | todo.js:39 | reading a rendered id back gives the id |
| `Decimal.NatToStringOfValue` | todo.js:39 | every canonical numeral is the rendering of the number it denotes, so rendering and reading are inverse bijections |
| `Decimal.NatToStringInjective` | todo.js:45 | two ids render alike if and only if they are equal |
| `Tasks.CreateTask` | todo.js:25-40 | a missing or empty description throws `Description is required` and the store is left as it was, whatever it holds; otherwise the store grows by exactly one, every earlier task is unchanged and in order, and the last task has id = old length + 1, the given description verbatim, status `pending` and the two given timestamps; the logged message is `Task created with ID: ` followed by that task's id |
| `Tasks.CreatedMessageRoundTrip` | todo.js:39 | the creation message names exactly the id of the appended task |
| `Tasks.CreatedMessageParsed` | todo.js:39 | any message read as naming id n is the creation message for n |
| `Tasks.CreatePreservesSequentialIds` | todo.js:30-37 | after a create the ids are 1..n or 1..n+1 if and only if the store held ids 1..n before |
| `Tasks.CreateRepeatsIdExactly` | todo.js:30-37 | on any store of n tasks, an accepted create gives the new task an id some stored task already has if and only if some stored task has id n + 1 |
| `Tasks.SequentialIdsAreDistinct` | todo.js:30 | under ids 1..n no two tasks share an id |
| `Tasks.CountBasedIdCanCollide` | todo.js:30 | on a store holding one task with id 2, a create appends another task with id 2 |
| `Tasks.CreateAllAppends` | todo.js:28-38 | successive creates on any store keep the old tasks unchanged as a prefix and append one pending task per accepted description, in order, the task at index k getting id k + 1 |
| `Tasks.CreateAllFromEmpty` | todo.js:30-37 | from an empty store, N accepted creates give ids 1..N in creation order, each with its description and status `pending` |
| `Listing.ListTasks` | todo.js:42-47 | exactly one line per stored task, in store order, the i-th being `ID: <id> - <description>` of the i-th task |
| `Listing.TaskLineRoundTrip` | todo.js:45 | a listing line gives back its task's id and description intact, whatever characters the description holds |
| `Listing.TaskLineParsed` | todo.js:45 | every line read as id n and description d is exactly the listing line `ID: <n> - <d>`, so the reader accepts listing lines and nothing else |
| `Listing.TaskLineInjective` | todo.js:45 | two tasks list as the same line if and only if their ids and descriptions agree |
| `Listing.ListingAfterCreates` | todo.js:42-46 | after N accepted creates from an empty store, the i-th listing line is `ID: <i+1> - <i-th accepted description>` |
| `Cli.Run` | todo.js:49-67 | `add` creates with argv[3] (error: `Description is required`, store unchanged); `ls` lists without changing the store and writes no error; any other or absent action gives `Unknown action: <action>` (`undefined` when absent) with the store unchanged; every error becomes exactly one line on the error stream and nothing on the output stream; the store changes only on `add`, by one task |

## Left out

- Reading and writing the store file (todo.js:7-23): file I/O. The model takes the stored list as an input and returns the list written back. The fallback to an empty list when the file is missing is not modelled. Neither is the wrapping of read and write failures into `Error reading tasks: …` and `Error writing tasks: …`. These failures would be caught and printed like any other error.
- `JSON.parse` and `JSON.stringify`: library code. The model assumes every stored task has a natural-number id and string fields, and that the store survives a write and a later read unchanged.
- `new Date()` (todo.js:33-34): the wall clock. Each create takes the two timestamps as opaque parameters. No relation between them is claimed, and their text form is never inspected.
- `async`/`await`, the immediately invoked async function, and `console.log`/`console.error`: runtime plumbing. A run is one sequential step. Its output is the returned `Console`.
- Two runs racing on the store file: the code does nothing about concurrency, and the model has none.
- Decimal.NatToString: does not model JavaScript's exponent notation for numbers of 10^21 and above, nor the precision lost beyond 2^53. Ids are counts of stored tasks and never come near either bound.
- The undeclared loop variable `t` in `listTasks` (todo.js:44) leaks into global scope. This has no effect on a single sequential run.
