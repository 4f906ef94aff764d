/**
 * The top level: take the action and the description from the command line,
 * dispatch on the action, and turn every thrown error into one message on the
 * error stream.
 */
module Cli {
  import opened Tasks
  import opened Listing

  /** What one run writes to the output stream and to the error stream. */
  datatype Console = Console(out: seq<string>, err: seq<string>)

  /** `process.argv[i]`: undefined past the end. */
  function Arg(argv: seq<string>, i: nat): Option<string> {
    if i < |argv| then Some(argv[i]) else None
  }

  /** A value as a template literal renders it; undefined renders as "undefined". */
  function Show(arg: Option<string>): string {
    match arg
    case None => "undefined"
    case Some(s) => s
  }

  function UnknownAction(action: Option<string>): string {
    "Unknown action: " + Show(action)
  }

  /**
   * One invocation. `argv` is the whole `process.argv` (the action is at
   * index 2, the description at index 3); `store` is what the store file
   * holds, `store'` what it holds afterwards.
   */
  method Run(argv: seq<string>, store: seq<Task>, createdAt: Timestamp, updatedAt: Timestamp)
    returns (store': seq<Task>, console: Console)
    ensures Arg(argv, 2) == Some("add") && Missing(Arg(argv, 3)) ==>
      store' == store && console == Console([], [DescriptionRequired])
    ensures Arg(argv, 2) == Some("add") && !Missing(Arg(argv, 3)) ==>
      && store' == store + [Task(|store| + 1, argv[3], Pending, createdAt, updatedAt)]
      && console == Console([CreatedMessage(|store| + 1)], [])
    ensures Arg(argv, 2) == Some("ls") ==>
      && store' == store
      && console.err == []
      && |console.out| == |store|
      && forall i :: 0 <= i < |store| ==> console.out[i] == TaskLine(store[i])
    ensures Arg(argv, 2) != Some("add") && Arg(argv, 2) != Some("ls") ==>
      store' == store && console == Console([], [UnknownAction(Arg(argv, 2))])
    ensures console.err != [] ==> |console.err| == 1 && console.out == [] && store' == store
    ensures store' != store ==> Arg(argv, 2) == Some("add") && |store'| == |store| + 1
  {
    var action := Arg(argv, 2);
    var taskDesc := Arg(argv, 3);
    var outcome: Outcome;
    store' := store;
    if action == Some("add") {
      store', outcome := CreateTask(taskDesc, store, createdAt, updatedAt);
    } else if action == Some("ls") {
      var lines := ListTasks(store);
      outcome := Done(lines);
    } else {
      outcome := Thrown(UnknownAction(action));
    }
    match outcome {
      case Done(logged) => console := Console(logged, []);
      case Thrown(message) => console := Console([], [message]);
    }
  }
}
