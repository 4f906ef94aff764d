/**
 * The task store and task creation.
 *
 * The store file holds the whole task list. Only `add` with a description and
 * `ls` read it, always whole; a create writes it back whole. A missing
 * description is rejected before the store is read. Here the store is the
 * value `seq<Task>` that is read, and the value written back is returned. The
 * two wall-clock timestamps a create takes are opaque parameters with no
 * relation between them.
 */
module Tasks {
  import opened Decimal

  datatype Option<T> = None | Some(value: T)

  /** A timestamp as the store holds it; its form is never inspected. */
  type Timestamp = string

  datatype Task = Task(
    id: nat,
    description: string,
    status: string,
    createdAt: Timestamp,
    updatedAt: Timestamp)

  const Pending := "pending"
  const DescriptionRequired := "Description is required"
  const CreatedPrefix := "Task created with ID: "

  /**
   * What a command produced before the top level caught it: the lines it
   * logged, or the message of the error it threw.
   */
  datatype Outcome = Done(logged: seq<string>) | Thrown(message: string)

  /**
   * `!description` for a command-line argument, which is either a string or
   * undefined: only undefined and the empty string are falsy.
   */
  predicate Missing(description: Option<string>) {
    description == None || description == Some("")
  }

  /** The task a create appends: the next id by count, status pending. */
  function NewTask(store: seq<Task>, description: string, createdAt: Timestamp, updatedAt: Timestamp): Task {
    Task(|store| + 1, description, Pending, createdAt, updatedAt)
  }

  function CreatedMessage(id: nat): string {
    CreatedPrefix + NatToString(id)
  }

  /** The store a create leaves behind. */
  function StoreAfterCreate(store: seq<Task>, description: Option<string>, createdAt: Timestamp, updatedAt: Timestamp): seq<Task> {
    if Missing(description) then store
    else store + [NewTask(store, description.value, createdAt, updatedAt)]
  }

  /**
   * `createTask`: validate the description before touching the store, read
   * the store, push the new task and write the store back.
   */
  method CreateTask(description: Option<string>, store: seq<Task>, createdAt: Timestamp, updatedAt: Timestamp)
    returns (store': seq<Task>, outcome: Outcome)
    ensures store' == StoreAfterCreate(store, description, createdAt, updatedAt)
    ensures Missing(description) ==> store' == store && outcome == Thrown(DescriptionRequired)
    ensures !Missing(description) ==>
      && |store'| == |store| + 1
      && store'[..|store|] == store
      && store'[|store|].id == |store| + 1
      && store'[|store|].description == description.value
      && store'[|store|].status == Pending
      && store'[|store|].createdAt == createdAt
      && store'[|store|].updatedAt == updatedAt
      && outcome == Done([CreatedMessage(store'[|store|].id)])
  {
    if Missing(description) {
      return store, Thrown(DescriptionRequired);
    }
    var tasks := store;
    var newTask := NewTask(tasks, description.value, createdAt, updatedAt);
    tasks := tasks + [newTask];
    store' := tasks;
    outcome := Done([CreatedMessage(newTask.id)]);
  }

  /** Reads the id back out of a creation message. */
  function ParseCreatedMessage(message: string): Option<nat> {
    if |message| <= |CreatedPrefix| || message[..|CreatedPrefix|] != CreatedPrefix then None
    else
      var digits := message[|CreatedPrefix|..];
      if Canonical(digits) then Some(ValueOf(digits)) else None
  }

  /** The creation message names the id of the appended task, and nothing else. */
  lemma CreatedMessageRoundTrip(id: nat)
    ensures ParseCreatedMessage(CreatedMessage(id)) == Some(id)
  {
    var m := CreatedMessage(id);
    assert m[|CreatedPrefix|..] == NatToString(id);
    ValueOfNatToString(id);
  }

  /** Every message the parser accepts is the creation message of that id. */
  lemma CreatedMessageParsed(message: string, id: nat)
    requires ParseCreatedMessage(message) == Some(id)
    ensures message == CreatedMessage(id)
  {
    var digits := message[|CreatedPrefix|..];
    NatToStringOfValue(digits);
    assert message == message[..|CreatedPrefix|] + digits;
  }

  /** The store holds ids 1..n in order. */
  predicate IdsSequential(store: seq<Task>) {
    forall i :: 0 <= i < |store| ==> store[i].id == i + 1
  }

  /**
   * A create leaves ids 1..n or 1..n+1 exactly when the store held ids 1..n
   * before: it neither repairs nor breaks the numbering of the stored tasks.
   */
  lemma CreatePreservesSequentialIds(store: seq<Task>, description: Option<string>, createdAt: Timestamp, updatedAt: Timestamp)
    ensures IdsSequential(StoreAfterCreate(store, description, createdAt, updatedAt)) <==> IdsSequential(store)
  {
    var after := StoreAfterCreate(store, description, createdAt, updatedAt);
    assert forall i :: 0 <= i < |store| ==> after[i] == store[i];
  }

  /**
   * On any store of n tasks, a create repeats an id exactly when some stored
   * task already has id n + 1.
   */
  lemma CreateRepeatsIdExactly(store: seq<Task>, description: Option<string>, createdAt: Timestamp, updatedAt: Timestamp)
    requires !Missing(description)
    ensures var after := StoreAfterCreate(store, description, createdAt, updatedAt);
      (exists i :: 0 <= i < |store| && after[i].id == after[|store|].id)
      <==> (exists i :: 0 <= i < |store| && store[i].id == |store| + 1)
  {
    var after := StoreAfterCreate(store, description, createdAt, updatedAt);
    assert forall i :: 0 <= i < |store| ==> after[i] == store[i];
  }

  /** Under sequential ids no two tasks share an id. */
  lemma SequentialIdsAreDistinct(store: seq<Task>)
    requires IdsSequential(store)
    ensures forall i, j :: 0 <= i < j < |store| ==> store[i].id != store[j].id
  {
  }

  /**
   * The id rule counts tasks and does not look at the ids already stored, so
   * a store holding id n + 1 among its n tasks gets that id again.
   */
  lemma CountBasedIdCanCollide()
    ensures var store := [Task(2, "walk dog", Pending, "", "")];
            var after := StoreAfterCreate(store, Some("buy milk"), "", "");
            |after| == 2 && after[1].id == after[0].id
  {
  }

  /** One invocation of `add`: a description and the two clock readings it takes. */
  datatype Request = Request(description: Option<string>, createdAt: Timestamp, updatedAt: Timestamp)

  /** The store after the requests are run as successive creates, in order. */
  function CreateAll(store: seq<Task>, requests: seq<Request>): seq<Task>
    decreases |requests|
  {
    if requests == [] then store
    else
      var last := requests[|requests| - 1];
      StoreAfterCreate(CreateAll(store, requests[..|requests| - 1]), last.description, last.createdAt, last.updatedAt)
  }

  /** The descriptions of the requests that pass validation, in order. */
  function Accepted(requests: seq<Request>): seq<string>
    decreases |requests|
  {
    if requests == [] then []
    else
      var last := requests[|requests| - 1];
      Accepted(requests[..|requests| - 1]) + (if Missing(last.description) then [] else [last.description.value])
  }

  /**
   * `after` is `store` followed by one pending task per description, in order,
   * the task at index k having id k + 1.
   */
  predicate AppendsPending(store: seq<Task>, after: seq<Task>, descriptions: seq<string>) {
    && |after| == |store| + |descriptions|
    && after[..|store|] == store
    && forall k :: |store| <= k < |after| ==>
         && after[k].id == k + 1
         && after[k].description == descriptions[k - |store|]
         && after[k].status == Pending
  }

  /**
   * Successive creates keep the old tasks as they were and append one pending
   * task per accepted description, in order, the one at index k with id k + 1.
   */
  lemma {:induction false} CreateAllAppends(store: seq<Task>, requests: seq<Request>)
    ensures AppendsPending(store, CreateAll(store, requests), Accepted(requests))
    decreases |requests|
  {
    if requests != [] {
      var init := requests[..|requests| - 1];
      CreateAllAppends(store, init);
      var before, acceptedBefore := CreateAll(store, init), Accepted(init);
      var last := requests[|requests| - 1];
      if !Missing(last.description) {
        var after := before + [NewTask(before, last.description.value, last.createdAt, last.updatedAt)];
        assert CreateAll(store, requests) == after;
        assert Accepted(requests) == acceptedBefore + [last.description.value];
        assert after[..|store|] == before[..|store|];
        var accepted := Accepted(requests);
        assert |after| == |store| + |accepted|;
        forall k | |store| <= k < |after|
          ensures && after[k].id == k + 1
                  && after[k].description == accepted[k - |store|]
                  && after[k].status == Pending
        {
          if k < |before| {
            assert after[k] == before[k];
            assert accepted[k - |store|] == acceptedBefore[k - |store|];
          }
        }
        assert AppendsPending(store, after, accepted);
      } else {
        assert CreateAll(store, requests) == before;
        assert Accepted(requests) == acceptedBefore;
      }
    }
  }

  /** From an empty store, N accepted creates give ids 1..N in creation order. */
  lemma {:induction false} CreateAllFromEmpty(requests: seq<Request>)
    ensures var after := CreateAll([], requests);
      && |after| == |Accepted(requests)|
      && IdsSequential(after)
      && forall i :: 0 <= i < |after| ==> after[i].description == Accepted(requests)[i] && after[i].status == Pending
  {
    CreateAllAppends([], requests);
    var after, accepted := CreateAll([], requests), Accepted(requests);
    assert |after| == |accepted|;
    forall i | 0 <= i < |after|
      ensures after[i].id == i + 1 && after[i].description == accepted[i] && after[i].status == Pending
    {
    }
  }
}
