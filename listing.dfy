/**
 * Listing the store: one line `ID: <id> - <description>` per task, in store
 * order. The store is only read.
 */
module Listing {
  import opened Decimal
  import opened Tasks

  const IdPrefix := "ID: "
  const Separator := " - "

  /** The line `listTasks` logs for one task. */
  function TaskLine(t: Task): string {
    IdPrefix + NatToString(t.id) + Separator + t.description
  }

  /** `listTasks`: walk the stored tasks and log one line for each. */
  method ListTasks(store: seq<Task>) returns (lines: seq<string>)
    ensures |lines| == |store|
    ensures forall i :: 0 <= i < |store| ==> lines[i] == TaskLine(store[i])
  {
    lines := [];
    for i := 0 to |store|
      invariant |lines| == i
      invariant forall j :: 0 <= j < i ==> lines[j] == TaskLine(store[j])
    {
      lines := lines + [TaskLine(store[i])];
    }
  }

  /** Reads the id and the description back out of a listing line. */
  function ParseTaskLine(line: string): Option<(nat, string)> {
    if |line| < |IdPrefix| || line[..|IdPrefix|] != IdPrefix then None
    else
      var rest := line[|IdPrefix|..];
      var k := LeadingDigits(rest);
      if !Canonical(rest[..k]) || |rest| < k + |Separator| || rest[k..k + |Separator|] != Separator then None
      else Some((ValueOf(rest[..k]), rest[k + |Separator|..]))
  }

  /**
   * A listing line carries its task's id and description intact, however the
   * description is spelled (it may itself contain " - " or digits).
   */
  lemma TaskLineRoundTrip(t: Task)
    ensures ParseTaskLine(TaskLine(t)) == Some((t.id, t.description))
  {
    var digits := NatToString(t.id);
    var line := TaskLine(t);
    var rest := line[|IdPrefix|..];
    assert line[..|IdPrefix|] == IdPrefix;
    assert rest == digits + (Separator + t.description);
    LeadingDigitsOfNumeral(digits, Separator + t.description);
    assert rest[..|digits|] == digits;
    assert rest[|digits|..|digits| + |Separator|] == Separator;
    assert rest[|digits| + |Separator|..] == t.description;
    ValueOfNatToString(t.id);
  }

  /** Every line the reader accepts is the listing line of the id and description it reads. */
  lemma TaskLineParsed(line: string, id: nat, description: string)
    requires ParseTaskLine(line) == Some((id, description))
    ensures line == IdPrefix + NatToString(id) + Separator + description
  {
    var rest := line[|IdPrefix|..];
    var k := LeadingDigits(rest);
    NatToStringOfValue(rest[..k]);
    assert rest == rest[..k] + rest[k..k + |Separator|] + rest[k + |Separator|..];
    assert line == line[..|IdPrefix|] + rest;
  }

  /** Two tasks list as the same line exactly when their ids and descriptions agree. */
  lemma TaskLineInjective(s: Task, t: Task)
    ensures TaskLine(s) == TaskLine(t) <==> s.id == t.id && s.description == t.description
  {
    if TaskLine(s) == TaskLine(t) {
      TaskLineRoundTrip(s);
      TaskLineRoundTrip(t);
    }
  }

  /**
   * Listing after N creates on an empty store shows the accepted descriptions
   * in creation order, numbered 1..N.
   */
  lemma ListingAfterCreates(requests: seq<Request>, i: nat)
    requires i < |Accepted(requests)|
    ensures var after := CreateAll([], requests);
      i < |after| && TaskLine(after[i]) == IdPrefix + NatToString(i + 1) + Separator + Accepted(requests)[i]
  {
    CreateAllFromEmpty(requests);
  }
}
