/**
 * The aggregation into `all_ips`: the result of every task is added to one
 * set as the tasks complete. The thread pool is replaced by its observable
 * outcome: the list each task's future holds (or none, when `future.result()`
 * raises) and the order `as_completed` hands the futures over in.
 */
module Aggregate {
  import opened Optional

  /** `as_completed` yields each of the `n` submitted futures exactly once. */
  predicate IsCompletionOrder(order: seq<nat>, n: nat) {
    && |order| == n
    && (forall k :: 0 <= k < n ==> order[k] < n)
    && (forall j :: 0 <= j < n ==> j in order)
    && (forall j, k :: 0 <= j < k < n ==> order[j] != order[k])
  }

  /** What `all_ips.update(future.result())` adds for one task: nothing when the future raised. */
  function Contribution(outcome: Option<seq<string>>): set<string> {
    match outcome
    case None => {}
    case Some(ips) => set ip | ip in ips
  }

  /** The union of the contributions of all tasks, taken in submission order. */
  function Collected(outcomes: seq<Option<seq<string>>>): (all: set<string>)
    ensures forall ip :: ip in all <==>
      exists j :: 0 <= j < |outcomes| && outcomes[j].Some? && ip in outcomes[j].value
  {
    if outcomes == [] then {}
    else
      var init := outcomes[..|outcomes| - 1];
      assert forall j :: 0 <= j < |init| ==> init[j] == outcomes[j];
      Collected(init) + Contribution(outcomes[|outcomes| - 1])
  }

  /**
   * The loop over `as_completed`: starting from the empty set, each completed
   * task's list is unioned in. Whatever the completion order, the set ends
   * as the union of all lists.
   */
  method Collect(outcomes: seq<Option<seq<string>>>, order: seq<nat>) returns (allIps: set<string>)
    requires IsCompletionOrder(order, |outcomes|)
    ensures allIps == Collected(outcomes)
  {
    allIps := {};
    var i := 0;
    while i < |order|
      invariant 0 <= i <= |order|
      invariant forall ip :: ip in allIps <==>
        exists k :: 0 <= k < i && outcomes[order[k]].Some? && ip in outcomes[order[k]].value
    {
      var outcome := outcomes[order[i]];
      if outcome.Some? {
        allIps := allIps + set ip | ip in outcome.value;
      }
      i := i + 1;
    }
    forall ip | ip in Collected(outcomes) ensures ip in allIps {
      var j :| 0 <= j < |outcomes| && outcomes[j].Some? && ip in outcomes[j].value;
      assert j in order;
      var k :| 0 <= k < |order| && order[k] == j;
      assert outcomes[order[k]].Some? && ip in outcomes[order[k]].value;
    }
  }

  /** A task that raised, or that returned nothing, leaves the others' contributions intact. */
  lemma {:induction false} CollectedIgnoresEmpty(outcomes: seq<Option<seq<string>>>, j: nat, empty: Option<seq<string>>)
    requires j < |outcomes|
    requires empty == None || empty == Some([])
    ensures Collected(outcomes[j := empty]) ==
      set ip | ip in Collected(outcomes) && exists i :: 0 <= i < |outcomes| && i != j && outcomes[i].Some? && ip in outcomes[i].value
  {
    var changed := outcomes[j := empty];
    forall ip ensures ip in Collected(changed) <==>
      ip in Collected(outcomes) && exists i :: 0 <= i < |outcomes| && i != j && outcomes[i].Some? && ip in outcomes[i].value
    {
      if ip in Collected(changed) {
        var i :| 0 <= i < |changed| && changed[i].Some? && ip in changed[i].value;
        assert i != j && outcomes[i] == changed[i];
      }
      if exists i :: 0 <= i < |outcomes| && i != j && outcomes[i].Some? && ip in outcomes[i].value {
        var i :| 0 <= i < |outcomes| && i != j && outcomes[i].Some? && ip in outcomes[i].value;
        assert changed[i] == outcomes[i];
      }
    }
  }
}
