/** The channel-open gate: both components subscribe to `onChannelOpen` and,
    on a `true` value, start the game in their role and navigate back. */
module Readiness {

  datatype Action = StartGameAsHost | StartGameAsParticipant | NavigateBack

  function Count(actions: seq<Action>, a: Action): nat
  {
    if |actions| == 0 then 0
    else Count(actions[..|actions| - 1], a) + (if actions[|actions| - 1] == a then 1 else 0)
  }

  /** Handles one `onChannelOpen` value for a component whose role action is
      `start`. */
  function OnChannelOpen(actions: seq<Action>, isOpen: bool, start: Action): (r: seq<Action>)
    requires start != NavigateBack
    ensures !isOpen ==> r == actions
    ensures |r| >= |actions|
    ensures r[..|actions|] == actions
    ensures Count(r, start) == Count(actions, start) + (if isOpen then 1 else 0)
    ensures isOpen ==> |r| == |actions| + 2 && r[|actions|] == start && r[|r| - 1] == NavigateBack
  {
    if isOpen then
      var r := actions + [start, NavigateBack];
      assert r[..|r| - 1] == actions + [start];
      assert (actions + [start])[..|actions|] == actions;
      r
    else actions
  }

  function TrueCount(values: seq<bool>): nat
  {
    if |values| == 0 then 0
    else TrueCount(values[..|values| - 1]) + (if values[|values| - 1] then 1 else 0)
  }

  /** A stream of `onChannelOpen` values, oldest first. */
  function OnChannelOpenAll(actions: seq<Action>, values: seq<bool>, start: Action): seq<Action>
    requires start != NavigateBack
    decreases |values|
  {
    if |values| == 0 then actions
    else OnChannelOpen(OnChannelOpenAll(actions, values[..|values| - 1], start), values[|values| - 1], start)
  }

  /** The role action runs once per `true` value and never otherwise: a
      stream of `false` values changes nothing. */
  lemma {:induction false} StartsMatchOpenEvents(actions: seq<Action>, values: seq<bool>, start: Action)
    requires start != NavigateBack
    ensures Count(OnChannelOpenAll(actions, values, start), start) == Count(actions, start) + TrueCount(values)
    ensures TrueCount(values) == 0 ==> OnChannelOpenAll(actions, values, start) == actions
    decreases |values|
  {
    if |values| > 0 {
      StartsMatchOpenEvents(actions, values[..|values| - 1], start);
    }
  }
}
