/** What it means for a button to be pushed and held, given for every frame so far whether it was pressed. */
module PressEdges {
  predicate Hold(trace: seq<bool>) {
    trace != [] && trace[|trace| - 1]
  }

  /** Pressed in this frame and not in the one before; before the first frame nothing is pressed. */
  predicate Push(trace: seq<bool>) {
    Hold(trace) && !Hold(trace[..|trace| - 1])
  }

  /** How many frames have answered "pushed". */
  function Pushes(trace: seq<bool>): nat {
    if trace == [] then 0 else Pushes(trace[..|trace| - 1]) + (if Push(trace) then 1 else 0)
  }

  /** The length of the pressed interval at the start of `trace`. */
  function Run(trace: seq<bool>): (n: nat)
    ensures n <= |trace|
    ensures forall i :: 0 <= i < n ==> trace[i]
    ensures n < |trace| ==> !trace[n]
  {
    if trace == [] || !trace[0] then 0 else 1 + Run(trace[1..])
  }

  /** The number of maximal pressed intervals, counted by removing them one after the other. */
  function Intervals(trace: seq<bool>): nat
    decreases |trace|
  {
    if trace == [] then 0
    else if !trace[0] then Intervals(trace[1..])
    else 1 + Intervals(trace[Run(trace)..])
  }

  lemma HoldOfTail(trace: seq<bool>, n: nat)
    requires n <= |trace| && !(n == |trace| && Hold(trace))
    ensures Hold(trace[n..]) == Hold(trace)
  {
  }

  lemma {:induction false} RunSnoc(trace: seq<bool>, pressed: bool)
    ensures Run(trace + [pressed]) == Run(trace) + (if Run(trace) == |trace| && pressed then 1 else 0)
  {
    var all := trace + [pressed];
    if trace == [] {
      assert all[1..] == [];
    } else if trace[0] {
      assert all[1..] == trace[1..] + [pressed];
      RunSnoc(trace[1..], pressed);
    }
  }

  /** A frame only adds an interval if it starts one. */
  lemma {:induction false} IntervalsSnoc(trace: seq<bool>, pressed: bool)
    ensures Intervals(trace + [pressed]) == Intervals(trace) + (if pressed && !Hold(trace) then 1 else 0)
    decreases |trace|
  {
    var all := trace + [pressed];
    if trace == [] {
      assert all[1..] == [];
      if pressed { assert all[Run(all)..] == []; }
    } else if !trace[0] {
      assert all[1..] == trace[1..] + [pressed];
      IntervalsSnoc(trace[1..], pressed);
      HoldOfTail(trace, 1);
    } else {
      var n := Run(trace);
      RunSnoc(trace, pressed);
      if n < |trace| {
        assert all[n..] == trace[n..] + [pressed];
        IntervalsSnoc(trace[n..], pressed);
        HoldOfTail(trace, n);
      } else {
        assert trace[n..] == [] && Hold(trace);
        assert all[Run(all)..] == if pressed then [] else [pressed];
        assert Intervals([false]) == Intervals([false][1..]) == 0;
      }
    }
  }

  /** Every press is reported once: as many pushes as there are maximal pressed intervals. */
  lemma {:induction false} PushesCountIntervals(trace: seq<bool>)
    ensures Pushes(trace) == Intervals(trace)
  {
    if trace == [] {
    } else {
      var before, pressed := trace[..|trace| - 1], trace[|trace| - 1];
      PushesCountIntervals(before);
      IntervalsSnoc(before, pressed);
      assert trace == before + [pressed];
    }
  }

  /** The button is down in frame `i` and was not down before. */
  predicate StartsAt(trace: seq<bool>, i: nat) {
    i < |trace| && trace[i] && (i == 0 || !trace[i - 1])
  }

  lemma StartsEarlier(trace: seq<bool>, i: nat)
    requires i + 1 < |trace|
    ensures StartsAt(trace[..|trace| - 1], i) == StartsAt(trace, i)
  {
  }

  /** And as many as there are frames in which the button goes down. */
  lemma {:induction false} PushesAreStarts(trace: seq<bool>)
    ensures Pushes(trace) == |set i: nat | i < |trace| && StartsAt(trace, i)|
  {
    var starts := set i: nat | i < |trace| && StartsAt(trace, i);
    if trace == [] {
      assert starts == {};
    } else {
      var before, n := trace[..|trace| - 1], |trace| - 1;
      PushesAreStarts(before);
      var earlier := set i: nat | i < |before| && StartsAt(before, i);
      forall i: nat | i < n ensures StartsAt(trace, i) == StartsAt(before, i) { StartsEarlier(trace, i); }
      assert starts == earlier + if StartsAt(trace, n) then {n} else {};
    }
  }
}
