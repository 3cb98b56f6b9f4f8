/**
  The main loop of src/lib.rs `rlib_run`: while `done` is unset, run the input phase, one
  `update`, and the output phase. The event source is a parameter: `batches[i]` is what the
  event pump yields in iteration `i`, so a finite sequence observes a finite prefix of the
  run. The output phase is recorded as the colour it hands to the canvas; the conversion to
  RGB, the canvas calls and the frame sleep are not modelled.
*/
module Driver {
  import opened Color
  import opened Animation
  import opened Input

  /** The index of the first batch holding a quit signal, or the number of batches if none does. */
  function FirstQuit(batches: seq<seq<Event>>): (k: nat)
    ensures k <= |batches|
    ensures k < |batches| ==> HasQuitSignal(batches[k])
    ensures forall j :: 0 <= j < k ==> !HasQuitSignal(batches[j])
    decreases |batches|
  {
    if batches == [] then 0
    else if HasQuitSignal(batches[0]) then 0
    else
      var k := FirstQuit(batches[1..]) + 1;
      assert forall j :: 0 < j < k ==> batches[j] == batches[1..][j - 1];
      k
  }

  /**
    Runs the loop over the given event batches and returns the final state and the colour
    shown by each iteration's output phase. The iteration that sees the first quit signal
    still completes its update and output, and no further iteration starts. The colours
    shown do not depend on the events: iteration `j` shows the colour of `j + 1` updates.
  */
  method MainLoop(s0: State, batches: seq<seq<Event>>) returns (s: State, shown: seq<Hsv>)
    requires ValidTiming(s0)
    ensures s0.done ==> s == s0 && shown == []
    ensures !s0.done ==> |shown| == if FirstQuit(batches) < |batches| then FirstQuit(batches) + 1 else |batches|
    ensures s.done <==> s0.done || FirstQuit(batches) < |batches|
    ensures s == Steps(s0, |shown|).(done := s.done)
    ensures forall j :: 0 <= j < |shown| ==> shown[j] == Steps(s0, j + 1).backgroundColor
  {
    s, shown := s0, [];
    var i := 0;
    while !s.done && i < |batches|
      invariant 0 <= i <= |batches| && |shown| == i
      invariant s == Steps(s0, i).(done := s.done)
      invariant forall j :: 0 <= j < i ==> shown[j] == Steps(s0, j + 1).backgroundColor
      invariant s0.done ==> i == 0 && s == s0
      invariant !s0.done ==> i <= FirstQuit(batches) + 1 && (s.done <==> i == FirstQuit(batches) + 1)
      decreases |batches| - i
    {
      ghost var before := Steps(s0, i);
      // input
      s := HandleEvents(s, batches[i]);
      assert s == before.(done := s.done);
      // update
      UpdateIgnoresDone(before, s.done);
      s := Update(s);
      assert s == Steps(s0, i + 1).(done := s.done);
      // output
      shown := shown + [s.backgroundColor];
      i := i + 1;
    }
  }
}
