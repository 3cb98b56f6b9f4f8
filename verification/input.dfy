/**
  The input phase of src/lib.rs (`input`): every pending event is examined in order, and a
  quit request or an Escape key press sets the `done` flag. Events are reduced to the cases
  the function distinguishes; the echo of each event to standard output is not modelled.
*/
module Input {
  import opened Animation

  datatype Keycode = Escape | OtherKey(code: nat)

  /** A key event's key code, which the windowing library may leave out. */
  datatype Option<+T> = None | Some(value: T)

  datatype Event =
    | Quit
    | KeyDown(keycode: Option<Keycode>)
    | MouseMotion
    | OtherEvent

  /** The two event shapes that end the main loop. */
  function IsQuitSignal(e: Event): (quit: bool)
    ensures e == Quit ==> quit
    ensures e == KeyDown(Some(Escape)) ==> quit
    ensures e.MouseMotion? || e.OtherEvent? ==> !quit
    ensures e.KeyDown? && e.keycode != Some(Escape) ==> !quit
  {
    e.Quit? || (e.KeyDown? && e.keycode == Some(Escape))
  }

  predicate HasQuitSignal(events: seq<Event>)
  {
    exists i :: 0 <= i < |events| && IsQuitSignal(events[i])
  }

  /** The effect of one event on the state. */
  function HandleEvent(s: State, e: Event): (r: State)
    ensures r == s.(done := r.done)
    ensures s.done ==> r.done
    ensures IsQuitSignal(e) ==> r.done
    ensures !IsQuitSignal(e) ==> r == s
  {
    if IsQuitSignal(e) then s.(done := true) else s
  }

  /**
    `input`: the events folded into the state in order. Only `done` can change, it is
    never cleared, and it ends up set exactly when it was set before or some event is a
    quit signal.
  */
  function HandleEvents(s: State, events: seq<Event>): (r: State)
    ensures r == s.(done := r.done)
    ensures r.done <==> s.done || HasQuitSignal(events)
    decreases |events|
  {
    if events == [] then s
    else
      var r := HandleEvents(HandleEvent(s, events[0]), events[1..]);
      assert forall i :: 0 < i < |events| ==> events[i] == events[1..][i - 1];
      r
  }

  /** Draining two batches one after the other is draining their concatenation. */
  lemma {:induction false} HandleEventsAppend(s: State, a: seq<Event>, b: seq<Event>)
    ensures HandleEvents(s, a + b) == HandleEvents(HandleEvents(s, a), b)
    decreases |a|
  {
    if a != [] {
      assert (a + b)[1..] == a[1..] + b;
      HandleEventsAppend(HandleEvent(s, a[0]), a[1..], b);
    } else {
      assert a + b == b;
    }
  }
}
