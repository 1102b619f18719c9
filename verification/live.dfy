/** The live canvas overlay: the cursor-mode state machine, the local
    presence it pushes, and the reaction working set. Every handler is a pure
    transition; timers become explicit tick inputs carrying the current time. */
module Live {
  import opened Wrappers
  import opened Presences
  import R = Reactions

  /** The interaction mode of the local cursor. */
  datatype CursorState =
    | Hidden
    | Chat(previousMessage: Option<string>, message: string)
    | ReactionSelector
    | Reaction(reaction: string, isPressed: bool)

  /** Everything the overlay component holds: its cursor state, the local
      presence (as last written through `updateMyPresence`) and the reactions. */
  datatype Overlay = Overlay(mode: CursorState, me: Presence, reactions: seq<R.Reaction>)

  /** The result of one step: the next overlay and, if any, the event sent
      through `broadcast`. */
  datatype StepResult = StepResult(next: Overlay, broadcast: Option<R.ReactionEvent>)

  /** The overlay as first mounted, over whatever presence the room starts with. */
  function Mount(me: Presence): (s: Overlay)
    ensures s.mode == Hidden && s.me == me && s.reactions == []
  {
    Overlay(Hidden, me, [])
  }

  /** `onKeyUp`: "/" opens the chat, "Escape" hides the cursor and clears the
      message, "e" opens the reaction selector; other keys do nothing. */
  function KeyUp(s: Overlay, key: string): (t: Overlay)
    ensures t.reactions == s.reactions
    ensures key == "/" ==> t.mode == Chat(None, "") && t.me == s.me
    ensures key == "Escape" ==>
              t.mode == Hidden && t.me.message == Some("") && t.me.cursor == s.me.cursor
    ensures key == "e" ==> t.mode == ReactionSelector && t.me == s.me
    ensures key != "/" && key != "Escape" && key != "e" ==> t == s
  {
    if key == "/" then s.(mode := Chat(None, ""))
    else if key == "Escape" then s.(mode := Hidden, me := Apply(s.me, MessagePatch(Some(""))))
    else if key == "e" then s.(mode := ReactionSelector)
    else s
  }

  /** `handlePointerMove`: moves the presence cursor to (x, y) relative to the
      canvas, except that an already placed cursor is frozen while the
      reaction selector is open. */
  function PointerMove(s: Overlay, x: int, y: int): (t: Overlay)
    ensures t.mode == s.mode && t.reactions == s.reactions
    ensures t.me.message == s.me.message
    ensures s.me.cursor.None? || !s.mode.ReactionSelector? ==> t.me.cursor == Some(Point(x, y))
    ensures s.me.cursor.Some? && s.mode.ReactionSelector? ==> t == s
  {
    if s.me.cursor.None? || !s.mode.ReactionSelector? then
      s.(me := Apply(s.me, CursorPatch(Some(Point(x, y)))))
    else s
  }

  /** `handlePointerLeave`: hides the cursor and nulls both presence fields. */
  function PointerLeave(s: Overlay): (t: Overlay)
    ensures t.mode == Hidden && t.me == NoPresence && t.reactions == s.reactions
  {
    s.(mode := Hidden, me := Apply(s.me, PresencePatch(Some(None), Some(None))))
  }

  /** `handlePointerDown`: always places the presence cursor; in reaction mode
      the reaction becomes pressed, any other mode is left as it was. */
  function PointerDown(s: Overlay, x: int, y: int): (t: Overlay)
    ensures t.me.cursor == Some(Point(x, y)) && t.me.message == s.me.message
    ensures t.reactions == s.reactions
    ensures s.mode.Reaction? ==> t.mode == Reaction(s.mode.reaction, true)
    ensures !s.mode.Reaction? ==> t.mode == s.mode
  {
    var me := Apply(s.me, CursorPatch(Some(Point(x, y))));
    if s.mode.Reaction? then s.(me := me, mode := s.mode.(isPressed := true))
    else s.(me := me)
  }

  /** `handlePointerUp` as the source writes it: in reaction mode it sets
      `isPressed` to true, the same as pointer down. */
  function PointerUpAsWritten(s: Overlay): (t: Overlay)
    ensures t.me == s.me && t.reactions == s.reactions
    ensures s.mode.Reaction? ==> t.mode == Reaction(s.mode.reaction, true)
    ensures !s.mode.Reaction? ==> t == s
  {
    if s.mode.Reaction? then s.(mode := s.mode.(isPressed := true)) else s
  }

  /** `handlePointerUp` as evidently intended: releasing the pointer in
      reaction mode releases the reaction; the mode itself never changes. */
  function PointerUp(s: Overlay): (t: Overlay)
    ensures t.me == s.me && t.reactions == s.reactions
    ensures s.mode.Reaction? ==> t.mode == Reaction(s.mode.reaction, false)
    ensures !s.mode.Reaction? ==> t == s
  {
    if s.mode.Reaction? then s.(mode := s.mode.(isPressed := false)) else s
  }

  /** `setReactions(reaction)`: picking an emoji in the selector enters
      reaction mode, not yet pressed, whatever the previous mode. */
  function SelectReaction(s: Overlay, reaction: string): (t: Overlay)
    ensures t.mode == Reaction(reaction, false)
    ensures t.me == s.me && t.reactions == s.reactions
  {
    s.(mode := Reaction(reaction, false))
  }

  /** The 100 ms emit tick: while a reaction is pressed over a placed cursor,
      append it locally and broadcast it to the other clients; otherwise do
      nothing at all. */
  function EmitTick(s: Overlay, now: int): (t: StepResult)
    ensures t.broadcast.Some? <==> s.mode.Reaction? && s.mode.isPressed && s.me.cursor.Some?
    ensures t.broadcast.None? ==> t.next == s
    ensures t.broadcast.Some? ==>
              && t.broadcast.value.x == s.me.cursor.value.x
              && t.broadcast.value.y == s.me.cursor.value.y
              && t.broadcast.value.value == s.mode.reaction
    ensures t.broadcast.Some? ==>
              && t.next.mode == s.mode && t.next.me == s.me
              && t.next.reactions == R.Receive(s.reactions, t.broadcast.value, now)
  {
    if s.mode.Reaction? && s.mode.isPressed && s.me.cursor.Some? then
      var ev := R.ReactionEvent(s.me.cursor.value.x, s.me.cursor.value.y, s.mode.reaction);
      StepResult(s.(reactions := s.reactions + [R.FromEvent(ev, now)]), Some(ev))
    else
      StepResult(s, None)
  }

  /** The inputs the overlay reacts to. */
  datatype Input =
    | KeyPressed(key: string)
    | Moved(x: int, y: int)
    | Left
    | Pressed(x: int, y: int)
    | Released
    | Picked(reaction: string)
    | Inbound(event: R.ReactionEvent)
    | SweepTick
    | EmitTickInput

  /** One step of the overlay at time `now`. Pointer up is the corrected one. */
  function Step(s: Overlay, input: Input, now: int): (t: StepResult)
    ensures t.broadcast.Some? ==> input.EmitTickInput?
    ensures !input.Inbound? && !input.SweepTick? && !input.EmitTickInput? ==>
              t.next.reactions == s.reactions
    ensures input.Inbound? || input.SweepTick? ==> t.next.mode == s.mode && t.next.me == s.me
  {
    match input
    case KeyPressed(key) => StepResult(KeyUp(s, key), None)
    case Moved(x, y) => StepResult(PointerMove(s, x, y), None)
    case Left => StepResult(PointerLeave(s), None)
    case Pressed(x, y) => StepResult(PointerDown(s, x, y), None)
    case Released => StepResult(PointerUp(s), None)
    case Picked(reaction) => StepResult(SelectReaction(s, reaction), None)
    case Inbound(ev) => StepResult(s.(reactions := R.Receive(s.reactions, ev, now)), None)
    case SweepTick => StepResult(s.(reactions := R.Sweep(s.reactions, now)), None)
    case EmitTickInput => EmitTick(s, now)
  }

  /** No reaction in the working set is stamped later than `now`. */
  predicate NoFutureReactions(s: Overlay, now: int)
  {
    forall i :: 0 <= i < |s.reactions| ==> s.reactions[i].timestamp <= now
  }

  /** Right after a sweep at `now`, on a clock that never runs backwards,
      every reaction was stamped within the last 5000 ms. */
  lemma SweepTickWindow(s: Overlay, now: int)
    requires NoFutureReactions(s, now)
    ensures forall r :: r in Step(s, SweepTick, now).next.reactions ==>
              now - R.ReactionTtl < r.timestamp <= now
  {
  }

  /** Each step keeps the clock invariant when time does not run backwards. */
  lemma StepKeepsClock(s: Overlay, input: Input, before: int, now: int)
    requires before <= now && NoFutureReactions(s, before)
    ensures NoFutureReactions(Step(s, input, now).next, now)
  {
    var t := Step(s, input, now).next;
    if input.SweepTick? {
      forall i | 0 <= i < |t.reactions|
        ensures t.reactions[i].timestamp <= now
      {
        assert t.reactions[i] in R.Sweep(s.reactions, now);
      }
    }
  }

  /** A timestamped input. */
  datatype Timed = Timed(input: Input, at: int)

  /** Times that never decrease, starting no earlier than `start`. */
  predicate Monotone(trace: seq<Timed>, start: int)
  {
    && (trace != [] ==> start <= trace[0].at)
    && forall i :: 0 < i < |trace| ==> trace[i - 1].at <= trace[i].at
  }

  /** The overlay after feeding it a whole trace, together with the events it broadcast. */
  function Run(s: Overlay, trace: seq<Timed>): (out: (Overlay, seq<R.ReactionEvent>))
    ensures |out.1| <= |trace|
    decreases |trace|
  {
    if trace == [] then (s, [])
    else
      var t := Step(s, trace[0].input, trace[0].at);
      var rest := Run(t.next, trace[1..]);
      (rest.0, (if t.broadcast.Some? then [t.broadcast.value] else []) + rest.1)
  }

  /** Over any trace on a monotone clock, no reaction is ever stamped later
      than the time of the last input. */
  lemma {:induction false} RunKeepsClock(s: Overlay, trace: seq<Timed>, start: int)
    requires Monotone(trace, start) && NoFutureReactions(s, start)
    ensures NoFutureReactions(Run(s, trace).0, if trace == [] then start else trace[|trace| - 1].at)
    decreases |trace|
  {
    if trace != [] {
      var now := trace[0].at;
      assert start <= now;
      StepKeepsClock(s, trace[0].input, start, now);
      var t := Step(s, trace[0].input, now);
      assert Monotone(trace[1..], now) by {
        if |trace| > 1 {
          assert trace[0].at <= trace[1].at;
        }
        forall i | 0 < i < |trace[1..]|
          ensures trace[1..][i - 1].at <= trace[1..][i].at
        {
          assert trace[1..][i - 1] == trace[i] && trace[1..][i] == trace[i + 1];
        }
      }
      RunKeepsClock(t.next, trace[1..], now);
    }
  }

  /** Hold-to-emit: picking a reaction and pressing at (x, y) makes the next
      emit tick broadcast exactly that reaction at that point and show it locally. */
  lemma PickPressEmits(s: Overlay, reaction: string, x: int, y: int, now: int)
    ensures var t := EmitTick(PointerDown(SelectReaction(s, reaction), x, y), now);
            && t.broadcast == Some(R.ReactionEvent(x, y, reaction))
            && t.next.reactions == s.reactions + [R.Reaction(Point(x, y), reaction, now)]
  {
  }

  /** Leaving the canvas silences the emit tick, whatever the state was. */
  lemma LeaveSilencesEmit(s: Overlay, now: int)
    ensures EmitTick(PointerLeave(s), now).broadcast.None?
  {
  }

  /** Finding, as written: after pressing and releasing in reaction mode, the
      emit tick still broadcasts, so reactions keep streaming after release. */
  lemma PointerUpAsWrittenKeepsEmitting(s: Overlay, reaction: string, x: int, y: int, now: int)
    ensures EmitTick(PointerUpAsWritten(PointerDown(SelectReaction(s, reaction), x, y)), now).broadcast
            == Some(R.ReactionEvent(x, y, reaction))
  {
  }

  /** Corrected: after a pointer release nothing is broadcast until the next press. */
  lemma PointerUpStopsEmitting(s: Overlay, now: int)
    ensures EmitTick(PointerUp(s), now).broadcast.None?
    ensures EmitTick(PointerUp(s), now).next == PointerUp(s)
  {
  }

  /** Each key handler is idempotent: pressing the same key twice is pressing it once. */
  lemma KeyUpIdempotent(s: Overlay, key: string)
    ensures KeyUp(KeyUp(s, key), key) == KeyUp(s, key)
  {
  }
}
