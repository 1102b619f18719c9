/** The local working set of flying reactions: inbound broadcast events are
    appended with the receive time, and a periodic sweep drops the ones older
    than the time-to-live. */
module Reactions {
  import opened Presences
  import opened Sequences

  /** Milliseconds a reaction stays in the working set. */
  const ReactionTtl: int := 5000

  /** The broadcast payload `{ x, y, value }`. */
  datatype ReactionEvent = ReactionEvent(x: int, y: int, value: string)

  /** A reaction on screen: where, which emoji, and when it arrived (ms). */
  datatype Reaction = Reaction(point: Point, value: string, timestamp: int)

  /** The sweep's keep-condition `r.timestamp > now - 5000`. */
  predicate Alive(r: Reaction, now: int)
  {
    r.timestamp > now - ReactionTtl
  }

  /** The reaction an event becomes when it is taken in at time `now`. */
  function FromEvent(ev: ReactionEvent, now: int): (r: Reaction)
    ensures r.point.x == ev.x && r.point.y == ev.y
    ensures r.value == ev.value && r.timestamp == now
  {
    Reaction(Point(ev.x, ev.y), ev.value, now)
  }

  /** The 1 s sweep: `reaction.filter(r => r.timestamp > Date.now() - 5000)`. */
  function Sweep(rs: seq<Reaction>, now: int): (kept: seq<Reaction>)
    ensures |kept| <= |rs|
    ensures forall r :: r in kept <==> r in rs && Alive(r, now)
  {
    if rs == [] then []
    else
      assert rs == [rs[0]] + rs[1..];
      if Alive(rs[0], now) then [rs[0]] + Sweep(rs[1..], now)
      else Sweep(rs[1..], now)
  }

  /** The event listener: `prevState.concat([{ point, value, timestamp: now }])`. */
  function Receive(rs: seq<Reaction>, ev: ReactionEvent, now: int): (out: seq<Reaction>)
    ensures |out| == |rs| + 1
    ensures out[..|rs|] == rs
    ensures out[|rs|] == FromEvent(ev, now)
  {
    rs + [FromEvent(ev, now)]
  }

  /** The sweep works element by element, so it distributes over concatenation. */
  lemma {:induction false} SweepAppend(a: seq<Reaction>, b: seq<Reaction>, now: int)
    ensures Sweep(a + b, now) == Sweep(a, now) + Sweep(b, now)
    decreases |a|
  {
    if a == [] {
      assert a + b == b;
    } else {
      assert (a + b)[0] == a[0];
      assert (a + b)[1..] == a[1..] + b;
      SweepAppend(a[1..], b, now);
    }
  }

  /** The sweep keeps the surviving reactions in their original order. */
  lemma {:induction false} SweepPreservesOrder(rs: seq<Reaction>, now: int)
    ensures IsSubsequence(Sweep(rs, now), rs)
    decreases |rs|
  {
    if rs != [] {
      SweepPreservesOrder(rs[1..], now);
      var kept := Sweep(rs, now);
      if Alive(rs[0], now) {
        assert kept[0] == rs[0] && kept[1..] == Sweep(rs[1..], now);
      }
    }
  }

  /** Sweeping at a later time after sweeping at an earlier one is the same
      as the later sweep alone. */
  lemma {:induction false} SweepLater(rs: seq<Reaction>, earlier: int, later: int)
    requires earlier <= later
    ensures Sweep(Sweep(rs, earlier), later) == Sweep(rs, later)
    decreases |rs|
  {
    if rs != [] {
      SweepLater(rs[1..], earlier, later);
      if Alive(rs[0], earlier) {
        var once := Sweep(rs, earlier);
        assert once == [rs[0]] + Sweep(rs[1..], earlier);
        assert once[0] == rs[0] && once[1..] == Sweep(rs[1..], earlier);
      }
    }
  }

  /** At a fixed time the sweep is idempotent. */
  lemma SweepIdempotent(rs: seq<Reaction>, now: int)
    ensures Sweep(Sweep(rs, now), now) == Sweep(rs, now)
  {
    SweepLater(rs, now, now);
  }

  /** A working set whose reactions are all alive is left exactly as it is. */
  lemma {:induction false} SweepKeepsLiveSet(rs: seq<Reaction>, now: int)
    requires forall i :: 0 <= i < |rs| ==> Alive(rs[i], now)
    ensures Sweep(rs, now) == rs
    decreases |rs|
  {
    if rs != [] {
      SweepKeepsLiveSet(rs[1..], now);
      assert rs == [rs[0]] + rs[1..];
    }
  }

  /** Time-to-live: a reaction taken in at time `t` is still shown by every
      sweep before `t + 5000` and is gone from the first sweep at or after it.
      It stays at the end of the working set while it lives. */
  lemma ReceivedLifetime(rs: seq<Reaction>, ev: ReactionEvent, t: int, now: int)
    ensures now < t + ReactionTtl ==>
              Sweep(Receive(rs, ev, t), now) == Sweep(rs, now) + [FromEvent(ev, t)]
    ensures now >= t + ReactionTtl ==>
              Sweep(Receive(rs, ev, t), now) == Sweep(rs, now)
  {
    var r := FromEvent(ev, t);
    SweepAppend(rs, [r], now);
    assert Sweep([r], now) == (if Alive(r, now) then [r] else []) + Sweep([], now);
  }
}
