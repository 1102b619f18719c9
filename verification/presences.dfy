/** Each connection's presence: where its cursor is and what it is typing.
    `updateMyPresence` overwrites exactly the fields it is given; presence
    replication between clients happens outside this model. */
module Presences {
  import opened Wrappers

  /** A point in canvas coordinates, relative to the canvas element. */
  datatype Point = Point(x: int, y: int)

  /** The presence record: a cursor and a chat message, each possibly null. */
  datatype Presence = Presence(cursor: Option<Point>, message: Option<string>)

  /** A partial presence update. `None` leaves a field alone; `Some(v)`
      overwrites it with `v`, which may itself be null (`Some(None)`). */
  datatype PresencePatch = PresencePatch(cursor: Option<Option<Point>>, message: Option<Option<string>>)

  /** An entry of `useOthers()`: another connection and its presence, which
      the component reads through optional chaining and so may be absent. */
  datatype Connection = Connection(connectionId: int, presence: Option<Presence>)

  const NoPresence := Presence(None, None)

  /** `{ cursor: c }` */
  function CursorPatch(c: Option<Point>): PresencePatch
  {
    PresencePatch(Some(c), None)
  }

  /** `{ message: m }` */
  function MessagePatch(m: Option<string>): PresencePatch
  {
    PresencePatch(None, Some(m))
  }

  /** `updateMyPresence(patch)`: a field-wise overwrite of the fields the patch names. */
  function Apply(p: Presence, u: PresencePatch): (q: Presence)
    ensures u.cursor.Some? ==> q.cursor == u.cursor.value
    ensures u.cursor.None? ==> q.cursor == p.cursor
    ensures u.message.Some? ==> q.message == u.message.value
    ensures u.message.None? ==> q.message == p.message
  {
    Presence(u.cursor.GetOr(p.cursor), u.message.GetOr(p.message))
  }

  /** The single patch that has the effect of `first` followed by `second`:
      a field named by `second` takes its value, any other field `first`'s. */
  function Then(first: PresencePatch, second: PresencePatch): (u: PresencePatch)
    ensures u.cursor.None? <==> first.cursor.None? && second.cursor.None?
    ensures u.message.None? <==> first.message.None? && second.message.None?
  {
    PresencePatch(
      if second.cursor.Some? then second.cursor else first.cursor,
      if second.message.Some? then second.message else first.message)
  }

  /** Presence updates are snapshots, not deltas: sending the same update
      twice leaves the same presence as sending it once. */
  lemma ApplyIdempotent(p: Presence, u: PresencePatch)
    ensures Apply(Apply(p, u), u) == Apply(p, u)
  {
  }

  /** Two updates in a row are one merged update, the later one winning on
      every field both name. */
  lemma ApplyThen(p: Presence, first: PresencePatch, second: PresencePatch)
    ensures Apply(Apply(p, first), second) == Apply(p, Then(first, second))
  {
  }

  /** A full update (naming every field) forgets the earlier presence entirely. */
  lemma ApplyFullOverwrite(p: Presence, p': Presence, u: PresencePatch)
    requires u.cursor.Some? && u.message.Some?
    ensures Apply(p, u) == Apply(p', u)
  {
  }
}
