/** The other users' cursors: one cursor per other connection whose presence
    carries a cursor, coloured by its connection id. */
module LiveCursors {
  import opened Wrappers
  import opened Presences

  /** What a rendered remote cursor shows. `color` is `None` where the colour
      lookup yields `undefined`. */
  datatype CursorView = CursorView(key: int, color: Option<string>, x: int, y: int, message: string)

  /** JavaScript's `a % n` for n > 0: the remainder truncates toward zero and
      takes the sign of the dividend (Dafny's own `%` never goes negative). */
  function JsRemainder(a: int, n: int): (r: int)
    requires n > 0
    ensures -n < r < n
    ensures a >= 0 ==> r == a % n
    ensures a < 0 ==> r <= 0 && -r == (-a) % n
  {
    if a >= 0 then a % n else -((-a) % n)
  }

  /** `COLORS[Number(connectionId) % COLORS.length]`. An empty palette gives
      `NaN` and a negative remainder an out-of-range index, both `undefined`;
      a remainder of minus zero indexes the first colour. */
  function ColorOf(id: int, colors: seq<string>): (c: Option<string>)
    ensures c.Some? ==> c.value in colors
    ensures |colors| > 0 && id >= 0 ==> c == Some(colors[id % |colors|])
    ensures c.None? <==> |colors| == 0 || (id < 0 && (-id) % |colors| != 0)
  {
    if |colors| == 0 then None
    else
      var k := JsRemainder(id, |colors|);
      if 0 <= k then Some(colors[k]) else None
  }

  /** `presence.message || ""`. */
  function MessageText(m: Option<string>): (text: string)
    ensures m.Some? ==> text == m.value
    ensures m.None? ==> text == ""
  {
    m.GetOr("")
  }

  /** `presence?.cursor` is set. */
  predicate HasCursor(c: Connection)
  {
    c.presence.Some? && c.presence.value.cursor.Some?
  }

  /** The cursor drawn for one connection that has a cursor. */
  function ViewOf(c: Connection, colors: seq<string>): (v: CursorView)
    requires HasCursor(c)
    ensures v.key == c.connectionId && v.color == ColorOf(c.connectionId, colors)
    ensures v.x == c.presence.value.cursor.value.x && v.y == c.presence.value.cursor.value.y
    ensures v.message == MessageText(c.presence.value.message)
  {
    var p := c.presence.value;
    CursorView(c.connectionId, ColorOf(c.connectionId, colors), p.cursor.value.x, p.cursor.value.y,
               MessageText(p.message))
  }

  /** `others.map(...)`, with the `null`s React drops left out: the cursors of
      exactly the connections that have one. */
  function SelectCursors(others: seq<Connection>, colors: seq<string>): (out: seq<CursorView>)
    ensures |out| <= |others|
    ensures forall c :: c in others && HasCursor(c) ==> ViewOf(c, colors) in out
    ensures forall v :: v in out ==> exists c :: c in others && HasCursor(c) && v == ViewOf(c, colors)
  {
    if others == [] then []
    else
      assert others == [others[0]] + others[1..];
      var rest := SelectCursors(others[1..], colors);
      if HasCursor(others[0]) then [ViewOf(others[0], colors)] + rest else rest
  }

  /** Selection works connection by connection, so it keeps the order of
      `others`: the cursors of a concatenation are the concatenated cursors. */
  lemma {:induction false} SelectCursorsAppend(a: seq<Connection>, b: seq<Connection>, colors: seq<string>)
    ensures SelectCursors(a + b, colors) == SelectCursors(a, colors) + SelectCursors(b, colors)
    decreases |a|
  {
    if a == [] {
      assert a + b == b;
    } else {
      assert (a + b)[0] == a[0];
      assert (a + b)[1..] == a[1..] + b;
      SelectCursorsAppend(a[1..], b, colors);
    }
  }

  /** A single connection yields its cursor if it has one and nothing otherwise. */
  lemma SelectCursorsSingle(c: Connection, colors: seq<string>)
    ensures SelectCursors([c], colors) == if HasCursor(c) then [ViewOf(c, colors)] else []
  {
    assert [c][1..] == [];
  }

  /** With a non-empty palette and non-negative connection ids, every cursor
      gets a colour from the palette. */
  lemma ColoursInBounds(others: seq<Connection>, colors: seq<string>)
    requires |colors| > 0
    requires forall i :: 0 <= i < |others| ==> others[i].connectionId >= 0
    ensures forall v :: v in SelectCursors(others, colors) ==> v.color.Some? && v.color.value in colors
  {
  }
}
