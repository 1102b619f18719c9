/** The active-users strip: a "You" avatar when the local user is connected,
    the first three other connections, and a "+N" badge for the rest. */
module ActiveUsers {
  import opened Wrappers
  import opened Presences

  /** How many other users get an avatar of their own. */
  const MaxAvatars: nat := 3

  /** What the strip shows: the "You" avatar or not, one avatar per shown
      connection (identified by its connection id; names are random and not
      modelled), and the overflow count, if the badge is shown. */
  datatype AvatarRow = AvatarRow(showsYou: bool, avatars: seq<int>, more: Option<nat>)

  /** The connection ids of `users`, in order. */
  function Ids(users: seq<Connection>): (ids: seq<int>)
    ensures |ids| == |users|
    ensures forall i :: 0 <= i < |users| ==> ids[i] == users[i].connectionId
  {
    if users == [] then [] else [users[0].connectionId] + Ids(users[1..])
  }

  /** The strip for the local user's presence (`currentUser && …`) and the
      list of others: `users.slice(0, 3)` avatars and, when
      `users.length > 3`, a badge reading `users.length - 3`. */
  function Summarize(hasSelf: bool, users: seq<Connection>): (row: AvatarRow)
    ensures row.showsYou == hasSelf
    ensures |row.avatars| <= MaxAvatars && |row.avatars| <= |users|
    ensures |row.avatars| == |users| || |row.avatars| == MaxAvatars
    ensures forall i :: 0 <= i < |row.avatars| ==> row.avatars[i] == users[i].connectionId
    ensures row.more.Some? <==> |users| > MaxAvatars
    ensures row.more.Some? ==> row.more.value > 0 && |row.avatars| + row.more.value == |users|
  {
    var shown := if |users| <= MaxAvatars then users else users[..MaxAvatars];
    AvatarRow(hasSelf, Ids(shown),
              if |users| > MaxAvatars then Some(|users| - MaxAvatars) else None)
  }

  /** The number the badge reads, zero when there is no badge. */
  function BadgeCount(row: AvatarRow): nat
  {
    row.more.GetOr(0)
  }

  /** Every other user is either shown as an avatar or counted by the badge,
      and no one is both: avatars plus badge add up to the number of others. */
  lemma EveryoneAccountedFor(hasSelf: bool, users: seq<Connection>)
    ensures |Summarize(hasSelf, users).avatars| + BadgeCount(Summarize(hasSelf, users)) == |users|
  {
  }

  /** The "You" avatar is independent of the others: the rest of the strip is
      the same whether or not the local user is present. */
  lemma SelfIndependent(users: seq<Connection>)
    ensures Summarize(true, users).avatars == Summarize(false, users).avatars
    ensures Summarize(true, users).more == Summarize(false, users).more
  {
  }

  /** Users who join later never displace the ones already shown: the shown
      avatars only grow, and only until three are shown. */
  lemma JoiningKeepsShown(hasSelf: bool, users: seq<Connection>, joined: seq<Connection>)
    ensures var before := Summarize(hasSelf, users).avatars;
            var after := Summarize(hasSelf, users + joined).avatars;
            && |before| <= |after|
            && after[..|before|] == before
            && (|users| >= MaxAvatars ==> after == before)
  {
    var before := Summarize(hasSelf, users).avatars;
    var after := Summarize(hasSelf, users + joined).avatars;
    assert forall i :: 0 <= i < |before| ==> (users + joined)[i] == users[i];
  }
}
