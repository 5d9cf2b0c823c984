/**
 Channels and their membership rows, and the direct-message lookup by counting.
 Every method is one atomic step; new channel ids are fresh uuids.
 */
module Channels {
  import opened Wrappers

  /** `kind` is the channel type: "dm", "group", or anything else for a standard channel. */
  datatype Channel = Channel(id: string, kind: string, owner: string)
  datatype Member = Member(channelId: string, userId: string, active: bool)

  // ---------- what the tables mean ----------

  /** The users with a membership row, active or not. */
  function UserSet(members: seq<Member>, c: string): set<string> {
    set m | m in members && m.channelId == c :: m.userId
  }

  /** One membership row per channel and user. */
  ghost predicate OneRow(members: seq<Member>) {
    forall i, j :: 0 <= i < j < |members| ==>
      members[i].channelId != members[j].channelId || members[i].userId != members[j].userId
  }

  ghost predicate UniqueIds(channels: seq<Channel>) {
    forall i, j :: 0 <= i < j < |channels| ==> channels[i].id != channels[j].id
  }

  ghost predicate SameDmSet(a: Channel, b: Channel, members: seq<Member>) {
    a.kind == "dm" && b.kind == "dm" && UserSet(members, a.id) == UserSet(members, b.id)
  }

  /** A dm channel with exactly these participants is stored. */
  ghost predicate HasDm(channels: seq<Channel>, members: seq<Member>, users: set<string>) {
    exists d :: d in channels && d.kind == "dm" && UserSet(members, d.id) == users
  }

  /** At most one dm channel per exact participant set. */
  ghost predicate OneDmPerSet(channels: seq<Channel>, members: seq<Member>) {
    forall a, b ::
      a in channels && b in channels && SameDmSet(a, b, members) ==> a == b
  }

  // ---------- the counting query ----------

  /** `count(user_id)` within the channel's group. */
  function Count(members: seq<Member>, c: string): nat {
    if members == [] then 0
    else (if members[0].channelId == c then 1 else 0) + Count(members[1..], c)
  }

  /** `sum(case(user_id in ids, 1, else 0))` within the channel's group. */
  function Matching(members: seq<Member>, c: string, ids: set<string>): nat {
    if members == [] then 0
    else (if members[0].channelId == c && members[0].userId in ids then 1 else 0) + Matching(members[1..], c, ids)
  }

  /** The grouped rows of `c` pass both HAVING clauses; a channel without rows has no group. */
  predicate Qualifies(members: seq<Member>, c: string, ids: set<string>) {
    && Count(members, c) > 0
    && Count(members, c) == |ids|
    && Matching(members, c, ids) == |ids|
  }

  lemma {:induction false} UserSetStep(members: seq<Member>, c: string)
    requires members != []
    ensures UserSet(members, c) ==
      UserSet(members[1..], c) + if members[0].channelId == c then {members[0].userId} else {}
  {
    assert members == [members[0]] + members[1..];
  }

  lemma {:induction false} OneRowTail(members: seq<Member>)
    requires members != [] && OneRow(members)
    ensures OneRow(members[1..])
    ensures members[0].userId !in UserSet(members[1..], members[0].channelId)
  {
    forall m | m in members[1..] && m.channelId == members[0].channelId ensures m.userId != members[0].userId {
      var i :| 0 <= i < |members[1..]| && members[1..][i] == m;
      assert members[i + 1] == m;
    }
  }

  lemma {:induction false} CountIsSize(members: seq<Member>, c: string)
    requires OneRow(members)
    ensures Count(members, c) == |UserSet(members, c)|
  {
    if members != [] {
      OneRowTail(members);
      CountIsSize(members[1..], c);
      UserSetStep(members, c);
    }
  }

  lemma {:induction false} MatchingIsSize(members: seq<Member>, c: string, ids: set<string>)
    requires OneRow(members)
    ensures Matching(members, c, ids) == |UserSet(members, c) * ids|
  {
    if members != [] {
      OneRowTail(members);
      MatchingIsSize(members[1..], c, ids);
      UserSetStep(members, c);
      MeetOneMore(UserSet(members[1..], c), members[0].userId, ids);
    }
  }

  lemma MeetOneMore(s: set<string>, u: string, ids: set<string>)
    ensures u !in s ==> |(s + {u}) * ids| == |s * ids| + if u in ids then 1 else 0
    ensures s + {} == s
  {
    assert (s + {u}) * ids == s * ids + if u in ids then {u} else {};
  }

  /** With one row per user, the counting query decides set equality. */
  lemma {:induction false} QualifiesIff(members: seq<Member>, c: string, ids: set<string>)
    requires OneRow(members)
    ensures Qualifies(members, c, ids) <==> UserSet(members, c) == ids && ids != {}
  {
    CountIsSize(members, c);
    MatchingIsSize(members, c, ids);
    var users := UserSet(members, c);
    if Qualifies(members, c, ids) {
      SubsetSize(users * ids, ids);
      SubsetSize(users * ids, users);
    }
    if users == ids { assert users * ids == ids; }
  }

  /** Without it, a duplicated row stands in for a missing user. */
  lemma DuplicateRowMisleads(c: string, a: string, b: string, active: bool)
    requires a != b
    ensures var members := [Member(c, a, active), Member(c, a, active)];
      Qualifies(members, c, {a, b}) && UserSet(members, c) != {a, b}
  {
    var members := [Member(c, a, active), Member(c, a, active)];
    assert members[1..] == [Member(c, a, active)] && members[1..][1..] == [];
    assert Count(members[1..], c) == 1 && Matching(members[1..], c, {a, b}) == 1;
    assert |{a, b}| == 2;
    assert b !in UserSet(members, c);
  }

  /** `get_dm_channel_by_user_ids`: the first dm channel in the subquery. */
  function FindDm(channels: seq<Channel>, members: seq<Member>, ids: set<string>): Option<Channel> {
    if channels == [] then None
    else if channels[0].kind == "dm" && Qualifies(members, channels[0].id, ids) then Some(channels[0])
    else FindDm(channels[1..], members, ids)
  }

  /** The lookup finds a dm channel exactly when one has the given participants. */
  lemma {:induction false} FindDmExact(channels: seq<Channel>, members: seq<Member>, ids: set<string>)
    requires OneRow(members)
    ensures var r := FindDm(channels, members, ids);
      && (r.Some? ==> r.value in channels && r.value.kind == "dm" && UserSet(members, r.value.id) == ids)
      && (r.Some? <==> ids != {} && HasDm(channels, members, ids))
  {
    if channels != [] {
      QualifiesIff(members, channels[0].id, ids);
      FindDmExact(channels[1..], members, ids);
      assert channels == [channels[0]] + channels[1..];
    }
  }

  // ---------- row updates ----------

  lemma AppendRow(rows: seq<Member>, m: Member)
    requires OneRow(rows) && m.userId !in UserSet(rows, m.channelId)
    ensures OneRow(rows + [m])
    ensures UserSet(rows + [m], m.channelId) == UserSet(rows, m.channelId) + {m.userId}
    ensures forall d :: d != m.channelId ==> UserSet(rows + [m], d) == UserSet(rows, d)
  {
    forall i | 0 <= i < |rows| && rows[i].channelId == m.channelId ensures rows[i].userId != m.userId {
      assert rows[i] in rows;
    }
    assert forall x :: x in rows + [m] <==> x in rows || x == m;
  }

  /** Active rows for channel `c`, one for each of `users`. */
  ghost predicate IsRowsFor(rows: seq<Member>, c: string, users: set<string>) {
    && OneRow(rows) && UserSet(rows, c) == users
    && forall i :: 0 <= i < |rows| ==> rows[i].channelId == c && rows[i].active
  }

  /** `_create_membership_models`: one row per user, in some order. */
  method MembershipModels(c: string, users: set<string>) returns (rows: seq<Member>)
    ensures IsRowsFor(rows, c, users)
    ensures forall i :: 0 <= i < |rows| ==> rows[i] == Member(c, rows[i].userId, true)
  {
    rows := [];
    var rest := users;
    assert users - rest == {};
    while rest != {}
      invariant rest <= users && IsRowsFor(rows, c, users - rest)
      decreases |rest|
    {
      var u :| u in rest;
      OneMoreRow(rows, c, users, rest, u);
      rows := rows + [Member(c, u, true)];
      rest := rest - {u};
    }
    assert users - {} == users;
  }

  /** `now` is `before` and then one active row for each of `users`. */
  ghost predicate AddedRows(before: seq<Member>, now: seq<Member>, c: string, users: set<string>) {
    before <= now && IsRowsFor(now[|before|..], c, users)
  }

  lemma OneMoreRow(rows: seq<Member>, c: string, users: set<string>, rest: set<string>, u: string)
    requires rest <= users && u in rest && IsRowsFor(rows, c, users - rest)
    ensures IsRowsFor(rows + [Member(c, u, true)], c, users - (rest - {u}))
  {
    AppendRow(rows, Member(c, u, true));
    assert users - (rest - {u}) == (users - rest) + {u};
  }

  /** Adding rows for users that have none yet in the channel. */
  lemma AddAll(members: seq<Member>, rows: seq<Member>, c: string, users: set<string>)
    requires OneRow(members) && IsRowsFor(rows, c, users) && UserSet(members, c) !! users
    ensures OneRow(members + rows)
    ensures UserSet(members + rows, c) == UserSet(members, c) + users
    ensures forall d :: d != c ==> UserSet(members + rows, d) == UserSet(members, d)
  {
    assert forall m :: m in members + rows <==> m in members || m in rows;
    forall i, j | 0 <= i < |members| && 0 <= j < |rows| && members[i].channelId == c
      ensures members[i].userId != rows[j].userId
    {
      assert members[i] in members && rows[j] in rows;
      assert members[i].userId in UserSet(members, c) && rows[j].userId in UserSet(rows, c);
    }
  }

  /** The first row of the user in the channel gets the flag. */
  function WithActive(members: seq<Member>, c: string, u: string, active: bool): (r: seq<Member>)
    ensures |r| == |members|
  {
    if members == [] then []
    else if members[0].channelId == c && members[0].userId == u then [members[0].(active := active)] + members[1..]
    else [members[0]] + WithActive(members[1..], c, u, active)
  }

  function WithoutUsers(members: seq<Member>, c: string, users: set<string>): seq<Member> {
    if members == [] then []
    else if members[0].channelId == c && members[0].userId in users then WithoutUsers(members[1..], c, users)
    else [members[0]] + WithoutUsers(members[1..], c, users)
  }

  function WithoutChannel(channels: seq<Channel>, id: string): seq<Channel> {
    if channels == [] then []
    else if channels[0].id == id then WithoutChannel(channels[1..], id)
    else [channels[0]] + WithoutChannel(channels[1..], id)
  }

  /** Row by row: the row of the user in the channel has the flag, and every other row is as it was. */
  ghost predicate FlagSet(before: seq<Member>, now: seq<Member>, c: string, u: string, active: bool) {
    && |now| == |before|
    && forall i :: 0 <= i < |before| ==>
         now[i] == if before[i].channelId == c && before[i].userId == u then Member(c, u, active) else before[i]
  }

  lemma {:induction false} WithActiveFlags(members: seq<Member>, c: string, u: string, active: bool)
    requires OneRow(members)
    ensures FlagSet(members, WithActive(members, c, u, active), c, u, active)
  {
    if members != [] {
      OneRowTail(members);
      WithActiveFlags(members[1..], c, u, active);
      forall i | 1 <= i < |members| && members[0].channelId == c && members[0].userId == u
        ensures members[i].channelId != c || members[i].userId != u
      {
        assert members[1..][i - 1] == members[i];
        assert members[i] in members[1..];
      }
    }
  }

  lemma FlagSetSame(members: seq<Member>, now: seq<Member>, c: string, u: string, active: bool)
    requires FlagSet(members, now, c, u, active)
    ensures forall d :: UserSet(now, d) == UserSet(members, d)
    ensures OneRow(members) ==> OneRow(now)
  {
    forall d ensures UserSet(now, d) == UserSet(members, d) {
      forall m | m in members ensures m.channelId == d ==> m.userId in UserSet(now, d) {
        var i :| 0 <= i < |members| && members[i] == m;
        assert now[i] in now;
      }
      forall m | m in now ensures m.channelId == d ==> m.userId in UserSet(members, d) {
        var i :| 0 <= i < |now| && now[i] == m;
        assert members[i] in members;
      }
    }
  }

  lemma {:induction false} WithoutUsersRows(members: seq<Member>, c: string, users: set<string>)
    ensures forall m :: m in WithoutUsers(members, c, users) <==>
      m in members && !(m.channelId == c && m.userId in users)
    ensures OneRow(members) ==> OneRow(WithoutUsers(members, c, users))
  {
    if members != [] {
      WithoutUsersRows(members[1..], c, users);
      if OneRow(members) {
        OneRowTail(members);
        var rest := WithoutUsers(members[1..], c, users);
        forall m | m in rest && m.channelId == members[0].channelId ensures m.userId != members[0].userId {
          assert m in members[1..];
        }
      }
    }
  }

  lemma WithoutUsersSets(members: seq<Member>, c: string, users: set<string>)
    ensures UserSet(WithoutUsers(members, c, users), c) == UserSet(members, c) - users
    ensures forall d :: d != c ==> UserSet(WithoutUsers(members, c, users), d) == UserSet(members, d)
  {
    WithoutUsersRows(members, c, users);
  }

  lemma {:induction false} WithoutChannelRows(channels: seq<Channel>, id: string)
    ensures forall d :: d in WithoutChannel(channels, id) <==> d in channels && d.id != id
    ensures UniqueIds(channels) ==> UniqueIds(WithoutChannel(channels, id))
  {
    if channels != [] {
      WithoutChannelRows(channels[1..], id);
      if UniqueIds(channels) {
        assert forall i :: 0 < i < |channels| ==> channels[i] == channels[1..][i - 1];
        forall d | d in channels[1..] ensures d.id != channels[0].id {
          var i :| 0 <= i < |channels[1..]| && channels[1..][i] == d;
        }
      }
    }
  }

  /** Giving the stored dm channel `c` the participants `users` would duplicate another dm channel's set. */
  ghost predicate WouldClash(channels: seq<Channel>, members: seq<Member>, c: string, users: set<string>) {
    IsDm(channels, c) && exists b :: b in channels && b.kind == "dm" && b.id != c && UserSet(members, b.id) == users
  }

  /**
   When only the rows of channel `c` change, dm uniqueness survives exactly if `c`
   is no dm channel, or no other dm channel has what becomes its participant set.
   */
  lemma {:induction false} ChangeKeepsOneDmIff(
      channels: seq<Channel>, members: seq<Member>, members': seq<Member>, c: string, users: set<string>)
    requires UniqueIds(channels) && OneDmPerSet(channels, members)
    requires UserSet(members', c) == users && forall d :: d != c ==> UserSet(members', d) == UserSet(members, d)
    ensures OneDmPerSet(channels, members') <==> !WouldClash(channels, members, c, users)
  {
    if WouldClash(channels, members, c, users) {
      var a :| a in channels && a.id == c && a.kind == "dm";
      var b :| b in channels && b.kind == "dm" && b.id != c && UserSet(members, b.id) == users;
      assert SameDmSet(a, b, members');
    } else {
      forall a, b | a in channels && b in channels && SameDmSet(a, b, members') ensures a == b {
        if a.id != c && b.id != c {
          assert SameDmSet(a, b, members);
        } else if a.id == b.id {
          SameIdSameChannel(channels, a, b);
        }
      }
    }
  }

  lemma SameIdSameChannel(channels: seq<Channel>, a: Channel, b: Channel)
    requires UniqueIds(channels) && a in channels && b in channels && a.id == b.id
    ensures a == b
  {
    var i :| 0 <= i < |channels| && channels[i] == a;
    var j :| 0 <= j < |channels| && channels[j] == b;
    assert i == j;
  }

  predicate IsDm(channels: seq<Channel>, c: string) {
    exists d :: d in channels && d.id == c && d.kind == "dm"
  }

  // ---------- requests and runs ----------

  datatype Tables = Tables(channels: seq<Channel>, members: seq<Member>)

  /** Structure that holds on every run. */
  ghost predicate WellFormed(w: Tables) {
    UniqueIds(w.channels) && OneRow(w.members)
  }

  ghost predicate OneDm(w: Tables) {
    OneDmPerSet(w.channels, w.members)
  }

  ghost predicate FreshId(w: Tables, id: string) {
    (forall d :: d in w.channels ==> d.id != id) && UserSet(w.members, id) == {}
  }

  predicate Exists(channels: seq<Channel>, c: string) {
    exists d :: d in channels && d.id == c
  }

  /** `_collect_unique_user_ids`; the groups' members are parameters. */
  function CollectUsers(invitedBy: string, userIds: seq<string>, groups: seq<set<string>>): (users: set<string>)
    ensures users == {invitedBy} + (set u | u in userIds) + (set g, u | g in groups && u in g :: u)
  {
    if groups == [] then {invitedBy} + set u | u in userIds
    else
      assert groups == [groups[0]] + groups[1..];
      CollectUsers(invitedBy, userIds, groups[1..]) + groups[0]
  }

  /** Requests of the endpoints; permissions aside. */
  datatype Request =
    | New(kind: string, user: string, userIds: Option<seq<string>>, groups: seq<set<string>>)
    | DmPair(user: string, other: string)
    | Leave(channel: string, user: string)
    | SetActive(channel: string, user: string, active: bool)
    | Delete(channel: string)
    | Join(channel: string, user: string)
    | AddTo(channel: string, inviter: string, named: seq<string>, groups: seq<set<string>>)
    | RemoveFrom(channel: string, named: seq<string>)

  /** A dm request without a user list cannot be unpacked. */
  datatype Response = Opened(channel: Channel) | BadRequest | NotFound | Done

  function Listed(userIds: Option<seq<string>>): seq<string> {
    if userIds.Some? then userIds.value else []
  }

  /** `now` has one more channel, and active rows in it for `users`. */
  ghost predicate IsInserted(before: Tables, channel: Channel, users: set<string>, now: Tables) {
    now.channels == before.channels + [channel] && AddedRows(before.members, now.members, channel.id, users)
  }

  /** Get or create: the answer is a dm channel with the users `asked`, or a new one for `users`. */
  ghost predicate IsDmOpened(
      before: Tables, user: string, asked: set<string>, users: set<string>, newId: string, now: Tables, answer: Channel)
  {
    if HasDm(before.channels, before.members, asked) then
      && answer in before.channels && answer.kind == "dm" && UserSet(before.members, answer.id) == asked
      && now.channels == before.channels && FlagSet(before.members, now.members, answer.id, user, true)
    else
      answer == Channel(newId, "dm", user) && IsInserted(before, answer, users, now)
  }

  ghost predicate IsStep(before: Tables, request: Request, newId: string, now: Tables, response: Response) {
    match request
    case New(kind, user, userIds, groups) =>
      var users := CollectUsers(user, Listed(userIds), groups);
      if kind != "dm" then
        && response == Opened(Channel(newId, kind, user))
        && IsInserted(before, response.channel, if kind == "group" then users else {}, now)
      else if userIds == None then now == before && response == BadRequest
      else
        && response.Opened?
        && IsDmOpened(before, user, {user} + (set u | u in userIds.value), users, newId, now, response.channel)
    case DmPair(user, other) =>
      response.Opened? && IsDmOpened(before, user, {user, other}, {user, other}, newId, now, response.channel)
    case Leave(c, u) =>
      now.channels == before.channels && FlagSet(before.members, now.members, c, u, false) && response == Done
    case SetActive(c, u, active) =>
      now.channels == before.channels && FlagSet(before.members, now.members, c, u, active) && response == Done
    case Delete(c) =>
      now == before.(channels := WithoutChannel(before.channels, c)) && response == Done
    case Join(c, u) =>
      if !Exists(before.channels, c) then now == before && response == NotFound
      else
        && now.channels == before.channels && response == Done
        && now.members == before.members + if u in UserSet(before.members, c) then [] else [Member(c, u, true)]
    case AddTo(c, inviter, userIds, groups) =>
      if !Exists(before.channels, c) then now == before && response == NotFound
      else
        && now.channels == before.channels && response == Done
        && AddedRows(before.members, now.members, c,
                     CollectUsers(inviter, userIds, groups) - UserSet(before.members, c))
    case RemoveFrom(c, userIds) =>
      if !Exists(before.channels, c) then now == before && response == NotFound
      else now == before.(members := WithoutUsers(before.members, c, set u | u in userIds)) && response == Done
  }

  /** Does the request keep one dm channel per participant set? Read off the tables before it. */
  ghost predicate Safe(w: Tables, request: Request) {
    match request
    case New(kind, user, userIds, groups) =>
      kind == "dm" && userIds.Some? ==>
        || HasDm(w.channels, w.members, {user} + (set u | u in userIds.value))
        || !HasDm(w.channels, w.members, CollectUsers(user, userIds.value, groups))
    case Join(c, u) => !WouldClash(w.channels, w.members, c, UserSet(w.members, c) + {u})
    case AddTo(c, inviter, userIds, groups) =>
      !WouldClash(w.channels, w.members, c, UserSet(w.members, c) + CollectUsers(inviter, userIds, groups))
    case RemoveFrom(c, userIds) =>
      !WouldClash(w.channels, w.members, c, UserSet(w.members, c) - set u | u in userIds)
    case _ => true
  }

  /** Requests that are safe on any tables: all but dm requests with group ids and membership changes of dm channels. */
  lemma UsuallySafe(w: Tables, request: Request)
    requires request.New? ==> request.kind != "dm" || request.groups == []
    requires request.Join? || request.AddTo? || request.RemoveFrom? ==> !IsDm(w.channels, request.channel)
    ensures Safe(w, request)
  {
    if request.New? && request.userIds.Some? && request.groups == [] {
      assert CollectUsers(request.user, request.userIds.value, []) ==
        {request.user} + set u | u in request.userIds.value;
    }
  }

  /** Adding a member to a dm channel can duplicate the channel both already have. */
  lemma AddingCanClash(a: string, b: string)
    requires a != b
    ensures var channels := [Channel("x", "dm", a), Channel("y", "dm", a)];
      var w := Tables(channels, [Member("x", a, true), Member("x", b, true), Member("y", a, true)]);
      WellFormed(w) && OneDm(w) && !Safe(w, AddTo("y", a, [b], []))
  {
    var x, y := Channel("x", "dm", a), Channel("y", "dm", a);
    var members := [Member("x", a, true), Member("x", b, true), Member("y", a, true)];
    assert members[0] in members && members[1] in members && members[2] in members;
    assert UserSet(members, "x") == {a, b} && UserSet(members, "y") == {a};
    assert b !in UserSet(members, "y") && x in [x, y] && y in [x, y];
    assert UserSet(members, "y") + CollectUsers(a, [b], []) == {a, b};
  }

  /** A dm request with a group is looked up without it, and so can duplicate a channel that has its members. */
  lemma GroupRequestCanClash(a: string, b: string, c: string)
    requires a != b && c != a && c != b
    ensures var members := [Member("x", a, true), Member("x", b, true), Member("x", c, true)];
      var w := Tables([Channel("x", "dm", a)], members);
      WellFormed(w) && OneDm(w) && !Safe(w, New("dm", a, Some([b]), [{c}]))
  {
    var x := Channel("x", "dm", a);
    var members := [Member("x", a, true), Member("x", b, true), Member("x", c, true)];
    assert members[0] in members && members[1] in members && members[2] in members;
    assert UserSet(members, "x") == {a, b, c};
    assert c in UserSet(members, "x") && c !in {a} + (set u | u in [b]);
    GroupUsers(a, b, c);
    assert x in [x];
  }

  lemma GroupUsers(a: string, b: string, c: string)
    ensures CollectUsers(a, [b], [{c}]) == {a, b, c}
  {
    assert {c} in [{c}];
  }

  /** What a change of the rows of one channel does. */
  lemma RowsChanged(before: Tables, now: Tables, c: string, users: set<string>)
    requires WellFormed(before) && now.channels == before.channels && OneRow(now.members)
    requires UserSet(now.members, c) == users
    requires forall d :: d != c ==> UserSet(now.members, d) == UserSet(before.members, d)
    ensures OneDm(before) ==> (OneDm(now) <==> !WouldClash(before.channels, before.members, c, users))
    ensures forall id :: FreshId(before, id) && (id == c ==> users == {}) ==> FreshId(now, id)
  {
    if OneDm(before) { ChangeKeepsOneDmIff(before.channels, before.members, now.members, c, users); }
  }

  lemma RowsAdded(before: seq<Member>, now: seq<Member>, c: string, users: set<string>)
    requires OneRow(before) && AddedRows(before, now, c, users) && UserSet(before, c) !! users
    ensures OneRow(now)
    ensures UserSet(now, c) == UserSet(before, c) + users
    ensures forall d :: d != c ==> UserSet(now, d) == UserSet(before, d)
  {
    var rows := now[|before|..];
    assert now == before + rows;
    AddAll(before, rows, c, users);
  }

  lemma NewChannelIff(before: Tables, channel: Channel, now: Tables)
    requires OneDm(before) && now.channels == before.channels + [channel]
    requires forall d :: d in before.channels ==> d.id != channel.id
    requires forall d :: d != channel.id ==> UserSet(now.members, d) == UserSet(before.members, d)
    ensures OneDm(now) <==>
      !(channel.kind == "dm" && HasDm(before.channels, before.members, UserSet(now.members, channel.id)))
  {
    var after := now.channels;
    assert channel in after && forall d :: d in after <==> d in before.channels || d == channel;
    if channel.kind == "dm" && HasDm(before.channels, before.members, UserSet(now.members, channel.id)) {
      var d :| d in before.channels && d.kind == "dm" &&
        UserSet(before.members, d.id) == UserSet(now.members, channel.id);
      assert d in after && SameDmSet(d, channel, now.members);
    } else {
      forall a, b | a in after && b in after && SameDmSet(a, b, now.members) ensures a == b {
        if a in before.channels && b in before.channels { assert SameDmSet(a, b, before.members); }
      }
    }
  }

  lemma InsertKeeps(before: Tables, channel: Channel, users: set<string>, now: Tables)
    requires WellFormed(before) && FreshId(before, channel.id) && IsInserted(before, channel, users, now)
    ensures WellFormed(now) && channel in now.channels && UserSet(now.members, channel.id) == users
    ensures forall d :: d != channel.id ==> UserSet(now.members, d) == UserSet(before.members, d)
    ensures forall id :: id != channel.id && FreshId(before, id) ==> FreshId(now, id)
    ensures OneDm(before) ==>
      (OneDm(now) <==> !(channel.kind == "dm" && HasDm(before.channels, before.members, users)))
  {
    RowsAdded(before.members, now.members, channel.id, users);
    if OneDm(before) { NewChannelIff(before, channel, now); }
  }

  lemma FlagKeeps(before: Tables, now: Tables, c: string, u: string, active: bool)
    requires WellFormed(before) && now.channels == before.channels
    requires FlagSet(before.members, now.members, c, u, active)
    ensures WellFormed(now) && (OneDm(before) <==> OneDm(now))
    ensures forall d :: UserSet(now.members, d) == UserSet(before.members, d)
    ensures forall id :: FreshId(before, id) ==> FreshId(now, id)
  {
    FlagSetSame(before.members, now.members, c, u, active);
    if OneDm(now) {
      forall a, b | a in before.channels && b in before.channels && SameDmSet(a, b, before.members) ensures a == b {
        assert SameDmSet(a, b, now.members);
      }
    }
    if OneDm(before) {
      forall a, b | a in now.channels && b in now.channels && SameDmSet(a, b, now.members) ensures a == b {
        assert SameDmSet(a, b, before.members);
      }
    }
  }

  lemma OpenKeeps(
      before: Tables, user: string, asked: set<string>, users: set<string>, newId: string, now: Tables, answer: Channel)
    requires WellFormed(before) && FreshId(before, newId)
    requires IsDmOpened(before, user, asked, users, newId, now, answer)
    ensures WellFormed(now) && answer in now.channels && answer.kind == "dm"
    ensures UserSet(now.members, answer.id) ==
      if HasDm(before.channels, before.members, asked) then asked else users
    ensures forall m :: m in now.members && m.channelId == answer.id && m.userId == user ==> m.active
    ensures forall id :: id != newId && FreshId(before, id) ==> FreshId(now, id)
    ensures OneDm(before) ==> (OneDm(now) <==>
      HasDm(before.channels, before.members, asked) || !HasDm(before.channels, before.members, users))
  {
    if HasDm(before.channels, before.members, asked) {
      FlagKeeps(before, now, answer.id, user, true);
    } else {
      InsertKeeps(before, answer, users, now);
      forall m | m in before.members ensures m.channelId != answer.id {
        assert m.userId !in UserSet(before.members, answer.id);
      }
      assert now.members == before.members + now.members[|before.members|..];
    }
  }

  lemma RowsKeep(before: Tables, request: Request, newId: string, now: Tables, response: Response)
    requires WellFormed(before) && IsStep(before, request, newId, now, response)
    requires request.Join? || request.AddTo? || request.RemoveFrom?
    ensures WellFormed(now)
    ensures forall id :: FreshId(before, id) ==> FreshId(now, id)
    ensures OneDm(before) ==> (OneDm(now) <==> Safe(before, request))
  {
    var c := request.channel;
    if Exists(before.channels, c) {
      match request
      case Join(_, u) =>
        if u !in UserSet(before.members, c) {
          AppendRow(before.members, Member(c, u, true));
        } else {
          assert now.members == before.members;
        }
        RowsChanged(before, now, c, UserSet(before.members, c) + {u});
      case AddTo(_, inviter, userIds, groups) =>
        var users := CollectUsers(inviter, userIds, groups);
        RowsAdded(before.members, now.members, c, users - UserSet(before.members, c));
        assert UserSet(before.members, c) + (users - UserSet(before.members, c)) == UserSet(before.members, c) + users;
        RowsChanged(before, now, c, UserSet(before.members, c) + users);
      case RemoveFrom(_, userIds) =>
        var users := set u | u in userIds;
        WithoutUsersRows(before.members, c, users);
        WithoutUsersSets(before.members, c, users);
        RowsChanged(before, now, c, UserSet(before.members, c) - users);
    }
  }

  lemma DeleteKeeps(before: Tables, c: string, now: Tables)
    requires WellFormed(before) && now == before.(channels := WithoutChannel(before.channels, c))
    ensures WellFormed(now) && (OneDm(before) ==> OneDm(now))
    ensures forall id :: FreshId(before, id) ==> FreshId(now, id)
  {
    WithoutChannelRows(before.channels, c);
  }

  /** One request keeps one dm channel per participant set exactly if it is safe. */
  lemma {:induction false} StepKeepsIff(
      before: Tables, request: Request, newId: string, now: Tables, response: Response)
    requires WellFormed(before) && FreshId(before, newId) && IsStep(before, request, newId, now, response)
    ensures WellFormed(now)
    ensures forall id :: id != newId && FreshId(before, id) ==> FreshId(now, id)
    ensures OneDm(before) ==> (OneDm(now) <==> Safe(before, request))
  {
    match request
    case New(kind, user, userIds, groups) =>
      var users := CollectUsers(user, Listed(userIds), groups);
      if kind != "dm" {
        InsertKeeps(before, response.channel, if kind == "group" then users else {}, now);
      } else if userIds.Some? {
        OpenKeeps(before, user, {user} + (set u | u in userIds.value), users, newId, now, response.channel);
      }
    case DmPair(user, other) =>
      OpenKeeps(before, user, {user, other}, {user, other}, newId, now, response.channel);
    case Leave(c, u) => FlagKeeps(before, now, c, u, false);
    case SetActive(c, u, active) => FlagKeeps(before, now, c, u, active);
    case Delete(c) => DeleteKeeps(before, c, now);
    case _ => RowsKeep(before, request, newId, now, response);
  }

  /** The tables before and after each request, with the ids drawn and the responses given. */
  ghost predicate IsRun(states: seq<Tables>, requests: seq<Request>, newIds: seq<string>, responses: seq<Response>) {
    && |states| == |requests| + 1 && |newIds| == |requests| == |responses|
    && forall n :: 0 <= n < |requests| ==> IsStep(states[n], requests[n], newIds[n], states[n + 1], responses[n])
  }

  ghost predicate FreshIds(w: Tables, newIds: seq<string>, n: nat) {
    Distinct(newIds) && forall i :: n <= i < |newIds| ==> FreshId(w, newIds[i])
  }

  lemma {:induction false} RunWellFormed(
      states: seq<Tables>, requests: seq<Request>, newIds: seq<string>, responses: seq<Response>, n: nat)
    requires IsRun(states, requests, newIds, responses) && n <= |requests|
    requires WellFormed(states[0]) && FreshIds(states[0], newIds, 0)
    ensures WellFormed(states[n]) && FreshIds(states[n], newIds, n)
  {
    if n > 0 {
      RunWellFormed(states, requests, newIds, responses, n - 1);
      StepKeepsIff(states[n - 1], requests[n - 1], newIds[n - 1], states[n], responses[n - 1]);
    }
  }

  /**
   A run keeps at most one dm channel per exact participant set, throughout its
   first `n` requests, exactly when each of them was safe when it was served.
   */
  lemma {:induction false} RunKeepsOneDmIff(
      states: seq<Tables>, requests: seq<Request>, newIds: seq<string>, responses: seq<Response>, n: nat)
    requires IsRun(states, requests, newIds, responses) && n <= |requests|
    requires WellFormed(states[0]) && FreshIds(states[0], newIds, 0) && OneDm(states[0])
    ensures (forall i :: 0 <= i <= n ==> OneDm(states[i])) <==>
      forall i :: 0 <= i < n ==> Safe(states[i], requests[i])
  {
    if n > 0 {
      RunKeepsOneDmIff(states, requests, newIds, responses, n - 1);
      RunWellFormed(states, requests, newIds, responses, n - 1);
      StepKeepsIff(states[n - 1], requests[n - 1], newIds[n - 1], states[n], responses[n - 1]);
    }
  }

  /** Every dm request without group ids is answered with a stored dm channel of exactly the asked participants. */
  lemma {:induction false} DmAnswered(
      states: seq<Tables>, requests: seq<Request>, newIds: seq<string>, responses: seq<Response>, n: nat)
    requires IsRun(states, requests, newIds, responses) && n < |requests|
    requires WellFormed(states[0]) && FreshIds(states[0], newIds, 0)
    requires requests[n].DmPair? || (requests[n].New? && requests[n].kind == "dm" && requests[n].groups == [])
    ensures requests[n].New? && requests[n].userIds == None ==> responses[n] == BadRequest
    ensures var r, now := responses[n], states[n + 1];
      requests[n].DmPair? || requests[n].userIds.Some? ==>
        && r.Opened? && r.channel in now.channels && r.channel.kind == "dm"
        && (forall m :: m in now.members && m.channelId == r.channel.id && m.userId == requests[n].user ==> m.active)
        && UserSet(now.members, r.channel.id) == {requests[n].user} +
             if requests[n].DmPair? then {requests[n].other} else set u | u in requests[n].userIds.value
  {
    var before, request, r, now := states[n], requests[n], responses[n], states[n + 1];
    RunWellFormed(states, requests, newIds, responses, n);
    if request.DmPair? {
      OpenKeeps(before, request.user, {request.user, request.other}, {request.user, request.other}, newIds[n], now,
        r.channel);
    } else if request.userIds.Some? {
      var asked := {request.user} + set u | u in request.userIds.value;
      assert CollectUsers(request.user, request.userIds.value, []) == asked;
      OpenKeeps(before, request.user, asked, asked, newIds[n], now, r.channel);
    }
  }

  // ---------- the tables ----------

  class ChannelTable {
    var channels: seq<Channel>
    var members: seq<Member>

    function Now(): Tables
      reads this
    {
      Tables(channels, members)
    }

    ghost predicate Valid()
      reads this
    {
      WellFormed(Now())
    }

    constructor ()
      ensures Valid() && Now() == Tables([], [])
    {
      channels, members := [], [];
    }

    /** `insert_new_channel`. */
    method InsertNewChannel(id: string, kind: string, owner: string, userIds: seq<string>, groups: seq<set<string>>)
      returns (channel: Channel)
      requires Valid() && FreshId(Now(), id)
      modifies this
      ensures Valid()
      ensures channel == Channel(id, kind, owner)
      ensures var users := if kind == "group" || kind == "dm" then CollectUsers(owner, userIds, groups) else {};
        && IsInserted(old(Now()), channel, users, Now())
        && UserSet(members, id) == users
        && channels == old(channels) + [channel] && old(members) <= members
        && (forall i :: |old(members)| <= i < |members| ==> members[i] == Member(id, members[i].userId, true))
        && (old(OneDm(Now())) ==> (OneDm(Now()) <==> !(kind == "dm" && old(HasDm(channels, members, users)))))
    {
      channel := Channel(id, kind, owner);
      ghost var users := if kind == "group" || kind == "dm" then CollectUsers(owner, userIds, groups) else {};
      if kind == "group" || kind == "dm" {
        var rows := MembershipModels(id, CollectUsers(owner, userIds, groups));
        members := members + rows;
      }
      channels := channels + [channel];
      InsertKeeps(old(Now()), channel, users, Now());
    }

    /** `get_dm_channel_by_user_ids`. */
    method GetDm(userIds: seq<string>) returns (r: Option<Channel>)
      requires Valid()
      ensures var ids := set u | u in userIds;
        && (r.Some? <==> ids != {} && HasDm(channels, members, ids))
        && (r.Some? ==> r.value in channels && r.value.kind == "dm" && UserSet(members, r.value.id) == ids)
    {
      var ids := set u | u in userIds;
      FindDmExact(channels, members, ids);
      r := FindDm(channels, members, ids);
    }

    /** `update_member_active_status`. */
    method UpdateActive(c: string, u: string, active: bool) returns (found: bool)
      requires Valid()
      modifies this`members
      ensures Valid() && (OneDm(Now()) <==> old(OneDm(Now())))
      ensures |members| == |old(members)|
      ensures forall i :: 0 <= i < |members| ==> var row := old(members)[i];
        members[i] == if row.channelId == c && row.userId == u then Member(c, u, active) else row
      ensures forall d :: UserSet(members, d) == old(UserSet(members, d))
      ensures found <==> u in UserSet(members, c)
    {
      found := u in UserSet(members, c);
      WithActiveFlags(members, c, u, active);
      members := WithActive(members, c, u, active);
      FlagKeeps(old(Now()), Now(), c, u, active);
    }

    /** `leave_channel`: the row stays, marked inactive. */
    method LeaveChannel(c: string, u: string) returns (found: bool)
      requires Valid()
      modifies this`members
      ensures Valid() && (OneDm(Now()) <==> old(OneDm(Now())))
      ensures |members| == |old(members)|
      ensures forall i :: 0 <= i < |members| ==> var row := old(members)[i];
        members[i] == if row.channelId == c && row.userId == u then Member(c, u, false) else row
      ensures forall d :: UserSet(members, d) == old(UserSet(members, d))
      ensures found <==> u in UserSet(members, c)
    {
      found := UpdateActive(c, u, false);
    }

    /** `delete_channel_by_id`: membership rows stay behind. */
    method DeleteChannel(id: string)
      requires Valid()
      modifies this`channels
      ensures Valid() && (old(OneDm(Now())) ==> OneDm(Now()))
      ensures channels == WithoutChannel(old(channels), id)
      ensures forall d :: d in channels <==> d in old(channels) && d.id != id
    {
      WithoutChannelRows(channels, id);
      channels := WithoutChannel(channels, id);
      DeleteKeeps(old(Now()), id, Now());
    }

    /** `join_channel`. */
    method JoinChannel(c: string, u: string)
      requires Valid()
      modifies this`members
      ensures Valid()
      ensures members == old(members) + if u in old(UserSet(members, c)) then [] else [Member(c, u, true)]
      ensures UserSet(members, c) == old(UserSet(members, c)) + {u}
      ensures forall d :: d != c ==> UserSet(members, d) == old(UserSet(members, d))
      ensures old(OneDm(Now())) ==>
        (OneDm(Now()) <==> !old(WouldClash(channels, members, c, UserSet(members, c) + {u})))
    {
      if u !in UserSet(members, c) {
        AppendRow(members, Member(c, u, true));
        members := members + [Member(c, u, true)];
      }
      RowsChanged(old(Now()), Now(), c, old(UserSet(members, c)) + {u});
    }

    /** `add_members_to_channel`. */
    method AddMembers(c: string, invitedBy: string, userIds: seq<string>, groups: seq<set<string>>)
      requires Valid()
      modifies this`members
      ensures Valid()
      ensures AddedRows(old(members), members, c, CollectUsers(invitedBy, userIds, groups) - old(UserSet(members, c)))
      ensures old(members) <= members
      ensures forall i :: |old(members)| <= i < |members| ==> members[i] == Member(c, members[i].userId, true)
      ensures UserSet(members, c) == old(UserSet(members, c)) + CollectUsers(invitedBy, userIds, groups)
      ensures forall d :: d != c ==> UserSet(members, d) == old(UserSet(members, d))
      ensures old(OneDm(Now())) ==>
        (OneDm(Now()) <==>
          !old(WouldClash(channels, members, c, UserSet(members, c) + CollectUsers(invitedBy, userIds, groups))))
    {
      var newUsers := CollectUsers(invitedBy, userIds, groups) - UserSet(members, c);
      assert UserSet(members, c) + newUsers == UserSet(members, c) + CollectUsers(invitedBy, userIds, groups);
      if newUsers != {} {
        var rows := MembershipModels(c, newUsers);
        AddAll(members, rows, c, newUsers);
        members := members + rows;
      }
      RowsChanged(old(Now()), Now(), c, old(UserSet(members, c)) + CollectUsers(invitedBy, userIds, groups));
    }

    /** `remove_members_from_channel`. */
    method RemoveMembers(c: string, userIds: seq<string>) returns (deleted: nat)
      requires Valid()
      modifies this`members
      ensures Valid()
      ensures members == WithoutUsers(old(members), c, set u | u in userIds)
      ensures forall m :: m in members <==> m in old(members) && !(m.channelId == c && m.userId in userIds)
      ensures UserSet(members, c) == old(UserSet(members, c)) - set u | u in userIds
      ensures forall d :: d != c ==> UserSet(members, d) == old(UserSet(members, d))
      ensures old(OneDm(Now())) ==>
        (OneDm(Now()) <==> !old(WouldClash(channels, members, c, UserSet(members, c) - set u | u in userIds)))
      ensures deleted == |old(UserSet(members, c)) * set u | u in userIds|
    {
      var users := set u | u in userIds;
      WithoutUsersRows(members, c, users);
      WithoutUsersSets(members, c, users);
      MatchingIsSize(members, c, users);
      deleted := Matching(members, c, users);
      members := WithoutUsers(members, c, users);
      RowsChanged(old(Now()), Now(), c, old(UserSet(members, c)) - users);
    }

    /** The dm branch of `create_new_channel`; a missing user list cannot be unpacked. */
    method CreateDm(user: string, userIds: Option<seq<string>>, groups: seq<set<string>>, newId: string)
      returns (r: Result<Channel>)
      requires Valid() && FreshId(Now(), newId)
      modifies this
      ensures Valid()
      ensures r == Raise("TypeError") || r.Ok?
      ensures r.Raise? <==> userIds == None
      ensures r.Raise? ==> Now() == old(Now())
      ensures r.Ok? ==> IsDmOpened(old(Now()), user, {user} + (set u | u in userIds.value),
                                   CollectUsers(user, userIds.value, groups), newId, Now(), r.value)
      ensures r.Ok? ==> r.value in channels && r.value.kind == "dm"
      ensures r.Ok? && old(HasDm(channels, members, {user} + set u | u in userIds.value)) ==>
        && channels == old(channels) && |members| == |old(members)|
        && forall i :: 0 <= i < |members| ==> var row := old(members)[i];
             members[i] == if row.channelId == r.value.id && row.userId == user then row.(active := true) else row
      ensures r.Ok? && !old(HasDm(channels, members, {user} + set u | u in userIds.value)) ==>
        && channels == old(channels) + [r.value] && r.value == Channel(newId, "dm", user)
        && old(members) <= members
        && forall i :: |old(members)| <= i < |members| ==> members[i] == Member(newId, members[i].userId, true)
      ensures r.Ok? && groups == [] ==> UserSet(members, r.value.id) == {user} + set u | u in userIds.value
      ensures old(OneDm(Now())) && groups == [] ==> OneDm(Now())
    {
      if userIds == None {
        return Raise("TypeError");
      }
      var asked := [user] + userIds.value;
      ghost var ids, users := {user} + (set u | u in userIds.value), CollectUsers(user, userIds.value, groups);
      assert (set u | u in asked) == ids;
      assert groups == [] ==> users == ids;
      var found := GetDm(asked);
      var channel;
      if found.Some? {
        channel := found.value;
        var _ := UpdateActive(channel.id, user, true);
      } else {
        channel := InsertNewChannel(newId, "dm", user, userIds.value, groups);
      }
      OpenKeeps(old(Now()), user, ids, users, newId, Now(), channel);
      return Ok(channel);
    }

    /** `get_dm_channel_by_user_id`: the dm channel of two users, created if need be. */
    method DmWith(user: string, other: string, newId: string) returns (channel: Channel)
      requires Valid() && FreshId(Now(), newId)
      modifies this
      ensures Valid() && (old(OneDm(Now())) ==> OneDm(Now()))
      ensures IsDmOpened(old(Now()), user, {user, other}, {user, other}, newId, Now(), channel)
      ensures channel in channels && channel.kind == "dm" && UserSet(members, channel.id) == {user, other}
    {
      assert {user} + (set u | u in [other]) == {user, other} by { assert (set u | u in [other]) == {other}; }
      assert CollectUsers(user, [other], []) == {user, other};
      var r := CreateDm(user, Some([other]), [], newId);
      channel := r.value;
    }

    /** `create_new_channel`. */
    method CreateNewChannel(
        kind: string, user: string, userIds: Option<seq<string>>, groups: seq<set<string>>, newId: string)
      returns (response: Response)
      requires Valid() && FreshId(Now(), newId)
      modifies this
      ensures IsStep(old(Now()), New(kind, user, userIds, groups), newId, Now(), response)
    {
      if kind == "dm" {
        var r := CreateDm(user, userIds, groups, newId);
        return if r.Raise? then BadRequest else Opened(r.value);
      }
      var channel := InsertNewChannel(newId, kind, user, Listed(userIds), groups);
      return Opened(channel);
    }

    /** One request; `newId` is the uuid it may draw. */
    method Step(request: Request, newId: string) returns (response: Response)
      requires Valid() && FreshId(Now(), newId)
      modifies this
      ensures IsStep(old(Now()), request, newId, Now(), response)
    {
      response := Done;
      match request {
        case New(kind, user, userIds, groups) => response := CreateNewChannel(kind, user, userIds, groups, newId);
        case DmPair(user, other) =>
          var channel := DmWith(user, other, newId);
          response := Opened(channel);
        case Leave(c, u) => var _ := LeaveChannel(c, u);
        case SetActive(c, u, active) => var _ := UpdateActive(c, u, active);
        case Delete(c) => DeleteChannel(c);
        case Join(c, u) => if Exists(channels, c) { JoinChannel(c, u); } else { response := NotFound; }
        case AddTo(c, inviter, userIds, groups) =>
          if Exists(channels, c) { AddMembers(c, inviter, userIds, groups); } else { response := NotFound; }
        case RemoveFrom(c, userIds) =>
          if Exists(channels, c) { var _ := RemoveMembers(c, userIds); } else { response := NotFound; }
      }
    }

    /** Any run of requests; `newIds` are the uuids drawn along the way, and `states` what the tables went through. */
    method Serve(requests: seq<Request>, newIds: seq<string>)
      returns (responses: seq<Response>, ghost states: seq<Tables>)
      requires Valid() && |newIds| == |requests| && FreshIds(Now(), newIds, 0)
      modifies this
      ensures Valid()
      ensures IsRun(states, requests, newIds, responses) && states[0] == old(Now()) && states[|requests|] == Now()
    {
      responses, states := [], [Now()];
      for n := 0 to |requests|
        invariant Valid() && FreshIds(Now(), newIds, n)
        invariant IsRun(states, requests[..n], newIds[..n], responses)
        invariant states[0] == old(Now()) && states[n] == Now()
      {
        ghost var before := Now();
        var response := Step(requests[n], newIds[n]);
        StepKeepsIff(before, requests[n], newIds[n], Now(), response);
        RunGrows(states, requests, newIds, responses, n, Now(), response);
        responses, states := responses + [response], states + [Now()];
      }
      assert requests[..|requests|] == requests && newIds[..|requests|] == newIds;
    }
  }

  lemma RunGrows(
      states: seq<Tables>, requests: seq<Request>, newIds: seq<string>, responses: seq<Response>, n: nat, now: Tables,
      response: Response)
    requires n < |requests| == |newIds| && IsRun(states, requests[..n], newIds[..n], responses)
    requires IsStep(states[n], requests[n], newIds[n], now, response)
    ensures IsRun(states + [now], requests[..n + 1], newIds[..n + 1], responses + [response])
  {
  }

  /** Two dm requests: one for both users, one for `a` alone. */
  method TwoDms(a: string, b: string, x: string, y: string) returns (t: ChannelTable)
    requires a != b && x != y
    ensures fresh(t) && t.Valid() && t.channels == [Channel(x, "dm", a), Channel(y, "dm", a)]
    ensures UserSet(t.members, x) == {a, b} && UserSet(t.members, y) == {a}
  {
    t := new ChannelTable();
    var first := t.CreateDm(a, Some([b]), [], x);
    ghost var w := t.Now();
    assert UserSet(w.members, x) == {a, b};
    InsertKeeps(Tables([], []), first.value, {a, b}, w);
    assert b in UserSet(w.members, x) && b !in {a};
    var second := t.CreateDm(a, Some([]), [], y);
    assert UserSet(t.members, y) == {a};
    InsertKeeps(w, second.value, {a}, t.Now());
  }

  /** When a member is then added to the second channel, both have the same participants. */
  method DmsCollide(a: string, b: string, x: string, y: string) returns (t: ChannelTable)
    requires a != b && x != y
    ensures fresh(t) && t.Valid() && !OneDm(t.Now())
  {
    t := TwoDms(a, b, x, y);
    t.AddMembers(y, a, [b], []);
    assert UserSet(t.members, y) == {a, b};
    assert t.channels[0] in t.channels && t.channels[1] in t.channels;
    assert SameDmSet(t.channels[0], t.channels[1], t.members);
  }
}
