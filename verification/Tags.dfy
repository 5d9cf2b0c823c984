/**
 The tag table against the tags on chats. A chat's tag list is always written
 through Python's `list(set(...))`, so it is a set here.
 */
module Tags {
  import opened Wrappers

  datatype Chat = Chat(userId: string, archived: bool, tags: set<string>)

  /** The primary key of a tag row. */
  datatype Key = Key(tagId: string, userId: string)

  type ChatTable = map<string, Chat>
  type TagTable = map<Key, string>  // to the name the tag was first given

  // ---------- names ----------

  function AsciiLower(s: string): string {
    seq(|s|, i requires 0 <= i < |s| => if 'A' <= s[i] <= 'Z' then (s[i] as int + 32) as char else s[i])
  }

  ghost predicate Spaceless(s: string) {
    forall i :: 0 <= i < |s| ==> s[i] != ' '
  }

  /** What is used of `str.lower`: doing it again changes nothing, and it makes no spaces. */
  ghost predicate IsLowering(f: string -> string) {
    && (forall s {:trigger f(f(s))} :: f(f(s)) == f(s))
    && (forall s :: Spaceless(s) ==> Spaceless(f(s)))
  }

  type Lowering = f: string -> string | IsLowering(f) witness AsciiLower

  /** `str.lower`: any such function. */
  const lower: Lowering

  function Lower(s: string): string {
    lower(s)
  }

  /** `name.replace(" ", "_")`. */
  function Underscored(name: string): (r: string)
    ensures |r| == |name| && Spaceless(r)
  {
    seq(|name|, i requires 0 <= i < |name| => if name[i] == ' ' then '_' else name[i])
  }

  /** Every space becomes an underscore, and nothing else changes. */
  lemma {:induction false} UnderscoredReplaces(a: string, b: string)
    ensures Underscored(a + " " + b) == Underscored(a) + "_" + Underscored(b)
    ensures Spaceless(a) ==> Underscored(a) == a
  {
  }

  /** `name.replace(" ", "_").lower()`. */
  function TagId(name: string): string {
    Lower(Underscored(name))
  }

  /** A tag id is its own normal form. */
  lemma {:induction false} TagIdIdempotent(name: string)
    ensures TagId(TagId(name)) == TagId(name)
  {
    assert IsLowering(lower);
    assert Spaceless(TagId(name));
    assert Underscored(TagId(name)) == TagId(name);
    assert lower(lower(Underscored(name))) == lower(Underscored(name));
  }

  /** The ids requested by a list of names, "none" left out. */
  ghost function Requested(names: seq<string>): set<string> {
    set n | n in names && Lower(n) != "none" :: TagId(n)
  }

  // ---------- usage ----------

  /** Does the query of `count_chats_by_tag_name_and_user_id` see this chat? */
  predicate Counted(chat: Chat, user: string) {
    chat.userId == user && !chat.archived
  }

  function Users(chats: ChatTable, user: string, name: string): set<string> {
    set id | id in chats && Counted(chats[id], user) && TagId(name) in chats[id].tags
  }

  /** The count of that query. */
  function Count(chats: ChatTable, user: string, name: string): nat {
    |Users(chats, user, name)|
  }

  /** The tags used by the user's non-archived chats. */
  ghost function InUse(chats: ChatTable, user: string): set<string> {
    set id, t | id in chats && Counted(chats[id], user) && t in chats[id].tags :: t
  }

  ghost function Rows(table: TagTable, user: string): set<string> {
    set k | k in table && k.userId == user :: k.tagId
  }

  /** The user's tag rows are exactly the tags on the user's non-archived chats. */
  ghost predicate Agree(chats: ChatTable, table: TagTable, user: string) {
    Rows(table, user) == InUse(chats, user)
  }

  /** Chats only carry normal forms. */
  ghost predicate Normal(chats: ChatTable) {
    forall id, t :: id in chats && t in chats[id].tags ==> TagId(t) == t
  }

  lemma CountZeroIff(chats: ChatTable, user: string, t: string)
    requires TagId(t) == t
    ensures Count(chats, user, t) == 0 <==> t !in InUse(chats, user)
  {
    if t in InUse(chats, user) {
      var id :| id in chats && Counted(chats[id], user) && t in chats[id].tags;
      assert id in Users(chats, user, t);
    }
    if Count(chats, user, t) != 0 {
      var id :| id in Users(chats, user, t);
    }
  }

  // ---------- specification of the row updates ----------

  /** Without the rows of those `tags` that no counted chat uses. */
  ghost function Pruned(table: TagTable, chats: ChatTable, user: string, tags: set<string>): TagTable {
    map k | k in table && !(k.userId == user && k.tagId in tags && k.tagId !in InUse(chats, user)) :: table[k]
  }

  lemma PruneOne(table: TagTable, chats: ChatTable, user: string, done: set<string>, t: string)
    requires TagId(t) == t
    ensures Pruned(table, chats, user, done + {t}) ==
      if Count(chats, user, t) == 0 then Pruned(table, chats, user, done) - {Key(TagId(t), user)}
      else Pruned(table, chats, user, done)
  {
    CountZeroIff(chats, user, t);
  }

  lemma PruneNone(table: TagTable, chats: ChatTable, user: string)
    ensures Pruned(table, chats, user, {}) == table
  {
  }

  lemma PrunedRows(table: TagTable, chats: ChatTable, user: string, tags: set<string>)
    ensures Rows(Pruned(table, chats, user, tags), user) == Rows(table, user) - (tags - InUse(chats, user))
    ensures forall other :: other != user ==> Rows(Pruned(table, chats, user, tags), other) == Rows(table, other)
  {
    var after := Pruned(table, chats, user, tags);
    forall t | t in Rows(table, user) && t !in tags - InUse(chats, user) ensures t in Rows(after, user) {
      assert Key(t, user) in after;
    }
    forall other, t | other != user && t in Rows(table, other) ensures t in Rows(after, other) {
      assert Key(t, other) in after;
    }
  }

  function WithTags(chats: ChatTable, id: string, tags: set<string>): ChatTable
    requires id in chats
  {
    chats[id := chats[id].(tags := tags)]
  }

  lemma WithTagsInUse(chats: ChatTable, id: string, tags: set<string>, user: string)
    requires id in chats
    ensures InUse(WithTags(chats, id, tags), user) ==
      InUse(WithTags(chats, id, {}), user) + if Counted(chats[id], user) then tags else {}
    ensures InUse(WithTags(chats, id, {}), user) <= InUse(chats, user)
    ensures InUse(chats, user) ==
      InUse(WithTags(chats, id, {}), user) + if Counted(chats[id], user) then chats[id].tags else {}
  {
    var bare, full := WithTags(chats, id, {}), WithTags(chats, id, tags);
    forall t ensures t in InUse(full, user) <==> t in InUse(bare, user) || (Counted(chats[id], user) && t in tags) {
      UsedElsewhere(chats, id, tags, user, t);
      UsedElsewhere(chats, id, {}, user, t);
    }
    forall t ensures t in InUse(chats, user) <==>
      t in InUse(bare, user) || (Counted(chats[id], user) && t in chats[id].tags)
    {
      UsedElsewhere(chats, id, chats[id].tags, user, t);
      UsedElsewhere(chats, id, {}, user, t);
      assert WithTags(chats, id, chats[id].tags) == chats;
    }
  }

  lemma UsedElsewhere(chats: ChatTable, id: string, tags: set<string>, user: string, t: string)
    requires id in chats
    ensures t in InUse(WithTags(chats, id, tags), user) <==>
      (Counted(chats[id], user) && t in tags)
      || exists o :: o in chats && o != id && Counted(chats[o], user) && t in chats[o].tags
  {
    var full := WithTags(chats, id, tags);
    if Counted(chats[id], user) && t in tags { assert Counted(full[id], user) && t in full[id].tags; }
    if o :| o in chats && o != id && Counted(chats[o], user) && t in chats[o].tags {
      assert full[o] == chats[o];
    }
  }

  /** `now` has the rows of `before`, and rows of the user for `added`. */
  ghost predicate HasAdded(before: TagTable, now: TagTable, user: string, added: set<string>) {
    && Rows(now, user) == Rows(before, user) + added
    && forall u :: u != user ==> Rows(now, u) == Rows(before, u)
  }

  lemma AddNoRow(table: TagTable, user: string)
    ensures HasAdded(table, table, user, {})
  {
  }

  lemma AddRow(before: TagTable, now: TagTable, user: string, added: set<string>, t: string, name: string)
    requires HasAdded(before, now, user, added)
    ensures HasAdded(before, now[Key(t, user) := name], user, added + {t})
    ensures Key(t, user) in now ==> HasAdded(before, now, user, added + {t})
  {
    var after := now[Key(t, user) := name];
    assert Key(t, user) in after;
    forall k | k in now ensures k in after {}
    forall u ensures Rows(after, u) == Rows(now, u) + if u == user then {t} else {} {
      forall x | x in Rows(now, u) ensures x in Rows(after, u) { assert Key(x, u) in after; }
    }
    if Key(t, user) in now { assert t in Rows(now, user) && added + {t} <= Rows(now, user); }
  }

  /** What has been taken out of a set so far grows by `t`. */
  lemma TakenGrows(all: set<string>, rest: set<string>, t: string)
    requires rest <= all && t in rest
    ensures all - (rest - {t}) == (all - rest) + {t}
    ensures all - {} == all && all - all == {}
  {
  }

  lemma RequestedNext(names: seq<string>, n: nat)
    requires n < |names|
    ensures Requested(names[..n + 1]) ==
      Requested(names[..n]) + if Lower(names[n]) == "none" then {} else {TagId(names[n])}
  {
    assert names[..n + 1] == names[..n] + [names[n]];
  }

  lemma WithTagsTwice(chats: ChatTable, id: string, x: set<string>, y: set<string>)
    requires id in chats
    ensures WithTags(WithTags(chats, id, x), id, y) == WithTags(chats, id, y)
  {
  }

  /** After the names of `names[..n]`: the chat carries their ids, and they have rows. */
  ghost predicate Adding(before: ChatTable, rows: TagTable, id: string, user: string, ids: set<string>,
                         chats: ChatTable, table: TagTable)
    requires id in before
  {
    chats == WithTags(before, id, ids) && HasAdded(rows, table, user, ids)
  }

  // ---------- what taking chats away does to the use of tags ----------

  lemma DroppedRow(t: TagTable, k: Key, u: string)
    ensures Rows(t - {k}, u) == if u == k.userId then Rows(t, u) - {k.tagId} else Rows(t, u)
  {
    forall x | x in t && x != k ensures x.tagId in Rows(t - {k}, x.userId) { assert x in t - {k}; }
  }

  lemma CountSame(c: ChatTable, user: string, name: string)
    ensures Count(c, user, name) == Count(c, user, TagId(name))
  {
    TagIdIdempotent(name);
  }

  /** Archiving a chat takes its tags out of use, except where other chats use them. */
  lemma ArchiveInUse(c: ChatTable, id: string, user: string)
    requires id in c && !c[id].archived
    ensures var archived := c[id := c[id].(archived := true)];
      && InUse(archived, user) <= InUse(c, user)
      && InUse(c, user) == InUse(archived, user) + if c[id].userId == user then c[id].tags else {}
  {
    var archived := c[id := c[id].(archived := true)];
    forall t ensures t in InUse(c, user) <==> t in InUse(archived, user) || (c[id].userId == user && t in c[id].tags) {
      if t in InUse(c, user) {
        var o :| o in c && Counted(c[o], user) && t in c[o].tags;
        if o != id { assert archived[o] == c[o]; }
      }
      if t in InUse(archived, user) {
        var o :| o in archived && Counted(archived[o], user) && t in archived[o].tags;
        assert archived[o] == c[o];
      }
    }
  }

  /** The tags that exactly one counted chat uses. */
  ghost function Singles(c: ChatTable, user: string, tags: set<string>): set<string> {
    set t | t in tags && Count(c, user, t) == 1
  }

  ghost predicate HasDropped(before: TagTable, now: TagTable, user: string, dropped: set<string>) {
    && Rows(now, user) == Rows(before, user) - dropped
    && forall u :: u != user ==> Rows(now, u) == Rows(before, u)
  }

  lemma DropRow(before: TagTable, now: TagTable, user: string, dropped: set<string>, t: string)
    requires HasDropped(before, now, user, dropped)
    ensures HasDropped(before, now - {Key(t, user)}, user, dropped + {t})
    ensures HasDropped(before, now, user, dropped + {})
  {
    forall u ensures Rows(now - {Key(t, user)}, u) == if u == user then Rows(now, u) - {t} else Rows(now, u) {
      DroppedRow(now, Key(t, user), u);
    }
    assert dropped + {} == dropped;
  }

  lemma NoSingles(c: ChatTable, user: string, tags: set<string>)
    ensures Singles(c, user, tags - tags) == {}
  {
  }

  lemma OneMoreSingle(c: ChatTable, user: string, tags: set<string>, t: string)
    ensures Singles(c, user, tags + {t}) == Singles(c, user, tags) + if Count(c, user, t) == 1 then {t} else {}
  {
  }

  lemma SingleUser(c: ChatTable, id: string, user: string, t: string)
    requires id in c && t in c[id].tags && TagId(t) == t && Count(c, user, t) == 1
    ensures t in InUse(c, user) && (t in InUse(c - {id}, user) <==> !Counted(c[id], user))
  {
    var users := Users(c, user, t);
    var o :| o in users;
    assert users == {o} by { SingletonOf(users, o); }
    if Counted(c[id], user) { assert id in users; }
    if o != id { assert (c - {id})[o] == c[o]; }
    if t in InUse(c - {id}, user) {
      var p :| p in c - {id} && Counted((c - {id})[p], user) && t in (c - {id})[p].tags;
      assert p in users;
    }
  }

  lemma SingletonOf(s: set<string>, x: string)
    requires |s| == 1 && x in s
    ensures s == {x}
  {
    assert |s - {x}| == 0;
  }

  lemma ManyUsers(c: ChatTable, id: string, user: string, t: string)
    requires id in c && Counted(c[id], user) && t in c[id].tags && TagId(t) == t && Count(c, user, t) != 1
    ensures t in InUse(c - {id}, user)
  {
    var users := Users(c, user, t);
    assert id in users;
    assert |users - {id}| > 0;
    var o :| o in users - {id};
    assert (c - {id})[o] == c[o];
  }

  /** Deleting a chat takes those of its tags out of use that no other counted chat of its owner uses. */
  lemma DeleteInUse(c: ChatTable, id: string, user: string)
    requires Normal(c) && id in c
    ensures !Counted(c[id], user) ==> InUse(c - {id}, user) == InUse(c, user)
    ensures Counted(c[id], user) ==> InUse(c - {id}, user) == InUse(c, user) - Singles(c, user, c[id].tags)
  {
    var after := c - {id};
    forall o, t | o in after && Counted(after[o], user) && t in after[o].tags ensures t in InUse(c, user) {
      assert c[o] == after[o];
    }
    forall o, t | o in c && o != id && Counted(c[o], user) && t in c[o].tags ensures t in InUse(after, user) {
      assert after[o] == c[o];
    }
    if Counted(c[id], user) {
      forall t | t in c[id].tags ensures t in InUse(after, user) <==> Count(c, user, t) != 1 {
        if Count(c, user, t) == 1 { SingleUser(c, id, user, t); } else { ManyUsers(c, id, user, t); }
      }
    }
  }

  lemma SinglesInUse(c: ChatTable, user: string, tags: set<string>)
    requires forall t :: t in tags ==> TagId(t) == t
    ensures Singles(c, user, tags) <= InUse(c, user)
  {
    forall t | t in Singles(c, user, tags) ensures t in InUse(c, user) { CountZeroIff(c, user, t); }
  }

  // ---------- operations and runs ----------

  datatype Tables = Tables(chats: ChatTable, table: TagTable)

  /** The endpoints, each with its acting user. */
  datatype Operation =
    | New(id: string, user: string)
    | Add(id: string, user: string, name: string)
    | Update(id: string, user: string, names: seq<string>)
    | Clear(id: string, user: string)
    | Remove(id: string, user: string, name: string)
    | Archive(id: string, user: string)
    | Delete(id: string, user: string, admin: bool)

  predicate Owns(chats: ChatTable, id: string, user: string) {
    id in chats && chats[id].userId == user
  }

  function WithArchived(chats: ChatTable, id: string, archived: bool): ChatTable
    requires id in chats
  {
    chats[id := chats[id].(archived := archived)]
  }

  ghost function ChatsAfter(chats: ChatTable, op: Operation): ChatTable {
    match op
    case New(id, user) => if id in chats then chats else chats[id := Chat(user, false, {})]
    case Add(id, user, name) =>
      if Owns(chats, id, user) && TagId(name) != "none" then WithTags(chats, id, chats[id].tags + {TagId(name)})
      else chats
    case Update(id, _, names) => if id in chats then WithTags(chats, id, Requested(names)) else chats
    case Clear(id, user) => if Owns(chats, id, user) then WithTags(chats, id, {}) else chats
    case Remove(id, user, name) =>
      if Owns(chats, id, user) then WithTags(chats, id, chats[id].tags - {TagId(name)}) else chats
    case Archive(id, user) => if Owns(chats, id, user) then WithArchived(chats, id, !chats[id].archived) else chats
    case Delete(id, user, admin) => if id in chats && (admin || chats[id].userId == user) then chats - {id} else chats
  }

  /** The acting user's rows afterwards; `rows` are those before, `chats` the chats before. */
  ghost function RowsAfter(chats: ChatTable, rows: set<string>, op: Operation): set<string> {
    var after := ChatsAfter(chats, op);
    match op
    case New(_, _) => rows
    case Add(id, user, name) =>
      if Owns(chats, id, user) && TagId(name) != "none" && TagId(name) !in chats[id].tags then rows + {TagId(name)}
      else rows
    case Update(id, user, names) =>
      if id in chats then rows - (chats[id].tags - InUse(WithTags(chats, id, {}), user)) + Requested(names) else rows
    case Clear(id, user) => if Owns(chats, id, user) then rows - (chats[id].tags - InUse(after, user)) else rows
    case Remove(id, user, name) => if Owns(chats, id, user) then rows - ({TagId(name)} - InUse(after, user)) else rows
    case Archive(id, user) =>
      if !Owns(chats, id, user) then rows
      else if chats[id].archived then rows + chats[id].tags
      else rows - (chats[id].tags - InUse(after, user))
    case Delete(id, user, _) => if id in chats then rows - Singles(chats, user, chats[id].tags) else rows
  }

  /** The chats after the operation, and everybody's rows; only the acting user's can change. */
  ghost predicate IsStep(before: Tables, op: Operation, now: Tables) {
    && now.chats == ChatsAfter(before.chats, op)
    && Rows(now.table, op.user) == RowsAfter(before.chats, Rows(before.table, op.user), op)
    && forall u :: u != op.user ==> Rows(now.table, u) == Rows(before.table, u)
  }

  /**
   When the operation keeps the rows of `u` in agreement, read off the chats before
   it. Adding, updating and deleting rely on the chat being counted for the acting
   user, and never touch the rows of an owner who is somebody else.
   */
  ghost predicate Keeps(chats: ChatTable, op: Operation, u: string) {
    match op
    case Add(id, user, name) =>
      Owns(chats, id, user) && TagId(name) != "none" && u == user && chats[id].archived ==>
        TagId(name) in chats[id].tags + InUse(chats, u)
    case Update(id, user, names) =>
      id in chats ==>
        if u == user then Counted(chats[id], u) || Requested(names) <= InUse(chats, u)
        else Counted(chats[id], u) ==>
          && chats[id].tags - Requested(names) <= InUse(WithTags(chats, id, {}), u)
          && Requested(names) <= InUse(chats, u)
    case Delete(id, user, admin) =>
      id in chats ==>
        if u == user then Counted(chats[id], u) || Singles(chats, u, chats[id].tags) == {}
        else admin && Counted(chats[id], u) ==> Singles(chats, u, chats[id].tags) == {}
    case _ => true
  }

  lemma NewInUse(chats: ChatTable, id: string, user: string, u: string)
    requires id !in chats
    ensures InUse(chats[id := Chat(user, false, {})], u) == InUse(chats, u)
  {
    var after := chats[id := Chat(user, false, {})];
    forall o, t | o in chats && Counted(chats[o], u) && t in chats[o].tags ensures t in InUse(after, u) {
      assert after[o] == chats[o];
    }
  }

  lemma NormalAfter(chats: ChatTable, op: Operation)
    requires Normal(chats)
    ensures Normal(ChatsAfter(chats, op))
  {
    if op.Add? { TagIdIdempotent(op.name); }
    if op.Update? {
      forall t | t in Requested(op.names) ensures TagId(t) == t {
        var n :| n in op.names && Lower(n) != "none" && TagId(n) == t;
        TagIdIdempotent(n);
      }
    }
  }

  /** The operations that set the tags of a chat. */
  lemma TagsKeepIff(chats: ChatTable, table: TagTable, op: Operation, u: string)
    requires op.Add? || op.Update? || op.Clear? || op.Remove?
    requires Agree(chats, table, u)
    ensures var rows := if u == op.user then RowsAfter(chats, Rows(table, u), op) else Rows(table, u);
      rows == InUse(ChatsAfter(chats, op), u) <==> Keeps(chats, op, u)
  {
    if op.id in chats {
      match op
      case Add(id, user, name) => WithTagsInUse(chats, id, chats[id].tags + {TagId(name)}, u);
      case Update(id, user, names) => WithTagsInUse(chats, id, Requested(names), u);
      case Clear(id, user) => WithTagsInUse(chats, id, {}, u);
      case Remove(id, user, name) => WithTagsInUse(chats, id, chats[id].tags - {TagId(name)}, u);
    }
  }

  lemma ArchiveKeeps(chats: ChatTable, table: TagTable, id: string, user: string, u: string)
    requires Agree(chats, table, u)
    ensures var op := Archive(id, user);
      var rows := if u == user then RowsAfter(chats, Rows(table, u), op) else Rows(table, u);
      rows == InUse(ChatsAfter(chats, op), u)
  {
    if Owns(chats, id, user) {
      if chats[id].archived {
        var live := WithArchived(chats, id, false);
        ArchiveInUse(live, id, u);
        assert live[id := live[id].(archived := true)] == chats;
      } else {
        ArchiveInUse(chats, id, u);
      }
    }
  }

  lemma DeleteKeepsIff(chats: ChatTable, table: TagTable, id: string, user: string, admin: bool, u: string)
    requires Normal(chats) && Agree(chats, table, u)
    ensures var op := Delete(id, user, admin);
      var rows := if u == user then RowsAfter(chats, Rows(table, u), op) else Rows(table, u);
      rows == InUse(ChatsAfter(chats, op), u) <==> Keeps(chats, op, u)
  {
    if id in chats {
      DeleteInUse(chats, id, u);
      SinglesInUse(chats, u, chats[id].tags);
    }
  }

  /** For every user whose rows agreed with use: they still do exactly when the operation keeps them. */
  lemma {:induction false} StepKeepsIff(before: Tables, op: Operation, now: Tables, u: string)
    requires Normal(before.chats) && IsStep(before, op, now) && Agree(before.chats, before.table, u)
    ensures Agree(now.chats, now.table, u) <==> Keeps(before.chats, op, u)
  {
    match op
    case New(id, user) => if id !in before.chats { NewInUse(before.chats, id, user, u); }
    case Archive(id, user) => ArchiveKeeps(before.chats, before.table, id, user, u);
    case Delete(id, user, admin) => DeleteKeepsIff(before.chats, before.table, id, user, admin, u);
    case _ => TagsKeepIff(before.chats, before.table, op, u);
  }

  /** What the operation does to every user whose rows agreed with use. */
  ghost predicate KeptAsStated(before: Tables, op: Operation, now: Tables) {
    forall u :: Agree(before.chats, before.table, u) ==>
      (Agree(now.chats, now.table, u) <==> Keeps(before.chats, op, u))
  }

  lemma StepKeeps(before: Tables, op: Operation, now: Tables)
    requires Normal(before.chats) && IsStep(before, op, now)
    ensures Normal(now.chats) && KeptAsStated(before, op, now)
  {
    NormalAfter(before.chats, op);
    forall u | Agree(before.chats, before.table, u)
      ensures Agree(now.chats, now.table, u) <==> Keeps(before.chats, op, u)
    {
      StepKeepsIff(before, op, now, u);
    }
  }

  /** One user's operations on own chats that are not archived keep that user's rows. */
  lemma OwnOperationsKeep(chats: ChatTable, op: Operation)
    requires op.Add? || op.Update? || op.Delete? ==> op.id in chats ==> Counted(chats[op.id], op.user)
    ensures Keeps(chats, op, op.user)
  {
  }

  ghost predicate IsRun(states: seq<Tables>, ops: seq<Operation>) {
    |states| == |ops| + 1 && forall n :: 0 <= n < |ops| ==> IsStep(states[n], ops[n], states[n + 1])
  }

  ghost function ChatsAfterAll(chats: ChatTable, ops: seq<Operation>): ChatTable {
    if ops == [] then chats else ChatsAfter(ChatsAfterAll(chats, ops[..|ops| - 1]), ops[|ops| - 1])
  }

  /** A run leaves the chats its operations describe. */
  lemma {:induction false} RunChats(states: seq<Tables>, ops: seq<Operation>, n: nat)
    requires IsRun(states, ops) && n <= |ops| && Normal(states[0].chats)
    ensures states[n].chats == ChatsAfterAll(states[0].chats, ops[..n]) && Normal(states[n].chats)
  {
    if n > 0 {
      RunChats(states, ops, n - 1);
      assert ops[..n][..n - 1] == ops[..n - 1];
      NormalAfter(states[n - 1].chats, ops[n - 1]);
    }
  }

  /**
   Over any run of any users' operations, the rows of `u` are exactly the tags that
   `u` uses, throughout the first `n` of them, exactly when each kept them.
   */
  lemma {:induction false} RunAgreesIff(states: seq<Tables>, ops: seq<Operation>, u: string, n: nat)
    requires IsRun(states, ops) && n <= |ops|
    requires Normal(states[0].chats) && Agree(states[0].chats, states[0].table, u)
    ensures (forall i :: 0 <= i <= n ==> Agree(states[i].chats, states[i].table, u)) <==>
      forall i :: 0 <= i < n ==> Keeps(ChatsAfterAll(states[0].chats, ops[..i]), ops[i], u)
  {
    if n > 0 {
      RunAgreesIff(states, ops, u, n - 1);
      RunChats(states, ops, n - 1);
      if Agree(states[n - 1].chats, states[n - 1].table, u) {
        StepKeepsIff(states[n - 1], ops[n - 1], states[n], u);
      }
    }
  }

  // ---------- inputs on which agreement is lost ----------

  ghost predicate AllAgree(w: Tables) {
    forall u :: Agree(w.chats, w.table, u)
  }

  /** One chat with one tag, not archived. */
  function OneChat(id: string, owner: string, t: string): Tables {
    Tables(map[id := Chat(owner, false, {t})], map[Key(t, owner) := t])
  }

  lemma OneChatAgrees(id: string, owner: string, t: string)
    ensures AllAgree(OneChat(id, owner, t)) && InUse(OneChat(id, owner, t).chats, owner) == {t}
  {
    var w := OneChat(id, owner, t);
    forall u ensures Rows(w.table, u) == InUse(w.chats, u) == if u == owner then {t} else {} {
      if u == owner {
        assert Key(t, owner) in w.table && Counted(w.chats[id], owner);
      }
    }
  }

  /** An admin deletes somebody else's chat: the owner keeps a row for a tag nobody uses. */
  lemma AdminDeleteLeavesRow(id: string, owner: string, admin: string, t: string)
    requires owner != admin && TagId(t) == t
    ensures AllAgree(OneChat(id, owner, t)) && !Keeps(OneChat(id, owner, t).chats, Delete(id, admin, true), owner)
  {
    var chats := OneChat(id, owner, t).chats;
    OneChatAgrees(id, owner, t);
    assert Users(chats, owner, t) == {id};
    assert t in Singles(chats, owner, chats[id].tags);
  }

  /** A user who does not own the chat clears its tags by an update. */
  lemma StrangersUpdateLeavesRow(id: string, owner: string, stranger: string, t: string)
    requires owner != stranger
    ensures AllAgree(OneChat(id, owner, t)) && !Keeps(OneChat(id, owner, t).chats, Update(id, stranger, []), owner)
  {
    var chats := OneChat(id, owner, t).chats;
    OneChatAgrees(id, owner, t);
    WithTagsInUse(chats, id, {}, owner);
    assert InUse(WithTags(chats, id, {}), owner) == {} && Requested([]) == {};
    assert t in chats[id].tags - Requested([]);
  }

  /** Tagging an archived chat inserts a row for a tag that no counted chat uses. */
  lemma TaggingArchivedAddsRow(id: string, user: string, name: string)
    requires TagId(name) != "none" && Lower(name) != "none"
    ensures var w := Tables(map[id := Chat(user, true, {})], map[]);
      && AllAgree(w) && !Keeps(w.chats, Add(id, user, name), user) && !Keeps(w.chats, Update(id, user, [name]), user)
  {
    var w := Tables(map[id := Chat(user, true, {})], map[]);
    forall u ensures Rows(w.table, u) == InUse(w.chats, u) == {} {}
    assert name in [name] && TagId(name) in Requested([name]);
  }

  /** Deleting an archived chat drops the row of a tag that one other chat still uses. */
  lemma DeletingArchivedDropsRow(id: string, other: string, user: string, t: string)
    requires id != other && TagId(t) == t
    ensures var w := OneChat(other, user, t);
      var chats := w.chats[id := Chat(user, true, {t})];
      Agree(chats, w.table, user) && !Keeps(chats, Delete(id, user, false), user)
  {
    var w := OneChat(other, user, t);
    var chats := w.chats[id := Chat(user, true, {t})];
    OneChatAgrees(other, user, t);
    assert chats[other] == w.chats[other];
    forall x ensures x in InUse(chats, user) <==> x in InUse(w.chats, user) {
      if x in InUse(w.chats, user) { assert Counted(chats[other], user) && x in chats[other].tags; }
    }
    assert Users(chats, user, t) == {other};
    assert t in Singles(chats, user, chats[id].tags);
  }

  // ---------- the tables ----------

  class TagStore {
    var chats: ChatTable
    var table: TagTable

    function Now(): Tables
      reads this
    {
      Tables(chats, table)
    }

    ghost predicate Valid()
      reads this
    {
      Normal(chats)
    }

    constructor ()
      ensures Valid() && chats == map[] && table == map[]
    {
      chats, table := map[], map[];
    }

    /** A new chat without tags. */
    method NewChat(id: string, user: string)
      requires Valid() && id !in chats
      modifies this`chats
      ensures Valid() && chats == old(chats)[id := Chat(user, false, {})]
      ensures IsStep(old(Now()), New(id, user), Now()) && KeptAsStated(old(Now()), New(id, user), Now())
    {
      chats := chats[id := Chat(user, false, {})];
      StepKeeps(old(Now()), New(id, user), Now());
    }

    /** The loop that drops the rows of tags no counted chat uses any more. */
    method PruneRows(tags: set<string>, user: string)
      requires forall t :: t in tags ==> TagId(t) == t
      modifies this`table
      ensures table == Pruned(old(table), chats, user, tags)
    {
      var rest, done := tags, {};
      PruneNone(table, chats, user);
      while rest != {}
        invariant rest <= tags && done == tags - rest
        invariant table == Pruned(old(table), chats, user, done)
        decreases |rest|
      {
        var t :| t in rest;
        PruneOne(old(table), chats, user, done, t);
        if Count(chats, user, t) == 0 {
          table := table - {Key(TagId(t), user)};
        }
        rest, done := rest - {t}, done + {t};
      }
      assert done == tags;
    }

    /** `add_chat_tag_by_id_and_user_id_and_tag_name`, for a stored chat. */
    method AddChatTag(id: string, user: string, name: string)
      requires Valid() && id in chats
      modifies this
      ensures Valid()
      ensures chats == WithTags(old(chats), id, old(chats)[id].tags + {TagId(name)})
      ensures var key := Key(TagId(name), user);
        table == if key in old(table) then old(table) else old(table)[key := name]
    {
      var key := Key(TagId(name), user);
      TagIdIdempotent(name);
      if key !in table {
        table := table[key := name];
      }
      if key.tagId !in chats[id].tags {
        chats := WithTags(chats, id, chats[id].tags + {key.tagId});
      }
      assert old(chats)[id].tags + {key.tagId} == chats[id].tags;
    }

    /** The endpoint that adds one tag to an owned chat. */
    method AddTag(id: string, user: string, name: string) returns (r: Result<()>)
      requires Valid()
      modifies this
      ensures Valid()
      ensures r ==
        if !Owns(old(chats), id, user) then Raise("Unauthorized")
        else if TagId(name) == "none" then Raise("BadRequest") else Ok(())
      ensures r.Raise? ==> Now() == old(Now())
      ensures r.Ok? ==> chats == WithTags(old(chats), id, old(chats)[id].tags + {TagId(name)})
      ensures IsStep(old(Now()), Add(id, user, name), Now()) && KeptAsStated(old(Now()), Add(id, user, name), Now())
    {
      ghost var op := Add(id, user, name);
      if !Owns(chats, id, user) {
        StepKeeps(old(Now()), op, Now());
        return Raise("Unauthorized");
      }
      var t := TagId(name);
      if t == "none" {
        StepKeeps(old(Now()), op, Now());
        return Raise("BadRequest");
      }
      AddNoRow(table, user);
      AddRow(table, table, user, {}, t, name);
      if t in chats[id].tags {
        assert chats[id].tags + {t} == chats[id].tags;
      } else {
        AddChatTag(id, user, name);
        assert table == if Key(t, user) in old(table) then old(table) else old(table)[Key(t, user) := name];
        assert {} + {t} == {t};
      }
      StepKeeps(old(Now()), op, Now());
      r := Ok(());
    }

    /** One name of the request, unless it is "none". */
    method AddRequested(
        id: string, user: string, name: string, ghost before: ChatTable, ghost rows: TagTable, ghost ids: set<string>)
      requires Valid() && id in before && Adding(before, rows, id, user, ids, chats, table)
      modifies this
      ensures Valid()
      ensures Adding(before, rows, id, user, ids + if Lower(name) == "none" then {} else {TagId(name)}, chats, table)
    {
      if Lower(name) == "none" {
        assert ids + {} == ids;
        return;
      }
      var t := TagId(name);
      AddRow(rows, table, user, ids, t, name);
      WithTagsTwice(before, id, ids, ids + {t});
      AddChatTag(id, user, name);
      assert table == if Key(t, user) in old(table) then old(table) else old(table)[Key(t, user) := name];
    }

    /**
     `update_chat_tags_by_id`. The chat's tags become exactly the requested ids,
     whoever owns the chat; the rows that change are the acting user's.
     */
    method UpdateChatTags(id: string, user: string, names: seq<string>) returns (found: bool)
      requires Valid()
      modifies this
      ensures Valid()
      ensures found <==> id in old(chats)
      ensures !found ==> Now() == old(Now())
      ensures found ==> chats == WithTags(old(chats), id, Requested(names))
      ensures IsStep(old(Now()), Update(id, user, names), Now())
      ensures KeptAsStated(old(Now()), Update(id, user, names), Now())
    {
      found := id in chats;
      if found {
        var before := chats[id].tags;
        chats := WithTags(chats, id, {});
        ghost var bare := chats;
        PruneRows(before, user);
        PrunedRows(old(table), bare, user, before);
        ghost var pruned := table;
        WithTagsTwice(old(chats), id, {}, {});
        AddNoRow(pruned, user);
        assert Requested(names[..0]) == {};
        for n := 0 to |names|
          invariant Valid() && Adding(old(chats), pruned, id, user, Requested(names[..n]), chats, table)
        {
          RequestedNext(names, n);
          AddRequested(id, user, names[n], old(chats), pruned, Requested(names[..n]));
        }
        assert names[..|names|] == names;
      }
      StepKeeps(old(Now()), Update(id, user, names), Now());
    }

    /** The endpoint that removes all tags from an owned chat. */
    method ClearTags(id: string, user: string) returns (found: bool)
      requires Valid()
      modifies this
      ensures Valid()
      ensures found <==> Owns(old(chats), id, user)
      ensures !found ==> Now() == old(Now())
      ensures found ==> chats == WithTags(old(chats), id, {})
      ensures found ==> table == Pruned(old(table), chats, user, old(chats)[id].tags)
      ensures IsStep(old(Now()), Clear(id, user), Now()) && KeptAsStated(old(Now()), Clear(id, user), Now())
    {
      found := Owns(chats, id, user);
      if found {
        var before := chats[id].tags;
        chats := WithTags(chats, id, {});
        PruneRows(before, user);
        PrunedRows(old(table), chats, user, before);
      }
      StepKeeps(old(Now()), Clear(id, user), Now());
    }

    /** The endpoint that removes one tag from an owned chat. */
    method RemoveTag(id: string, user: string, name: string) returns (found: bool)
      requires Valid()
      modifies this
      ensures Valid()
      ensures found <==> Owns(old(chats), id, user)
      ensures !found ==> Now() == old(Now())
      ensures found ==> chats == WithTags(old(chats), id, old(chats)[id].tags - {TagId(name)})
      ensures found ==> table == Pruned(old(table), chats, user, {TagId(name)})
      ensures IsStep(old(Now()), Remove(id, user, name), Now())
      ensures KeptAsStated(old(Now()), Remove(id, user, name), Now())
    {
      found := Owns(chats, id, user);
      if found {
        chats := WithTags(chats, id, chats[id].tags - {TagId(name)});
        TagIdIdempotent(name);
        CountSame(chats, user, name);
        PruneNone(table, chats, user);
        PruneOne(table, chats, user, {}, TagId(name));
        assert {} + {TagId(name)} == {TagId(name)};
        if Count(chats, user, name) == 0 {
          table := table - {Key(TagId(name), user)};
        }
        PrunedRows(old(table), chats, user, {TagId(name)});
      }
      StepKeeps(old(Now()), Remove(id, user, name), Now());
    }

    /** Archiving or unarchiving an owned chat. */
    method ToggleArchive(id: string, user: string) returns (found: bool)
      requires Valid()
      modifies this
      ensures Valid()
      ensures found <==> Owns(old(chats), id, user)
      ensures !found ==> Now() == old(Now())
      ensures found ==> chats == WithArchived(old(chats), id, !old(chats)[id].archived)
      ensures found ==>
        if chats[id].archived then table == Pruned(old(table), chats, user, chats[id].tags)
        else HasAdded(old(table), table, user, chats[id].tags)
      ensures IsStep(old(Now()), Archive(id, user), Now()) && KeptAsStated(old(Now()), Archive(id, user), Now())
    {
      found := Owns(chats, id, user);
      if found {
        var tags := chats[id].tags;
        chats := WithArchived(chats, id, !chats[id].archived);
        if chats[id].archived {
          PruneRows(tags, user);
          PrunedRows(old(table), chats, user, tags);
        } else {
          RestoreRows(tags, user);
        }
      }
      StepKeeps(old(Now()), Archive(id, user), Now());
    }

    /** The loop that re-inserts missing rows. */
    method RestoreRows(tags: set<string>, user: string)
      requires forall t :: t in tags ==> TagId(t) == t
      modifies this`table
      ensures HasAdded(old(table), table, user, tags)
    {
      var rest := tags;
      AddNoRow(table, user);
      assert tags - rest == {};
      while rest != {}
        invariant rest <= tags && HasAdded(old(table), table, user, tags - rest)
        decreases |rest|
      {
        var t :| t in rest;
        AddRow(old(table), table, user, tags - rest, t, t);
        TakenGrows(tags, rest, t);
        if Key(TagId(t), user) !in table {
          table := table[Key(TagId(t), user) := t];
        }
        rest := rest - {t};
      }
      assert tags - {} == tags;
    }

    /**
     Deleting a chat drops the rows of those of its tags that exactly one counted
     chat uses, taking that chat to be this one; only then is ownership looked at.
     */
    method DeleteChat(id: string, user: string, admin: bool) returns (r: Result<()>)
      requires Valid()
      modifies this
      ensures Valid()
      ensures r == if id in old(chats) then Ok(()) else Raise("AttributeError")
      ensures r.Raise? ==> Now() == old(Now())
      ensures r.Ok? ==> chats == if admin || old(chats)[id].userId == user then old(chats) - {id} else old(chats)
      ensures r.Ok? ==> HasDropped(old(table), table, user, Singles(old(chats), user, old(chats)[id].tags))
      ensures IsStep(old(Now()), Delete(id, user, admin), Now())
      ensures KeptAsStated(old(Now()), Delete(id, user, admin), Now())
    {
      r := Raise("AttributeError");
      if id in chats {
        DropSingles(chats[id].tags, user);
        if admin || chats[id].userId == user {
          chats := chats - {id};
        }
        r := Ok(());
      }
      StepKeeps(old(Now()), Delete(id, user, admin), Now());
    }

    /** The loop before the deletion. */
    method DropSingles(tags: set<string>, user: string)
      requires forall t :: t in tags ==> TagId(t) == t
      modifies this`table
      ensures HasDropped(old(table), table, user, Singles(chats, user, tags))
    {
      var rest := tags;
      NoSingles(chats, user, tags);
      while rest != {}
        invariant rest <= tags && HasDropped(old(table), table, user, Singles(chats, user, tags - rest))
        decreases |rest|
      {
        var t :| t in rest;
        TakenGrows(tags, rest, t);
        OneMoreSingle(chats, user, tags - rest, t);
        DropRow(old(table), table, user, Singles(chats, user, tags - rest), t);
        if Count(chats, user, t) == 1 {
          table := table - {Key(TagId(t), user)};
        }
        rest := rest - {t};
      }
      assert tags - {} == tags;
    }

    method Step(op: Operation)
      requires Valid()
      modifies this
      ensures Valid() && IsStep(old(Now()), op, Now())
    {
      match op {
        case New(id, user) => if id !in chats { NewChat(id, user); }
        case Add(id, user, name) => var _ := AddTag(id, user, name);
        case Update(id, user, names) => var _ := UpdateChatTags(id, user, names);
        case Clear(id, user) => var _ := ClearTags(id, user);
        case Remove(id, user, name) => var _ := RemoveTag(id, user, name);
        case Archive(id, user) => var _ := ToggleArchive(id, user);
        case Delete(id, user, admin) => var _ := DeleteChat(id, user, admin);
      }
    }

    /** Any run of operations; `states` is what the tables went through. */
    method Serve(ops: seq<Operation>) returns (ghost states: seq<Tables>)
      requires Valid()
      modifies this
      ensures Valid() && chats == ChatsAfterAll(old(chats), ops)
      ensures IsRun(states, ops) && states[0] == old(Now()) && states[|ops|] == Now()
    {
      states := [Now()];
      for n := 0 to |ops|
        invariant Valid() && IsRun(states, ops[..n]) && states[0] == old(Now()) && states[n] == Now()
      {
        Step(ops[n]);
        assert ops[..n + 1] == ops[..n] + [ops[n]];
        states := states + [Now()];
      }
      assert ops[..|ops|] == ops;
      RunChats(states, ops, |ops|);
    }
  }
}
