/** The emoji requests as one state machine: each request of the feature,
    dispatched to its handler, and the theorem that once every acting user
    has an "all" group, no sequence of requests breaks the invariants. */
module EmojiRequests {
  import opened Wrappers
  import opened EmojiModel
  import P = EmojiProcessor
  import opened EmojiInvariants

  /** The request fields of each handler; the caller's id comes separately. */
  datatype Request =
    | ListGroups
    | ListGroupEmojis(groupId: string)
    | CreateGroup(name: string, sort: int)
    | RenameGroup(groupId: string, name: string)
    | ResortGroup(groupId: string, sort: int)
    | ResortGroups(ids: Option<seq<string>>, sorts: Option<seq<int>>)
    | DeleteGroup(groupId: string)
    | AddEmoji(groupId: string, emojiId: string, sort: int, name: string)
    | AddUrlEmoji(groupId: string, url: string, sort: int, name: string)
    | RemoveEmoji(groupId: string, emojiId: string)
    | RenameEmoji(groupId: string, emojiId: string, name: string)
    | ResortEmoji(groupId: string, emojiId: string, sort: int)
    | ResortEmojis(groupId: string, ids: Option<seq<string>>, sorts: Option<seq<int>>)

  /** A handler's answer with its payload dropped. */
  function Outcome<T>(r: Result<T, Error>): Result<(), Error> {
    match r
    case Ok(_) => Ok(())
    case Err(e) => Err(e)
  }

  /** Listing the groups always succeeds and leaves the caller with an
      "all" group. */
  function ListGroupsReply(s: Store, userId: string, now: int): (r: P.Reply<()>)
    ensures r.result.Ok? && HasAllGroup(r.store, userId)
  {
    var x := P.GetUserGroups(s, userId, now);
    var a :| a in x.result.value && a.kind.All?;
    assert a in x.store.groups;
    P.Reply(x.store, Outcome(x.result))
  }

  /** The requests that work on groups as a whole. */
  predicate IsGroupRequest(req: Request) {
    req.ListGroups? || req.ListGroupEmojis? || req.CreateGroup? || req.RenameGroup?
    || req.ResortGroup? || req.ResortGroups? || req.DeleteGroup?
  }

  /** Runs one request on groups. */
  function HandleGroupRequest(s: Store, userId: string, req: Request, now: int): (r: P.Reply<()>)
    requires IsGroupRequest(req)
    ensures r.result.Err? ==> r.store == s && r.result.error != AddFailed
    ensures req.ListGroups? ==> HasAllGroup(r.store, userId)
    ensures req.ListGroupEmojis? ==> r.store == s
  {
    match req
    case ListGroups => ListGroupsReply(s, userId, now)
    case ListGroupEmojis(groupId) =>
      P.Reply(s, Outcome(P.GetGroupEmojis(s, userId, groupId)))
    case CreateGroup(name, sort) =>
      var x := P.CreateGroup(s, userId, name, sort, now);
      P.Reply(x.store, Outcome(x.result))
    case RenameGroup(groupId, name) => P.UpdateGroupName(s, userId, groupId, name, now)
    case ResortGroup(groupId, sort) => P.UpdateGroupSort(s, userId, groupId, sort, now)
    case ResortGroups(ids, sorts) => P.BatchUpdateGroupSort(s, userId, ids, sorts)
    case DeleteGroup(groupId) => P.DeleteGroup(s, userId, groupId)
  }

  /** Runs one request on the emojis of a group. */
  function HandleItemRequest(s: Store, userId: string, req: Request, now: int): (r: P.Reply<()>)
    requires !IsGroupRequest(req)
    ensures r.result.Err? && r.result.error != AddFailed ==> r.store == s
    ensures r.result == Err(AddFailed) ==> !HasAllGroup(s, userId)
  {
    match req
    case AddEmoji(groupId, emojiId, sort, name) =>
      P.AddEmojiToGroup(s, userId, groupId, emojiId, sort, name, now)
    case AddUrlEmoji(groupId, url, sort, name) =>
      P.AddUrlDuplicateWritesNothing(s, userId, groupId, url, sort, name, now);
      P.AddUrlEmojiToGroup(s, userId, groupId, url, sort, name, now)
    case RemoveEmoji(groupId, emojiId) => P.RemoveEmojiFromGroup(s, userId, groupId, emojiId)
    case RenameEmoji(groupId, emojiId, name) => P.UpdateEmojiItemName(s, userId, groupId, emojiId, name)
    case ResortEmoji(groupId, emojiId, sort) => P.UpdateEmojiItemSort(s, userId, groupId, emojiId, sort)
    case ResortEmojis(groupId, ids, sorts) => P.BatchUpdateEmojiItemSort(s, userId, groupId, ids, sorts)
  }

  /** Runs one request. Every rejection leaves the store as it was, except
      the failed mirror step, which only happens to a caller without an
      "all" group; listing groups gives the caller one. */
  function Handle(s: Store, userId: string, req: Request, now: int): (r: P.Reply<()>)
    ensures r.result.Err? && r.result.error != AddFailed ==> r.store == s
    ensures r.result == Err(AddFailed) ==> !HasAllGroup(s, userId)
    ensures req.ListGroups? ==> HasAllGroup(r.store, userId)
    ensures req.ListGroupEmojis? ==> r.store == s
  {
    if IsGroupRequest(req) then HandleGroupRequest(s, userId, req, now)
    else HandleItemRequest(s, userId, req, now)
  }

  /** The group requests keep every invariant. */
  lemma GroupRequestKeepsInv(s: Store, userId: string, req: Request, now: int)
    requires Inv(s) && IsGroupRequest(req)
    ensures var r := HandleGroupRequest(s, userId, req, now);
            Inv(r.store) && AllGroupsKept(s, r.store)
  {
    match req
    case ListGroups => GetUserGroupsKeepsInv(s, userId, now);
    case ListGroupEmojis(groupId) =>
    case CreateGroup(name, sort) => CreateGroupKeepsInv(s, userId, name, sort, now);
    case RenameGroup(groupId, name) => UpdateGroupNameKeepsInv(s, userId, groupId, name, now);
    case ResortGroup(groupId, sort) => UpdateGroupSortKeepsInv(s, userId, groupId, sort, now);
    case ResortGroups(ids, sorts) => BatchUpdateGroupSortKeepsInv(s, userId, ids, sorts);
    case DeleteGroup(groupId) => DeleteGroupKeepsInv(s, userId, groupId);
  }

  /** The item requests keep the keys unique, one item per pair and every
      "all" group; all but the failed mirror step keep the mirror rule. */
  lemma ItemRequestKeepsInv(s: Store, userId: string, req: Request, now: int)
    requires Inv(s) && !IsGroupRequest(req)
    ensures var r := HandleItemRequest(s, userId, req, now);
            && Wf(r.store) && OnePerPair(r.store.items) && AllGroupsKept(s, r.store)
            && (r.result != Err(AddFailed) ==> Inv(r.store))
  {
    match req
    case AddEmoji(groupId, emojiId, sort, name) =>
      AddEmojiToGroupKeepsInv(s, userId, groupId, emojiId, sort, name, now);
    case AddUrlEmoji(groupId, url, sort, name) =>
      AddUrlEmojiToGroupKeepsInv(s, userId, groupId, url, sort, name, now);
    case RemoveEmoji(groupId, emojiId) => RemoveEmojiFromGroupKeepsInv(s, userId, groupId, emojiId);
    case RenameEmoji(groupId, emojiId, name) => UpdateEmojiItemNameKeepsInv(s, userId, groupId, emojiId, name);
    case ResortEmoji(groupId, emojiId, sort) => UpdateEmojiItemSortKeepsInv(s, userId, groupId, emojiId, sort);
    case ResortEmojis(groupId, ids, sorts) => BatchUpdateEmojiItemSortKeepsInv(s, userId, groupId, ids, sorts);
  }

  /** Every request keeps the keys unique, one item per pair and every
      user's "all" group; all but the failed mirror step keep the mirror
      rule too. */
  lemma HandleKeepsInv(s: Store, userId: string, req: Request, now: int)
    requires Inv(s)
    ensures var r := Handle(s, userId, req, now);
            && Wf(r.store) && OnePerPair(r.store.items) && AllGroupsKept(s, r.store)
            && (r.result != Err(AddFailed) ==> Inv(r.store))
  {
    if IsGroupRequest(req) {
      GroupRequestKeepsInv(s, userId, req, now);
    } else {
      ItemRequestKeepsInv(s, userId, req, now);
    }
  }

  /** One request by one user at one time. */
  datatype Call = Call(userId: string, req: Request, now: int)

  /** The store after the calls, in order. */
  function Replay(s: Store, calls: seq<Call>): Store
    decreases |calls|
  {
    if |calls| == 0 then s
    else Replay(Handle(s, calls[0].userId, calls[0].req, calls[0].now).store, calls[1..])
  }

  /** When every caller already has an "all" group, any sequence of
      requests keeps all the invariants. */
  lemma {:induction false} ReplayKeepsInv(s: Store, calls: seq<Call>)
    requires Inv(s)
    requires forall i :: 0 <= i < |calls| ==> HasAllGroup(s, calls[i].userId)
    ensures Inv(Replay(s, calls))
    decreases |calls|
  {
    if |calls| > 0 {
      var c := calls[0];
      HandleKeepsInv(s, c.userId, c.req, c.now);
      var s1 := Handle(s, c.userId, c.req, c.now).store;
      forall i | 0 <= i < |calls[1..]| ensures HasAllGroup(s1, calls[1..][i].userId) {
        assert HasAllGroup(s, calls[i + 1].userId);
      }
      ReplayKeepsInv(s1, calls[1..]);
    }
  }

  /** A user who lists their groups first can go on with any requests of
      their own without breaking the invariants. */
  lemma ListingFirstKeepsInv(s: Store, userId: string, now: int, calls: seq<Call>)
    requires Inv(s)
    requires forall i :: 0 <= i < |calls| ==> calls[i].userId == userId
    ensures Inv(Replay(s, [Call(userId, ListGroups, now)] + calls))
  {
    HandleKeepsInv(s, userId, ListGroups, now);
    var s1 := Handle(s, userId, ListGroups, now).store;
    assert ([Call(userId, ListGroups, now)] + calls)[1..] == calls;
    ReplayKeepsInv(s1, calls);
  }
}
