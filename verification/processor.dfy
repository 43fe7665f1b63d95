/** The decision logic of the emoji request handlers, without transport:
    the caller's id and the request fields arrive as parameters (a missing
    string field as "", a missing array as None), and each handler answers
    with the store it leaves behind and a result or an error kind. */
module EmojiProcessor {
  import opened Wrappers
  import opened Tables
  import opened EmojiModel
  import Q = EmojiQueryService
  import M = EmojiMgmtService
  import EmojiGroupRepository
  import EmojiGroupItemRepository

  /** The store a handler leaves behind, and its answer. */
  datatype Reply<T> = Reply(store: Store, result: Result<T, Error>)

  /** The ownership gate: the group with that id if the caller owns it. An
      absent group and another user's group both give None. */
  function OwnedGroup(s: Store, userId: string, groupId: string): (r: Option<EmojiGroup>)
    ensures r.Some? ==> r.value in s.groups && r.value.id == groupId && r.value.userId == userId
    ensures (forall g :: g in s.groups ==> g.id != groupId) ==> r.None?
  {
    var g := Q.GetGroupById(s, groupId);
    if g.None? || g.value.userId != userId then None else g
  }

  /** With unique group ids the gate admits exactly the caller's own groups. */
  lemma OwnedGroupExactly(s: Store, userId: string, groupId: string)
    requires UniqueKeys(s.groups, GroupKey)
    ensures OwnedGroup(s, userId, groupId).Some? <==>
              exists g :: g in s.groups && g.id == groupId && g.userId == userId
  {
    if g :| g in s.groups && g.id == groupId && g.userId == userId {
      EmojiGroupRepository.GetByIdUnique(s.groups, g);
    }
  }

  /** Lists the caller's groups, first creating the "all" group if the
      caller has none. */
  function GetUserGroups(s: Store, userId: string, now: int): (r: Reply<seq<EmojiGroup>>)
    ensures r.result.Ok?
    ensures forall g :: g in r.result.value <==> g in r.store.groups && g.userId == userId
    ensures forall g :: multiset(r.result.value)[g] == if g.userId == userId then multiset(r.store.groups)[g] else 0
    ensures SortedBy(r.result.value, GroupSort)
    ensures exists g :: g in r.result.value && g.kind.All?
    ensures r.store.emojis == s.emojis && r.store.items == s.items
    ensures (exists g :: g in s.groups && g.userId == userId && g.kind.All?) ==> r.store == s
    ensures (forall g :: g in s.groups ==> !(g.userId == userId && g.kind.All?)) ==>
              exists g :: r.store.groups == s.groups + [g] && g.kind.All? && g.userId == userId
                          && g.name == ALL_GROUP_NAME && g.sort == 0
  {
    var s1 := if Q.GetAllGroup(s, userId).None? then M.CreateAllGroup(s, userId, now).store else s;
    var groups := Q.GetUserGroups(s1, userId);
    Reply(s1, Ok(groups))
  }

  /** Lists a group's emojis for its owner. */
  function GetGroupEmojis(s: Store, userId: string, groupId: string): (r: Result<seq<Q.GroupEmoji>, Error>)
    ensures IsBlank(groupId) ==> r == Err(GroupIdRequired)
    ensures !IsBlank(groupId) && OwnedGroup(s, userId, groupId).None? ==> r == Err(GroupNotFound)
    ensures r.Ok? ==> exists g :: g in s.groups && g.id == groupId && g.userId == userId
    ensures r.Ok? ==> forall i :: 0 <= i < |r.value| ==>
              exists it :: it in s.items && it.groupId == groupId && it.emojiId == r.value[i].emoji.id
    ensures !IsBlank(groupId) && OwnedGroup(s, userId, groupId).Some? ==> r == Q.GetGroupEmojis(s, groupId)
  {
    if IsBlank(groupId) then Err(GroupIdRequired)
    else if OwnedGroup(s, userId, groupId).None? then Err(GroupNotFound)
    else Q.GetGroupEmojis(s, groupId)
  }

  /** Creates a custom group for the caller. */
  function CreateGroup(s: Store, userId: string, name: string, sort: int, now: int): (r: Reply<string>)
    ensures r.result.Err? ==> r.store == s
    ensures IsBlank(name) ==> r.result == Err(GroupNameRequired)
    ensures !IsBlank(name) ==>
              (r.result.Err? <==> exists g :: g in s.groups && g.userId == userId && g.name == name)
    ensures r.result.Ok? ==>
              && r.store.emojis == s.emojis && r.store.items == s.items
              && r.store.groups == s.groups + [EmojiGroup(r.result.value, None, userId, name, sort, now, now, Custom)]
  {
    if IsBlank(name) then Reply(s, Err(GroupNameRequired))
    else
      match M.CreateGroup(s, userId, name, sort, now)
      case Ok(c) => Reply(c.store, Ok(c.id))
      case Err(e) => Reply(s, Err(e))
  }

  /** Renames one of the caller's custom groups. */
  function UpdateGroupName(s: Store, userId: string, groupId: string, newName: string, now: int): (r: Reply<()>)
    ensures r.result.Err? ==> r.store == s
    ensures IsBlank(groupId) || IsBlank(newName) ==> r.result == Err(MissingParameters)
    ensures !IsBlank(groupId) && !IsBlank(newName) && OwnedGroup(s, userId, groupId).None? ==>
              r.result == Err(GroupNotFound)
    ensures (!IsBlank(groupId) && !IsBlank(newName) && OwnedGroup(s, userId, groupId).Some?
             && OwnedGroup(s, userId, groupId).value.kind.All?) ==> r.result == Err(CannotRenameAll)
    ensures (!IsBlank(groupId) && !IsBlank(newName) && OwnedGroup(s, userId, groupId).Some?
             && OwnedGroup(s, userId, groupId).value.kind.Custom? && (forall x :: x in s.groups ==> x.idKey.None?)) ==>
              (r.result.Err? <==> exists x :: x in s.groups && x.userId == userId && x.name == newName)
    ensures r.result.Err? ==> r.result.error in {MissingParameters, GroupNotFound, CannotRenameAll, NameTaken}
    ensures r.result.Ok? ==>
              var g := OwnedGroup(s, userId, groupId).value;
              && g.kind.Custom?
              && r.store.emojis == s.emojis && r.store.items == s.items
              && |r.store.groups| == |s.groups|
              && forall i :: 0 <= i < |s.groups| ==>
                   r.store.groups[i] == if s.groups[i].id == groupId then g.(name := newName, updateTime := now)
                                        else s.groups[i]
  {
    if IsBlank(groupId) || IsBlank(newName) then Reply(s, Err(MissingParameters))
    else if OwnedGroup(s, userId, groupId).None? then Reply(s, Err(GroupNotFound))
    else
      match M.UpdateGroupName(s, groupId, newName, now)
      case Ok(s1) => Reply(s1, Ok(()))
      case Err(e) => Reply(s, Err(e))
  }

  /** Re-sorts one of the caller's custom groups. */
  function UpdateGroupSort(s: Store, userId: string, groupId: string, sort: int, now: int): (r: Reply<()>)
    ensures r.result.Err? ==> r.store == s
    ensures IsBlank(groupId) ==> r.result == Err(GroupIdRequired)
    ensures !IsBlank(groupId) && OwnedGroup(s, userId, groupId).None? ==> r.result == Err(GroupNotFound)
    ensures !IsBlank(groupId) && OwnedGroup(s, userId, groupId).Some? ==>
              (r.result.Err? <==> OwnedGroup(s, userId, groupId).value.kind.All?)
    ensures r.result.Err? ==> r.result.error in {GroupIdRequired, GroupNotFound, CannotUpdateAll}
    ensures r.result.Ok? ==>
              var g := OwnedGroup(s, userId, groupId).value;
              && r.store.emojis == s.emojis && r.store.items == s.items
              && |r.store.groups| == |s.groups|
              && forall i :: 0 <= i < |s.groups| ==>
                   r.store.groups[i] == if s.groups[i].id == groupId then g.(sort := sort, updateTime := now)
                                        else s.groups[i]
  {
    if IsBlank(groupId) then Reply(s, Err(GroupIdRequired))
    else if OwnedGroup(s, userId, groupId).None? then Reply(s, Err(GroupNotFound))
    else
      match M.UpdateGroupSort(s, groupId, sort, now)
      case Ok(s1) => Reply(s1, Ok(()))
      case Err(e) => Reply(s, Err(e))
  }

  /** Deletes one of the caller's custom groups with all its items. */
  function DeleteGroup(s: Store, userId: string, groupId: string): (r: Reply<()>)
    ensures r.result.Err? ==> r.store == s
    ensures IsBlank(groupId) ==> r.result == Err(GroupIdRequired)
    ensures !IsBlank(groupId) && OwnedGroup(s, userId, groupId).None? ==> r.result == Err(GroupNotFound)
    ensures !IsBlank(groupId) && OwnedGroup(s, userId, groupId).Some? ==>
              (r.result.Err? <==> OwnedGroup(s, userId, groupId).value.kind.All?)
    ensures r.result.Err? ==> r.result.error in {GroupIdRequired, GroupNotFound, CannotDeleteAll}
    ensures r.result.Ok? ==>
              && r.store.emojis == s.emojis
              && (forall g :: g in r.store.groups <==> g in s.groups && g.id != groupId)
              && (forall it :: it in r.store.items <==> it in s.items && it.groupId != groupId)
  {
    if IsBlank(groupId) then Reply(s, Err(GroupIdRequired))
    else if OwnedGroup(s, userId, groupId).None? then Reply(s, Err(GroupNotFound))
    else
      match M.DeleteGroup(s, groupId)
      case Ok(s1) => Reply(s1, Ok(()))
      case Err(e) => Reply(s, Err(e))
  }

  /** The records a batch group re-sort writes: each listed group, as
      stored, with its new sort; None when any of them is not the caller's. */
  function GroupSortBatch(s: Store, userId: string, ids: seq<string>, sorts: seq<int>): (r: Option<seq<EmojiGroup>>)
    requires |ids| == |sorts|
    ensures r.Some? <==> forall i :: 0 <= i < |ids| ==> OwnedGroup(s, userId, ids[i]).Some?
    ensures r.Some? ==> |r.value| == |ids| && forall i :: 0 <= i < |ids| ==>
              r.value[i] == OwnedGroup(s, userId, ids[i]).value.(sort := sorts[i])
  {
    if forall i :: 0 <= i < |ids| ==> OwnedGroup(s, userId, ids[i]).Some? then
      Some(seq(|ids|, i requires 0 <= i < |ids| && OwnedGroup(s, userId, ids[i]).Some? =>
                        OwnedGroup(s, userId, ids[i]).value.(sort := sorts[i])))
    else None
  }

  /** Re-sorts several of the caller's groups; every listed group is checked
      before anything is written. */
  function BatchUpdateGroupSort(s: Store, userId: string, ids: Option<seq<string>>, sorts: Option<seq<int>>): (r: Reply<()>)
    ensures r.result.Err? ==> r.store == s
    ensures ids.None? || sorts.None? ==> r.result == Err(IdsAndSortsRequired)
    ensures ids.Some? && sorts.Some? && |ids.value| != |sorts.value| ==> r.result == Err(LengthMismatch)
    ensures ids.Some? && sorts.Some? && |ids.value| == |sorts.value| ==>
              (r.result == Err(GroupNotFound) <==>
                 exists i :: 0 <= i < |ids.value| && OwnedGroup(s, userId, ids.value[i]).None?)
    ensures ids.Some? && sorts.Some? && |ids.value| == |sorts.value| ==>
              (r.result.Ok? <==> forall i :: 0 <= i < |ids.value| ==> OwnedGroup(s, userId, ids.value[i]).Some?)
    ensures r.result.Ok? ==>
              && r.store.emojis == s.emojis && r.store.items == s.items
              && |r.store.groups| == |s.groups|
              && forall i :: 0 <= i < |s.groups| && s.groups[i].id !in ids.value ==>
                   r.store.groups[i] == s.groups[i]
  {
    if ids.None? || sorts.None? then Reply(s, Err(IdsAndSortsRequired))
    else if |ids.value| != |sorts.value| then Reply(s, Err(LengthMismatch))
    else
      match GroupSortBatch(s, userId, ids.value, sorts.value)
      case None => Reply(s, Err(GroupNotFound))
      case Some(batch) =>
        var s1 := M.BatchUpdateGroupSort(s, batch);
        assert forall i :: 0 <= i < |s.groups| && s.groups[i].id !in ids.value ==>
                 LastWithKey(batch, GroupKey, s.groups[i].id).None?;
        Reply(s1, Ok(()))
  }

  /** An accepted batch re-sort gives each listed group the sort requested
      at the last position its id is listed at, and keeps the rest of the
      record. */
  lemma BatchGroupSortWritesSorts(s: Store, userId: string, ids: seq<string>, sorts: seq<int>, j: nat, k: nat)
    requires |ids| == |sorts| && UniqueKeys(s.groups, GroupKey)
    requires BatchUpdateGroupSort(s, userId, Some(ids), Some(sorts)).result.Ok?
    requires j < |s.groups| && k < |ids| && ids[k] == s.groups[j].id
    requires forall m :: k < m < |ids| ==> ids[m] != ids[k]
    ensures BatchUpdateGroupSort(s, userId, Some(ids), Some(sorts)).store.groups[j] == s.groups[j].(sort := sorts[k])
  {
    var batch := GroupSortBatch(s, userId, ids, sorts).value;
    forall m | k < m < |batch| ensures GroupKey(batch[m]) != GroupKey(batch[k]) {
      assert GroupKey(batch[m]) == ids[m];
    }
    LastWithKeyIsLast(batch, GroupKey, k);
    EmojiGroupRepository.GetByIdUnique(s.groups, s.groups[j]);
    assert batch[k] == s.groups[j].(sort := sorts[k]);
    assert BatchUpdateGroupSort(s, userId, Some(ids), Some(sorts)).store == M.BatchUpdateGroupSort(s, batch);
  }

  /** The mirror step after an addition: an addition to a custom group is
      repeated, through the silent service path, in the caller's "all"
      group. Without an "all" group the step fails after the first write. */
  function Mirror(s: Store, userId: string, group: EmojiGroup, emojiId: string, sort: int, name: string, now: int): (r: Reply<()>)
    ensures group.kind.All? ==> r == Reply(s, Ok(()))
    ensures group.kind.Custom? && (forall g :: g in s.groups ==> !(g.userId == userId && g.kind.All?)) ==>
              r == Reply(s, Err(AddFailed))
    ensures r.result.Err? ==> r.result.error == AddFailed && r.store == s
    ensures r.store.emojis == s.emojis && r.store.groups == s.groups
    ensures forall it :: it in s.items ==> it in r.store.items
    ensures group.kind.Custom? && r.result.Ok? ==>
              exists a, it :: a in s.groups && a.userId == userId && a.kind.All?
                              && it in r.store.items && it.groupId == a.id && it.emojiId == emojiId
  {
    if group.kind.All? then Reply(s, Ok(()))
    else
      match Q.GetAllGroup(s, userId)
      case None => Reply(s, Err(AddFailed))
      case Some(a) => Reply(M.AddEmojiToGroup(s, a.id, emojiId, sort, name, now), Ok(()))
  }

  /** The write both addition handlers share once their checks pass: the
      silent addition to the caller's group, then the mirror step. */
  function AddAndMirror(s: Store, userId: string, group: EmojiGroup, emojiId: string, sort: int, name: string, now: int): (r: Reply<()>)
    ensures r.result.Ok? || r.result == Err(AddFailed)
    ensures r.result == Err(AddFailed) ==>
              group.kind.Custom? && forall g :: g in s.groups ==> !(g.userId == userId && g.kind.All?)
    ensures r.store.emojis == s.emojis && r.store.groups == s.groups
    ensures forall it :: it in s.items ==> it in r.store.items
    ensures exists it :: it in r.store.items && it.groupId == group.id && it.emojiId == emojiId
    ensures r.result.Ok? && group.kind.Custom? ==>
              exists a, it :: a in s.groups && a.userId == userId && a.kind.All?
                              && it in r.store.items && it.groupId == a.id && it.emojiId == emojiId
    ensures group.kind.All? && (forall it :: it in s.items ==> !(it.groupId == group.id && it.emojiId == emojiId)) ==>
              r == Reply(s.(items := s.items + [EmojiGroupItem(FreshId(s), group.id, emojiId, sort, name, now)]), Ok(()))
    ensures group.kind.Custom? ==>
              (r.result == Err(AddFailed) <==> forall g :: g in s.groups ==> !(g.userId == userId && g.kind.All?))
  {
    var s1 := M.AddEmojiToGroup(s, group.id, emojiId, sort, name, now);
    var it :| it in s1.items && it.groupId == group.id && it.emojiId == emojiId;
    var r := Mirror(s1, userId, group, emojiId, sort, name, now);
    assert it in r.store.items;
    r
  }

  /** An addition to a custom group appends the item with the requested
      sort and name; then, when the caller has an "all" group that does not
      hold the emoji yet, a second item with the same sort and name links
      the emoji there. Nothing else is written. */
  lemma CustomAddWrites(s: Store, userId: string, group: EmojiGroup, emojiId: string, sort: int, name: string, now: int)
    requires group.kind.Custom?
    requires forall it :: it in s.items ==> !(it.groupId == group.id && it.emojiId == emojiId)
    ensures var r := AddAndMirror(s, userId, group, emojiId, sort, name, now);
            var s1 := s.(items := s.items + [EmojiGroupItem(FreshId(s), group.id, emojiId, sort, name, now)]);
            match Q.GetAllGroup(s, userId)
            case None => r == Reply(s1, Err(AddFailed))
            case Some(a) =>
              && r.result.Ok?
              && if a.id == group.id || exists it :: it in s.items && it.groupId == a.id && it.emojiId == emojiId
                 then r.store == s1
                 else r.store == s1.(items := s1.items + [EmojiGroupItem(FreshId(s1), a.id, emojiId, sort, name, now)])
  {
    var s1 := s.(items := s.items + [EmojiGroupItem(FreshId(s), group.id, emojiId, sort, name, now)]);
    assert M.AddEmojiToGroup(s, group.id, emojiId, sort, name, now) == s1;
    var r := AddAndMirror(s, userId, group, emojiId, sort, name, now);
    assert r == Mirror(s1, userId, group, emojiId, sort, name, now);
    var all := Q.GetAllGroup(s, userId);
    assert Q.GetAllGroup(s1, userId) == all;
    if all.Some? {
      var a := all.value;
      assert r == Reply(M.AddEmojiToGroup(s1, a.id, emojiId, sort, name, now), Ok(()));
      MirrorTarget(s, s1, a.id, group.id, emojiId);
    }
  }

  /** The mirror target already holds the emoji after the first write
      exactly when it is the group just written or held it before. */
  lemma MirrorTarget(s: Store, s1: Store, allId: string, groupId: string, emojiId: string)
    requires |s1.items| == |s.items| + 1 && s1.items[..|s.items|] == s.items
    requires s1.items[|s.items|].groupId == groupId && s1.items[|s.items|].emojiId == emojiId
    ensures (exists it :: it in s1.items && it.groupId == allId && it.emojiId == emojiId) <==>
              allId == groupId || exists it :: it in s.items && it.groupId == allId && it.emojiId == emojiId
  {
    var last := s1.items[|s.items|];
    assert s1.items == s.items + [last];
    if it :| it in s1.items && it.groupId == allId && it.emojiId == emojiId {
      assert it in s.items || it == last;
    }
    if allId == groupId {
      assert last in s1.items;
    }
    if it :| it in s.items && it.groupId == allId && it.emojiId == emojiId {
      assert it in s1.items;
    }
  }

  /** Adds an existing emoji to one of the caller's groups, mirroring it
      into the caller's "all" group when the target is a custom group. */
  function AddEmojiToGroup(s: Store, userId: string, groupId: string, emojiId: string, sort: int, name: string, now: int): (r: Reply<()>)
    ensures r.result.Err? && r.result.error != AddFailed ==> r.store == s
    ensures IsBlank(groupId) || IsBlank(emojiId) ==> r.result == Err(MissingParameters)
    ensures !IsBlank(groupId) && !IsBlank(emojiId) && OwnedGroup(s, userId, groupId).None? ==>
              r.result == Err(GroupNotFound)
    ensures (!IsBlank(groupId) && !IsBlank(emojiId) && OwnedGroup(s, userId, groupId).Some?
             && (forall e :: e in s.emojis ==> e.id != emojiId)) ==> r.result == Err(EmojiNotFound)
    ensures (!IsBlank(groupId) && !IsBlank(emojiId) && OwnedGroup(s, userId, groupId).Some?
             && (exists e :: e in s.emojis && e.id == emojiId)
             && (exists it :: it in s.items && it.groupId == groupId && it.emojiId == emojiId)) ==>
              r.result == Err(AlreadyInGroup)
    ensures r.store.emojis == s.emojis && r.store.groups == s.groups
    ensures forall it :: it in s.items ==> it in r.store.items
    ensures r.result.Ok? || r.result == Err(AddFailed) ==>
              exists it :: it in r.store.items && it.groupId == groupId && it.emojiId == emojiId
    ensures r.result.Ok? && OwnedGroup(s, userId, groupId).value.kind.Custom? ==>
              exists a, it :: a in s.groups && a.userId == userId && a.kind.All?
                              && it in r.store.items && it.groupId == a.id && it.emojiId == emojiId
    ensures r.result.Ok? && OwnedGroup(s, userId, groupId).value.kind.All? ==>
              r.store.items == s.items + [EmojiGroupItem(FreshId(s), groupId, emojiId, sort, name, now)]
    ensures r.result == Err(AddFailed) ==> forall g :: g in s.groups ==> !(g.userId == userId && g.kind.All?)
    ensures (!IsBlank(groupId) && !IsBlank(emojiId) && OwnedGroup(s, userId, groupId).Some?
             && (exists e :: e in s.emojis && e.id == emojiId)
             && (forall it :: it in s.items ==> !(it.groupId == groupId && it.emojiId == emojiId))) ==>
              && r == AddAndMirror(s, userId, OwnedGroup(s, userId, groupId).value, emojiId, sort, name, now)
              && (r.result.Ok? <==> OwnedGroup(s, userId, groupId).value.kind.All?
                                    || exists g :: g in s.groups && g.userId == userId && g.kind.All?)
  {
    if IsBlank(groupId) || IsBlank(emojiId) then Reply(s, Err(MissingParameters))
    else
      var group := OwnedGroup(s, userId, groupId);
      if group.None? then Reply(s, Err(GroupNotFound))
      else if Q.GetEmojiById(s, emojiId).None? then Reply(s, Err(EmojiNotFound))
      else if Q.IsEmojiInGroup(s, groupId, emojiId) then Reply(s, Err(AlreadyInGroup))
      else
        AddAndMirror(s, userId, group.value, emojiId, sort, name, now)
  }

  /** Adds the emoji with this URL to one of the caller's groups, creating
      the emoji record first if the URL is new (with the caller as
      uploader), then mirroring as `AddEmojiToGroup` does. */
  function AddUrlEmojiToGroup(s: Store, userId: string, groupId: string, url: string, sort: int, name: string, now: int): (r: Reply<()>)
    ensures OwnedGroup(s, userId, groupId).None? ==> r == Reply(s, Err(GroupNotFound))
    ensures r.result.Err? && r.result.error != GroupNotFound && r.result.error != AddFailed ==>
              r.result.error == AlreadyInGroup && r.store == M.AddEmojiByUrl(s, url, userId, now).store
    ensures r.store.groups == s.groups
    ensures forall e :: e in s.emojis ==> e in r.store.emojis
    ensures forall it :: it in s.items ==> it in r.store.items
    ensures r.result.Ok? || r.result == Err(AddFailed) ==>
              exists e, it :: e in r.store.emojis && e.url == url
                              && it in r.store.items && it.groupId == groupId && it.emojiId == e.id
    ensures r.result.Ok? && OwnedGroup(s, userId, groupId).value.kind.Custom? ==>
              exists e, a, it :: e in r.store.emojis && e.url == url
                                 && a in s.groups && a.userId == userId && a.kind.All?
                                 && it in r.store.items && it.groupId == a.id && it.emojiId == e.id
    ensures r.result == Err(AddFailed) ==> forall g :: g in s.groups ==> !(g.userId == userId && g.kind.All?)
    ensures OwnedGroup(s, userId, groupId).Some? ==>
              var known := Q.GetEmojiByUrl(s, url);
              var dup := known.Some? && Q.IsEmojiInGroup(s, groupId, known.value.id);
              var c := M.AddEmojiByUrl(s, url, userId, now);
              && (r.result == Err(AlreadyInGroup) <==> dup)
              && (!dup ==> r == AddAndMirror(c.store, userId, OwnedGroup(s, userId, groupId).value, c.id, sort, name, now))
              && (r.result.Ok? <==> !dup && (OwnedGroup(s, userId, groupId).value.kind.All?
                                              || exists g :: g in s.groups && g.userId == userId && g.kind.All?))
  {
    var group := OwnedGroup(s, userId, groupId);
    if group.None? then Reply(s, Err(GroupNotFound))
    else
      var c := M.AddEmojiByUrl(s, url, userId, now);
      if Q.IsEmojiInGroup(c.store, groupId, c.id) then Reply(c.store, Err(AlreadyInGroup))
      else
        var e :| e in c.store.emojis && e.id == c.id && e.url == url;
        var r := AddAndMirror(c.store, userId, group.value, c.id, sort, name, now);
        assert e in r.store.emojis;
        r
  }

  /** A freshly created emoji is in no group, so a duplicate rejection of
      an addition by URL only happens for a known URL, and then nothing
      was written. */
  lemma AddUrlDuplicateWritesNothing(s: Store, userId: string, groupId: string, url: string, sort: int, name: string, now: int)
    ensures AddUrlEmojiToGroup(s, userId, groupId, url, sort, name, now).result == Err(AlreadyInGroup) ==>
              (exists e :: e in s.emojis && e.url == url)
              && AddUrlEmojiToGroup(s, userId, groupId, url, sort, name, now).store == s
  {
    var c := M.AddEmojiByUrl(s, url, userId, now);
    if forall e :: e in s.emojis ==> e.url != url {
      assert c.id == FreshId(s);
      assert !Q.IsEmojiInGroup(c.store, groupId, c.id);
    }
  }

  /** Removes the emoji from every group in `groups`, one group at a time. */
  function RemoveFromGroups(s: Store, groups: seq<EmojiGroup>, emojiId: string): (r: Store)
    ensures r.emojis == s.emojis && r.groups == s.groups
    ensures forall it :: it in r.items <==>
              it in s.items && !(it.emojiId == emojiId && exists g :: g in groups && g.id == it.groupId)
    ensures UniqueKeys(s.items, ItemKey) ==> UniqueKeys(r.items, ItemKey)
    ensures UniqueKeys(s.items, ItemPair) ==> UniqueKeys(r.items, ItemPair)
    decreases |groups|
  {
    if |groups| == 0 then s
    else
      var s1 := M.RemoveEmojiFromGroup(s, groups[0].id, emojiId);
      var r := RemoveFromGroups(s1, groups[1..], emojiId);
      assert forall g :: g in groups <==> g == groups[0] || g in groups[1..];
      r
  }

  /** Removes an emoji from one of the caller's groups. From the "all"
      group the emoji leaves every group of the caller; from a custom group
      only that group's item goes. */
  function RemoveEmojiFromGroup(s: Store, userId: string, groupId: string, emojiId: string): (r: Reply<()>)
    ensures r.result.Err? ==> r.store == s
    ensures IsBlank(groupId) || IsBlank(emojiId) ==> r.result == Err(MissingParameters)
    ensures !IsBlank(groupId) && !IsBlank(emojiId) ==>
              (r.result.Err? <==> OwnedGroup(s, userId, groupId).None?)
    ensures r.result.Err? ==> r.result.error in {MissingParameters, GroupNotFound}
    ensures r.store.emojis == s.emojis && r.store.groups == s.groups
    ensures r.result.Ok? && OwnedGroup(s, userId, groupId).value.kind.All? ==>
              forall it :: it in r.store.items <==>
                it in s.items && !(it.emojiId == emojiId
                                   && exists g :: g in s.groups && g.userId == userId && g.id == it.groupId)
    ensures r.result.Ok? && OwnedGroup(s, userId, groupId).value.kind.Custom? ==>
              forall it :: it in r.store.items <==>
                it in s.items && !(it.groupId == groupId && it.emojiId == emojiId)
  {
    if IsBlank(groupId) || IsBlank(emojiId) then Reply(s, Err(MissingParameters))
    else
      var group := OwnedGroup(s, userId, groupId);
      if group.None? then Reply(s, Err(GroupNotFound))
      else if group.value.kind.All? then
        Reply(RemoveFromGroups(s, Q.GetUserGroups(s, userId), emojiId), Ok(()))
      else
        Reply(M.RemoveEmojiFromGroup(s, groupId, emojiId), Ok(()))
  }

  /** Renames an emoji within one of the caller's groups. */
  function UpdateEmojiItemName(s: Store, userId: string, groupId: string, emojiId: string, name: string): (r: Reply<()>)
    ensures r.result.Err? ==> r.store == s
    ensures IsBlank(emojiId) || IsBlank(name) ==> r.result == Err(MissingParameters)
    ensures !IsBlank(emojiId) && !IsBlank(name) && OwnedGroup(s, userId, groupId).None? ==>
              r.result == Err(GroupNotFound)
    ensures !IsBlank(emojiId) && !IsBlank(name) && OwnedGroup(s, userId, groupId).Some? ==>
              (r.result.Err? <==> forall it :: it in s.items ==> !(it.groupId == groupId && it.emojiId == emojiId))
    ensures !IsBlank(emojiId) && !IsBlank(name) && OwnedGroup(s, userId, groupId).Some?
            && (forall it :: it in s.items ==> !(it.groupId == groupId && it.emojiId == emojiId)) ==>
              r.result == Err(EmojiNotFound)
    ensures r.result.Err? ==> r.result.error in {MissingParameters, GroupNotFound, EmojiNotFound}
    ensures r.result.Ok? ==>
              var it := Q.GetEmojiItemById(s, groupId, emojiId).value;
              && r.store.emojis == s.emojis && r.store.groups == s.groups
              && |r.store.items| == |s.items|
              && forall i :: 0 <= i < |s.items| ==>
                   r.store.items[i] == if s.items[i].id == it.id then it.(name := name) else s.items[i]
  {
    if IsBlank(emojiId) || IsBlank(name) then Reply(s, Err(MissingParameters))
    else if OwnedGroup(s, userId, groupId).None? then Reply(s, Err(GroupNotFound))
    else if !Q.IsEmojiInGroup(s, groupId, emojiId) then Reply(s, Err(EmojiNotFound))
    else
      match M.UpdateEmojiName(s, groupId, emojiId, name)
      case Ok(s1) => Reply(s1, Ok(()))
      case Err(e) => Reply(s, Err(e))
  }

  /** Re-sorts an emoji within one of the caller's groups. */
  function UpdateEmojiItemSort(s: Store, userId: string, groupId: string, emojiId: string, sort: int): (r: Reply<()>)
    ensures r.result.Err? ==> r.store == s
    ensures IsBlank(emojiId) ==> r.result == Err(MissingParameters)
    ensures !IsBlank(emojiId) && OwnedGroup(s, userId, groupId).None? ==> r.result == Err(GroupNotFound)
    ensures !IsBlank(emojiId) && OwnedGroup(s, userId, groupId).Some? ==>
              (r.result.Err? <==> forall it :: it in s.items ==> !(it.groupId == groupId && it.emojiId == emojiId))
    ensures !IsBlank(emojiId) && OwnedGroup(s, userId, groupId).Some?
            && (forall it :: it in s.items ==> !(it.groupId == groupId && it.emojiId == emojiId)) ==>
              r.result == Err(EmojiNotFound)
    ensures r.result.Err? ==> r.result.error in {MissingParameters, GroupNotFound, EmojiNotFound}
    ensures r.result.Ok? ==>
              var it := Q.GetEmojiItemById(s, groupId, emojiId).value;
              && r.store.emojis == s.emojis && r.store.groups == s.groups
              && |r.store.items| == |s.items|
              && forall i :: 0 <= i < |s.items| ==>
                   r.store.items[i] == if s.items[i].id == it.id then it.(sort := sort) else s.items[i]
  {
    if IsBlank(emojiId) then Reply(s, Err(MissingParameters))
    else if OwnedGroup(s, userId, groupId).None? then Reply(s, Err(GroupNotFound))
    else if !Q.IsEmojiInGroup(s, groupId, emojiId) then Reply(s, Err(EmojiNotFound))
    else
      match M.UpdateEmojiSort(s, groupId, emojiId, sort)
      case Ok(s1) => Reply(s1, Ok(()))
      case Err(e) => Reply(s, Err(e))
  }

  /** The records a batch item re-sort writes: the group's item for each
      listed emoji, with its new sort; None when one is missing, which the
      handler finds before writing anything. */
  function ItemSortBatch(s: Store, groupId: string, ids: seq<string>, sorts: seq<int>): (r: Option<seq<EmojiGroupItem>>)
    requires |ids| == |sorts|
    ensures r.Some? <==> forall i :: 0 <= i < |ids| ==> Q.IsEmojiInGroup(s, groupId, ids[i])
    ensures r.Some? ==> |r.value| == |ids| && forall i :: 0 <= i < |ids| ==>
              r.value[i] == Q.GetEmojiItemById(s, groupId, ids[i]).value.(sort := sorts[i])
  {
    if forall i :: 0 <= i < |ids| ==> Q.IsEmojiInGroup(s, groupId, ids[i]) then
      Some(seq(|ids|, i requires 0 <= i < |ids| && Q.IsEmojiInGroup(s, groupId, ids[i]) =>
                        Q.GetEmojiItemById(s, groupId, ids[i]).value.(sort := sorts[i])))
    else None
  }

  /** Only the found items' ids are keys of the batch records. */
  lemma ItemSortBatchKeys(s: Store, groupId: string, ids: seq<string>, sorts: seq<int>)
    requires |ids| == |sorts|
    requires ItemSortBatch(s, groupId, ids, sorts).Some?
    ensures forall it :: (it in s.items
              && forall k :: 0 <= k < |ids| ==> Q.GetEmojiItemById(s, groupId, ids[k]).value.id != it.id) ==>
              LastWithKey(ItemSortBatch(s, groupId, ids, sorts).value, ItemKey, it.id).None?
  {
    var batch := ItemSortBatch(s, groupId, ids, sorts).value;
    assert forall k :: 0 <= k < |batch| ==> batch[k].id == Q.GetEmojiItemById(s, groupId, ids[k]).value.id;
  }

  /** Writing the batch leaves every item the request did not name as it was. */
  lemma ItemSortBatchTargets(s: Store, groupId: string, ids: seq<string>, sorts: seq<int>)
    requires |ids| == |sorts|
    requires ItemSortBatch(s, groupId, ids, sorts).Some?
    ensures var t := M.BatchUpdateEmojiSort(s, ItemSortBatch(s, groupId, ids, sorts).value);
            forall i :: (0 <= i < |s.items|
              && forall k :: 0 <= k < |ids| ==> Q.GetEmojiItemById(s, groupId, ids[k]).value.id != s.items[i].id) ==>
              t.items[i] == s.items[i]
  {
    ItemSortBatchKeys(s, groupId, ids, sorts);
    forall i | 0 <= i < |s.items| ensures s.items[i] in s.items {
    }
  }

  /** Re-sorts several emojis within one of the caller's groups; every
      listed emoji is checked before anything is written. */
  function BatchUpdateEmojiItemSort(s: Store, userId: string, groupId: string, ids: Option<seq<string>>, sorts: Option<seq<int>>): (r: Reply<()>)
    ensures r.result.Err? ==> r.store == s
    ensures IsBlank(groupId) || ids.None? || sorts.None? ==> r.result == Err(MissingParameters)
    ensures ids.Some? && sorts.Some? && (|ids.value| == 0 || |sorts.value| == 0 || |ids.value| != |sorts.value|) ==>
              r.result == Err(MissingParameters)
    ensures !IsBlank(groupId) && ids.Some? && sorts.Some? && |ids.value| > 0 && |ids.value| == |sorts.value| ==>
              && (OwnedGroup(s, userId, groupId).None? ==> r.result == Err(GroupNotFound))
              && (OwnedGroup(s, userId, groupId).Some? ==>
                    (r.result == Err(EmojiNotFound) <==>
                       exists i :: 0 <= i < |ids.value| && !Q.IsEmojiInGroup(s, groupId, ids.value[i])))
              && (OwnedGroup(s, userId, groupId).Some? ==>
                    (r.result.Ok? <==> forall i :: 0 <= i < |ids.value| ==> Q.IsEmojiInGroup(s, groupId, ids.value[i])))
    ensures r.result.Ok? ==>
              && OwnedGroup(s, userId, groupId).Some?
              && (forall i :: 0 <= i < |ids.value| ==>
                    exists it :: it in s.items && it.groupId == groupId && it.emojiId == ids.value[i])
    ensures r.result.Ok? ==>
              && r.store.emojis == s.emojis && r.store.groups == s.groups
              && |r.store.items| == |s.items|
              && forall i :: (0 <= i < |s.items|
                              && forall k :: 0 <= k < |ids.value| ==>
                                   Q.GetEmojiItemById(s, groupId, ids.value[k]).value.id != s.items[i].id) ==>
                   r.store.items[i] == s.items[i]
  {
    if IsBlank(groupId) || ids.None? || sorts.None? || |sorts.value| == 0 || |ids.value| == 0
       || |ids.value| != |sorts.value| then
      Reply(s, Err(MissingParameters))
    else if OwnedGroup(s, userId, groupId).None? then Reply(s, Err(GroupNotFound))
    else
      match ItemSortBatch(s, groupId, ids.value, sorts.value)
      case None => Reply(s, Err(EmojiNotFound))
      case Some(batch) =>
        ItemSortBatchTargets(s, groupId, ids.value, sorts.value);
        Reply(M.BatchUpdateEmojiSort(s, batch), Ok(()))
  }

  /** An accepted batch item re-sort gives each listed emoji's item the
      sort requested at the last position the emoji is listed at, and keeps
      the rest of the record. */
  lemma BatchItemSortWritesSorts(s: Store, userId: string, groupId: string, ids: seq<string>, sorts: seq<int>, j: nat, k: nat)
    requires |ids| == |sorts| && UniqueKeys(s.items, ItemKey) && UniqueKeys(s.items, ItemPair)
    requires BatchUpdateEmojiItemSort(s, userId, groupId, Some(ids), Some(sorts)).result.Ok?
    requires j < |s.items| && s.items[j].groupId == groupId
    requires k < |ids| && ids[k] == s.items[j].emojiId
    requires forall m :: k < m < |ids| ==> ids[m] != ids[k]
    ensures BatchUpdateEmojiItemSort(s, userId, groupId, Some(ids), Some(sorts)).store.items[j]
            == s.items[j].(sort := sorts[k])
  {
    var batch := ItemSortBatch(s, groupId, ids, sorts).value;
    var target := s.items[j];
    var mine := Q.GetEmojiItemById(s, groupId, ids[k]).value;
    DistinctRecordsDistinctKeys(s.items, ItemPair, mine, target);
    forall m | k < m < |batch| ensures ItemKey(batch[m]) != ItemKey(batch[k]) {
      var other := Q.GetEmojiItemById(s, groupId, ids[m]).value;
      if other.id == target.id {
        DistinctRecordsDistinctKeys(s.items, ItemKey, other, target);
      }
    }
    LastWithKeyIsLast(batch, ItemKey, k);
  }
}
