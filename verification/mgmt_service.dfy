/** The management service: every write the emoji feature performs. Each
    operation maps a store to a new store, or to an error with the store
    left as it was. Update times come in as `now`. */
module EmojiMgmtService {
  import opened Wrappers
  import opened Tables
  import opened EmojiModel
  import EmojiRepository
  import EmojiGroupRepository
  import EmojiGroupItemRepository

  /** The store after an operation that also answers with an id. */
  datatype Created = Created(store: Store, id: string)

  /** Creates the user's "all" group unless one exists; then the answer is
      the existing group's `emojiGroupId` column, which is never written. */
  function CreateAllGroup(s: Store, userId: string, now: int): (r: Created)
    ensures (exists g :: g in s.groups && g.userId == userId && g.kind.All?) ==> r.store == s
    ensures ((exists g :: g in s.groups && g.userId == userId && g.kind.All?)
             && (forall g :: g in s.groups ==> g.idKey.None?)) ==> r.id == ""
    ensures (forall g :: g in s.groups ==> !(g.userId == userId && g.kind.All?)) ==>
              && r.store.emojis == s.emojis && r.store.items == s.items
              && r.store.groups == s.groups + [EmojiGroup(r.id, None, userId, ALL_GROUP_NAME, 0, now, now, All)]
              && !IsBlank(r.id) && r.id == FreshId(s)
    ensures exists g :: g in r.store.groups && g.userId == userId && g.kind.All?
  {
    var existing := EmojiGroupRepository.GetAllGroup(s.groups, userId);
    if existing.Some? then
      Created(s, OptString(existing.value.idKey))
    else
      var id := FreshId(s);
      var g := EmojiGroup(id, None, userId, ALL_GROUP_NAME, 0, now, now, All);
      assert g in s.groups + [g];
      Created(s.(groups := s.groups + [g]), id)
  }

  /** Creating the "all" group twice is the same as creating it once. */
  lemma CreateAllGroupIdempotent(s: Store, userId: string, now: int, later: int)
    ensures var once := CreateAllGroup(s, userId, now).store;
            CreateAllGroup(once, userId, later).store == once
  {
    var once := CreateAllGroup(s, userId, now).store;
    var g :| g in once.groups && g.userId == userId && g.kind.All?;
    assert exists g :: g in once.groups && g.userId == userId && g.kind.All?;
  }

  /** Creates a custom group unless any group of the user, of either type,
      already has the name. */
  function CreateGroup(s: Store, userId: string, name: string, sort: int, now: int): (r: Result<Created, Error>)
    ensures r.Err? <==> exists g :: g in s.groups && g.userId == userId && g.name == name
    ensures r.Err? ==> r.error == NameTaken
    ensures r.Ok? ==>
              && r.value.store.emojis == s.emojis && r.value.store.items == s.items
              && r.value.store.groups == s.groups + [EmojiGroup(r.value.id, None, userId, name, sort, now, now, Custom)]
              && !IsBlank(r.value.id) && r.value.id == FreshId(s)
  {
    if EmojiGroupRepository.GetByUserIdAndName(s.groups, userId, name).Some? then
      Err(NameTaken)
    else
      var id := FreshId(s);
      Ok(Created(s.(groups := s.groups + [EmojiGroup(id, None, userId, name, sort, now, now, Custom)]), id))
  }

  /** Renames a custom group. Fails for a missing group, for the "all"
      group, and when a group of the same user has the new name and its
      `emojiGroupId` column differs from `groupId`. On success the group
      keeps everything but its name and update time. */
  function UpdateGroupName(s: Store, groupId: string, newName: string, now: int): (r: Result<Store, Error>)
    ensures var found := EmojiGroupRepository.GetById(s.groups, groupId);
            && (found.None? ==> r == Err(GroupNotFound))
            && (found.Some? && found.value.kind.All? ==> r == Err(CannotRenameAll))
            && (found.Some? && found.value.kind.Custom? && groupId != ""
                && (forall x :: x in s.groups ==> x.idKey.None?) ==>
                  (r.Err? <==> exists x :: x in s.groups && x.userId == found.value.userId && x.name == newName))
    ensures r.Err? ==> r.error in {GroupNotFound, CannotRenameAll, NameTaken}
    ensures r.Ok? ==>
              var g := EmojiGroupRepository.GetById(s.groups, groupId).value;
              && g.kind.Custom?
              && r.value.emojis == s.emojis && r.value.items == s.items
              && |r.value.groups| == |s.groups|
              && forall i :: 0 <= i < |s.groups| ==>
                   r.value.groups[i] == if s.groups[i].id == groupId then g.(name := newName, updateTime := now)
                                        else s.groups[i]
  {
    var found := EmojiGroupRepository.GetById(s.groups, groupId);
    if found.None? then Err(GroupNotFound)
    else
      var g := found.value;
      if g.kind.All? then Err(CannotRenameAll)
      else
        var existing := EmojiGroupRepository.GetByUserIdAndName(s.groups, g.userId, newName);
        if existing.Some? && OptString(existing.value.idKey) != groupId then Err(NameTaken)
        else Ok(s.(groups := Replace(s.groups, GroupKey, g.id, g.(name := newName, updateTime := now))))
  }

  /** Re-sorts a custom group; fails for a missing group or the "all" group.
      On success the group keeps everything but its sort and update time. */
  function UpdateGroupSort(s: Store, groupId: string, newSort: int, now: int): (r: Result<Store, Error>)
    ensures var found := EmojiGroupRepository.GetById(s.groups, groupId);
            && (found.None? ==> r == Err(GroupNotFound))
            && (found.Some? && found.value.kind.All? ==> r == Err(CannotUpdateAll))
            && (found.Some? && found.value.kind.Custom? ==> r.Ok?)
    ensures r.Ok? ==>
              var g := EmojiGroupRepository.GetById(s.groups, groupId).value;
              && r.value.emojis == s.emojis && r.value.items == s.items
              && |r.value.groups| == |s.groups|
              && forall i :: 0 <= i < |s.groups| ==>
                   r.value.groups[i] == if s.groups[i].id == groupId then g.(sort := newSort, updateTime := now)
                                        else s.groups[i]
  {
    var found := EmojiGroupRepository.GetById(s.groups, groupId);
    if found.None? then Err(GroupNotFound)
    else
      var g := found.value;
      if g.kind.All? then Err(CannotUpdateAll)
      else Ok(s.(groups := Replace(s.groups, GroupKey, g.id, g.(sort := newSort, updateTime := now))))
  }

  /** Writes each group record of the batch back under its own id, in
      order; no type check, so the "all" group can be in the batch. */
  function BatchUpdateGroupSort(s: Store, batch: seq<EmojiGroup>): (r: Store)
    ensures r.emojis == s.emojis && r.items == s.items
    ensures |r.groups| == |s.groups|
    ensures forall i :: 0 <= i < |s.groups| ==>
              r.groups[i] == match LastWithKey(batch, GroupKey, s.groups[i].id)
                             case Some(b) => b
                             case None => s.groups[i]
  {
    s.(groups := ReplaceAll(s.groups, GroupKey, batch))
  }

  /** Adds the emoji to the group unless an item already links them, in
      which case nothing changes. */
  function AddEmojiToGroup(s: Store, groupId: string, emojiId: string, sort: int, name: string, now: int): (r: Store)
    ensures r.emojis == s.emojis && r.groups == s.groups
    ensures exists it :: it in r.items && it.groupId == groupId && it.emojiId == emojiId
    ensures (exists it :: it in s.items && it.groupId == groupId && it.emojiId == emojiId) ==> r == s
    ensures (forall it :: it in s.items ==> !(it.groupId == groupId && it.emojiId == emojiId)) ==>
              r.items == s.items + [EmojiGroupItem(FreshId(s), groupId, emojiId, sort, name, now)]
  {
    if EmojiGroupItemRepository.GetByGroupIdAndEmojiId(s.items, groupId, emojiId).Some? then s
    else
      var it := EmojiGroupItem(FreshId(s), groupId, emojiId, sort, name, now);
      assert it in s.items + [it];
      s.(items := s.items + [it])
  }

  /** Returns the id of the emoji with this URL, creating the record only
      for an unseen URL; an existing record keeps its uploader. */
  function AddEmojiByUrl(s: Store, url: string, uploaderId: string, now: int): (r: Created)
    ensures r.store.groups == s.groups && r.store.items == s.items
    ensures exists e :: e in r.store.emojis && e.id == r.id && e.url == url
    ensures (exists e :: e in s.emojis && e.url == url) ==>
              r.store == s && exists e :: e in s.emojis && e.url == url && e.id == r.id
    ensures (forall e :: e in s.emojis ==> e.url != url) ==>
              && r.store.emojis == s.emojis + [Emoji(r.id, url, uploaderId, now, None)]
              && !IsBlank(r.id) && r.id == FreshId(s)
  {
    var existing := EmojiRepository.GetByUrl(s.emojis, url);
    if existing.Some? then Created(s, existing.value.id)
    else
      var id := FreshId(s);
      var e := Emoji(id, url, uploaderId, now, None);
      assert e in s.emojis + [e];
      Created(s.(emojis := s.emojis + [e]), id)
  }

  /** Two additions of the same URL answer the same id, whoever uploads;
      the second leaves the store as the first left it. */
  lemma AddEmojiByUrlDeduplicates(s: Store, url: string, u1: string, u2: string, t1: int, t2: int)
    ensures var first := AddEmojiByUrl(s, url, u1, t1);
            var second := AddEmojiByUrl(first.store, url, u2, t2);
            second.id == first.id && second.store == first.store
  {
    var first := AddEmojiByUrl(s, url, u1, t1);
    var found := EmojiRepository.GetByUrl(first.store.emojis, url);
    if forall e :: e in s.emojis ==> e.url != url {
      var i :| 0 <= i < |first.store.emojis| && first.store.emojis[i] == found.value
               && forall j :: 0 <= j < i ==> first.store.emojis[j].url != url;
      assert first.store.emojis[|s.emojis|].url == url;
      assert i == |s.emojis|;
    } else {
      var i :| 0 <= i < |s.emojis| && s.emojis[i] == found.value
               && forall j :: 0 <= j < i ==> s.emojis[j].url != url;
      assert found == EmojiRepository.GetByUrl(s.emojis, url);
    }
  }

  /** Deletes every item of `groupId` for `emojiId`. */
  function RemoveEmojiFromGroup(s: Store, groupId: string, emojiId: string): (r: Store)
    ensures r.emojis == s.emojis && r.groups == s.groups
    ensures forall it :: it in r.items <==> it in s.items && !(it.groupId == groupId && it.emojiId == emojiId)
    ensures forall it :: multiset(r.items)[it] ==
              if it.groupId == groupId && it.emojiId == emojiId then 0 else multiset(s.items)[it]
    ensures UniqueKeys(s.items, ItemKey) ==> UniqueKeys(r.items, ItemKey)
    ensures UniqueKeys(s.items, ItemPair) ==> UniqueKeys(r.items, ItemPair)
  {
    s.(items := EmojiGroupItemRepository.RemoveByGroupIdAndEmojiId(s.items, groupId, emojiId))
  }

  /** Deletes a custom group and all its items in one step; fails for a
      missing group or the "all" group. Emoji records and other groups'
      items stay. */
  function DeleteGroup(s: Store, groupId: string): (r: Result<Store, Error>)
    ensures var found := EmojiGroupRepository.GetById(s.groups, groupId);
            && (found.None? ==> r == Err(GroupNotFound))
            && (found.Some? && found.value.kind.All? ==> r == Err(CannotDeleteAll))
            && (found.Some? && found.value.kind.Custom? ==> r.Ok?)
    ensures r.Ok? ==>
              && r.value.emojis == s.emojis
              && (forall g :: g in r.value.groups <==> g in s.groups && g.id != groupId)
              && (forall it :: it in r.value.items <==> it in s.items && it.groupId != groupId)
              && (forall it :: multiset(r.value.items)[it] ==
                    if it.groupId == groupId then 0 else multiset(s.items)[it])
    ensures r.Ok? ==>
              && (UniqueKeys(s.groups, GroupKey) ==> UniqueKeys(r.value.groups, GroupKey))
              && (UniqueKeys(s.items, ItemKey) ==> UniqueKeys(r.value.items, ItemKey))
              && (UniqueKeys(s.items, ItemPair) ==> UniqueKeys(r.value.items, ItemPair))
  {
    var found := EmojiGroupRepository.GetById(s.groups, groupId);
    if found.None? then Err(GroupNotFound)
    else if found.value.kind.All? then Err(CannotDeleteAll)
    else
      var keep := (g: EmojiGroup) => g.id != groupId;
      SelectKeepsUniqueKeys(s.groups, keep, GroupKey);
      Ok(Store(s.emojis, Select(s.groups, keep), EmojiGroupItemRepository.RemoveByGroupId(s.items, groupId)))
  }

  /** Renames the emoji within one group; fails when no item links them.
      Only the found item's record is rewritten. */
  function UpdateEmojiName(s: Store, groupId: string, emojiId: string, newName: string): (r: Result<Store, Error>)
    ensures r.Err? <==> forall it :: it in s.items ==> !(it.groupId == groupId && it.emojiId == emojiId)
    ensures r.Err? ==> r.error == EmojiNotFound
    ensures r.Ok? ==>
              var it := EmojiGroupItemRepository.GetByGroupIdAndEmojiId(s.items, groupId, emojiId).value;
              && r.value.emojis == s.emojis && r.value.groups == s.groups
              && |r.value.items| == |s.items|
              && forall i :: 0 <= i < |s.items| ==>
                   r.value.items[i] == if s.items[i].id == it.id then it.(name := newName) else s.items[i]
  {
    var found := EmojiGroupItemRepository.GetByGroupIdAndEmojiId(s.items, groupId, emojiId);
    if found.None? then Err(EmojiNotFound)
    else
      var it := found.value;
      Ok(s.(items := Replace(s.items, ItemKey, it.id, it.(name := newName))))
  }

  /** Re-sorts the emoji within one group; fails when no item links them.
      Only the found item's record is rewritten. */
  function UpdateEmojiSort(s: Store, groupId: string, emojiId: string, newSort: int): (r: Result<Store, Error>)
    ensures r.Err? <==> forall it :: it in s.items ==> !(it.groupId == groupId && it.emojiId == emojiId)
    ensures r.Err? ==> r.error == EmojiNotFound
    ensures r.Ok? ==>
              var it := EmojiGroupItemRepository.GetByGroupIdAndEmojiId(s.items, groupId, emojiId).value;
              && r.value.emojis == s.emojis && r.value.groups == s.groups
              && |r.value.items| == |s.items|
              && forall i :: 0 <= i < |s.items| ==>
                   r.value.items[i] == if s.items[i].id == it.id then it.(sort := newSort) else s.items[i]
  {
    var found := EmojiGroupItemRepository.GetByGroupIdAndEmojiId(s.items, groupId, emojiId);
    if found.None? then Err(EmojiNotFound)
    else
      var it := found.value;
      Ok(s.(items := Replace(s.items, ItemKey, it.id, it.(sort := newSort))))
  }

  /** Writes each item record of the batch back under its own id, in order. */
  function BatchUpdateEmojiSort(s: Store, batch: seq<EmojiGroupItem>): (r: Store)
    ensures r.emojis == s.emojis && r.groups == s.groups
    ensures |r.items| == |s.items|
    ensures forall i :: 0 <= i < |s.items| ==>
              r.items[i] == match LastWithKey(batch, ItemKey, s.items[i].id)
                            case Some(b) => b
                            case None => s.items[i]
  {
    s.(items := ReplaceAll(s.items, ItemKey, batch))
  }
}
