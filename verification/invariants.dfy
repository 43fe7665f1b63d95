/** What the handlers keep true of the store. Besides well-formedness, two
    rules of the feature: one item per (group, emoji) pair, and every emoji
    in a custom group is also in its owner's "all" group. The second rule
    holds after every request except an addition that fails after its
    first write because the caller has no "all" group. */
module EmojiInvariants {
  import opened Wrappers
  import opened Tables
  import opened EmojiModel
  import Q = EmojiQueryService
  import M = EmojiMgmtService
  import P = EmojiProcessor
  import EmojiGroupRepository

  /** At most one item links a group and an emoji. */
  ghost predicate OnePerPair(items: seq<EmojiGroupItem>) {
    UniqueKeys(items, ItemPair)
  }

  /** The user's "all" group holds the emoji. */
  ghost predicate InAllGroup(s: Store, userId: string, emojiId: string) {
    exists a, it :: a in s.groups && it in s.items && a.userId == userId && a.kind.All?
                    && it.groupId == a.id && it.emojiId == emojiId
  }

  /** Every emoji of a custom group is also in its owner's "all" group. */
  ghost predicate Mirrored(s: Store) {
    forall g, it :: g in s.groups && it in s.items && g.kind.Custom? && it.groupId == g.id
                    ==> InAllGroup(s, g.userId, it.emojiId)
  }

  ghost predicate Inv(s: Store) {
    Wf(s) && OnePerPair(s.items) && Mirrored(s)
  }

  /** The user has an "all" group. */
  ghost predicate HasAllGroup(s: Store, userId: string) {
    exists a :: a in s.groups && a.userId == userId && a.kind.All?
  }

  /** Every user with an "all" group in `s` still has one in `t`. */
  ghost predicate AllGroupsKept(s: Store, t: Store) {
    forall u :: HasAllGroup(s, u) ==> HasAllGroup(t, u)
  }

  /** A request that writes no group keeps every "all" group. */
  lemma GroupsUnchanged(s: Store, t: Store)
    requires t.groups == s.groups
    ensures AllGroupsKept(s, t)
  {
    forall u | HasAllGroup(s, u) ensures HasAllGroup(t, u) {
      var a :| a in s.groups && a.userId == u && a.kind.All?;
      assert a in t.groups;
    }
  }

  /** A request that only appends groups keeps every "all" group. */
  lemma GroupsAppended(s: Store, t: Store, g: EmojiGroup)
    requires t.groups == s.groups + [g]
    ensures AllGroupsKept(s, t)
  {
    forall u | HasAllGroup(s, u) ensures HasAllGroup(t, u) {
      var a :| a in s.groups && a.userId == u && a.kind.All?;
      assert a in t.groups;
    }
  }

  /** Two group records agree on everything the invariants look at. */
  predicate SameGroupShape(a: EmojiGroup, b: EmojiGroup) {
    a.id == b.id && a.idKey == b.idKey && a.userId == b.userId && a.kind == b.kind
  }

  /** Two item records agree on everything the invariants look at. */
  predicate SameItemShape(a: EmojiGroupItem, b: EmojiGroupItem) {
    a.id == b.id && a.groupId == b.groupId && a.emojiId == b.emojiId
  }

  /** Rewriting names, sorts and times in place keeps the invariants. */
  lemma ReshapeKeepsInv(s: Store, t: Store)
    requires Inv(s)
    requires t.emojis == s.emojis
    requires |t.groups| == |s.groups| && forall i :: 0 <= i < |s.groups| ==> SameGroupShape(s.groups[i], t.groups[i])
    requires |t.items| == |s.items| && forall i :: 0 <= i < |s.items| ==> SameItemShape(s.items[i], t.items[i])
    ensures Inv(t) && AllGroupsKept(s, t)
  {
    SameKeysKeepUniqueKeys(s.items, t.items, ItemKey);
    SameKeysKeepUniqueKeys(s.items, t.items, ItemPair);
    ReshapeGroupsKeepsWf(s.groups, t.groups);
    ReshapeKeepsMirrored(s, t);
    forall u | HasAllGroup(s, u) ensures HasAllGroup(t, u) {
      var a :| a in s.groups && a.userId == u && a.kind.All?;
      var p :| 0 <= p < |s.groups| && s.groups[p] == a;
      assert t.groups[p] in t.groups;
    }
  }

  /** The group part of well-formedness only looks at the shape. */
  lemma ReshapeGroupsKeepsWf(gs: seq<EmojiGroup>, ts: seq<EmojiGroup>)
    requires UniqueKeys(gs, GroupKey) && SingleAllGroup(gs) && forall g :: g in gs ==> g.idKey.None?
    requires |ts| == |gs| && forall i :: 0 <= i < |gs| ==> SameGroupShape(gs[i], ts[i])
    ensures UniqueKeys(ts, GroupKey) && SingleAllGroup(ts) && forall g :: g in ts ==> g.idKey.None?
  {
    SameKeysKeepUniqueKeys(gs, ts, GroupKey);
    forall g | g in ts ensures g.idKey.None? {
      var i :| 0 <= i < |ts| && ts[i] == g;
      assert gs[i] in gs;
    }
    forall a, b | a in ts && b in ts && a.kind.All? && b.kind.All? && a.userId == b.userId
      ensures a.id == b.id
    {
      var i :| 0 <= i < |ts| && ts[i] == a;
      var j :| 0 <= j < |ts| && ts[j] == b;
      assert gs[i] in gs && gs[j] in gs;
    }
  }

  /** Membership in an "all" group only looks at the shape. */
  lemma ReshapeKeepsInAllGroup(s: Store, t: Store, userId: string, emojiId: string)
    requires InAllGroup(s, userId, emojiId)
    requires |t.groups| == |s.groups| && forall i :: 0 <= i < |s.groups| ==> SameGroupShape(s.groups[i], t.groups[i])
    requires |t.items| == |s.items| && forall i :: 0 <= i < |s.items| ==> SameItemShape(s.items[i], t.items[i])
    ensures InAllGroup(t, userId, emojiId)
  {
    var a, it :| a in s.groups && it in s.items && a.userId == userId && a.kind.All?
                 && it.groupId == a.id && it.emojiId == emojiId;
    var p :| 0 <= p < |s.groups| && s.groups[p] == a;
    var q :| 0 <= q < |s.items| && s.items[q] == it;
    assert t.groups[p] in t.groups && t.items[q] in t.items;
  }

  /** The mirror rule only looks at the shape. */
  lemma ReshapeKeepsMirrored(s: Store, t: Store)
    requires Mirrored(s)
    requires |t.groups| == |s.groups| && forall i :: 0 <= i < |s.groups| ==> SameGroupShape(s.groups[i], t.groups[i])
    requires |t.items| == |s.items| && forall i :: 0 <= i < |s.items| ==> SameItemShape(s.items[i], t.items[i])
    ensures Mirrored(t)
  {
    forall g, it | g in t.groups && it in t.items && g.kind.Custom? && it.groupId == g.id
      ensures InAllGroup(t, g.userId, it.emojiId)
    {
      var i :| 0 <= i < |t.groups| && t.groups[i] == g;
      var j :| 0 <= j < |t.items| && t.items[j] == it;
      assert s.groups[i] in s.groups && s.items[j] in s.items;
      ReshapeKeepsInAllGroup(s, t, g.userId, it.emojiId);
    }
  }

  /** A new group nothing refers to keeps the invariants, provided an "all"
      group is only added for a user who has none. */
  lemma AppendGroupKeepsInv(s: Store, g: EmojiGroup)
    requires Inv(s)
    requires forall x :: x in s.groups ==> x.id != g.id
    requires forall it :: it in s.items ==> it.groupId != g.id
    requires g.idKey.None?
    requires g.kind.All? ==> forall x :: x in s.groups ==> !(x.userId == g.userId && x.kind.All?)
    ensures Inv(s.(groups := s.groups + [g]))
  {
    var t := s.(groups := s.groups + [g]);
    AppendKeepsUniqueKeys(s.groups, GroupKey, g);
    forall h, it | h in t.groups && it in t.items && h.kind.Custom? && it.groupId == h.id
      ensures InAllGroup(t, h.userId, it.emojiId)
    {
      assert h in s.groups;
      var a, it2 :| a in s.groups && it2 in s.items && a.userId == h.userId && a.kind.All?
                    && it2.groupId == a.id && it2.emojiId == it.emojiId;
      assert a in t.groups;
    }
  }

  /** A new emoji record with a fresh id keeps the invariants. */
  lemma AppendEmojiKeepsInv(s: Store, e: Emoji)
    requires Inv(s)
    requires forall x :: x in s.emojis ==> x.id != e.id
    ensures Inv(s.(emojis := s.emojis + [e]))
  {
    AppendKeepsUniqueKeys(s.emojis, EmojiKey, e);
    var t := s.(emojis := s.emojis + [e]);
    forall g, it | g in t.groups && it in t.items && g.kind.Custom? && it.groupId == g.id
      ensures InAllGroup(t, g.userId, it.emojiId)
    {
      assert InAllGroup(s, g.userId, it.emojiId);
    }
  }

  /** Adding items keeps the mirror rule when every new item of a custom
      group is backed by an item in the owner's "all" group. */
  lemma GrowthKeepsMirrored(s: Store, t: Store)
    requires Mirrored(s)
    requires t.groups == s.groups
    requires forall it :: it in s.items ==> it in t.items
    requires forall g, it :: (g in s.groups && it in t.items && it !in s.items
                              && g.kind.Custom? && it.groupId == g.id) ==> InAllGroup(t, g.userId, it.emojiId)
    ensures Mirrored(t)
  {
    forall g, it | g in t.groups && it in t.items && g.kind.Custom? && it.groupId == g.id
      ensures InAllGroup(t, g.userId, it.emojiId)
    {
      if it in s.items {
        var a, it2 :| a in s.groups && it2 in s.items && a.userId == g.userId && a.kind.All?
                      && it2.groupId == a.id && it2.emojiId == it.emojiId;
        assert it2 in t.items;
      }
    }
  }

  /** The service's silent addition keeps the keys unique and adds at most
      the one item for the pair. */
  lemma ServiceAddFacts(s: Store, groupId: string, emojiId: string, sort: int, name: string, now: int)
    requires Wf(s) && OnePerPair(s.items)
    ensures var t := M.AddEmojiToGroup(s, groupId, emojiId, sort, name, now);
            && Wf(t) && OnePerPair(t.items)
            && forall it :: it in t.items ==> it in s.items || (it.groupId == groupId && it.emojiId == emojiId)
  {
    if forall it :: it in s.items ==> !(it.groupId == groupId && it.emojiId == emojiId) {
      var x := EmojiGroupItem(FreshId(s), groupId, emojiId, sort, name, now);
      AppendKeepsUniqueKeys(s.items, ItemKey, x);
      AppendKeepsUniqueKeys(s.items, ItemPair, x);
    }
  }

  /** The mirror write: after the caller's custom group got the emoji,
      adding it to the caller's "all" group restores the mirror rule. */
  lemma MirrorWriteKeepsInv(s: Store, s1: Store, group: EmojiGroup, a: EmojiGroup, emojiId: string, sort: int, name: string, now: int)
    requires Inv(s) && Wf(s1) && OnePerPair(s1.items)
    requires s1.groups == s.groups
    requires forall it :: it in s.items ==> it in s1.items
    requires forall it :: it in s1.items ==> it in s.items || (it.groupId == group.id && it.emojiId == emojiId)
    requires group in s.groups && a in s.groups && a.userId == group.userId && a.kind.All?
    ensures Inv(M.AddEmojiToGroup(s1, a.id, emojiId, sort, name, now))
  {
    var t := M.AddEmojiToGroup(s1, a.id, emojiId, sort, name, now);
    ServiceAddFacts(s1, a.id, emojiId, sort, name, now);
    var m :| m in t.items && m.groupId == a.id && m.emojiId == emojiId;
    forall g, it | g in s.groups && it in t.items && it !in s.items && g.kind.Custom? && it.groupId == g.id
      ensures InAllGroup(t, g.userId, it.emojiId)
    {
      if it.groupId == a.id {
        DistinctRecordsDistinctKeys(s.groups, GroupKey, g, a);
      } else {
        DistinctRecordsDistinctKeys(s.groups, GroupKey, g, group);
      }
    }
    GrowthKeepsMirrored(s, t);
  }

  /** The shared tail of both addition handlers: the silent addition to the
      caller's group, then the mirror step. Success keeps every invariant. */
  lemma AddAndMirrorKeepsInv(s: Store, userId: string, group: EmojiGroup, emojiId: string, sort: int, name: string, now: int)
    requires Inv(s)
    requires group in s.groups && group.userId == userId
    ensures var r := P.AddAndMirror(s, userId, group, emojiId, sort, name, now);
            Wf(r.store) && OnePerPair(r.store.items) && (r.result.Ok? ==> Inv(r.store))
  {
    var s1 := M.AddEmojiToGroup(s, group.id, emojiId, sort, name, now);
    ServiceAddFacts(s, group.id, emojiId, sort, name, now);
    if group.kind.All? {
      forall g | g in s.groups && g.id == group.id ensures g == group {
        DistinctRecordsDistinctKeys(s.groups, GroupKey, g, group);
      }
      GrowthKeepsMirrored(s, s1);
    } else if Q.GetAllGroup(s1, userId).Some? {
      MirrorWriteKeepsInv(s, s1, group, Q.GetAllGroup(s1, userId).value, emojiId, sort, name, now);
    }
  }

  /** Removing a custom group's item keeps the invariants. */
  lemma RemoveCustomKeepsInv(s: Store, groupId: string, emojiId: string)
    requires Inv(s)
    requires forall g :: g in s.groups && g.id == groupId ==> g.kind.Custom?
    ensures Inv(M.RemoveEmojiFromGroup(s, groupId, emojiId))
  {
    var t := M.RemoveEmojiFromGroup(s, groupId, emojiId);
    forall g, it | g in t.groups && it in t.items && g.kind.Custom? && it.groupId == g.id
      ensures InAllGroup(t, g.userId, it.emojiId)
    {
      var a, it2 :| a in s.groups && it2 in s.items && a.userId == g.userId && a.kind.All?
                    && it2.groupId == a.id && it2.emojiId == it.emojiId;
      assert it2 in t.items;
    }
  }

  /** Removing an emoji from every group of one user keeps the invariants:
      other users' custom items keep their "all" items. */
  lemma RemoveFromAllKeepsInv(s: Store, userId: string, emojiId: string)
    requires Inv(s)
    ensures Inv(P.RemoveFromGroups(s, Q.GetUserGroups(s, userId), emojiId))
  {
    var mine := Q.GetUserGroups(s, userId);
    var t := P.RemoveFromGroups(s, mine, emojiId);
    forall g, it | g in t.groups && it in t.items && g.kind.Custom? && it.groupId == g.id
      ensures InAllGroup(t, g.userId, it.emojiId)
    {
      var a, it2 :| a in s.groups && it2 in s.items && a.userId == g.userId && a.kind.All?
                    && it2.groupId == a.id && it2.emojiId == it.emojiId;
      if it.emojiId == emojiId {
        assert g.userId != userId by { assert !(g in mine); }
        forall h | h in s.groups && h.id == a.id ensures h == a {
          DistinctRecordsDistinctKeys(s.groups, GroupKey, h, a);
        }
      }
      assert it2 in t.items;
    }
  }

  /** Deleting a custom group with its items keeps the invariants. */
  lemma DeleteKeepsInv(s: Store, groupId: string)
    requires Inv(s)
    requires M.DeleteGroup(s, groupId).Ok?
    ensures Inv(M.DeleteGroup(s, groupId).value) && AllGroupsKept(s, M.DeleteGroup(s, groupId).value)
  {
    var t := M.DeleteGroup(s, groupId).value;
    var doomed := EmojiGroupRepository.GetById(s.groups, groupId).value;
    forall h | h in s.groups && h.id == groupId ensures h == doomed {
      DistinctRecordsDistinctKeys(s.groups, GroupKey, h, doomed);
    }
    forall g, it | g in t.groups && it in t.items && g.kind.Custom? && it.groupId == g.id
      ensures InAllGroup(t, g.userId, it.emojiId)
    {
      var a, it2 :| a in s.groups && it2 in s.items && a.userId == g.userId && a.kind.All?
                    && it2.groupId == a.id && it2.emojiId == it.emojiId;
      assert a in t.groups && it2 in t.items;
    }
    forall u | HasAllGroup(s, u) ensures HasAllGroup(t, u) {
      var a :| a in s.groups && a.userId == u && a.kind.All?;
      assert a in t.groups;
    }
  }

  /** Under unique group ids the gate's group is the stored group with its id. */
  lemma OwnedIsStored(s: Store, userId: string, groupId: string)
    requires UniqueKeys(s.groups, GroupKey)
    requires P.OwnedGroup(s, userId, groupId).Some?
    ensures forall g :: g in s.groups && g.id == groupId ==> g == P.OwnedGroup(s, userId, groupId).value
  {
    var o := P.OwnedGroup(s, userId, groupId).value;
    forall g | g in s.groups && g.id == groupId ensures g == o {
      DistinctRecordsDistinctKeys(s.groups, GroupKey, g, o);
    }
  }

  /** Listing groups, with the "all" group bootstrap, keeps the invariants. */
  lemma GetUserGroupsKeepsInv(s: Store, userId: string, now: int)
    requires Inv(s)
    ensures Inv(P.GetUserGroups(s, userId, now).store)
    ensures AllGroupsKept(s, P.GetUserGroups(s, userId, now).store)
  {
    var t := P.GetUserGroups(s, userId, now).store;
    if Q.GetAllGroup(s, userId).None? {
      var a := EmojiGroup(FreshId(s), None, userId, ALL_GROUP_NAME, 0, now, now, All);
      AppendGroupKeepsInv(s, a);
      GroupsAppended(s, t, a);
    } else {
      GroupsUnchanged(s, t);
    }
  }

  lemma CreateGroupKeepsInv(s: Store, userId: string, name: string, sort: int, now: int)
    requires Inv(s)
    ensures Inv(P.CreateGroup(s, userId, name, sort, now).store)
    ensures AllGroupsKept(s, P.CreateGroup(s, userId, name, sort, now).store)
  {
    var r := P.CreateGroup(s, userId, name, sort, now);
    if r.result.Ok? {
      var g := EmojiGroup(FreshId(s), None, userId, name, sort, now, now, Custom);
      AppendGroupKeepsInv(s, g);
      GroupsAppended(s, r.store, g);
    } else {
      GroupsUnchanged(s, r.store);
    }
  }

  lemma UpdateGroupNameKeepsInv(s: Store, userId: string, groupId: string, newName: string, now: int)
    requires Inv(s)
    ensures Inv(P.UpdateGroupName(s, userId, groupId, newName, now).store)
    ensures AllGroupsKept(s, P.UpdateGroupName(s, userId, groupId, newName, now).store)
  {
    var r := P.UpdateGroupName(s, userId, groupId, newName, now);
    if r.result.Ok? {
      OwnedIsStored(s, userId, groupId);
      forall i | 0 <= i < |s.groups| ensures SameGroupShape(s.groups[i], r.store.groups[i]) {
        assert s.groups[i] in s.groups;
      }
      ReshapeKeepsInv(s, r.store);
    }
  }

  lemma UpdateGroupSortKeepsInv(s: Store, userId: string, groupId: string, sort: int, now: int)
    requires Inv(s)
    ensures Inv(P.UpdateGroupSort(s, userId, groupId, sort, now).store)
    ensures AllGroupsKept(s, P.UpdateGroupSort(s, userId, groupId, sort, now).store)
  {
    var r := P.UpdateGroupSort(s, userId, groupId, sort, now);
    if r.result.Ok? {
      OwnedIsStored(s, userId, groupId);
      forall i | 0 <= i < |s.groups| ensures SameGroupShape(s.groups[i], r.store.groups[i]) {
        assert s.groups[i] in s.groups;
      }
      ReshapeKeepsInv(s, r.store);
    }
  }

  /** Under unique group ids a batch re-sort changes sort fields and
      nothing else. */
  lemma BatchGroupSortOnlySorts(s: Store, userId: string, ids: Option<seq<string>>, sorts: Option<seq<int>>)
    requires UniqueKeys(s.groups, GroupKey)
    ensures var r := P.BatchUpdateGroupSort(s, userId, ids, sorts);
            r.result.Ok? ==> forall i :: 0 <= i < |s.groups| ==>
                               r.store.groups[i] == s.groups[i].(sort := r.store.groups[i].sort)
  {
    var r := P.BatchUpdateGroupSort(s, userId, ids, sorts);
    if r.result.Ok? {
      var batch := P.GroupSortBatch(s, userId, ids.value, sorts.value).value;
      assert r.store == M.BatchUpdateGroupSort(s, batch);
      forall i | 0 <= i < |s.groups| ensures r.store.groups[i] == s.groups[i].(sort := r.store.groups[i].sort) {
        var found := LastWithKey(batch, GroupKey, s.groups[i].id);
        if found.Some? {
          var k :| 0 <= k < |batch| && batch[k] == found.value;
          var o := P.OwnedGroup(s, userId, ids.value[k]).value;
          assert s.groups[i] in s.groups;
          DistinctRecordsDistinctKeys(s.groups, GroupKey, o, s.groups[i]);
        }
      }
    }
  }

  lemma BatchUpdateGroupSortKeepsInv(s: Store, userId: string, ids: Option<seq<string>>, sorts: Option<seq<int>>)
    requires Inv(s)
    ensures Inv(P.BatchUpdateGroupSort(s, userId, ids, sorts).store)
    ensures AllGroupsKept(s, P.BatchUpdateGroupSort(s, userId, ids, sorts).store)
  {
    var r := P.BatchUpdateGroupSort(s, userId, ids, sorts);
    if r.result.Ok? {
      BatchGroupSortOnlySorts(s, userId, ids, sorts);
      ReshapeKeepsInv(s, r.store);
    }
  }

  lemma DeleteGroupKeepsInv(s: Store, userId: string, groupId: string)
    requires Inv(s)
    ensures Inv(P.DeleteGroup(s, userId, groupId).store)
    ensures AllGroupsKept(s, P.DeleteGroup(s, userId, groupId).store)
  {
    if P.DeleteGroup(s, userId, groupId).result.Ok? {
      DeleteKeepsInv(s, groupId);
    }
  }

  /** Every addition keeps the keys unique and one item per pair; only the
      partial write of a failed mirror step can break the mirror rule. */
  lemma AddEmojiToGroupKeepsInv(s: Store, userId: string, groupId: string, emojiId: string, sort: int, name: string, now: int)
    requires Inv(s)
    ensures var r := P.AddEmojiToGroup(s, userId, groupId, emojiId, sort, name, now);
            && Wf(r.store) && OnePerPair(r.store.items)
            && (r.result != Err(AddFailed) ==> Inv(r.store))
    ensures AllGroupsKept(s, P.AddEmojiToGroup(s, userId, groupId, emojiId, sort, name, now).store)
  {
    GroupsUnchanged(s, P.AddEmojiToGroup(s, userId, groupId, emojiId, sort, name, now).store);
    var group := P.OwnedGroup(s, userId, groupId);
    if !IsBlank(groupId) && !IsBlank(emojiId) && group.Some? && Q.GetEmojiById(s, emojiId).Some?
       && !Q.IsEmojiInGroup(s, groupId, emojiId) {
      AddAndMirrorKeepsInv(s, userId, group.value, emojiId, sort, name, now);
    }
  }

  lemma AddUrlEmojiToGroupKeepsInv(s: Store, userId: string, groupId: string, url: string, sort: int, name: string, now: int)
    requires Inv(s)
    ensures var r := P.AddUrlEmojiToGroup(s, userId, groupId, url, sort, name, now);
            && Wf(r.store) && OnePerPair(r.store.items)
            && (r.result != Err(AddFailed) ==> Inv(r.store))
    ensures AllGroupsKept(s, P.AddUrlEmojiToGroup(s, userId, groupId, url, sort, name, now).store)
  {
    GroupsUnchanged(s, P.AddUrlEmojiToGroup(s, userId, groupId, url, sort, name, now).store);
    var group := P.OwnedGroup(s, userId, groupId);
    if group.Some? {
      var c := M.AddEmojiByUrl(s, url, userId, now);
      if forall e :: e in s.emojis ==> e.url != url {
        AppendEmojiKeepsInv(s, Emoji(c.id, url, userId, now, None));
      }
      if !Q.IsEmojiInGroup(c.store, groupId, c.id) {
        AddAndMirrorKeepsInv(c.store, userId, group.value, c.id, sort, name, now);
      }
    }
  }

  lemma RemoveEmojiFromGroupKeepsInv(s: Store, userId: string, groupId: string, emojiId: string)
    requires Inv(s)
    ensures Inv(P.RemoveEmojiFromGroup(s, userId, groupId, emojiId).store)
    ensures AllGroupsKept(s, P.RemoveEmojiFromGroup(s, userId, groupId, emojiId).store)
  {
    GroupsUnchanged(s, P.RemoveEmojiFromGroup(s, userId, groupId, emojiId).store);
    var group := P.OwnedGroup(s, userId, groupId);
    if !IsBlank(groupId) && !IsBlank(emojiId) && group.Some? {
      if group.value.kind.All? {
        RemoveFromAllKeepsInv(s, userId, emojiId);
      } else {
        OwnedIsStored(s, userId, groupId);
        RemoveCustomKeepsInv(s, groupId, emojiId);
      }
    }
  }

  /** Under unique item ids a rename rewrites the one item's record. */
  lemma ItemEditShape(s: Store, t: Store, target: EmojiGroupItem, edited: EmojiGroupItem)
    requires Inv(s)
    requires target in s.items && SameItemShape(target, edited)
    requires t.emojis == s.emojis && t.groups == s.groups
    requires |t.items| == |s.items|
    requires forall i :: 0 <= i < |s.items| ==> t.items[i] == if s.items[i].id == target.id then edited else s.items[i]
    ensures Inv(t)
  {
    forall i | 0 <= i < |s.items| ensures SameItemShape(s.items[i], t.items[i]) {
      if s.items[i].id == target.id {
        assert s.items[i] in s.items;
        DistinctRecordsDistinctKeys(s.items, ItemKey, s.items[i], target);
      }
    }
    ReshapeKeepsInv(s, t);
  }

  lemma UpdateEmojiItemNameKeepsInv(s: Store, userId: string, groupId: string, emojiId: string, name: string)
    requires Inv(s)
    ensures Inv(P.UpdateEmojiItemName(s, userId, groupId, emojiId, name).store)
    ensures AllGroupsKept(s, P.UpdateEmojiItemName(s, userId, groupId, emojiId, name).store)
  {
    GroupsUnchanged(s, P.UpdateEmojiItemName(s, userId, groupId, emojiId, name).store);
    var r := P.UpdateEmojiItemName(s, userId, groupId, emojiId, name);
    if r.result.Ok? {
      var it := Q.GetEmojiItemById(s, groupId, emojiId).value;
      ItemEditShape(s, r.store, it, it.(name := name));
    }
  }

  lemma UpdateEmojiItemSortKeepsInv(s: Store, userId: string, groupId: string, emojiId: string, sort: int)
    requires Inv(s)
    ensures Inv(P.UpdateEmojiItemSort(s, userId, groupId, emojiId, sort).store)
    ensures AllGroupsKept(s, P.UpdateEmojiItemSort(s, userId, groupId, emojiId, sort).store)
  {
    GroupsUnchanged(s, P.UpdateEmojiItemSort(s, userId, groupId, emojiId, sort).store);
    var r := P.UpdateEmojiItemSort(s, userId, groupId, emojiId, sort);
    if r.result.Ok? {
      var it := Q.GetEmojiItemById(s, groupId, emojiId).value;
      ItemEditShape(s, r.store, it, it.(sort := sort));
    }
  }

  /** Under unique item ids a batch item re-sort changes sort fields and
      nothing else. */
  lemma BatchItemSortOnlySorts(s: Store, userId: string, groupId: string, ids: Option<seq<string>>, sorts: Option<seq<int>>)
    requires UniqueKeys(s.items, ItemKey)
    ensures var r := P.BatchUpdateEmojiItemSort(s, userId, groupId, ids, sorts);
            && r.store.emojis == s.emojis && r.store.groups == s.groups && |r.store.items| == |s.items|
            && forall i :: 0 <= i < |s.items| ==> r.store.items[i] == s.items[i].(sort := r.store.items[i].sort)
  {
    var r := P.BatchUpdateEmojiItemSort(s, userId, groupId, ids, sorts);
    if r.result.Ok? {
      var batch := P.ItemSortBatch(s, groupId, ids.value, sorts.value).value;
      assert r.store == M.BatchUpdateEmojiSort(s, batch);
      forall i | 0 <= i < |s.items| ensures r.store.items[i] == s.items[i].(sort := r.store.items[i].sort) {
        var found := LastWithKey(batch, ItemKey, s.items[i].id);
        if found.Some? {
          var k :| 0 <= k < |batch| && batch[k] == found.value;
          var o := Q.GetEmojiItemById(s, groupId, ids.value[k]).value;
          assert s.items[i] in s.items;
          DistinctRecordsDistinctKeys(s.items, ItemKey, o, s.items[i]);
        }
      }
    }
  }

  lemma BatchUpdateEmojiItemSortKeepsInv(s: Store, userId: string, groupId: string, ids: Option<seq<string>>, sorts: Option<seq<int>>)
    requires Inv(s)
    ensures Inv(P.BatchUpdateEmojiItemSort(s, userId, groupId, ids, sorts).store)
    ensures AllGroupsKept(s, P.BatchUpdateEmojiItemSort(s, userId, groupId, ids, sorts).store)
  {
    var r := P.BatchUpdateEmojiItemSort(s, userId, groupId, ids, sorts);
    BatchItemSortOnlySorts(s, userId, groupId, ids, sorts);
    ItemSortsKeepInv(s, r.store);
  }

  /** Changing only item sorts keeps the invariants. */
  lemma ItemSortsKeepInv(s: Store, t: Store)
    requires Inv(s)
    requires t.emojis == s.emojis && t.groups == s.groups && |t.items| == |s.items|
    requires forall i :: 0 <= i < |s.items| ==> t.items[i] == s.items[i].(sort := t.items[i].sort)
    ensures Inv(t) && AllGroupsKept(s, t)
  {
    forall i | 0 <= i < |s.items| ensures SameItemShape(s.items[i], t.items[i]) {
      assert t.items[i] == s.items[i].(sort := t.items[i].sort);
    }
    ReshapeKeepsInv(s, t);
  }

}
