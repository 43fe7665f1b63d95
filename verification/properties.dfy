/** Behaviour of the handlers that follows from the code as written: the
    ownership gate, the fixed "all" group, the reserved own name, the
    unguarded batch, the mirror rule and the asymmetric removal. */
module EmojiProperties {
  import opened Wrappers
  import opened Tables
  import opened EmojiModel
  import Q = EmojiQueryService
  import M = EmojiMgmtService
  import P = EmojiProcessor
  import EmojiGroupRepository
  import opened EmojiInvariants

  /** Under unique group ids the gate admits the caller to their own group. */
  lemma OwnGroupPassesGate(s: Store, g: EmojiGroup)
    requires UniqueKeys(s.groups, GroupKey)
    requires g in s.groups
    ensures P.OwnedGroup(s, g.userId, g.id) == Some(g)
  {
    EmojiGroupRepository.GetByIdUnique(s.groups, g);
  }

  /** Another user's group answers exactly like a missing group. */
  lemma ForeignGroupLooksMissing(s: Store, userId: string, g: EmojiGroup, name: string, sort: int, emojiId: string, now: int)
    requires UniqueKeys(s.groups, GroupKey)
    requires g in s.groups && g.userId != userId
    requires !IsBlank(g.id) && !IsBlank(name) && !IsBlank(emojiId)
    ensures P.UpdateGroupName(s, userId, g.id, name, now) == P.Reply(s, Err(GroupNotFound))
    ensures P.UpdateGroupSort(s, userId, g.id, sort, now) == P.Reply(s, Err(GroupNotFound))
    ensures P.DeleteGroup(s, userId, g.id) == P.Reply(s, Err(GroupNotFound))
    ensures P.AddEmojiToGroup(s, userId, g.id, emojiId, sort, name, now) == P.Reply(s, Err(GroupNotFound))
    ensures P.RemoveEmojiFromGroup(s, userId, g.id, emojiId) == P.Reply(s, Err(GroupNotFound))
  {
    OwnGroupPassesGate(s, g);
  }

  /** The "all" group cannot be renamed, re-sorted or deleted on its own,
      and the attempt changes nothing. */
  lemma AllGroupIsFixed(s: Store, a: EmojiGroup, name: string, sort: int, now: int)
    requires UniqueKeys(s.groups, GroupKey)
    requires a in s.groups && a.kind.All?
    requires !IsBlank(a.id) && !IsBlank(name)
    ensures P.UpdateGroupName(s, a.userId, a.id, name, now) == P.Reply(s, Err(CannotRenameAll))
    ensures P.UpdateGroupSort(s, a.userId, a.id, sort, now) == P.Reply(s, Err(CannotUpdateAll))
    ensures P.DeleteGroup(s, a.userId, a.id) == P.Reply(s, Err(CannotDeleteAll))
  {
    OwnGroupPassesGate(s, a);
  }

  /** With the `emojiGroupId` column never written, renaming a custom group
      to its current name fails as a name clash. */
  lemma RenameToOwnNameFails(s: Store, g: EmojiGroup, now: int)
    requires Wf(s)
    requires g in s.groups && g.kind.Custom?
    requires !IsBlank(g.id) && !IsBlank(g.name)
    ensures P.UpdateGroupName(s, g.userId, g.id, g.name, now) == P.Reply(s, Err(NameTaken))
  {
    OwnGroupPassesGate(s, g);
  }

  /** The batch re-sort has no type check: it re-sorts the "all" group. */
  lemma BatchResortsAllGroup(s: Store, a: EmojiGroup, sort: int)
    requires UniqueKeys(s.groups, GroupKey)
    requires a in s.groups && a.kind.All?
    ensures var r := P.BatchUpdateGroupSort(s, a.userId, Some([a.id]), Some([sort]));
            && r.result.Ok?
            && forall i :: 0 <= i < |s.groups| && s.groups[i] == a ==> r.store.groups[i] == a.(sort := sort)
  {
    OwnGroupPassesGate(s, a);
    assert P.OwnedGroup(s, a.userId, [a.id][0]).Some?;
    forall i | 0 <= i < |s.groups| && s.groups[i] == a
      ensures P.BatchUpdateGroupSort(s, a.userId, Some([a.id]), Some([sort])).store.groups[i] == a.(sort := sort)
    {
      P.BatchGroupSortWritesSorts(s, a.userId, [a.id], [sort], i, 0);
    }
  }

  /** Only the renamed item changes; the same emoji's items in other
      groups, the "all" group included, keep their names and sorts. */
  lemma ItemEditsAreLocal(s: Store, userId: string, groupId: string, emojiId: string, name: string, sort: int)
    requires UniqueKeys(s.items, ItemKey)
    ensures var r := P.UpdateEmojiItemName(s, userId, groupId, emojiId, name);
            r.result.Ok? ==> forall i :: 0 <= i < |s.items| && !(s.items[i].groupId == groupId && s.items[i].emojiId == emojiId)
                                         ==> r.store.items[i] == s.items[i]
    ensures var r := P.UpdateEmojiItemSort(s, userId, groupId, emojiId, sort);
            r.result.Ok? ==> forall i :: 0 <= i < |s.items| && !(s.items[i].groupId == groupId && s.items[i].emojiId == emojiId)
                                         ==> r.store.items[i] == s.items[i]
  {
    var found := Q.GetEmojiItemById(s, groupId, emojiId);
    if found.Some? {
      forall i | 0 <= i < |s.items| && s.items[i].id == found.value.id
        ensures s.items[i].groupId == groupId && s.items[i].emojiId == emojiId
      {
        assert s.items[i] in s.items;
        DistinctRecordsDistinctKeys(s.items, ItemKey, s.items[i], found.value);
      }
    }
  }

  /** The silent service addition is idempotent. */
  lemma ServiceAddIdempotent(s: Store, groupId: string, emojiId: string, sort: int, name: string, now: int, later: int)
    ensures var once := M.AddEmojiToGroup(s, groupId, emojiId, sort, name, now);
            M.AddEmojiToGroup(once, groupId, emojiId, sort, name, later) == once
  {
    var once := M.AddEmojiToGroup(s, groupId, emojiId, sort, name, now);
    var it :| it in once.items && it.groupId == groupId && it.emojiId == emojiId;
  }

  /** The handler rejects a repeated addition and writes nothing. */
  lemma SecondAddIsRejected(s: Store, userId: string, groupId: string, emojiId: string, sort: int, name: string, now: int, later: int)
    requires P.AddEmojiToGroup(s, userId, groupId, emojiId, sort, name, now).result.Ok?
    ensures var once := P.AddEmojiToGroup(s, userId, groupId, emojiId, sort, name, now).store;
            P.AddEmojiToGroup(once, userId, groupId, emojiId, sort, name, later) == P.Reply(once, Err(AlreadyInGroup))
  {
    var once := P.AddEmojiToGroup(s, userId, groupId, emojiId, sort, name, now).store;
    AddLinksPair(s, userId, groupId, emojiId, sort, name, now);
    assert P.OwnedGroup(once, userId, groupId) == P.OwnedGroup(s, userId, groupId);
    DuplicateAddRejected(once, userId, groupId, emojiId, sort, name, later);
  }

  /** A successful addition passed every check and leaves the pair linked,
      with the emoji and group tables as they were. */
  lemma AddLinksPair(s: Store, userId: string, groupId: string, emojiId: string, sort: int, name: string, now: int)
    requires P.AddEmojiToGroup(s, userId, groupId, emojiId, sort, name, now).result.Ok?
    ensures var once := P.AddEmojiToGroup(s, userId, groupId, emojiId, sort, name, now).store;
            && !IsBlank(groupId) && !IsBlank(emojiId)
            && P.OwnedGroup(s, userId, groupId).Some?
            && (exists e :: e in s.emojis && e.id == emojiId)
            && once.emojis == s.emojis && once.groups == s.groups
            && (exists it :: it in once.items && it.groupId == groupId && it.emojiId == emojiId)
  {
  }

  /** Once the pair is linked, the same addition is rejected with no write. */
  lemma DuplicateAddRejected(t: Store, userId: string, groupId: string, emojiId: string, sort: int, name: string, now: int)
    requires !IsBlank(groupId) && !IsBlank(emojiId)
    requires P.OwnedGroup(t, userId, groupId).Some?
    requires exists e :: e in t.emojis && e.id == emojiId
    requires exists it :: it in t.items && it.groupId == groupId && it.emojiId == emojiId
    ensures P.AddEmojiToGroup(t, userId, groupId, emojiId, sort, name, now) == P.Reply(t, Err(AlreadyInGroup))
  {
    var r := P.AddEmojiToGroup(t, userId, groupId, emojiId, sort, name, now);
    assert r.result == Err(AlreadyInGroup);
    assert r.store == t;
  }

  /** Group names are unique per user: the second creation of a name
      fails, while other users' creations are unaffected by the first. */
  lemma GroupNamesArePerUser(s: Store, userId: string, other: string, name: string, sort: int, now: int, later: int)
    requires !IsBlank(name) && other != userId
    requires P.CreateGroup(s, userId, name, sort, now).result.Ok?
    ensures var first := P.CreateGroup(s, userId, name, sort, now).store;
            && P.CreateGroup(first, userId, name, sort, later).result == Err(NameTaken)
            && (P.CreateGroup(first, other, name, sort, later).result.Ok? <==>
                P.CreateGroup(s, other, name, sort, later).result.Ok?)
  {
    var first := P.CreateGroup(s, userId, name, sort, now).store;
    var g := first.groups[|s.groups|];
    assert g in first.groups && g.userId == userId && g.name == name;
    assert forall x :: x in first.groups && x.userId == other ==> x in s.groups;
  }

  /** A user with no groups may create a custom group under any non-blank
      name, and the first listing then adds the "all" group beside it. */
  lemma CustomBesideNewAllGroup(s: Store, userId: string, name: string, sort: int, now: int, later: int)
    requires !IsBlank(name)
    requires forall g :: g in s.groups ==> g.userId != userId
    ensures var created := P.CreateGroup(s, userId, name, sort, now);
            var listed := P.GetUserGroups(created.store, userId, later);
            && created.result.Ok?
            && exists c, a :: c in listed.store.groups && a in listed.store.groups
                              && c.userId == userId && a.userId == userId
                              && c.name == name && a.name == ALL_GROUP_NAME
                              && c.kind.Custom? && a.kind.All?
  {
    var created := P.CreateGroup(s, userId, name, sort, now);
    var c := CreatedWithoutAllGroup(s, userId, name, sort, now);
    ListingKeepsCustomGroup(created.store, userId, c, later);
  }

  /** The custom group a user with no groups creates, in a store where the
      user still has no "all" group. */
  lemma CreatedWithoutAllGroup(s: Store, userId: string, name: string, sort: int, now: int) returns (c: EmojiGroup)
    requires !IsBlank(name)
    requires forall g :: g in s.groups ==> g.userId != userId
    ensures var created := P.CreateGroup(s, userId, name, sort, now);
            && created.result.Ok?
            && c in created.store.groups && c.userId == userId && c.name == name && c.kind.Custom?
            && forall g :: g in created.store.groups ==> !(g.userId == userId && g.kind.All?)
  {
    var created := P.CreateGroup(s, userId, name, sort, now);
    c := created.store.groups[|s.groups|];
  }

  /** The first listing keeps every group and adds the "all" group. */
  lemma ListingKeepsCustomGroup(s: Store, userId: string, c: EmojiGroup, now: int)
    requires c in s.groups
    requires forall g :: g in s.groups ==> !(g.userId == userId && g.kind.All?)
    ensures exists a :: && c in P.GetUserGroups(s, userId, now).store.groups
                        && a in P.GetUserGroups(s, userId, now).store.groups
                        && a.userId == userId && a.name == ALL_GROUP_NAME && a.kind.All?
  {
    var listed := P.GetUserGroups(s, userId, now);
    var a :| listed.store.groups == s.groups + [a] && a.kind.All? && a.userId == userId
             && a.name == ALL_GROUP_NAME && a.sort == 0;
    assert c in listed.store.groups && a in listed.store.groups;
  }

  /** Group names are unique per user only once the user has an "all"
      group: a user with no groups may create a custom group named "全部",
      and the first listing then adds the "all" group under the same name
      without any name check. */
  lemma AllNameTakenBeforeListing(s: Store, userId: string, sort: int, now: int, later: int)
    requires forall g :: g in s.groups ==> g.userId != userId
    ensures var created := P.CreateGroup(s, userId, ALL_GROUP_NAME, sort, now);
            var listed := P.GetUserGroups(created.store, userId, later);
            && created.result.Ok?
            && exists c, a :: c in listed.store.groups && a in listed.store.groups
                              && c.userId == userId && a.userId == userId
                              && c.name == ALL_GROUP_NAME && a.name == ALL_GROUP_NAME
                              && c.kind.Custom? && a.kind.All?
  {
    assert !IsWhitespace(ALL_GROUP_NAME[0]);
    CustomBesideNewAllGroup(s, userId, ALL_GROUP_NAME, sort, now, later);
  }

  /** An "all" item that existed before an addition to a custom group is
      the one the pair still has afterwards: its name and sort stay. */
  lemma MirrorKeepsExistingAllItem(s: Store, userId: string, groupId: string, emojiId: string, sort: int, name: string, now: int, x: EmojiGroupItem)
    requires Inv(s)
    requires x in s.items && x.emojiId == emojiId
    ensures var r := P.AddEmojiToGroup(s, userId, groupId, emojiId, sort, name, now);
            forall y :: y in r.store.items && y.groupId == x.groupId && y.emojiId == emojiId ==> y == x
  {
    var r := P.AddEmojiToGroup(s, userId, groupId, emojiId, sort, name, now);
    AddEmojiToGroupKeepsInv(s, userId, groupId, emojiId, sort, name, now);
    forall y | y in r.store.items && y.groupId == x.groupId && y.emojiId == emojiId ensures y == x {
      DistinctRecordsDistinctKeys(r.store.items, ItemPair, y, x);
    }
  }

  /** Removing an emoji from a custom group leaves it in the owner's
      "all" group. */
  lemma RemoveFromCustomKeepsAll(s: Store, g: EmojiGroup, a: EmojiGroup, emojiId: string)
    requires UniqueKeys(s.groups, GroupKey)
    requires g in s.groups && g.kind.Custom? && !IsBlank(g.id) && !IsBlank(emojiId)
    requires a in s.groups && a.kind.All?
    requires Q.IsEmojiInGroup(s, a.id, emojiId)
    ensures var r := P.RemoveEmojiFromGroup(s, g.userId, g.id, emojiId);
            && r.result.Ok? && r.store.groups == s.groups
            && !Q.IsEmojiInGroup(r.store, g.id, emojiId) && Q.IsEmojiInGroup(r.store, a.id, emojiId)
  {
    OwnGroupPassesGate(s, g);
    var r := P.RemoveEmojiFromGroup(s, g.userId, g.id, emojiId);
    var it :| it in s.items && it.groupId == a.id && it.emojiId == emojiId;
    assert a.id != g.id;
    assert it in r.store.items;
  }

  /** Removing an emoji from the "all" group takes it out of every group
      of the owner. */
  lemma RemoveFromAllClearsGroups(s: Store, a: EmojiGroup, emojiId: string)
    requires UniqueKeys(s.groups, GroupKey)
    requires a in s.groups && a.kind.All? && !IsBlank(a.id) && !IsBlank(emojiId)
    ensures var r := P.RemoveEmojiFromGroup(s, a.userId, a.id, emojiId);
            && r.result.Ok? && r.store.groups == s.groups
            && forall g :: g in s.groups && g.userId == a.userId ==> !Q.IsEmojiInGroup(r.store, g.id, emojiId)
  {
    OwnGroupPassesGate(s, a);
  }

  /** The membership scenario: an emoji added to a custom group shows up
      in the "all" group too; removing it from the custom group leaves it
      in "all"; removing it from "all" takes it out of both. */
  lemma AddRemoveScenario(s: Store, g: EmojiGroup, a: EmojiGroup, e: Emoji, sort: int, name: string, now: int)
    requires Inv(s)
    requires g in s.groups && g.kind.Custom? && !IsBlank(g.id)
    requires a in s.groups && a.kind.All? && a.userId == g.userId && !IsBlank(a.id)
    requires e in s.emojis && !IsBlank(e.id)
    requires !Q.IsEmojiInGroup(s, g.id, e.id)
    ensures var s1 := P.AddEmojiToGroup(s, g.userId, g.id, e.id, sort, name, now);
            var s2 := P.RemoveEmojiFromGroup(s1.store, g.userId, g.id, e.id);
            var s3 := P.RemoveEmojiFromGroup(s2.store, g.userId, a.id, e.id);
            && s1.result.Ok? && s2.result.Ok? && s3.result.Ok?
            && Q.IsEmojiInGroup(s1.store, g.id, e.id) && Q.IsEmojiInGroup(s1.store, a.id, e.id)
            && !Q.IsEmojiInGroup(s2.store, g.id, e.id) && Q.IsEmojiInGroup(s2.store, a.id, e.id)
            && !Q.IsEmojiInGroup(s3.store, g.id, e.id) && !Q.IsEmojiInGroup(s3.store, a.id, e.id)
  {
    var u := g.userId;
    OwnGroupPassesGate(s, g);
    var s1 := P.AddEmojiToGroup(s, u, g.id, e.id, sort, name, now);
    assert s1.result.Ok?;
    var a1, it1 :| a1 in s.groups && a1.userId == u && a1.kind.All?
                   && it1 in s1.store.items && it1.groupId == a1.id && it1.emojiId == e.id;
    assert a1.id == a.id;
    RemoveFromCustomKeepsAll(s1.store, g, a, e.id);
    var s2 := P.RemoveEmojiFromGroup(s1.store, u, g.id, e.id);
    RemoveFromAllClearsGroups(s2.store, a, e.id);
  }

  /** One emoji and one custom group of user "u", who has no "all" group. */
  function LoneCustomStore(): Store {
    Store([Emoji("e", "https://x/a.png", "u", 0, None)],
          [EmojiGroup("g", None, "u", "Favorites", 0, 0, 0, Custom)], [])
  }

  /** That store meets every invariant although its owner has no "all" group. */
  lemma LoneCustomStoreIsValid()
    ensures Inv(LoneCustomStore()) && !HasAllGroup(LoneCustomStore(), "u")
  {
  }

  /** Adding "e" to "g" there writes the custom item and then fails. */
  lemma LoneCustomAddFails()
    ensures var s := LoneCustomStore();
            P.AddEmojiToGroup(s, "u", "g", "e", 0, "a", 0)
              == P.Reply(s.(items := [EmojiGroupItem(FreshId(s), "g", "e", 0, "a", 0)]), Err(AddFailed))
  {
    var s := LoneCustomStore();
    OwnGroupPassesGate(s, s.groups[0]);
    assert !IsBlank("g") by { assert !IsWhitespace("g"[0]); }
    assert !IsBlank("e") by { assert !IsWhitespace("e"[0]); }
    assert s.emojis[0] in s.emojis;
    assert Q.GetEmojiById(s, "e").Some?;
    assert !Q.IsEmojiInGroup(s, "g", "e");
  }

  /** Without an "all" group the mirror step fails after the custom item
      is written, and that write breaks the mirror rule. */
  lemma MirrorFailureBreaksMirrorRule()
    ensures var s := LoneCustomStore();
            var r := P.AddEmojiToGroup(s, "u", "g", "e", 0, "a", 0);
            && Inv(s) && r.result == Err(AddFailed) && !Mirrored(r.store)
  {
    var s := LoneCustomStore();
    LoneCustomStoreIsValid();
    LoneCustomAddFails();
    var r := P.AddEmojiToGroup(s, "u", "g", "e", 0, "a", 0);
    var it := EmojiGroupItem(FreshId(s), "g", "e", 0, "a", 0);
    assert it in r.store.items && s.groups[0] in r.store.groups;
    assert !InAllGroup(r.store, "u", "e");
  }
}
