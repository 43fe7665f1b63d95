/** Read-only queries of the emoji feature. Every query is a pure function
    of the store, so none of them can change it. */
module EmojiQueryService {
  import opened Wrappers
  import opened Tables
  import opened EmojiModel
  import EmojiRepository
  import EmojiGroupRepository
  import EmojiGroupItemRepository

  /** An emoji record as the group listing shows it: the record plus the
      name and sort copied from the item at the same position. */
  datatype GroupEmoji = GroupEmoji(emoji: Emoji, name: string, sort: int)

  /** Exactly the user's groups, ascending by sort. */
  function GetUserGroups(s: Store, userId: string): (r: seq<EmojiGroup>)
    ensures forall g :: g in r <==> g in s.groups && g.userId == userId
    ensures forall g :: multiset(r)[g] == if g.userId == userId then multiset(s.groups)[g] else 0
    ensures SortedBy(r, GroupSort)
  {
    EmojiGroupRepository.GetByUserId(s.groups, userId)
  }

  /** The user's "all" group, or None when the user has none. */
  function GetAllGroup(s: Store, userId: string): (r: Option<EmojiGroup>)
    ensures r.Some? ==> r.value in s.groups && r.value.userId == userId && r.value.kind.All?
    ensures r.None? <==> forall g :: g in s.groups ==> !(g.userId == userId && g.kind.All?)
  {
    EmojiGroupRepository.GetAllGroup(s.groups, userId)
  }

  /** The emoji ids of `items`, position by position. */
  function EmojiIds(items: seq<EmojiGroupItem>): (r: seq<string>)
    ensures |r| == |items|
    ensures forall i :: 0 <= i < |items| ==> r[i] == items[i].emojiId
  {
    seq(|items|, i requires 0 <= i < |items| => items[i].emojiId)
  }

  /** Pairs the i-th emoji record with the i-th item by position; fails
      when there are more records than items (the index runs off the item
      list). */
  function Merge(emojis: seq<Emoji>, items: seq<EmojiGroupItem>): (r: Result<seq<GroupEmoji>, Error>)
    ensures r.Ok? <==> |emojis| <= |items|
    ensures r.Err? ==> r.error == GetGroupEmojisFailed
    ensures r.Ok? ==> |r.value| == |emojis| && forall i :: 0 <= i < |emojis| ==>
              r.value[i] == GroupEmoji(emojis[i], items[i].name, items[i].sort)
  {
    if |emojis| <= |items| then
      Ok(seq(|emojis|, i requires 0 <= i < |emojis| => GroupEmoji(emojis[i], items[i].name, items[i].sort)))
    else Err(GetGroupEmojisFailed)
  }

  /** The group's emojis: the emoji records of its items (an IN query, so
      in emoji-table order), labelled positionally with the items' names and
      sorts in ascending item-sort order. */
  function GetGroupEmojis(s: Store, groupId: string): (r: Result<seq<GroupEmoji>, Error>)
    ensures (forall it :: it in s.items ==> it.groupId != groupId) ==> r == Ok([])
    ensures r.Err? ==> r.error == GetGroupEmojisFailed
    ensures r.Ok? ==> forall i :: 0 <= i < |r.value| ==>
              && r.value[i].emoji in s.emojis
              && exists it :: it in s.items && it.groupId == groupId && it.emojiId == r.value[i].emoji.id
    ensures r.Ok? ==> |r.value| <= |EmojiGroupItemRepository.GetByGroupId(s.items, groupId)|
    ensures var items := EmojiGroupItemRepository.GetByGroupId(s.items, groupId);
            var found := EmojiRepository.GetEmojisByIds(s.emojis, EmojiIds(items));
            && (|items| > 0 ==> (r.Ok? <==> |found| <= |items|))
            && (r.Ok? && |items| > 0 ==>
                  && |r.value| == |found|
                  && forall i :: 0 <= i < |found| ==> r.value[i] == GroupEmoji(found[i], items[i].name, items[i].sort))
  {
    var items := EmojiGroupItemRepository.GetByGroupId(s.items, groupId);
    if |items| == 0 then Ok([])
    else
      assert items[0] in items;
      var r := Merge(EmojiRepository.GetEmojisByIds(s.emojis, EmojiIds(items)), items);
      if r.Ok? then
        ListedEmojisHaveItems(s, groupId, r.value);
        r
      else r
  }

  /** Every record the merge lists is an emoji of one of the group's items. */
  lemma ListedEmojisHaveItems(s: Store, groupId: string, listed: seq<GroupEmoji>)
    requires var items := EmojiGroupItemRepository.GetByGroupId(s.items, groupId);
             forall i :: 0 <= i < |listed| ==> listed[i].emoji in EmojiRepository.GetEmojisByIds(s.emojis, EmojiIds(items))
    ensures forall i :: 0 <= i < |listed| ==>
              && listed[i].emoji in s.emojis
              && exists it :: it in s.items && it.groupId == groupId && it.emojiId == listed[i].emoji.id
  {
    var items := EmojiGroupItemRepository.GetByGroupId(s.items, groupId);
    var ids := EmojiIds(items);
    forall i | 0 <= i < |listed|
      ensures listed[i].emoji in s.emojis
      ensures exists it :: it in s.items && it.groupId == groupId && it.emojiId == listed[i].emoji.id
    {
      var e := listed[i].emoji;
      assert e in s.emojis && e.id in ids;
      var j :| 0 <= j < |ids| && ids[j] == e.id;
      assert items[j] in items;
    }
  }

  /** With unique emoji ids the positional merge never runs past the item
      list: the listing succeeds and is never longer than the item list. */
  lemma GetGroupEmojisSucceeds(s: Store, groupId: string)
    requires UniqueKeys(s.emojis, EmojiKey)
    ensures GetGroupEmojis(s, groupId).Ok?
    ensures |GetGroupEmojis(s, groupId).value| <= |EmojiGroupItemRepository.GetByGroupId(s.items, groupId)|
  {
    var items := EmojiGroupItemRepository.GetByGroupId(s.items, groupId);
    if |items| > 0 {
      EmojiRepository.GetEmojisByIdsBounded(s.emojis, EmojiIds(items));
    }
  }

  /** The id array holds exactly the emoji ids some item of the group refers to. */
  lemma GroupEmojiIds(s: Store, groupId: string, x: string)
    ensures x in EmojiIds(EmojiGroupItemRepository.GetByGroupId(s.items, groupId)) <==>
              exists it :: it in s.items && it.groupId == groupId && it.emojiId == x
  {
    var items := EmojiGroupItemRepository.GetByGroupId(s.items, groupId);
    var ids := EmojiIds(items);
    if x in ids {
      var k :| 0 <= k < |ids| && ids[k] == x;
      assert items[k] in items;
    }
    if it :| it in s.items && it.groupId == groupId && it.emojiId == x {
      assert it in items;
      var k :| 0 <= k < |items| && items[k] == it;
      assert ids[k] == x;
    }
  }

  /** The records the IN query finds for the group's items; an empty group
      runs no query. */
  function Found(s: Store, groupId: string): seq<Emoji> {
    var items := EmojiGroupItemRepository.GetByGroupId(s.items, groupId);
    if |items| == 0 then [] else EmojiRepository.GetEmojisByIds(s.emojis, EmojiIds(items))
  }

  /** The found records are exactly the stored emojis some item of the
      group refers to. */
  lemma FoundAreGroupEmojis(s: Store, groupId: string)
    ensures forall e :: e in Found(s, groupId) <==>
              e in s.emojis && exists it :: it in s.items && it.groupId == groupId && it.emojiId == e.id
  {
    forall e ensures e in Found(s, groupId) <==>
                       e in s.emojis && exists it :: it in s.items && it.groupId == groupId && it.emojiId == e.id
    {
      GroupEmojiIds(s, groupId, e.id);
    }
  }

  /** With unique emoji ids the listing copies the found records, which
      have unique ids too. */
  lemma ListingIsFound(s: Store, groupId: string)
    requires UniqueKeys(s.emojis, EmojiKey)
    ensures var r := GetGroupEmojis(s, groupId);
            && r.Ok? && UniqueKeys(Found(s, groupId), EmojiKey)
            && |r.value| == |Found(s, groupId)|
            && forall i :: 0 <= i < |r.value| ==> r.value[i].emoji == Found(s, groupId)[i]
  {
    GetGroupEmojisSucceeds(s, groupId);
    var items := EmojiGroupItemRepository.GetByGroupId(s.items, groupId);
    if |items| > 0 {
      EmojiRepository.GetEmojisByIdsBounded(s.emojis, EmojiIds(items));
    }
  }

  /** A listing that copies the group's found records position by position
      lists exactly the stored emojis the group's items refer to, with
      distinct ids when the found records have them. */
  lemma ListingCopiesFound(s: Store, groupId: string, listed: seq<GroupEmoji>, found: seq<Emoji>)
    requires |listed| == |found| && forall i :: 0 <= i < |found| ==> listed[i].emoji == found[i]
    requires UniqueKeys(found, EmojiKey)
    requires forall e :: e in found <==>
               e in s.emojis && exists it :: it in s.items && it.groupId == groupId && it.emojiId == e.id
    ensures forall e :: (exists i :: 0 <= i < |listed| && listed[i].emoji == e) <==>
              e in s.emojis && exists it :: it in s.items && it.groupId == groupId && it.emojiId == e.id
    ensures forall i, j :: 0 <= i < j < |listed| ==> listed[i].emoji.id != listed[j].emoji.id
  {
    forall e | e in found ensures exists i :: 0 <= i < |listed| && listed[i].emoji == e {
      var i :| 0 <= i < |found| && found[i] == e;
      assert listed[i].emoji == e;
    }
  }

  /** With unique emoji ids the listing shows each emoji of the group's
      items exactly once: an emoji record is listed exactly when it is stored
      and an item of the group refers to it, and no two entries share an id. */
  lemma GetGroupEmojisComplete(s: Store, groupId: string)
    requires UniqueKeys(s.emojis, EmojiKey)
    ensures var r := GetGroupEmojis(s, groupId);
            && r.Ok?
            && (forall e :: (exists i :: 0 <= i < |r.value| && r.value[i].emoji == e) <==>
                  e in s.emojis && exists it :: it in s.items && it.groupId == groupId && it.emojiId == e.id)
            && forall i, j :: 0 <= i < j < |r.value| ==> r.value[i].emoji.id != r.value[j].emoji.id
  {
    ListingIsFound(s, groupId);
    FoundAreGroupEmojis(s, groupId);
    ListingCopiesFound(s, groupId, GetGroupEmojis(s, groupId).value, Found(s, groupId));
  }

  /** Two items of a group with different sorts are read back in sort order. */
  lemma TwoItemsInSortOrder(first: EmojiGroupItem, second: EmojiGroupItem, groupId: string)
    requires first.groupId == groupId && second.groupId == groupId && first.sort < second.sort
    ensures EmojiGroupItemRepository.GetByGroupId([first, second], groupId) == [first, second]
  {
    SelectAllIsIdentity([first, second], (it: EmojiGroupItem) => it.groupId == groupId);
    assert [first, second][1..] == [second] && [second][1..] == [];
    assert SortBy([second], ItemSort) == Insert(second, [], ItemSort) == [second];
    assert SortBy([first, second], ItemSort) == Insert(first, [second], ItemSort) == [first, second];
  }

  /** Two emojis asked for in the reverse order come back in table order. */
  lemma TwoEmojisInTableOrder(a: Emoji, b: Emoji)
    ensures EmojiRepository.GetEmojisByIds([a, b], [b.id, a.id]) == [a, b]
  {
    SelectAllIsIdentity([a, b], (e: Emoji) => e.id in [b.id, a.id]);
  }

  /** Two records merged with two items pair up by position. */
  lemma MergeTwo(a: Emoji, b: Emoji, first: EmojiGroupItem, second: EmojiGroupItem)
    ensures Merge([a, b], [first, second])
            == Ok([GroupEmoji(a, first.name, first.sort), GroupEmoji(b, second.name, second.sort)])
  {
    var r := Merge([a, b], [first, second]);
    assert r.Ok? && |r.value| == 2;
    assert r.value[0] == GroupEmoji(a, first.name, first.sort);
    assert r.value[1] == GroupEmoji(b, second.name, second.sort);
    assert r.value == [GroupEmoji(a, first.name, first.sort), GroupEmoji(b, second.name, second.sort)];
  }

  /** The merge labels by position, not by emoji id: when two emojis' table
      order is the reverse of their items' sort order, each emoji is listed
      with the other emoji's item name and sort. */
  lemma MergeMislabels(a: Emoji, b: Emoji, first: EmojiGroupItem, second: EmojiGroupItem, groupId: string)
    requires first.groupId == groupId && second.groupId == groupId
    requires first.emojiId == b.id && second.emojiId == a.id && first.sort < second.sort
    ensures GetGroupEmojis(Store([a, b], [], [first, second]), groupId)
            == Ok([GroupEmoji(a, first.name, first.sort), GroupEmoji(b, second.name, second.sort)])
  {
    TwoItemsInSortOrder(first, second, groupId);
    assert EmojiIds([first, second]) == [b.id, a.id];
    TwoEmojisInTableOrder(a, b);
    MergeTwo(a, b, first, second);
    assert GetGroupEmojis(Store([a, b], [], [first, second]), groupId) == Merge([a, b], [first, second]);
  }

  /** Without unique emoji ids the listing can fail: two records sharing
      the id of a group's only item outnumber its items. */
  lemma DuplicateIdsFailListing(e: Emoji, twin: Emoji, it: EmojiGroupItem, groupId: string)
    requires it.groupId == groupId && it.emojiId == e.id && twin.id == e.id
    ensures GetGroupEmojis(Store([e, twin], [], [it]), groupId) == Err(GetGroupEmojisFailed)
  {
    SelectAllIsIdentity([it], (x: EmojiGroupItem) => x.groupId == groupId);
    assert [it][1..] == [];
    assert SortBy([it], ItemSort) == Insert(it, [], ItemSort) == [it];
    assert EmojiIds([it]) == [e.id];
    SelectAllIsIdentity([e, twin], (x: Emoji) => x.id in [e.id]);
  }

  /** True exactly when an item links the group and the emoji. */
  function IsEmojiInGroup(s: Store, groupId: string, emojiId: string): (r: bool)
    ensures r <==> exists it :: it in s.items && it.groupId == groupId && it.emojiId == emojiId
  {
    EmojiGroupItemRepository.GetByGroupIdAndEmojiId(s.items, groupId, emojiId).Some?
  }

  /** The emoji record with that id, whatever its status. */
  function GetEmojiById(s: Store, emojiId: string): (r: Option<Emoji>)
    ensures r.Some? ==> r.value in s.emojis && r.value.id == emojiId
    ensures r.None? <==> forall e :: e in s.emojis ==> e.id != emojiId
  {
    EmojiRepository.GetById(s.emojis, emojiId)
  }

  /** An emoji record with exactly that URL, whatever its status. */
  function GetEmojiByUrl(s: Store, url: string): (r: Option<Emoji>)
    ensures r.Some? ==> r.value in s.emojis && r.value.url == url
    ensures r.None? <==> forall e :: e in s.emojis ==> e.url != url
  {
    EmojiRepository.GetByUrl(s.emojis, url)
  }

  /** The group with that id. */
  function GetGroupById(s: Store, groupId: string): (r: Option<EmojiGroup>)
    ensures r.Some? ==> r.value in s.groups && r.value.id == groupId
    ensures r.None? <==> forall g :: g in s.groups ==> g.id != groupId
  {
    EmojiGroupRepository.GetById(s.groups, groupId)
  }

  /** The item linking the group and the emoji (keyed by emoji id, despite
      the name). */
  function GetEmojiItemById(s: Store, groupId: string, emojiId: string): (r: Option<EmojiGroupItem>)
    ensures r.Some? ==> r.value in s.items && r.value.groupId == groupId && r.value.emojiId == emojiId
    ensures r.None? <==> !IsEmojiInGroup(s, groupId, emojiId)
  {
    EmojiGroupItemRepository.GetByGroupIdAndEmojiId(s.items, groupId, emojiId)
  }
}
