/** Queries and removals over the group-item table. */
module EmojiGroupItemRepository {
  import opened Wrappers
  import opened Tables
  import opened EmojiModel

  /** The items of `groupId`, ascending by item sort. */
  function GetByGroupId(items: seq<EmojiGroupItem>, groupId: string): (r: seq<EmojiGroupItem>)
    ensures forall it :: it in r <==> it in items && it.groupId == groupId
    ensures forall it :: multiset(r)[it] == if it.groupId == groupId then multiset(items)[it] else 0
    ensures SortedBy(r, ItemSort)
  {
    var mine := Select(items, (it: EmojiGroupItem) => it.groupId == groupId);
    var r := SortBy(mine, ItemSort);
    assert forall it :: it in r <==> it in multiset(mine);
    r
  }

  /** An item of `groupId` for `emojiId`, the first in table order. */
  function GetByGroupIdAndEmojiId(items: seq<EmojiGroupItem>, groupId: string, emojiId: string): (r: Option<EmojiGroupItem>)
    ensures r.Some? ==> r.value in items && r.value.groupId == groupId && r.value.emojiId == emojiId
    ensures r.None? <==> forall it :: it in items ==> !(it.groupId == groupId && it.emojiId == emojiId)
  {
    First(items, (it: EmojiGroupItem) => it.groupId == groupId && it.emojiId == emojiId)
  }

  /** Deletes every item of `groupId` for `emojiId` and nothing else; no
      match is not an error. */
  function RemoveByGroupIdAndEmojiId(items: seq<EmojiGroupItem>, groupId: string, emojiId: string): (r: seq<EmojiGroupItem>)
    ensures forall it :: it in r <==> it in items && !(it.groupId == groupId && it.emojiId == emojiId)
    ensures forall it :: multiset(r)[it] ==
              if it.groupId == groupId && it.emojiId == emojiId then 0 else multiset(items)[it]
    ensures (forall it :: it in items ==> !(it.groupId == groupId && it.emojiId == emojiId)) ==> r == items
    ensures UniqueKeys(items, ItemKey) ==> UniqueKeys(r, ItemKey)
    ensures UniqueKeys(items, ItemPair) ==> UniqueKeys(r, ItemPair)
  {
    var keep := (it: EmojiGroupItem) => !(it.groupId == groupId && it.emojiId == emojiId);
    SelectKeepsUniqueKeys(items, keep, ItemKey);
    SelectKeepsUniqueKeys(items, keep, ItemPair);
    if forall it :: it in items ==> keep(it) then
      SelectAllIsIdentity(items, keep);
      Select(items, keep)
    else Select(items, keep)
  }

  /** Deletes every item of `groupId`, keeping every other group's items. */
  function RemoveByGroupId(items: seq<EmojiGroupItem>, groupId: string): (r: seq<EmojiGroupItem>)
    ensures forall it :: it in r <==> it in items && it.groupId != groupId
    ensures forall it :: multiset(r)[it] == if it.groupId == groupId then 0 else multiset(items)[it]
    ensures UniqueKeys(items, ItemKey) ==> UniqueKeys(r, ItemKey)
    ensures UniqueKeys(items, ItemPair) ==> UniqueKeys(r, ItemPair)
  {
    var keep := (it: EmojiGroupItem) => it.groupId != groupId;
    SelectKeepsUniqueKeys(items, keep, ItemKey);
    SelectKeepsUniqueKeys(items, keep, ItemPair);
    Select(items, keep)
  }
}
