/** Queries over the group table. */
module EmojiGroupRepository {
  import opened Wrappers
  import opened Tables
  import opened EmojiModel

  /** All groups of `userId`, ascending by sort. */
  function GetByUserId(groups: seq<EmojiGroup>, userId: string): (r: seq<EmojiGroup>)
    ensures forall g :: g in r <==> g in groups && g.userId == userId
    ensures forall g :: multiset(r)[g] == if g.userId == userId then multiset(groups)[g] else 0
    ensures SortedBy(r, GroupSort)
  {
    var mine := Select(groups, (g: EmojiGroup) => g.userId == userId);
    var r := SortBy(mine, GroupSort);
    assert forall g :: g in r <==> g in multiset(mine);
    r
  }

  /** The user's "all" group: a group matching both the user and type 1. */
  function GetAllGroup(groups: seq<EmojiGroup>, userId: string): (r: Option<EmojiGroup>)
    ensures r.Some? ==> r.value in groups && r.value.userId == userId && r.value.kind.All?
    ensures r.None? <==> forall g :: g in groups ==> !(g.userId == userId && g.kind.All?)
  {
    First(groups, (g: EmojiGroup) => g.userId == userId && g.kind.All?)
  }

  /** A group of `userId` named `name`, of either type. */
  function GetByUserIdAndName(groups: seq<EmojiGroup>, userId: string, name: string): (r: Option<EmojiGroup>)
    ensures r.Some? ==> r.value in groups && r.value.userId == userId && r.value.name == name
    ensures r.None? <==> forall g :: g in groups ==> !(g.userId == userId && g.name == name)
  {
    First(groups, (g: EmojiGroup) => g.userId == userId && g.name == name)
  }

  /** Primary-key lookup. */
  function GetById(groups: seq<EmojiGroup>, id: string): (r: Option<EmojiGroup>)
    ensures r.Some? ==> r.value in groups && r.value.id == id
    ensures r.None? <==> forall g :: g in groups ==> g.id != id
  {
    First(groups, (g: EmojiGroup) => g.id == id)
  }

  /** With unique ids, the lookup finds exactly the stored group with that id. */
  lemma GetByIdUnique(groups: seq<EmojiGroup>, g: EmojiGroup)
    requires UniqueKeys(groups, GroupKey)
    requires g in groups
    ensures GetById(groups, g.id) == Some(g)
  {
    FirstByUniqueKey(groups, GroupKey, (h: EmojiGroup) => h.id == g.id, g);
  }
}
