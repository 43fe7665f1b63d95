/** The three record sets of the emoji feature (emoji images, per-user
    groups, group items), the error kinds the handlers report, and the
    well-formedness every reachable store keeps. */
module EmojiModel {
  import opened Wrappers
  import opened Tables

  /** Group type, stored as the integer code 1 (the "all" group) or 0 (custom). */
  datatype GroupType = Custom | All

  /** The fixed name of every user's "all" group ("全部", i.e. "all"). */
  const ALL_GROUP_NAME: string := "全部"

  /** An emoji image. The core never writes `status`, so records it creates
      carry None there. */
  datatype Emoji = Emoji(id: string, url: string, uploaderId: string, createTime: int, status: Option<int>)

  /** An emoji group. `id` is the primary key; `idKey` is the separate
      `emojiGroupId` column, which no operation ever writes. */
  datatype EmojiGroup = EmojiGroup(
    id: string,
    idKey: Option<string>,
    userId: string,
    name: string,
    sort: int,
    createTime: int,
    updateTime: int,
    kind: GroupType)

  /** Membership of an emoji in a group, with a group-local name and sort. */
  datatype EmojiGroupItem = EmojiGroupItem(
    id: string,
    groupId: string,
    emojiId: string,
    sort: int,
    name: string,
    createTime: int)

  /** The persisted state: the three record sets, in table order. */
  datatype Store = Store(emojis: seq<Emoji>, groups: seq<EmojiGroup>, items: seq<EmojiGroupItem>)

  /** The error kinds the service and the handlers report. */
  datatype Error =
    | GroupNotFound        // group absent, or owned by another user
    | EmojiNotFound        // emoji record, or its membership in the group, absent
    | MissingParameters    // a blank or missing request field
    | GroupIdRequired      // blank group id on the group-id-only handlers
    | GroupNameRequired    // blank name on group creation
    | IdsAndSortsRequired  // a batch group re-sort without its arrays
    | LengthMismatch       // a batch group re-sort whose arrays differ in length
    | AlreadyInGroup       // the handler-level duplicate-add rejection
    | NameTaken            // another group of the user already has the name
    | CannotRenameAll
    | CannotUpdateAll
    | CannotDeleteAll
    | AddFailed            // the mirror step met no "all" group (after the first write)
    | GetGroupEmojisFailed // the positional merge ran past the item list

  /** `optString` of a column that may be absent: the empty string then. */
  function OptString(v: Option<string>): (r: string)
    ensures v.None? ==> r == ""
    ensures v.Some? ==> r == v.value
  {
    if v.Some? then v.value else ""
  }

  /** Java's `Character.isWhitespace`: the Unicode space, line and paragraph
      separators except the non-breaking ones, plus the ASCII controls
      U+0009..U+000D and U+001C..U+001F. */
  predicate IsWhitespace(c: char) {
    || c == ' '
    || ('\t' <= c <= '\r')
    || ('\U{1C}' <= c <= '\U{1F}')
    || c == '\U{1680}'
    || ('\U{2000}' <= c <= '\U{2006}')
    || ('\U{2008}' <= c <= '\U{200A}')
    || c == '\U{2028}'
    || c == '\U{2029}'
    || c == '\U{205F}'
    || c == '\U{3000}'
  }

  /** `StringUtils.isBlank`: empty or whitespace only. A missing request
      field reads as the empty string. */
  predicate IsBlank(s: string) {
    forall i :: 0 <= i < |s| ==> IsWhitespace(s[i])
  }

  function EmojiKey(e: Emoji): string { e.id }
  function GroupKey(g: EmojiGroup): string { g.id }
  function ItemKey(it: EmojiGroupItem): string { it.id }
  function ItemGroupRef(it: EmojiGroupItem): string { it.groupId }
  function ItemEmojiRef(it: EmojiGroupItem): string { it.emojiId }
  function ItemPair(it: EmojiGroupItem): (string, string) { (it.groupId, it.emojiId) }
  function GroupSort(g: EmojiGroup): int { g.sort }
  function ItemSort(it: EmojiGroupItem): int { it.sort }

  /** The id the persistence layer generates for a new record: an id longer
      than every id and every item reference in the store, so it names no
      existing record and nothing refers to it yet. */
  function FreshId(s: Store): (r: string)
    ensures !IsBlank(r)
    ensures forall e :: e in s.emojis ==> e.id != r
    ensures forall g :: g in s.groups ==> g.id != r
    ensures forall it :: it in s.items ==> it.id != r && it.groupId != r && it.emojiId != r
  {
    var n := 1 + LongestKey(s.emojis, EmojiKey) + LongestKey(s.groups, GroupKey)
             + LongestKey(s.items, ItemKey) + LongestKey(s.items, ItemGroupRef)
             + LongestKey(s.items, ItemEmojiRef);
    var r := seq(n, _ => '1');
    assert !IsWhitespace(r[0]);
    r
  }

  /** A user's "all" groups share one id (so, with unique ids, there is at
      most one per user). */
  ghost predicate SingleAllGroup(groups: seq<EmojiGroup>) {
    forall a, b :: a in groups && b in groups && a.kind.All? && b.kind.All? && a.userId == b.userId
                   ==> a.id == b.id
  }

  /** The shape every store reachable through the operations keeps: primary
      keys are unique, the `emojiGroupId` column is never written, and no
      user has two "all" groups. */
  ghost predicate Wf(s: Store) {
    && UniqueKeys(s.emojis, EmojiKey)
    && UniqueKeys(s.groups, GroupKey)
    && UniqueKeys(s.items, ItemKey)
    && (forall g :: g in s.groups ==> g.idKey.None?)
    && SingleAllGroup(s.groups)
  }
}
