/** Lookups over the emoji table. None of them looks at `status`. */
module EmojiRepository {
  import opened Wrappers
  import opened Tables
  import opened EmojiModel

  /** Primary-key lookup. */
  function GetById(emojis: seq<Emoji>, id: string): (r: Option<Emoji>)
    ensures r.Some? ==> r.value in emojis && r.value.id == id
    ensures r.None? <==> forall e :: e in emojis ==> e.id != id
  {
    First(emojis, (e: Emoji) => e.id == id)
  }

  /** Exact (case-sensitive) URL match; the first such record in table order. */
  function GetByUrl(emojis: seq<Emoji>, url: string): (r: Option<Emoji>)
    ensures r.Some? ==> r.value in emojis && r.value.url == url
    ensures r.None? <==> forall e :: e in emojis ==> e.url != url
    ensures r.Some? ==> exists i :: 0 <= i < |emojis| && emojis[i] == r.value
                                    && forall j :: 0 <= j < i ==> emojis[j].url != url
  {
    First(emojis, (e: Emoji) => e.url == url)
  }

  /** The records whose id is one of `ids` (an IN query: table order, each
      record at most once, unknown ids skipped). */
  function GetEmojisByIds(emojis: seq<Emoji>, ids: seq<string>): (r: seq<Emoji>)
    ensures forall e :: e in r <==> e in emojis && e.id in ids
    ensures forall e :: multiset(r)[e] == if e.id in ids then multiset(emojis)[e] else 0
  {
    Select(emojis, (e: Emoji) => e.id in ids)
  }

  /** With unique emoji ids, the IN query returns at most one record per
      distinct requested id, so never more records than ids were asked for. */
  lemma GetEmojisByIdsBounded(emojis: seq<Emoji>, ids: seq<string>)
    requires UniqueKeys(emojis, EmojiKey)
    ensures UniqueKeys(GetEmojisByIds(emojis, ids), EmojiKey)
    ensures |GetEmojisByIds(emojis, ids)| <= |set k | k in ids|
    ensures |GetEmojisByIds(emojis, ids)| <= |ids|
  {
    var r := GetEmojisByIds(emojis, ids);
    SelectKeepsUniqueKeys(emojis, (e: Emoji) => e.id in ids, EmojiKey);
    UniqueKeysBoundedBySet(r, EmojiKey, set k | k in ids);
    DistinctBound(ids);
  }
}
