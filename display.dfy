/** Display helpers that several pages of the frontend write out the same way: shortening a
    post's content for a card, and showing the first few tags of a post followed by a `+N`
    badge for the rest. */
module Display {
  import opened Wrappers

  /** `content.length <= maxLength ? content : content.substring(0, maxLength) + '...'` */
  function Truncate(content: string, maxLength: nat): (r: string)
    ensures |content| <= maxLength ==> r == content
    ensures |content| > maxLength ==> |r| == maxLength + 3
    ensures r[..Min(|content|, maxLength)] == content[..Min(|content|, maxLength)]
    ensures |content| > maxLength ==> r[maxLength..] == "..."
  {
    if |content| <= maxLength then content else content[..maxLength] + "..."
  }

  /** A truncated text is never longer than the limit plus the ellipsis, and truncating it
      again changes nothing. */
  lemma TruncateIdempotent(content: string, maxLength: nat)
    ensures |Truncate(content, maxLength)| <= maxLength + 3
    ensures Truncate(Truncate(content, maxLength), maxLength) == Truncate(content, maxLength)
  {
    if |content| > maxLength {
      var r := Truncate(content, maxLength);
      assert r[..maxLength] == content[..maxLength];
      assert r[..maxLength] + "..." == r;
    }
  }

  /** `formatDate`: a post without a date (JavaScript's `!dateString`, so also the empty
      string) reads as the page's draft label; a date goes to the locale formatter, which is
      not part of this model and is passed in. */
  function FormatDate(date: Option<string>, draftLabel: string, localeFormat: string -> string): (r: string)
    ensures date == None || date == Some("") ==> r == draftLabel
    ensures date.Some? && date.value != "" ==> r == localeFormat(date.value)
  {
    if date.None? || date.value == "" then draftLabel else localeFormat(date.value)
  }

  /** What a tag row shows: the first tags as badges and, when some were left out, a `+N`
      badge. */
  datatype BadgeRow<T> = BadgeRow(shown: seq<T>, more: Option<nat>)

  /** `tags.slice(0, limit)` followed by `+{tags.length - limit}` when `tags.length > limit`. */
  function Badges<T>(tags: seq<T>, limit: nat): (r: BadgeRow<T>)
    ensures |r.shown| == Min(|tags|, limit)
    ensures r.shown == tags[..|r.shown|]
    ensures r.more.Some? <==> |tags| > limit
    ensures r.more.Some? ==> r.more.value == |tags| - limit
  {
    BadgeRow(if |tags| <= limit then tags else tags[..limit],
             if |tags| > limit then Some(|tags| - limit) else None)
  }

  /** Every tag is accounted for exactly once: either shown or counted in the `+N` badge,
      and the `+N` badge never reads `+0`. */
  lemma BadgesAccountForEveryTag<T>(tags: seq<T>, limit: nat)
    ensures var r := Badges(tags, limit);
      |r.shown| + (if r.more.Some? then r.more.value else 0) == |tags|
      && (r.more.Some? ==> r.more.value >= 1)
      && (r.more.None? ==> r.shown == tags)
  {
  }
}
