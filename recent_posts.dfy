/** The "recent posts" component of the home page: card text, date label and tag row. */
module RecentPosts {
  import opened Wrappers
  import Display

  /** The `Display.FormatDate` label of a post that has no `published_at`. */
  const DraftLabel: string := "Draft"

  /** The default `maxLength` of this component's `truncateContent`. */
  const CardTextLength: nat := 100

  /** The number of tag badges a card shows before the `+N` badge. */
  const CardTagLimit: nat := 2

  /** `truncateContent(content)` with its default of 100 characters. */
  function TruncateContent(content: string): (r: string)
    ensures |content| <= CardTextLength ==> r == content
    ensures |content| > CardTextLength ==> |r| == 103 && r == content[..100] + "..."
  {
    Display.Truncate(content, CardTextLength)
  }

  /** The tag row of a card: two badges, then `+N`. */
  function CardBadges<T>(tags: seq<T>): (r: Display.BadgeRow<T>)
    ensures |r.shown| == Min(|tags|, CardTagLimit) && r.shown == tags[..|r.shown|]
    ensures r.more.Some? <==> |tags| > CardTagLimit
    ensures r.more.Some? ==> r.more.value == |tags| - CardTagLimit
  {
    Display.Badges(tags, CardTagLimit)
  }
}
