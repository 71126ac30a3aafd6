/** The post list page: the window of at most five page buttons, the Prev/Next buttons, the
    card text and the card's tag row. */
module PostsPage {
  import opened Wrappers
  import Display

  /** The `Display.FormatDate` label of a post that has no `published_at`: "下書き" ("draft"). */
  const DraftLabel: string := "\U{4E0B}\U{66F8}\U{304D}"

  /** The default `maxLength` of this page's `truncateContent`. */
  const CardTextLength: nat := 150

  /** The number of tag badges a card shows before the `+N` badge. */
  const CardTagLimit: nat := 3

  /** The page number on the `i`-th button (counting from 0), by the four branches of the
      page's window rule. */
  function PageNumber(lastPage: nat, currentPage: int, i: nat): int {
    if lastPage <= 5 then i + 1
    else if currentPage <= 3 then i + 1
    else if currentPage >= lastPage - 2 then lastPage - 4 + i
    else currentPage - 2 + i
  }

  /** `Array.from({ length: Math.min(5, last_page) }, (_, i) => pageNumber)`: as many buttons
      as there are pages, up to five, numbered consecutively. */
  function PageWindow(lastPage: nat, currentPage: int): (w: seq<int>)
    ensures |w| == Min(5, lastPage)
    ensures forall i :: 0 <= i < |w| - 1 ==> w[i + 1] == w[i] + 1
  {
    seq(Min(5, lastPage), i requires 0 <= i < Min(5, lastPage) => PageNumber(lastPage, currentPage, i))
  }

  /** Every button names an existing page, whatever the current page is. */
  lemma PageWindowInRange(lastPage: nat, currentPage: int)
    ensures forall i :: 0 <= i < |PageWindow(lastPage, currentPage)| ==>
      1 <= PageWindow(lastPage, currentPage)[i] <= lastPage
  {
  }

  /** When the current page is a real page, its button is in the window. */
  lemma PageWindowContainsCurrent(lastPage: nat, currentPage: int)
    requires 1 <= currentPage <= lastPage
    ensures currentPage in PageWindow(lastPage, currentPage)
  {
    var w := PageWindow(lastPage, currentPage);
    var k := if lastPage <= 5 || currentPage <= 3 then currentPage - 1
             else if currentPage >= lastPage - 2 then currentPage - lastPage + 4
             else 2;
    assert w[k] == currentPage;
  }

  /** The shape of the window at the edges: all pages when there are at most five; it starts
      at page 1 near the beginning and ends at the last page near the end. */
  lemma PageWindowEdges(lastPage: nat, currentPage: int)
    requires lastPage >= 1
    ensures lastPage <= 5 ==> forall i :: 0 <= i < |PageWindow(lastPage, currentPage)| ==>
      PageWindow(lastPage, currentPage)[i] == i + 1
    ensures currentPage <= 3 ==> PageWindow(lastPage, currentPage)[0] == 1
    ensures currentPage >= lastPage - 2 ==>
      PageWindow(lastPage, currentPage)[|PageWindow(lastPage, currentPage)| - 1] == lastPage
  {
  }

  /** The pagination bar is rendered only when there is more than one page. */
  predicate PaginationShown(lastPage: nat) {
    lastPage > 1
  }

  predicate PrevDisabled(currentPage: int) {
    currentPage <= 1
  }

  predicate NextDisabled(currentPage: int, lastPage: nat) {
    currentPage >= lastPage
  }

  /** From a real page, an enabled Prev or Next button leads to a real page, and on a bar
      that is shown at least one of the two is enabled. */
  lemma NavigationStaysInRange(currentPage: int, lastPage: nat)
    requires 1 <= currentPage <= lastPage
    ensures !PrevDisabled(currentPage) ==> 1 <= currentPage - 1 <= lastPage
    ensures !NextDisabled(currentPage, lastPage) ==> 1 <= currentPage + 1 <= lastPage
    ensures PaginationShown(lastPage) ==> !PrevDisabled(currentPage) || !NextDisabled(currentPage, lastPage)
  {
  }

  /** `truncateContent(content)` with its default of 150 characters. */
  function TruncateContent(content: string): (r: string)
    ensures |content| <= CardTextLength ==> r == content
    ensures |content| > CardTextLength ==> |r| == 153 && r == content[..150] + "..."
  {
    Display.Truncate(content, CardTextLength)
  }

  /** The tag row of a card. */
  function CardBadges<T>(tags: seq<T>): (r: Display.BadgeRow<T>)
    ensures |r.shown| == Min(|tags|, CardTagLimit) && r.shown == tags[..|r.shown|]
    ensures r.more.Some? <==> |tags| > CardTagLimit
    ensures r.more.Some? ==> r.more.value == |tags| - CardTagLimit
  {
    Display.Badges(tags, CardTagLimit)
  }
}
