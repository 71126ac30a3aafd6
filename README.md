# Slug and tag bookkeeping of a small blog, in Dafny

This project models the core of a blog made of a Laravel backend and a Next.js frontend.
On the backend it covers two controllers:

- The category controller picks a unique slug for a category by probing `slug`, `slug-1`,
  `slug-2`, … in order. It refuses to delete a category that still has posts.
- The post controller creates, patches and archives posts. It applies the author-only guard,
  the `published_at` rules and the visibility rule of `show`. It also keeps each tag's
  `usage_count` and the post–tag associations. A request's tag names are found or created
  by name, counted and synced.

On the frontend it covers pure helpers and one small state machine:

- the five-button pagination window and the Prev/Next enablement of the post list;
- the truncated card text, the date label and the "first k tags, then `+N`" badge row;
- the create page's tag editor: adding a tag (trim, case-insensitive duplicate check, slug)
  and removing one, the tag names it submits, the preview's badge row and the enablement of
  its two submit buttons.

## Modules

- `Wrappers` and `Text` are shared helpers. `Text` holds JavaScript's whitespace set and
  `trim`, the `\s+` → `-` replacement, lower-casing, and PHP's decimal rendering of the probe
  counter.
- `Display` holds the truncation and badge-row rules that several pages share.
- `CategoryController` holds the slug probe, as a method with a loop, and the
  `CategoryTable` class, a map from id to row, with `Store`, `Update` and `Destroy`.
- `TagLedger` holds the tags table as functions over a sequence whose positions are the tag
  ids:
  - `firstOrCreate`, the counter steps, the resolve loop as a specification function and
    the decrement pass;
  - the lemmas about counts, names and associations.
- `PostController` holds the `published_at` rules and `show` as functions. Its `Blog` class
  holds the posts, tags and pivot tables, with `Store`, `Update` and `Destroy`. Its
  `ResolveTags` and `DecrementEach` loops are proved against the `TagLedger` functions.
- `PostsPage`, `RecentPosts` and `CreatePostPage` hold the frontend pieces.
  `CreatePostPage.TagEditor` is a class over `selectedTags` and `newTagInput`.

Everything outside the program is a parameter:

- `Str::slug` is `slugify`;
- the authenticated user is an `Option<int>`;
- `now()` and `Date.now()` are integers;
- the locale date formatter is `localeFormat`;
- a category's post count is `postCount`.

## Model

| member | source | states |
|---|---|---|
| Text.Trim | frontend/src/app/posts/create/page.tsx:73 | The result is the slice of the input between its leading and trailing whitespace: what comes before it and what comes after it is all whitespace. It is empty exactly when the input is all whitespace, and otherwise starts and ends with a non-whitespace character. |
| Text.TrimIdempotent | frontend/src/app/posts/create/page.tsx:76 | Trimming a trimmed name changes nothing, so a tag's stored name is already trimmed. |
| Text.TrimmedLikeLowerTwin | frontend/src/app/posts/create/page.tsx:73 | Lower-casing keeps whitespace in place, so a string that lower-cases like a trimmed, non-empty name is itself trimmed. |
| Text.CollapseSpaces | frontend/src/app/posts/create/page.tsx:77 | Replacing each whitespace run by one `-` leaves no whitespace. The result is empty only for the empty string, is never longer than the input, and is the input itself when there is no whitespace. |
| Text.CollapseSpacesOfConcat | frontend/src/app/posts/create/page.tsx:77 | When the first part ends in a non-space character, replacing in the concatenation is replacing in each part. |
| Text.CollapseSpacesOfRun | frontend/src/app/posts/create/page.tsx:77 | A non-empty whitespace run that ends at a non-space character or at the end of the string becomes exactly one `-`, followed by the replacement of the rest. |
| Text.CollapseSpacesOfChar | frontend/src/app/posts/create/page.tsx:77 | A non-space character is kept, followed by the replacement of the rest. With the run lemma this fixes the result character by character and run by run, so characters outside whitespace runs are kept in order. |
| Text.Decimal | backend/app/Http/Controllers/CategoryController.php:47 | The counter as PHP concatenates it: a non-empty string of decimal digits, one digit exactly below 10, ending in the last digit of the number. |
| Text.DecimalInjective | backend/app/Http/Controllers/CategoryController.php:47 | Different counters give different digit strings. |
| Display.Truncate | frontend/src/app/posts/page.tsx:116-119 | The text is unchanged when it fits. Otherwise the result has length limit+3, starts with the first `limit` characters and ends in `...`. |
| Display.TruncateIdempotent | frontend/src/app/posts/page.tsx:116-119 | The result is never longer than limit+3, and truncating it again changes nothing. |
| Display.Badges | frontend/src/app/posts/page.tsx:230-239 | The shown badges are the first min(count, k) tags. The `+N` badge is present exactly when count > k, with N = count − k. |
| Display.FormatDate | frontend/src/app/posts/page.tsx:107-114 | A missing or empty date reads as the page's draft label (下書き on the post list, `Draft` in the recent-posts component at RecentPosts.tsx:60-67); any other date is passed to the locale formatter. |
| Display.BadgesAccountForEveryTag | frontend/src/app/posts/page.tsx:230-239 | Shown plus N is the number of tags, the badge never reads `+0`, and with no badge every tag is shown. |
| PostsPage.PageWindow | frontend/src/app/posts/page.tsx:266-276 | The window has min(5, last_page) buttons with consecutive numbers. |
| PostsPage.PageWindowInRange | frontend/src/app/posts/page.tsx:268-276 | Every button names a page in 1..last_page, whatever the current page. |
| PostsPage.PageWindowContainsCurrent | frontend/src/app/posts/page.tsx:268-276 | For 1 ≤ current ≤ last_page, the current page's button is in the window. |
| PostsPage.PageWindowEdges | frontend/src/app/posts/page.tsx:268-274 | The window is 1..last_page when last_page ≤ 5. It starts at 1 when current ≤ 3 and ends at last_page when current ≥ last_page − 2. |
| PostsPage.NavigationStaysInRange | frontend/src/app/posts/page.tsx:255-294 | From a real page, an enabled Prev or Next leads to a real page. On a shown bar (last_page > 1), at least one of the two is enabled. |
| PostsPage.TruncateContent | frontend/src/app/posts/page.tsx:116-119 | Identity up to 150 characters; otherwise the first 150 characters plus `...`, 153 in all. |
| PostsPage.CardBadges | frontend/src/app/posts/page.tsx:228-239 | Three badges, then `+N` with N = count − 3 exactly when count > 3. |
| RecentPosts.TruncateContent | frontend/src/components/RecentPosts.tsx:69-72 | Identity up to 100 characters; otherwise the first 100 characters plus `...`, 103 in all. |
| RecentPosts.CardBadges | frontend/src/components/RecentPosts.tsx:150-161 | Two badges, then `+N` with N = count − 2 exactly when count > 2. |
| CreatePostPage.TagSlug | frontend/src/app/posts/create/page.tsx:77 | The slug is empty exactly when the input is blank, is no longer than the trimmed input, and holds no whitespace and no upper-case ASCII letter. |
| CreatePostPage.WithoutIdMembers | frontend/src/app/posts/create/page.tsx:85 | A tag stays exactly when its id differs from the removed id. |
| CreatePostPage.WithoutIdKeepsOrder | frontend/src/app/posts/create/page.tsx:85 | Filtering a concatenation filters each part, so the remaining tags keep their order. |
| CreatePostPage.WithoutAbsentId | frontend/src/app/posts/create/page.tsx:85 | Removing an id that no tag carries changes nothing. |
| CreatePostPage.TagNames | frontend/src/app/posts/create/page.tsx:93 | The submitted list has one name per selected tag, in order. |
| CreatePostPage.PreviewBadges | frontend/src/app/posts/create/page.tsx:343-352 | The preview shows the first three tags, then `+N` with N = count − 3 exactly when count > 3. |
| CreatePostPage.SubmitEnablement | frontend/src/app/posts/create/page.tsx:142-149 | Publish is enabled only when Save Draft is. Save Draft is enabled exactly when nothing is saving and the title has a non-whitespace character. |
| CreatePostPage.TagEditor.SetNewTagInput | frontend/src/app/posts/create/page.tsx:297 | The input takes the typed value and the selected tags are untouched. |
| CreatePostPage.TagEditor.AddTag | frontend/src/app/posts/create/page.tsx:72-82 | With the duplicate check on the trimmed input (see Findings): a blank input, or one whose trimmed text matches a selected name up to case, changes nothing. Otherwise exactly one tag is appended, named by the trimmed input with its derived slug, and the input is cleared. An input that the check as written finds (untrimmed, up to case) also changes nothing. Selected tags stay non-blank, trimmed and distinct up to case. |
| CreatePostPage.TagEditor.RemoveTag | frontend/src/app/posts/create/page.tsx:84-86 | The list becomes the filtered list and the input is untouched. |
| CreatePostPage.WithoutIdKeepsNamesDistinct | frontend/src/app/posts/create/page.tsx:85 | Removing tags keeps the remaining names distinct up to case. |
| CreatePostPage.SubmittedNamesAreTrimmed | frontend/src/app/posts/create/page.tsx:93-105 | Every tag name submitted from well-formed selected tags is non-empty and trimmed. |
| CreatePostPage.AfterAddKeepsWellFormed | frontend/src/app/posts/create/page.tsx:72-82 | Both the add as written and the trimmed-check add keep the selected tags well-formed: non-empty trimmed names, slugs without whitespace. So the names lemma covers the page as written too. |
| CreatePostPage.WithoutIdKeepsWellFormed | frontend/src/app/posts/create/page.tsx:84-86 | Removal keeps the remaining tags well-formed. |
| CreatePostPage.DuplicateIsDuplicateOfTrimmed | frontend/src/app/posts/create/page.tsx:73-76 | Against well-formed selected tags, an input the untrimmed check finds is already trimmed, so the trimmed check finds it too. |
| CreatePostPage.AfterAddCases | frontend/src/app/posts/create/page.tsx:72-82 | The add as written: a blank input, or an input whose untrimmed text matches a selected name up to case, leaves the list and the input box as they were; any other input appends one tag named by the trimmed input with its slug and clears the box. It differs from the trimmed-check add exactly when the untrimmed check misses a name the trimmed check finds. |
| CreatePostPage.UntrimmedInputEvadesDuplicateCheck | frontend/src/app/posts/create/page.tsx:73-79 | With `react` selected, the input ` react` passes the check and adds a second `react`. |
| CreatePostPage.AfterAddTrimmedCheckKeepsNamesDistinct | frontend/src/app/posts/create/page.tsx:73-79 | With the duplicate check on the trimmed input, the selected names stay distinct up to case. |
| CategoryController.ProbesDistinct | backend/app/Http/Controllers/CategoryController.php:44-48 | The probe's candidates `slug`, `slug-1`, `slug-2`, … are pairwise distinct. |
| CategoryController.FirstFreeUnique | backend/app/Http/Controllers/CategoryController.php:44-49 | At most one slug is the first free candidate, so the probe's outcome is determined by the taken set. |
| CategoryController.ProbeFillsGaps | backend/app/Http/Controllers/CategoryController.php:44-48 | With `news`, `news-1` and `news-3` taken, the first free candidate is `news-2`. Probing is sequential, not "largest suffix plus one". |
| CategoryController.AllocateSlug | backend/app/Http/Controllers/CategoryController.php:41-49 | The slug is not taken. It is the base when the base is free, and otherwise `base-n` for some n ≥ 1 with the base and `base-1` … `base-(n−1)` all taken. The loop terminates. |
| CategoryController.CategoryTable.Store | backend/app/Http/Controllers/CategoryController.php:34-61 | 201. Exactly one new row is added, holding the first free candidate of the name's slug, and slugs stay unique. |
| CategoryController.CategoryTable.Update | backend/app/Http/Controllers/CategoryController.php:63-90 | 404 for an unknown id. Otherwise only that row changes, and its slug is the first free candidate among the other rows' slugs. When no other row holds the name's slug, the row keeps exactly that slug. |
| CategoryController.CategoryTable.Destroy | backend/app/Http/Controllers/CategoryController.php:92-108 | 400 with nothing deleted when the category has posts. Otherwise exactly that row is removed. |
| TagLedger.FindByName | backend/app/Http/Controllers/PostController.php:121-124 | The first row carrying the name, or none exactly when no row carries it. |
| TagLedger.FirstOrCreate | backend/app/Http/Controllers/PostController.php:121-124 | The returned id names a row with that name. An existing row is reused with the table unchanged; otherwise one row with the name's slug and count 0 is appended. |
| TagLedger.FirstOrCreateKeepsNamesUnique | backend/app/Http/Controllers/PostController.php:121-124 | Find-or-create never makes two rows with one name. |
| TagLedger.DecrementAllStep | backend/app/Http/Controllers/PostController.php:190-192 | Decrementing one more associated tag is one more `decrementCount`. |
| TagLedger.DecrementAllKeepsNames | backend/app/Http/Controllers/PostController.php:190-192 | The decrement pass keeps every row's name and slug. It lowers each associated row by exactly one, leaves the others alone, and keeps names unique. |
| TagLedger.ResolveKeepsOldRows | backend/app/Http/Controllers/PostController.php:119-127 | The resolve loop only appends rows, and the existing rows keep their names and slugs. |
| TagLedger.ResolveIds | backend/app/Http/Controllers/PostController.php:119-127 | One id per requested name, in order, each naming a row that carries that name. |
| TagLedger.ResolveNewRows | backend/app/Http/Controllers/PostController.php:120-124 | Every row the loop adds carries a requested name that no earlier row had, with that name's slug. |
| TagLedger.ResolveShape | backend/app/Http/Controllers/PostController.php:118-128 | The previous three lemmas together: every requested name ends with a row of that name, and existing rows are reused, not duplicated. |
| TagLedger.ResolveBounds | backend/app/Http/Controllers/PostController.php:119-128 | The table only grows, every collected id is one of its rows, and unique names stay unique. |
| TagLedger.ResolveKeepsNamesUnique | backend/app/Http/Controllers/PostController.php:119-127 | The resolve loop never creates a second row for a name. |
| TagLedger.ResolveCounts | backend/app/Http/Controllers/PostController.php:119-127 | Each row ends with its old count (0 for a created row) plus one per occurrence of its name in the request. An unrequested row is untouched. |
| TagLedger.ResolvedIdsAreRequestedRows | backend/app/Http/Controllers/PostController.php:119-128 | The id set synced is exactly the set of rows whose names were requested. |
| TagLedger.UpdateNetEffect | backend/app/Http/Controllers/PostController.php:188-203 | For a request without repeated names, each existing row's count moves by −1 if it was associated and +1 if it is requested. So kept tags are unchanged, dropped −1, added +1, unrelated untouched, and created rows end at 1. |
| TagLedger.ResolveExistingNames | backend/app/Http/Controllers/PostController.php:195-202 | When every requested name has a row, the loop creates none. |
| TagLedger.UpdateWithExistingNamesCreatesNoRow | backend/app/Http/Controllers/PostController.php:188-203 | An update whose names all exist creates no tag row. |
| TagLedger.UpdateWithSameTagsKeepsRows | backend/app/Http/Controllers/PostController.php:188-203 | Re-sending a post's own tags leaves the tags table exactly as it was. |
| TagLedger.UpdateWithSameTagsChangesNothing | backend/app/Http/Controllers/PostController.php:188-203 | Re-sending a post's own tags also re-syncs the same association set. |
| PostController.Apply | backend/app/Http/Controllers/PostController.php:175-178 | An absent key keeps the column; a present key sets it, to null included. |
| PostController.NewPost | backend/app/Http/Controllers/PostController.php:105-115 | The status defaults to draft. The post is dated, with `now`, exactly when it is published. The author is the authenticated user, and the other columns are copied from the request. |
| PostController.PublishedAtOnUpdate | backend/app/Http/Controllers/PostController.php:180-183 | An existing date is never overwritten or cleared. An undated post is dated exactly when the request puts the status `published`. |
| PostController.Patched | backend/app/Http/Controllers/PostController.php:175-185 | The author never changes. Each of title, content, summary, category, meta description, featured image and status takes the requested value when its key is present, null included, and keeps the old one when the key is absent. The date follows the update rule. |
| PostController.PatchKeepsDated | backend/app/Http/Controllers/PostController.php:180-185 | A published post stays dated through any patch, and a date, once set, survives it. |
| PostController.EmptyPatchChangesNothing | backend/app/Http/Controllers/PostController.php:175-185 | A request with none of the patchable keys leaves the row as it was. |
| PostController.Show | backend/app/Http/Controllers/PostController.php:60-82 | The post is returned exactly when it exists and is published or the viewer is its author. |
| PostController.HiddenPostLooksMissing | backend/app/Http/Controllers/PostController.php:64-76 | A post hidden from the viewer answers the same 404 as a post that does not exist. |
| PostController.ShowAudience | backend/app/Http/Controllers/PostController.php:70-76 | A guest sees exactly the published posts. The author sees their own post in any status. Another user gets a 404 for someone else's draft or archived post. |
| PostController.Blog.ResolveTags | backend/app/Http/Controllers/PostController.php:119-127 | The loop leaves the table and the id list that `TagLedger.Resolve` (the loop as a function over the request's prefix) gives for the whole request. |
| PostController.Blog.DecrementEach | backend/app/Http/Controllers/PostController.php:190-192 | The loop leaves the table that `TagLedger.DecrementAll` (every associated row lowered by one) gives for the associated set. |
| PostController.Blog.Store | backend/app/Http/Controllers/PostController.php:84-137 | 201. Exactly one new post is added. Without tags, nothing else changes. With tags, the table is the resolve result and the new post's associations are its id set. The invariant holds: names unique, associations in range, published posts dated. |
| PostController.Blog.Update | backend/app/Http/Controllers/PostController.php:139-212 | 404 for an unknown post and 403 for anyone but the author, both with nothing changed. Otherwise only that post is patched. Without tags, counts and associations are untouched. With tags, the table is the resolve result over the decremented table, and the association is replaced by the resolved id set. |
| PostController.Blog.Destroy | backend/app/Http/Controllers/PostController.php:214-242 | 404 for an unknown post and 403 for anyone but the author, both with nothing changed. Otherwise the row is kept with status archived, each associated tag loses exactly one, and the associations are left in place. |

## Update is not a diff

`update` with tags first decrements every tag associated with the post and then increments
every requested one; it does not compute which tags were added or dropped. The model takes
`Tag::decrementCount`, whose body is not part of this model, as −1 with no floor (see Left
out).

- `TagLedger.UpdateNetEffect` shows that, for a request without repeated names, the net
  change per tag is what a diff would give: kept tags unchanged, dropped −1, added +1.
- `TagLedger.UpdateWithSameTagsChangesNothing` shows that re-sending a post's own tags
  leaves the table and the associations as they were.
- In the model a count can go below 0, for example when an archived post is archived
  again. Whether the program's counts can depends on the Tag model.

## Left out

- Request validation and the 422 responses are framework behaviour. So are the 401 of the
  authentication middleware and the route-model binding that gives the category routes
  their 404. The model takes requests that passed validation, including the `exists` check
  on `category_id` and the category `name` uniqueness rule.
- `index` of the post controller is left out: its filters, search, sorting and pagination
  are query-builder calls. The category controller's `index` and `show` are left out too.
- `Str::slug` is Laravel library code. It is a parameter, and nothing is assumed about it.
- The controller only calls `incrementCount` and `decrementCount`; their bodies in the Tag
  model are not part of this model. The steps are taken as +1 and −1 on an unbounded
  integer with no floor, so in the model a count can go negative; whether the program's
  can depends on the Tag model.
- `TagLedger.FirstOrCreate`: `firstOrCreate` passes only the slug, so a created tag's
  `usage_count` is the column's default. No migration is part of this model; the model
  takes the default as 0.
- `TagLedger.FindByName` compares names exactly. What `where('name', …)` matches depends on
  the database collation, which is not part of this model.
- `destroy` does not look at the post's status. Archiving a post twice, or updating an
  archived post with tags, calls `decrementCount` on its tags again. The model keeps this behaviour.
- `sync` with repeated ids is taken as attaching the set of ids. The net-effect lemmas
  assume a request without repeated names. Counts for repeated names are stated by
  `TagLedger.ResolveCounts`, which counts every occurrence.
- Eloquent's tables are in-memory values: a map of posts, a sequence of tags whose
  positions are their ids, and a map from post to tag-id set. Timestamps, the `author`,
  `category` and `tags` eager loads, and the JSON response bodies are left out.
- Concurrency is left out, including the race between the slug probe and the insert and
  between `firstOrCreate` and a concurrent create. The model is single-threaded.
- `CategoryController.CategoryTable.Update`: the description is replaced by the request's
  value, null included, as the code does. The description's length limit is validation.
- `Text.LowerChar`: `toLowerCase` is modelled for ASCII letters only. Other characters are
  left as they are.
- Strings are sequences of code points. JavaScript counts UTF-16 code units, so
  `Display.Truncate` differs from the source for text outside the Basic Multilingual Plane.
- The post cards show `post.summary || truncateContent(post.content)`. The summary
  fallback is left out; only `truncateContent` is modelled.
- `PostController.IsAuthor` compares ids as values. PHP's `!==` also compares types, so the
  model matches the program only when `author_id` is read as an integer. That depends on
  the Post model's casts or the database driver, neither of which is part of this model.
- Date formatting (`toLocaleDateString`) is a parameter. The preview's 100-character
  content excerpt on the create page is left out, and so are its title and summary
  fallbacks.
- The create page's network call, routing, loading flag and error state are left out. So
  are the category fetch and the `fetchPosts` effect of the post list. `handleSubmit` is
  modelled only as the list of names it sends.
- Authentication state (`AuthContext`, login, register), the API wrapper, routes, the
  factories and the seeders are not part of this model.

## Findings

| source | as written | input that shows it | evidently intended | confidence | as-written member | corrected member |
|---|---|---|---|---|---|---|
| frontend/src/app/posts/create/page.tsx:73 | the duplicate check compares the lower-cased selected names with the lower-cased untrimmed input, but the name stored is the trimmed input | `react` is selected and the input is ` react`: the check passes, and a second tag named `react` is appended | compare against the trimmed input, so the selected names stay distinct up to case | not executed | CreatePostPage.UntrimmedInputEvadesDuplicateCheck | CreatePostPage.AfterAddTrimmedCheckKeepsNamesDistinct |

`CreatePostPage.AfterAdd` and `CreatePostPage.InputAfterAdd` are the add as written;
`CreatePostPage.AfterAddCases` states its outcomes. The lemma `UntrimmedInputEvadesDuplicateCheck`
exhibits the input above against it. `CreatePostPage.AfterAddTrimmedCheck` is the corrected
add, and `CreatePostPage.TagEditor.AddTag` follows it. The tag editor's invariant includes
distinct names up to case, which the corrected add and `RemoveTag` both keep.
