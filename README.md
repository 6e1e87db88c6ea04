# moviehub, modelled in Dafny

This project models the logic of the moviehub web front end, a React site that browses
films, series and people from The Movie Database. It covers the parts that compute
something, stated over Dafny values:

- **Review formatter.** The inline markdown scanner (`**bold**`, `_em_`, `*em*`, `<em>em</em>`),
  the paragraph and line splitter, the marker-aware slicer and the budgeted preview builder.
- **Runtime and date helpers.** `formatRuntime`, and the empty-input guards of `formatDate`,
  `getYear` and `formatReleaseDate`.
- **Media panel tabs.** The fixed video tabs with their counts, and the image groups by language.
- **Crew grouping.**
  - The crew panel's grouping by department and person.
  - The "important jobs" grouping of the movie page and of the movie header.
- **Search page.** The filter, the local ten-per-page pagination and its state changes, and the
  Prev/Next pager.
- **Keyboard navigation of the media tabs.** Roving focus with the arrow, Home and End keys.
- **Person page.**
  - The acting/crew split, the "known for" selection and the credit sort.
  - The filmography grouped by year.
  - The biography's truncate-and-expand rule.
  - The "Known For" card row.

There is one module per source file, plus shared modules:

- `JsText`: JavaScript string and array primitives (`slice`, `indexOf`, `lastIndexOf`,
  truthiness, `||`, `String(n)`).
- `Splitting`: `split` on `/\r?\n\r?\n/`, `/\r?\n/` and `'\n\n'`, and `join`.
- `Sorting`: `Array.prototype.sort`, as a stable insertion sort.
- `Collections`: `filter`, `map`, and the `includes`-guarded `push`.
- `Credits`: the person-credit record and the date and vote fallbacks the person page uses.

**Modelling choices:**

- Code that mutates state step by step is written as methods with loops. Examples are the
  match loop of `parseInlineFormatting`, the budget loop of `createPreviewNodes`, the `reduce`
  and `forEach` groupings and the filmography `for` loop.
- Each such method is proved equal to a function, and the properties are proved about that
  function.
- The components with state are classes whose methods update their fields: the search page
  and the biography block.
- Calls into code that is not modelled are parameters:
  - `Date.parse` and `new Date(...)`;
  - `getTime`, `getFullYear` and `toLocaleDateString`;
  - `Intl.DisplayNames`;
  - `localeCompare`;
  - `encodeURIComponent`.
- A React element passed in by the caller is an opaque type parameter.

Where a source comment and the code disagree, the model follows the code:

- `safeSliceMarkdown` searches for a closing marker only after the *last* occurrence of the
  marker, so it never finds one. A marker that is present therefore always cuts the text just
  before its last occurrence (`Review.TrimMarkerCutsAtLast`).
- The comment in `MovieInfo.tsx` says the people are sorted "alphabetically by first job". The
  code sorts by the priority of the first job in the `importantJobs` list, then by name.

## Model

| member | source | states |
|---|---|---|
| JsText.Slice | src/utils/parseReview.tsx:62 | `slice(start, end)` with in-range indices is the subsequence between them; the result is never longer than the input |
| JsText.Take | src/components/actor/KnownFor.tsx:14 | `slice(0, n)` has length min(n, length) and is a prefix of the input |
| JsText.IndexOfFrom | src/utils/parseReview.tsx:71 | `indexOf(m, i)` is -1 exactly when `m` occurs nowhere from `i` on; otherwise it is the first occurrence at or after `i` |
| JsText.LastIndexOf | src/utils/parseReview.tsx:69 | `lastIndexOf(m)` is -1 exactly when `m` does not occur; otherwise it is the last occurrence |
| JsText.Or | src/components/actor/Filmography.tsx:14 | `a \|\| b` is `a` when `a` is a non-empty string, otherwise `b` |
| JsText.OrElse | src/utils/getMediaTabsForPanel.ts:54 | `a \|\| fallback` is `a` when it is a non-empty string, otherwise the fallback |
| JsText.NatToDecimal | src/components/actor/KnownFor.tsx:29 | `String(n)` for a natural number is non-empty, all decimal digits, with no leading zero |
| JsText.IntToString | src/utils/date.ts:36 | `String(i)` is the digits of `i`, preceded by `-` when `i` is negative |
| JsText.DecimalRoundTrip | src/components/actor/KnownFor.tsx:29 | reading back the digits `String(n)` writes gives `n` |
| JsText.NumberOf | src/components/actor/Filmography.tsx:42 | `Number(s)` of a digit string: `""` reads as 0, the result is defined exactly when `s` is all digits, and then it is the decimal value of the digits |
| JsText.NumberOfRoundTrip | src/components/actor/Filmography.tsx:42 | `Number` reads the digits of any natural number back as that number |
| Splitting.Split | src/utils/parseReview.tsx:42 | `split` always gives at least one piece, and `""` gives `[""]` |
| Splitting.SplitJoin | src/utils/parseReview.tsx:42-45 | when every separator match is the separator's plain text, joining the pieces with it gives the input back |
| Splitting.NoCarriageReturnCanonical | src/utils/parseReview.tsx:42-45 | without `\r` in the input, every match of `/\r?\n\r?\n/` or `/\r?\n/` is `\n\n` or `\n` |
| Splitting.DoubleNewlineSplitJoin | src/components/actor/Biography.tsx:19-22 | `s.split('\n\n').join('\n\n') == s` for every `s` |
| Splitting.SplitFromJoin | src/utils/parseReview.tsx:42 | the split from any scan position joins back to the rest of the input |
| Splitting.NoNewlineSinglePiece | src/utils/parseReview.tsx:45 | text without `\n` is a single piece |
| Splitting.SplitAvoids | src/utils/parseReview.tsx:42 | a character absent from the input is absent from every piece |
| Splitting.SplitLeftmost | src/utils/parseReview.tsx:42 | the first piece runs up to the leftmost separator match and holds none; the rest is the split of the text after that match; one piece exactly when there is no match |
| Splitting.SplitPiecesClean | src/utils/parseReview.tsx:42 | no piece contains a separator match at any position |
| Splitting.LinesHaveNoNewline | src/utils/parseReview.tsx:45 | no line produced by the `/\r?\n/` split contains `\n` |
| Splitting.PiecesHaveNoDoubleNewline | src/utils/parseReview.tsx:42 | no paragraph produced by the blank-line split contains `\n\n` |
| Splitting.SplitBlankLineExample | src/utils/parseReview.tsx:42 | `"a\n\nb"` splits into the two paragraphs `"a"` and `"b"` |
| Splitting.JoinAppend | src/utils/parseReview.tsx:107 | joining one more piece adds the glue and the piece at the end |
| Splitting.JoinCons | src/utils/parseReview.tsx:107 | joining a first piece before the rest puts the glue between them |
| Collections.Filter | src/pages/SearchPage.tsx:55 | `filter` keeps exactly the elements that pass, and is never longer |
| Collections.FilterAppend | src/pages/SearchPage.tsx:55 | filtering distributes over concatenation, so the order of the input is kept |
| Collections.FilterAll | src/components/actor/KnownFor.tsx:13 | filtering with a test every element passes changes nothing |
| Collections.Dedup | src/components/cast/CrewGrouped.tsx:38 | the `includes`-guarded `push` keeps at most as many elements as it is given |
| Collections.DedupNoDup | src/components/cast/CrewGrouped.tsx:38 | the guarded push never keeps an element twice |
| Collections.DedupContains | src/components/cast/CrewGrouped.tsx:38 | an element is kept exactly when it was pushed |
| Collections.DedupSnoc | src/pages/MoviePage.tsx:43-45 | one more push appends the element exactly when it is not already there |
| Collections.DedupFirstSeenOrder | src/utils/getMediaTabsForPanel.ts:60-61 | the kept elements are in the order of their first occurrence |
| Collections.NoDupPermutation | src/pages/MoviePage.tsx:52 | a permutation of a list without duplicates has none |
| Collections.Map | src/pages/MoviePage.tsx:70 | `map` has the same length and applies the function at each position |
| Collections.MultiplicitiesBound | src/utils/getMediaTabsForPanel.ts:65-69 | counting the occurrences of distinct keys counts each element at most once, and counts all of them when every element is a key |
| Sorting.Insert | src/pages/MoviePage.tsx:56-60 | inserting adds exactly the one element |
| Sorting.SortBy | src/pages/MoviePage.tsx:56-60 | `sort(cmp)` on a fresh copy is a permutation of it |
| Sorting.SortBySorted | src/pages/MoviePage.tsx:56-60 | with a comparator that is total and transitive on the elements, the sorted copy has every pair in an order the comparator accepts |
| Sorting.InsertSorted | src/pages/MoviePage.tsx:56-60 | inserting into a sorted list keeps it sorted |
| Sorting.SortByMembers | src/pages/ActorPage.tsx:66 | sorting keeps exactly the same members |
| Sorting.SortByPosition | src/pages/ActorPage.tsx:66 | every element of the input has a position in the sorted copy |
| Sorting.SortedPrefix | src/pages/ActorPage.tsx:58-59 | the first `m` of the sorted copy are sorted, come from the input, and every element left out is accepted after each of them |
| Sorting.SortByAll | src/pages/MoviePage.tsx:56 | a property of every element holds of every element after sorting |
| Sorting.CodeUnitCompare | src/components/cast/CrewGrouped.tsx:48 | the default `sort()` order of strings gives 0 exactly on equal strings |
| Sorting.CodeUnitConsistent | src/components/cast/CrewGrouped.tsx:48 | the default string order is total and transitive |
| Sorting.SortByMap | src/components/movie/MovieInfo.tsx:46-50 | sorting by a comparator that only looks at `f` of its arguments commutes with mapping `f` |
| InlineFormat.LazyAt | src/utils/parseReview.tsx:11 | `open(.+?)close` at `i` finds the nearest `close` after at least one character, with no line terminator between; -1 only when no `close` fits |
| InlineFormat.ExcludingAt | src/utils/parseReview.tsx:11 | `c([^c]+)c` at `i` finds the next `c` at least two positions on, with no `c` between; -1 only when no closing `c` fits |
| InlineFormat.MatchAt | src/utils/parseReview.tsx:11 | a match at `i` ends after `i` and within the line; no match means none of the four alternatives can match at `i` |
| InlineFormat.NextMatch | src/utils/parseReview.tsx:15 | the next match from `from` is the leftmost position where the pattern matches; no position before it matches |
| InlineFormat.ParseInlineFormatting | src/utils/parseReview.tsx:8-34 | the match loop, with its text runs and elements, computes the node list of the line |
| InlineFormat.PushMatch | src/utils/parseReview.tsx:19-25 | one turn pushes the text since the last match, only when non-empty, then the match's element |
| InlineFormat.TokensStep | src/utils/parseReview.tsx:15-27 | the nodes from `last` are the gap text, the match's element, then the nodes after the match |
| InlineFormat.TokensDone | src/utils/parseReview.tsx:31 | with no match left, the rest of the line is one text node, or nothing when it is empty |
| InlineFormat.MatchSource | src/utils/parseReview.tsx:11-25 | the captured text wrapped in the matched delimiters is exactly the matched slice of the line |
| InlineFormat.ParseInlineReconstructs | src/utils/parseReview.tsx:15-31 | concatenating the text nodes and every element's text in its own delimiters gives the line back, in order |
| InlineFormat.ParseInlineWellFormed | src/utils/parseReview.tsx:19-31 | text nodes are never empty, never adjacent, and a line yields no `<br/>` |
| InlineFormat.ParseInlineNoMatch | src/utils/parseReview.tsx:31-33 | a line where the pattern matches nowhere is one text node, and the empty line yields no nodes |
| InlineFormat.NoMarkerNoMatch | src/utils/parseReview.tsx:11 | a position holding neither `*`, `_` nor `<em>` starts no match |
| InlineFormat.PlainLine | src/utils/parseReview.tsx:15-33 | a line without `*`, `_` and `<em>` is exactly one text node equal to the line, or none when empty |
| InlineFormat.UnclosedAsteriskIsLiteral | src/utils/parseReview.tsx:11-31 | a single unclosed `*` stays literal text |
| InlineFormat.DoubleAsteriskIsBold | src/utils/parseReview.tsx:10-22 | where `**` starts a match, the match is the bold alternative |
| InlineFormat.BoldExample | src/utils/parseReview.tsx:10-22 | `**a**` is one `<strong>a</strong>`, never an `<em>` |
| Review.ParseReview | src/utils/parseReview.tsx:41-55 | one paragraph per piece of the blank-line split, so always at least one |
| Review.EmptyReview | src/utils/parseReview.tsx:41-55 | `""` is a single paragraph with no children |
| Review.LineChildrenBr | src/utils/parseReview.tsx:48-51 | a paragraph of `n` lines holds `n - 1` breaks |
| Review.ParagraphBreaks | src/utils/parseReview.tsx:45-51 | every paragraph of a review has one break fewer than its lines |
| Review.LineChildrenFlatten | src/utils/parseReview.tsx:48-51 | writing the children back, breaks as `\n`, gives the lines joined by `\n` |
| Review.ParagraphRoundTrip | src/utils/parseReview.tsx:45-53 | a paragraph without `\r` is given back by its children |
| Review.ParseReviewRoundTrip | src/utils/parseReview.tsx:41-55 | a review without `\r` is given back by writing every node as its source text and joining paragraphs with a blank line |
| Review.TrimMarker | src/utils/parseReview.tsx:68-73 | one reduction step returns a prefix of its input |
| Review.TrimAll | src/utils/parseReview.tsx:68-73 | the reduction over the markers returns a prefix of its input |
| Review.SafeSliceMarkdown | src/utils/parseReview.tsx:60-74 | the result is a prefix of `text.slice(0, limit)` |
| Review.SafeSliceSteps | src/utils/parseReview.tsx:65-73 | the markers are handled in the order `**`, `*`, `_` |
| Review.TrimMarkerCutsAtLast | src/utils/parseReview.tsx:69-72 | an absent marker leaves the text unchanged; a present one always cuts the text just before its last occurrence |
| Review.SafeSliceBounds | src/utils/parseReview.tsx:60-74 | the slice is a prefix of the text and no longer than a non-negative limit |
| Review.SafeSliceWithoutMarkers | src/utils/parseReview.tsx:62-73 | text without `*` and `_` is only sliced |
| Review.SafeSliceClosedBold | src/utils/parseReview.tsx:68-73 | `**a**` with limit 5 becomes `*`, although its bold was closed |
| Review.ClosedBoldCut | src/utils/parseReview.tsx:69-72 | the `**` step cuts `**a**` to `**a` |
| Review.OpenStarCut | src/utils/parseReview.tsx:69-72 | the `*` step cuts `**a` to `*` |
| Review.PreviewTexts | src/utils/parseReview.tsx:94-104 | the preview keeps no more paragraphs than there are |
| Review.PreviewStep | src/utils/parseReview.tsx:95-103 | one turn of the budget loop: stop at no budget, keep a fitting paragraph and charge it plus 2, or keep the sliced paragraph and stop |
| Review.CreatePreviewNodes | src/utils/parseReview.tsx:85-121 | the loop, the parse and the in-place overwrite of the last paragraph compute the preview |
| Review.PreviewPrefix | src/utils/parseReview.tsx:94-104 | the kept paragraphs are a prefix of the split, all unmodified except the last, which is a prefix of its paragraph |
| Review.PreviewLength | src/utils/parseReview.tsx:94-107 | for `maxChars >= 0` the `'\n\n'`-joined preview is never longer than `maxChars` |
| Review.PreviewKeepsAll | src/utils/parseReview.tsx:94-104 | when the whole text fits with room to spare, every paragraph is kept whole |
| Review.PreviewNoBudget | src/utils/parseReview.tsx:90-107 | a budget of 0 or less gives one empty paragraph |
| Review.PreviewBudgetExample | src/utils/parseReview.tsx:97-102 | paragraphs of 100, 50 and 120 with budget 120: the first whole, the second sliced to 18, the third dropped |
| Review.AppendLink | src/utils/parseReview.tsx:110-118 | with a link and some paragraph, only the last paragraph changes, gaining `'...'` and the link after its children |
| DateFormat.JsRemainder | src/utils/date.ts:35 | JavaScript `%` by a positive number: the remainder has the sign of the dividend and is smaller than the divisor |
| DateFormat.FloorDiv | src/utils/date.ts:34 | `Math.floor(a / b)` is the largest `q` with `q * b <= a` |
| DateFormat.FormatRuntime | src/utils/date.ts:32-37 | a missing or zero runtime gives `''`; any other ends in `m` |
| DateFormat.RuntimeText | src/utils/date.ts:36 | the hour part appears only for positive hours, and the minute part always |
| DateFormat.RuntimeParts | src/utils/date.ts:34-35 | for positive minutes, `60*h + m == minutes` and `0 <= m < 60` |
| DateFormat.RuntimeWithHours | src/utils/date.ts:34-36 | `h` hours and `m < 60` minutes, `h >= 1`, read `<h>h <m>m` |
| DateFormat.RuntimeUnderAnHour | src/utils/date.ts:34-36 | under an hour, only `<m>m` |
| DateFormat.RuntimeNegative | src/utils/date.ts:33-36 | a negative runtime shows only its (non-positive) minutes |
| DateFormat.RuntimeExampleHourAndMinutes | src/utils/date.ts:31 | 103 minutes read `1h 43m` |
| DateFormat.RuntimeExampleWholeHours | src/utils/date.ts:36 | 120 minutes read `2h 0m` |
| DateFormat.RuntimeExampleMinutes | src/utils/date.ts:36 | 45 minutes read `45m` |
| DateFormat.FormatDate | src/utils/date.ts:2-10 | a missing or empty date gives `''`; otherwise the formatted date |
| DateFormat.GetYear | src/utils/date.ts:13-17 | a missing or empty date gives `''`; otherwise the year's text, never empty |
| DateFormat.CountryOrDefault | src/utils/date.ts:20 | the country code defaults to `US` only when it is not passed |
| DateFormat.FormatReleaseDate | src/utils/date.ts:20-29 | a missing or empty date gives `''`; otherwise the formatted date followed by ` (<country>)` |
| MediaTabsPanel.NormalizeTabName | src/utils/getMediaTabsForPanel.ts:11-14 | `Behind the Scenes` and `Opening Credits` are kept; any other name loses its last character |
| MediaTabsPanel.NormalizedNames | src/utils/getMediaTabsForPanel.ts:8-14 | `Trailers` becomes `Trailer`, and likewise for the other plural types |
| MediaTabsPanel.NormalizedDistinct | src/utils/getMediaTabsForPanel.ts:8-14 | the normalized names of the movie and tv type lists are all different |
| MediaTabsPanel.VideoTabsFor | src/utils/getMediaTabsForPanel.ts:38-45 | one tab per type in order, counting the videos whose type is the normalized name, with its link |
| MediaTabsPanel.VideoTabNames | src/utils/getMediaTabsForPanel.ts:8-46 | when the first item is a video: the 6 movie types, or 7 for tv, in the fixed order, zero counts included |
| MediaTabsPanel.VideoCountsBounded | src/utils/getMediaTabsForPanel.ts:39 | no video is counted twice: the video counts add up to at most the number of items |
| MediaTabsPanel.LanguageName | src/utils/getMediaTabsForPanel.ts:54 | a missing or empty language code is named `Unknown` |
| MediaTabsPanel.ImageKey | src/utils/getMediaTabsForPanel.ts:52-58 | an item with `iso_639_1` goes under its language name or `No Language`; any other under `defaultType ?? 'Other'` |
| MediaTabsPanel.ImageKeys | src/utils/getMediaTabsForPanel.ts:49-58 | the key of every item, in order |
| MediaTabsPanel.GroupImages | src/utils/getMediaTabsForPanel.ts:49-63 | the mutating `reduce` gives one group per key, in first-seen order, holding exactly the items with that key in input order |
| MediaTabsPanel.PushImage | src/utils/getMediaTabsForPanel.ts:60-61 | one turn creates the group when missing, recording the key, then pushes the item |
| MediaTabsPanel.GroupStep | src/utils/getMediaTabsForPanel.ts:60-62 | one turn keeps the keys and groups equal to those of the items seen so far |
| MediaTabsPanel.GroupSize | src/utils/getMediaTabsForPanel.ts:67 | a group holds as many items as have its key |
| MediaTabsPanel.GroupMembers | src/utils/getMediaTabsForPanel.ts:60-61 | every item of a group has the group's key |
| MediaTabsPanel.ImageTabsFor | src/utils/getMediaTabsForPanel.ts:65-69 | one tab per key, counting its group, with its link |
| MediaTabsPanel.EntriesToTabs | src/utils/getMediaTabsForPanel.ts:65-69 | `Object.entries(...).map(...)`: one tab per key in insertion order, counting the stored group |
| MediaTabsPanel.GetMediaTabsForPanel | src/utils/getMediaTabsForPanel.ts:26-70 | no items give no tabs; the first item decides between video tabs and image groups; every tab links to `/${mediaType}/${mediaId}/${basePath}?active_nav_item=<encoded type>` |
| MediaTabsPanel.ImageTabsPartition | src/utils/getMediaTabsForPanel.ts:49-69 | image tabs: the counts add up to the number of items, none is 0, names are distinct, and every item's key has a tab |
| MediaTabsPanel.ImageTabsOrder | src/utils/getMediaTabsForPanel.ts:60-65 | image tabs follow the order in which their keys first appear |
| CrewGrouped.Department | src/components/cast/CrewGrouped.tsx:22 | a missing department is `Other`; an empty one is kept |
| CrewGrouped.GroupCrewByDepartment | src/components/cast/CrewGrouped.tsx:18-44 | the `forEach` builds the grouping of the credits, with exactly the credits' departments |
| CrewGrouped.EntryIsSummary | src/components/cast/CrewGrouped.tsx:21-41 | a person has an entry in a department exactly when they have a credit there, and the entry summarises those credits |
| CrewGrouped.Entry | src/components/cast/CrewGrouped.tsx:26-39 | id and name from the first credit; jobs distinct, non-empty, in first-seen order; portrait the first non-empty one, else the first credit's own |
| CrewGrouped.JobListed | src/components/cast/CrewGrouped.tsx:35-38 | every credit's non-empty job is in its (department, id) entry |
| CrewGrouped.NoJobNoChange | src/components/cast/CrewGrouped.tsx:38 | a credit with no job adds no job |
| CrewGrouped.FirstPortrait | src/components/cast/CrewGrouped.tsx:27-39 | the first credit with a non-empty portrait: every earlier one has none |
| CrewGrouped.SummarySnoc | src/components/cast/CrewGrouped.tsx:37-40 | updating an entry with a later credit gives the summary of all the credits so far |
| CrewGrouped.EntriesBounded | src/components/cast/CrewGrouped.tsx:21-41 | there are at most as many entries as credits |
| CrewGrouped.HeaderCountsCredits | src/components/cast/CrewGrouped.tsx:53 | the header's `crew.length` is never below the number of listed entries, and equals it exactly when no person has two credits in one department |
| CrewGrouped.HeaderCountExample | src/components/cast/CrewGrouped.tsx:53 | a director credited also as writer is one entry but counts 2 in the header |
| CrewGrouped.DepartmentsListed | src/components/cast/CrewGrouped.tsx:48 | the departments are listed once each, in code unit order, and they are exactly the grouping's |
| CrewGrouped.PeopleListed | src/components/cast/CrewGrouped.tsx:60 | inside a department the entries are listed once each, by ascending id |
| Credits.YearOf | src/components/actor/Filmography.tsx:33 | the year is the first 4 characters of `release_date \|\| first_air_date \|\| ''` |
| Credits.DateOf | src/components/actor/Filmography.tsx:14 | the ordering date is `first_air_date \|\| release_date \|\| ''` |
| Credits.Votes | src/pages/ActorPage.tsx:58 | a missing vote count counts as 0 |
| Credits.YearAndDatePrecedence | src/components/actor/Filmography.tsx:14-33 | with both dates present, the year comes from the release date and the order from the air date |
| MoviePage.JobIndex | src/pages/MoviePage.tsx:51-53 | `importantJobs.indexOf(job)` is -1 exactly for a job not in the list, otherwise its position |
| MoviePage.CollectImportantCrew | src/pages/MoviePage.tsx:35-47 | the mutating `reduce` builds the record of entries, its keys the kept ids in first-seen order |
| MoviePage.AddToRecord | src/pages/MoviePage.tsx:36-46 | one turn skips an unimportant credit, creates the entry on a first kept credit, and pushes a job not yet listed |
| MoviePage.AccSnoc | src/pages/MoviePage.tsx:35-47 | one more credit is one turn of the `reduce`, and a new id joins the end of the keys |
| MoviePage.SortEveryJobList | src/pages/MoviePage.tsx:51-53 | every person's jobs are sorted in place |
| MoviePage.GroupImportantCrew | src/pages/MoviePage.tsx:34-60 | the reduce, `Object.values`, the job sort and the people sort compute the grouped crew |
| MoviePage.EntryIsSummary | src/pages/MoviePage.tsx:36-45 | a person has an entry exactly when they have a kept credit, and it summarises the kept credits |
| MoviePage.ValueIds | src/pages/MoviePage.tsx:34 | `Object.values` lists every kept person once, by ascending id |
| MoviePage.GroupedCrewEntries | src/pages/MoviePage.tsx:34-60 | one entry per person id, named after the first kept credit, with at least one job, no duplicate, every job important, sorted by priority |
| MoviePage.GroupedCrewCovers | src/pages/MoviePage.tsx:36-45 | every kept credit's job is in its person's entry |
| MoviePage.UnimportantDropped | src/pages/MoviePage.tsx:36 | a person with no important job gets no entry |
| MoviePage.SortedJobs | src/pages/MoviePage.tsx:52 | a person's sorted jobs are the same jobs, distinct and strictly by place in `importantJobs` |
| MoviePage.PeopleOrder | src/pages/MoviePage.tsx:56-60 | people are ordered by the priority of their first job, ties by `localeCompare` of the names |
| MoviePage.PersonOrderMeaning | src/pages/MoviePage.tsx:56-60 | the comparator accepts `a` before `b` exactly when its first job is earlier, or equal with the name not after |
| MoviePage.CopyGenres | src/pages/MoviePage.tsx:70 | every genre is copied with its id and name |
| MoviePage.MovieMedia | src/pages/MoviePage.tsx:63-76 | the grouped crew is passed as `crew`, with `mediaType` `movie` and the details copied |
| MovieInfo.CollectImportantCrew | src/components/movie/MovieInfo.tsx:25-37 | the header's `reduce` builds the movie page's record without the ids, with the same keys |
| MovieInfo.AddToRecord | src/components/movie/MovieInfo.tsx:26-35 | one turn of the header's `reduce` on name/jobs entries |
| MovieInfo.NamedAccProject | src/components/movie/MovieInfo.tsx:25-37 | the header's record is the page's record with the ids dropped |
| MovieInfo.GroupImportantCrew | src/components/movie/MovieInfo.tsx:24-50 | the header's grouped crew is the movie page's grouped crew without ids, so every property above carries over |
| SearchPage.Filtered | src/pages/SearchPage.tsx:54-57 | `'all'` gives the results unchanged; another filter keeps exactly the items of that media type |
| SearchPage.FilteredInOrder | src/pages/SearchPage.tsx:55 | one more result is appended to the filtered list exactly when it passes, so order is kept |
| SearchPage.TotalPages | src/pages/SearchPage.tsx:60 | `ceil(n / 10)`: the fewest pages of ten that hold `n` items |
| SearchPage.PageOf | src/pages/SearchPage.tsx:63-66 | a page holds at most 10 items |
| SearchPage.PageContents | src/pages/SearchPage.tsx:63-66 | page `p` is items `[(p-1)*10, p*10)`, cut at the end |
| SearchPage.PagesCoverAll | src/pages/SearchPage.tsx:60-66 | pages 1 to `totalPages` put together give the filtered list |
| SearchPage.PageAfterLast | src/pages/SearchPage.tsx:63-66 | a page past the last is empty |
| SearchPage.SearchPage.ShowPagination | src/pages/SearchPage.tsx:91 | the pager shows exactly when not loading and there are more than 10 filtered items |
| SearchPage.SearchPage.View | src/pages/SearchPage.tsx:77-89 | while loading, "Loading..."; else a non-empty error shows its text; else "No results found." exactly for an empty page, and otherwise the page's one to ten items |
| SearchPage.SearchPage.constructor | src/pages/SearchPage.tsx:18-22 | the page mounts with no results, loading, no error, filter `all`, page 1 |
| SearchPage.SearchPage.ChangeFilter | src/pages/SearchPage.tsx:25-27 | a different filter resets the local page to 1; nothing else changes |
| SearchPage.SearchPage.ChangeQuery | src/pages/SearchPage.tsx:25-33 | a different query resets the page to 1 and starts loading |
| SearchPage.SearchPage.CompleteLoad | src/pages/SearchPage.tsx:34-47 | completes a started load: a blank query gives no results and no error without fetching; a fetched page gives its results and no error; a failed fetch gives no results and the error; loading ends |
| SearchPage.SearchPage.PressPrev | src/pages/SearchPage.tsx:92 | an enabled Prev moves to `page - 1`, staying at least 1 |
| SearchPage.SearchPage.PressNext | src/pages/SearchPage.tsx:92 | an enabled Next moves to `page + 1`, staying within `totalPages` |
| SearchPage.BlankQueryView | src/pages/SearchPage.tsx:35-38 | a blank query, once loaded, shows "No results found." and no pager |
| SearchPage.FailedFetchView | src/pages/SearchPage.tsx:41-44 | after a failed fetch the error shows, and no pager |
| Pagination.PrevDisabled | src/components/search/Pagination.tsx:13 | Prev is disabled exactly when `page - 1` would be below 1 |
| Pagination.NextDisabled | src/components/search/Pagination.tsx:21 | Next is disabled exactly when `page + 1` would pass `totalPages` |
| Pagination.ClickInRange | src/components/search/Pagination.tsx:13-21 | a click from a page in `[1, totalPages]` stays there and moves at most one page |
| Pagination.ClicksInRange | src/components/search/Pagination.tsx:13-21 | any series of clicks from a page in `[1, totalPages]` stays there |
| Pagination.PrevThenNext | src/components/search/Pagination.tsx:13-21 | Prev then Next returns to the page |
| MediaTabs.FocusTarget | src/components/movie/MediaTabs.tsx:22-27 | each of the four keys targets a tab index in `[0, n)`, Home the first tab and End the last; any other key targets none |
| MediaTabs.Press | src/components/movie/MediaTabs.tsx:22-27 | focus stays on a tab |
| MediaTabs.RightStep | src/components/movie/MediaTabs.tsx:23 | ArrowRight moves to the next tab, from the last to the first |
| MediaTabs.LeftStep | src/components/movie/MediaTabs.tsx:24 | ArrowLeft moves to the previous tab, from the first to the last |
| MediaTabs.RightLeft | src/components/movie/MediaTabs.tsx:23-24 | ArrowRight then ArrowLeft, or the reverse, comes back |
| MediaTabs.RightPresses | src/components/movie/MediaTabs.tsx:23 | `k` ArrowRight presses land on `(i + k) mod n` |
| MediaTabs.FullCircle | src/components/movie/MediaTabs.tsx:23 | `n` ArrowRight presses come back |
| MediaTabs.SingleFocusableTab | src/components/movie/MediaTabs.tsx:41-43 | with distinct keys exactly the active tab has `tabIndex` 0 and `aria-selected`; all others have -1 |
| Filmography.ParseTime | src/components/actor/Filmography.tsx:13-17 | the timestamp of `first_air_date \|\| release_date \|\| ''`, 0 when empty or unparseable |
| Filmography.FilmographyByYear | src/components/actor/Filmography.tsx:20-46 | the copy, sort, grouping loop and year sort compute the tab's groups and years |
| Filmography.GroupByYear | src/components/actor/Filmography.tsx:31-36 | the `for` loop builds the groups and the years in insertion order |
| Filmography.PushToYear | src/components/actor/Filmography.tsx:34-35 | one turn creates the year's group when missing, then pushes the credit |
| Filmography.GroupsSnoc | src/components/actor/Filmography.tsx:32-36 | one more credit grows its year's group at the end, and a new year joins the keys |
| Filmography.GroupKeys | src/components/actor/Filmography.tsx:31-36 | a year has a group exactly when some credit has it |
| Filmography.GroupsAreFilters | src/components/actor/Filmography.tsx:31-36 | each group is the sorted list filtered to its year, so it keeps the sorted order |
| Filmography.CreditInOneGroup | src/components/actor/Filmography.tsx:33-35 | every credit lands in its year's group and in no other |
| Filmography.SortedNewestFirst | src/components/actor/Filmography.tsx:21-28 | the sorted copy is a permutation of the credits, newest first |
| Filmography.GroupsNewestFirst | src/components/actor/Filmography.tsx:24-36 | every group runs newest first |
| Filmography.YearsInOrder | src/components/actor/Filmography.tsx:39-43 | the years are exactly those with a group, each once, `''` first, then from the latest back |
| Filmography.SortedYears | src/components/actor/Filmography.tsx:39-43 | sorting distinct years with the comparator puts them in that display order |
| Filmography.NoCreditsNoYears | src/components/actor/Filmography.tsx:75 | the year list is empty exactly when there are no credits |
| ActorPage.Partition | src/pages/ActorPage.tsx:43-51 | acting credits are those with a character; crew ones have a job and no character; never both; together at most all credits |
| ActorPage.KnownForSelection | src/pages/ActorPage.tsx:54-61 | min(6, candidates) acting credits with a poster, a sub-multiset of the candidates, from the most votes down, missing counts as 0 |
| ActorPage.KnownForTop | src/pages/ActorPage.tsx:56-59 | no acting credit with a poster that was left out has more votes than any kept |
| ActorPage.PosterCreditsContain | src/pages/ActorPage.tsx:56-57 | the candidates are exactly the acting credits with a poster |
| ActorPage.CreditCompareMeaning | src/pages/ActorPage.tsx:67-75 | the comparator puts movies before tv, movies by votes and tv by date, larger first |
| ActorPage.SortCreditsOrder | src/pages/ActorPage.tsx:64-75 | `sortCredits` is a permutation; every movie precedes every tv entry, movies by votes descending, tv by date descending |
| ActorPage.ListedTabs | src/pages/ActorPage.tsx:77-85 | each tab lists exactly its own credits, never both |
| ActorPage.GenderLine | src/pages/ActorPage.tsx:109 | no gender paragraph for a missing or 0 gender; 1 is Female, 2 is Male, anything else Unknown |
| ActorPage.DisplayTitle | src/pages/ActorPage.tsx:141-142 | `c.title \|\| c.name`: the title when non-empty, else the name |
| ActorPage.InlineBiographyExpanded | src/pages/ActorPage.tsx:126-131 | the page's own biography is what the biography block shows expanded: the whole text split at `'\n\n'` |
| Biography.Paragraphs | src/components/actor/Biography.tsx:19 | `split('\n\n')` gives at least one paragraph |
| Biography.ShortParagraphs | src/components/actor/Biography.tsx:20-26 | the first 850 characters split at `'\n\n'`, all paragraphs unchanged but the last, which gains `'...'`; joined back, the cut text plus `'...'` |
| Biography.JoinWithEllipsis | src/components/actor/Biography.tsx:24 | appending to the last piece appends to the joined text |
| Biography.ViewOf | src/components/actor/Biography.tsx:14-32 | nothing for an empty biography; "Read more" exactly when collapsed and longer than 850 |
| Biography.ViewText | src/components/actor/Biography.tsx:18-26 | without the button, the whole biography split; with it, the first 850 characters with `'...'` after the last paragraph only |
| Biography.BiographyBlock.constructor | src/components/actor/Biography.tsx:10 | the block mounts collapsed |
| Biography.BiographyBlock.Render | src/components/actor/Biography.tsx:14-32 | the render, with its in-place overwrite of the last paragraph, shows the view of the current state |
| Biography.BiographyBlock.ReadMore | src/components/actor/Biography.tsx:28-29 | the click sets the flag for good; the whole biography then shows without the button |
| KnownFor.SelectedPrefix | src/components/actor/KnownFor.tsx:11-15 | the selection is the first min(6, n) credits with a poster, in input order |
| KnownFor.RowShown | src/components/actor/KnownFor.tsx:19 | the row shows exactly when some credit has a poster |
| KnownFor.Title | src/components/actor/KnownFor.tsx:24 | `title ?? name ?? 'Untitled'`: only a missing value falls through |
| KnownFor.MediaTypeOf | src/components/actor/KnownFor.tsx:25 | `media_type ?? 'movie'` |
| KnownFor.LinkNamesCredit | src/components/actor/KnownFor.tsx:29 | the link reads back as `/<mediaType>/` and the credit's id in digits |

## Left out

- Fetching is not modelled: the API client, the data hooks, the requests on mount and the
  race between overlapping loads. The search page receives a load's outcome as a parameter
  (`SearchPage.SearchPage.CompleteLoad`), and `Math.random` is not modelled.
- React rendering is modelled only as values:
  - no node keys, `cloneElement` or `Children.toArray`;
  - no DOM focus (`tabRefs` writes): focus is the index of the tab that would receive it;
  - `useMemo` is the plain computation.
- These calls are opaque parameters:
  - `Date.parse` and `new Date(...).getTime()` (`None` standing for `NaN`);
  - `toLocaleDateString` and `getFullYear`;
  - `Intl.DisplayNames` behind `getLanguageName`;
  - `localeCompare`;
  - `encodeURIComponent`.

  What they compute, and the user's locale and time zone, are not part of this model.
- `Object.keys` and `Object.entries` of string-keyed records are modelled in insertion order.
  JavaScript lists integer-like keys (such as a year) first, in ascending order. This matters
  for the image tab order when a group name is integer-like. It does not matter for the
  filmography, whose years are sorted afterwards.
- `Object.values` of number-keyed records is modelled in ascending key order, as JavaScript
  lists them.
- Strings are sequences of Dafny characters, not UTF-16 code units. Lengths and slices differ
  for characters outside the Basic Multilingual Plane.
- ReviewCard, which calls the preview builder only for reviews longer than 500 characters
  after trimming, is not part of this model. The builder is modelled for every input.
- DateFormat.FormatRuntime: runtimes are modelled as whole minutes (`Option<int>`). The API
  gives whole minutes, so fractional runtimes (90.5 reads `1h 30.5m` in JavaScript) and `NaN`
  (which the `!minutes` guard turns into `''`) are not modelled.
- ActorPage.GenderLine: a gender of 0 yields no paragraph in the model. In the page,
  `person.gender && ...` then evaluates to the number 0, which React renders as the text "0".
- JsText.NumberOf: reads only strings of decimal digits, which is what a year from a date
  gives. It does not model the whole of `Number(...)`: signs, spaces, exponents and other
  inputs all read as `NaN` here.
- ActorPage.SortCreditsOrder: the order is proved only when every credit is a movie, or a tv
  entry whose date parses. For other credits, `sortCredits` compares dates that may be `NaN`.
  That comparator is not transitive, and JavaScript leaves the sort's order unspecified for it.
- Filmography.YearsInOrder: the display order of the years is proved for years that are empty
  or four digits, which is what date strings give. For other strings the comparator
  reads `NaN`.
- MoviePage.PeopleOrder: needs `localeCompare` to be a total preorder, which the model cannot
  check for the opaque call.
- The person page's loading, error and empty-person branches, the personal-info fields other
  than gender, and image URLs other than the "Known For" poster are not modelled. They are
  JSX over fetched fields.
- `Sorting.SortBy` is a stable insertion sort standing for `Array.prototype.sort`. The source
  sorts only fresh copies or arrays it owns, so sorting in place is modelled as returning the
  sorted value.
