# Verified model of the portfolio site's pure logic

The site is a Next.js portfolio with a blog, a cooking section and project,
work and software cards. Most of it is rendering; this project models the
small pure pieces that decide what is rendered, and proves what they promise:

- **Keyword emphasis** (`text.utils.ts`): the keyword list, the regex
  `\b(k1|…|kn)\b` with flags `gi`, and the scan that cuts a text into plain
  and bold segments (`emphasizeHtml`, `safeSegments`, `splitForPdf`), plus the
  technology label normaliser `normalizeTech`.
- **Blog filters** (`BlogFilters.tsx`): the search, the `origin` and `type`
  facets with their `"All"` sentinel, the three sort orders, the facet option
  lists and the sort control's labels.
- **Durations** (`date.utils.ts`): `parseLooseDate` and `calcDuration` over
  month-precision dates.
- **Navigation** (`Nav.tsx`): the menu order (Home first, then longest name
  first, alphabetical among equal lengths) and the active-link tests.
- **Cards** (`SoftwareCard.tsx`, `WorkCard.tsx`, `ProjectCard.tsx`): the
  display values each card derives from its loosely typed props.
- **Post loader** (`posts.ts`): building a post from a parsed Markdown file,
  slugs from file names, and the newest-first listing.

Dynamically typed props are the `JsValues.JsValue` datatype (`typeof`,
`Array.isArray`, truthiness, `??`, `String(x)`). JavaScript's `%` is modelled
with truncation (`JsValues.JsRem`). `Array.prototype.sort` is stable, so it is
modelled by a stable insertion sort on integer-sequence keys (`StableSort`).
For that sort the model proves sortedness, a multiset-preserving result,
stability, and that the result is unique. Strings are `seq<char>`.

The main operations each have a partner statement that is proved about
them. A segmentation is checked against a predicate saying what a correct
emphasis is, and that predicate is shown to determine it. The regex pattern
is parsed back into its keywords. A duration label is read back into its
month count. The menu order is stated through the comparator. The keyword,
facet-value and OS tag lists are shown to work piece by piece, which fixes
their order and keeps repeats. Some small definitions are stated case by
case, as the source writes them: `parseLooseDate`, the card props and the
slug.

## Model

| member | source | states |
|---|---|---|
| TechNames.NormalizeTech | src/utils/text.utils.ts:18-19 | Same length as the input; a label equal to `"square api"` in any ASCII case becomes `"Square"`, every other label is kept, and no output label is the alias |
| TechNames.NormalizeIdempotent | src/utils/text.utils.ts:18-19 | Normalising a normalised list changes nothing |
| KeywordRegex.Keywords | src/utils/text.utils.ts:29-33 | Every kept keyword is non-empty and already trimmed; a string is kept exactly when it is the non-empty trim of some string element (non-strings count as `""`); order and repeats are stated by `KeywordsConcat` and `KeywordsSingle` |
| KeywordRegex.KeywordsConcat | src/utils/text.utils.ts:29-33 | The keywords of two lists joined are those of the first list followed by those of the second, so the input order and any repeats are kept |
| KeywordRegex.KeywordsSingle | src/utils/text.utils.ts:30-33 | A single element gives its trim when it is a string with a non-empty trim, and nothing otherwise |
| KeywordRegex.BuildKeywordRegex | src/utils/text.utils.ts:27-41 | No regex exactly when the input is not an array or no element trims to a non-empty string; otherwise the alternatives are the kept keywords in order |
| KeywordRegex.EscapeIsLiteral | src/utils/text.utils.ts:35 | An escaped keyword, read as a pattern, is the literal keyword: no metacharacter survives escaping |
| KeywordRegex.AlternationIsLiteral | src/utils/text.utils.ts:35-36 | The escaped keywords, joined with the alternation bar, read back as exactly the keyword list |
| KeywordRegex.SourceRoundTrip | src/utils/text.utils.ts:36 | The pattern text `\b(…)\b` parses back into exactly the regex's keywords, so every keyword is matched literally |
| KeywordRegex.FirstAlternative | src/utils/text.utils.ts:36 | The chosen alternative matches at the position, case-insensitively, between two word boundaries, and no earlier alternative does; none is chosen only when no alternative matches |
| KeywordRegex.MatchAt | src/utils/text.utils.ts:36 | The regex matches at a position exactly when some keyword matches there between word boundaries. The match is as long as the first keyword in list order that matches there, not the longest: never empty, never past the end of the text |
| KeywordRegex.FirstListedWins | src/utils/text.utils.ts:36 | With `go` listed before `go lang`, the match at the start of `"go lang"` is `go` |
| KeywordRegex.FirstHit | src/utils/text.utils.ts:65-67 | The hit found from a position is the leftmost match at or after it: no match starts in between, and no hit means no match anywhere after it |
| KeywordRegex.Exec | src/utils/text.utils.ts:65-67 | `regex.exec` from `lastIndex`: the leftmost non-empty, in-bounds match at or after `lastIndex`, or none when no position after it matches |
| Emphasis.Emphasize | src/utils/text.utils.ts:57-76 | Concatenated, the segments are the text; no regex or no text gives the single plain segment `text`; otherwise the segments are a correct emphasis of the text under the regex's matches |
| Emphasis.ScanValid | src/utils/text.utils.ts:62-75 | The `exec` loop, from any `lastIndex`, produces a correct emphasis of the rest of the text |
| Emphasis.ValidConcat | src/utils/text.utils.ts:62-75 | Lossless: the segments of a correct emphasis concatenate to the text they cover |
| Emphasis.ValidShape | src/utils/text.utils.ts:68-74 | A correct emphasis has no empty segment and never two plain segments in a row |
| Emphasis.ValidUnique | src/utils/text.utils.ts:57-76 | Two correct emphases of the same text are equal, so the correctness predicate determines the segments |
| Emphasis.Hits | src/utils/text.utils.ts:65-72 | The successive matches lie in the text, are matches at their start, and do not overlap: each search resumes at the end of the previous match |
| Emphasis.BoldSegmentsAreHits | src/utils/text.utils.ts:65-72 | The bold segments are exactly the successive non-overlapping matches, in order |
| Emphasis.SafeSegments | src/utils/text.utils.ts:85-98 | A string is emphasised as `emphasizeHtml` does; anything else is one plain segment holding `""` for null or undefined and `String(text)` otherwise |
| Emphasis.SplitForPdf | src/utils/text.utils.ts:107-120 | The PDF parts are exactly the texts of the `emphasizeHtml` segments, in order |
| Emphasis.CollectParts | src/utils/text.utils.ts:109-119 | The loop collects the texts of the segments the scan produces, the tail after the last match included |
| Duration.MakeMonthDate | src/utils/date.utils.ts:21 | `new Date(y, m, 1)` gives a month in 0..11 and the same absolute month number as year `y` (19xx for 0..99) plus `m` months |
| Duration.ParseLooseDate | src/utils/date.utils.ts:18-25 | Empty or `"present"` in any case is now; an exact `YYYY-MM` is that year and month minus one; anything else is the natural parse, or now when that is invalid |
| Duration.ParseYearMonth | src/utils/date.utils.ts:20-21 | A four-digit year and a month 1..12 written as `YYYY-MM` parse to that year and month minus one |
| Duration.MonthsBetween | src/utils/date.utils.ts:39-40 | The month count is the difference of the two absolute month numbers |
| Duration.FormatDuration | src/utils/date.utils.ts:41 | A count of zero or fewer months is `"0 mo"` |
| Duration.FormatReadsBack | src/utils/date.utils.ts:42-47 | The label of a positive count reads back as that count under a reader that accepts only `"<y> yr"`/`"<y> yrs"` (plural exactly above one), optionally followed by `" <rem> mo"` with 0 < rem < 12, or `"<rem> mo"` alone, with every count written without a leading zero; so the label is the decomposition years·12 + rem with 0 ≤ rem < 12 |
| Duration.OnlyLabelsRead | src/utils/date.utils.ts:41-47 | The converse: any string that reads as a count is a positive count's label, written exactly as `${years}` and `${rem}` write it, so each count has exactly one label |
| Duration.PaddedCountsRejected | src/utils/date.utils.ts:42-47 | `"01 yr"` and `"02 mo"` are not labels: a padded count is never read |
| Duration.ReadFormatted | src/utils/date.utils.ts:44-47 | Each of the three label shapes reads back as 12·years + rem |
| Duration.CalcDuration | src/utils/date.utils.ts:34-48 | An empty or `"present"` end is now |
| Duration.EndIsParsed | src/utils/date.utils.ts:35-37 | Treating an empty or `"present"` end as now agrees with parsing that end with `parseLooseDate` |
| Duration.ExampleDuration | src/utils/date.utils.ts:32 | From `"2023-01"` to `"2024-03"` is `"1 yr 2 mo"` |
| Duration.FourteenMonths | src/utils/date.utils.ts:42-45 | Fourteen months are labelled `"1 yr 2 mo"`: one year is singular and the months follow |
| Nav.PathPart | src/containers/nav/Nav.tsx:74 | The path part is a prefix of the address without `#`, and the address continues with `#` when it is longer |
| Nav.PathPartIsBeforeFirstHash | src/containers/nav/Nav.tsx:74 | The path part is the address cut at the first `#` as `indexOf` finds it, or the whole address without one |
| Nav.IsActive | src/containers/nav/Nav.tsx:72-75 | Home is active only on exactly `"/"`; any other entry is active exactly when the path starts with its address's path part |
| Nav.ActiveUnderPath | src/containers/nav/Nav.tsx:74 | A longer path under an active non-home entry keeps it active |
| Nav.FindHome | src/containers/nav/Nav.tsx:82 | The entry found has address `"/"` and no earlier entry has; none found means no entry has that address |
| Nav.NameKeyOrder | src/containers/nav/Nav.tsx:86-90 | The sort key orders two entries exactly as the comparator does: longer name first, then alphabetical |
| Nav.OthersSorted | src/containers/nav/Nav.tsx:83-90 | The sorted rest holds exactly the entries whose address is not `"/"`, in the comparator's order |
| Nav.SortedItemsMembers | src/containers/nav/Nav.tsx:81-93 | The menu shows exactly the non-home entries and the home entry `find` picks |
| Nav.SortedItemsOrder | src/containers/nav/Nav.tsx:82-92 | The home entry leads when there is one; after it no entry is home and every pair is longest-name-first, alphabetical among equal lengths |
| Nav.SortedItemsPermutation | src/containers/nav/Nav.tsx:81-93 | With at most one home entry the menu is a rearrangement of the entries |
| Nav.BaseOrder | src/containers/nav/Nav.tsx:43-56 | The site's own menu reads Home, Software, Cooking, Blog |
| Nav.SubItemActive | src/containers/nav/Nav.tsx:128 | Exact equality can only hold when the path carries a `#` or the address does not |
| Nav.HomeSubItemsNeverActive | src/containers/nav/Nav.tsx:48-51 | On a path without a fragment neither home sub-entry is ever highlighted |
| Nav.SubItemActiveAt | src/containers/nav/Nav.tsx:128-134 | With the fragment, a sub-entry is active exactly when the path is its path part and the fragment is the rest of its address |
| Nav.ProjectsActiveAt | src/containers/nav/Nav.tsx:49 | With the fragment, `/#projects` is highlighted on `"/"` scrolled to `#projects` |
| BlogFilters.FilteredPosts | src/containers/blog/BlogFilters.tsx:116-150 | The result is a rearrangement of exactly the posts passing search, origin and type; newest gives non-increasing dates, oldest non-decreasing, most views non-increasing views with missing views as 0 |
| BlogFilters.FilteredStable | src/containers/blog/BlogFilters.tsx:136-149 | Posts that tie under the chosen order keep their input order |
| BlogFilters.FilteredUnique | src/containers/blog/BlogFilters.tsx:136-149 | Any sorted, tie-preserving ordering of the passing posts is the result |
| BlogFilters.FilteredIdempotent | src/containers/blog/BlogFilters.tsx:119-149 | Filtering the filtered list again with the same controls changes nothing |
| BlogFilters.InitialShowsAll | src/containers/blog/BlogFilters.tsx:92-97 | The initial controls (empty search, newest, `"All"`, `"All"`) show every post |
| BlogFilters.TruthyValues | src/containers/blog/BlogFilters.tsx:105 | The kept values are exactly the present, non-empty field values; order and repeats are stated by `TruthyConcat` and `TruthySingle` |
| BlogFilters.TruthyConcat | src/containers/blog/BlogFilters.tsx:105 | The values of two post lists joined are those of the first followed by those of the second, so first-seen order and repeats are kept |
| BlogFilters.TruthySingle | src/containers/blog/BlogFilters.tsx:105 | One post contributes its value when it is present and non-empty, and nothing otherwise |
| BlogFilters.FacetOptions | src/containers/blog/BlogFilters.tsx:102-114 | No options off the cooking list; otherwise `"All"` then each distinct present value once, in first-seen order |
| BlogFilters.FacetShown | src/containers/blog/BlogFilters.tsx:207-222 | A facet control appears exactly on the cooking list when some post has a non-empty value for it |
| BlogFilters.SortLabel | src/containers/blog/BlogFilters.tsx:185-191 | The caption shown is one of the three options and selecting it gives the same order back |
| BlogFilters.LabelRoundTrip | src/containers/blog/BlogFilters.tsx:192-202 | Selecting any listed caption shows that caption again |
| BlogFilters.DisplayedOptions | src/containers/blog/BlogFilters.tsx:211 | The facet control lists every option upper-cased, in order |
| BlogFilters.SelectingAllHidesPosts | src/containers/blog/BlogFilters.tsx:212-216 | As written, selecting the displayed `"ALL"` hides a post the initial `"All"` shows |
| BlogFilters.SelectFacet | src/containers/blog/BlogFilters.tsx:212-216 | Selecting an option changes only the chosen facet |
| BlogFilters.SelectFacetMeaning | src/containers/blog/BlogFilters.tsx:126-132 | After the corrected selection, `"ALL"` passes every value and any other option passes exactly the values equal to it up to case |
| BlogFilters.UpperIsNotSentinel | src/containers/blog/BlogFilters.tsx:127 | No upper-cased caption equals the sentinel `"All"` |
| PostTypes.NewestFirstSorted | src/lib/posts.ts:98-100 | Sorted by the date-descending comparator, dates never increase |
| Posts.SplitWhitespace | src/lib/posts.ts:59 | At least one piece; no piece holds whitespace; only the first and last may be empty, and the first is not when the text starts with a non-space |
| Posts.SplitJoinWords | src/lib/posts.ts:59 | Words joined by single spaces split back into the same words, so the word count is the number of words |
| Posts.ReadingMinutes | src/lib/posts.ts:60 | The minutes are the fewest that cover the words at 250 a minute, never below 1 |
| Posts.ReadingTime | src/lib/posts.ts:59-60 | The reading time is the decimal writing of those minutes: digits only, denoting the minutes, at least 1, with no leading zero |
| Posts.ExcerptText | src/lib/posts.ts:66 | The trimmed excerpt, `""` without one, and always its own trim |
| Posts.StripExcerpt | src/lib/posts.ts:52-57 | The stripped body is trimmed, and is the trimmed content when neither the excerpt nor the separator occurs |
| Posts.StripLeadingExcerpt | src/lib/posts.ts:52-57 | Excerpt, separator, body strips to exactly the trimmed body |
| Posts.CreatePost | src/lib/posts.ts:46-73 | Front-matter fields and slug copied through; excerpt trimmed; content stripped only when asked; reading time is the minutes of that content |
| Posts.SlugOf | src/lib/posts.ts:95 | A name ending in `.md` loses exactly that suffix; any other name is unchanged |
| Posts.SlugRoundTrip | src/lib/posts.ts:146 | The file `${slug}.md` names the slug again |
| Posts.CookingTestRedundant | src/lib/posts.ts:104-107 | The `name !== "cooking"` test never removes an entry: a `.md` name is never `cooking` |
| Posts.PostEntries | src/lib/posts.ts:104-107 | The kept entries are exactly the post files of the listing |
| Posts.Build | src/lib/posts.ts:109-114 | One post per file, in listing order, slug from the file name |
| Posts.SortedPosts | src/lib/posts.ts:81-123 | No listing or any unloadable file gives no posts; otherwise a rearrangement of the built posts, dates never increasing |
| Posts.SortedPostsFromEntries | src/lib/posts.ts:104-112 | Every listed post comes from a post file of the listing named by its slug plus `.md` |
| Posts.PostData | src/lib/posts.ts:132-153 | A post exactly when the file loads, with that slug and the excerpt stripped from its body |
| SoftwareCard.SafeText | src/components/card/SoftwareCard.tsx:49-57 | Null or undefined shows as `""`, anything else as `String(x)` |
| SoftwareCard.SafeLink | src/components/card/SoftwareCard.tsx:51-56 | A link only for a non-empty string; kept when it starts with `"http"`, else `"https://"` in front; it always starts with `"http"` and ends with the given link |
| SoftwareCard.SafeLinkIdempotent | src/components/card/SoftwareCard.tsx:51-56 | Normalising a normalised link changes nothing |
| SoftwareCard.OsTags | src/components/card/SoftwareCard.tsx:58-64 | No tags for a non-string or empty value; every tag is non-empty, trimmed and comma-free; the tags are the non-empty trimmed comma pieces; order and repeats are stated by `OsTagsConcat` and `OsTagsPiece` |
| SoftwareCard.OsTagsConcat | src/components/card/SoftwareCard.tsx:58-64 | The tags of `a,b` are the tags of `a` followed by the tags of `b`: order and repeats are kept |
| SoftwareCard.OsTagsPiece | src/components/card/SoftwareCard.tsx:58-64 | A comma-free piece gives its trim as one tag, or no tag when it is blank |
| SoftwareCard.OsTagsPair | src/components/card/SoftwareCard.tsx:58-64 | Two non-blank comma-free pieces, padded in any way, give their trims in the order written, and the same tag twice when both trim alike |
| SoftwareCard.OsTagsOfList | src/components/card/SoftwareCard.tsx:59-64 | Trimmed, comma-free names written as `"a, b, c"` give back exactly those tags, in order |
| SoftwareCard.ShowCopyButton | src/components/card/SoftwareCard.tsx:114 | The copy button shows exactly for a string with a non-whitespace character |
| WorkCard.Techs | src/components/card/WorkCard.tsx:45 | A non-array gives no technologies; an array of strings gives its normalised labels, same length; an array with a non-string makes the render throw |
| WorkCard.ChipSlugs | src/components/card/WorkCard.tsx:96 | Each chip slug is its label lower-cased, with no upper-case letter left |
| WorkCard.SlugsAreFixed | src/components/card/WorkCard.tsx:96 | Lower-casing the slugs again changes nothing |
| WorkCard.Href | src/components/card/WorkCard.tsx:103-109 | A link exactly for a truthy value; a string starting with `"http"` kept, anything else `"https://"` then `String(link)`; always starting with `"http"` |
| WorkCard.HrefIdempotent | src/components/card/WorkCard.tsx:105-108 | Normalising a normalised link changes nothing |
| WorkCard.Rotation | src/components/card/WorkCard.tsx:46 | The tilt is -1 for even indices and 1 for odd ones |
| ProjectCard.Links | src/components/card/ProjectCard.tsx:78-82 | A non-empty `sourceLinks` array, else `[sourceLink]` for a string, else nothing |
| ProjectCard.LinksFromProps | src/components/card/ProjectCard.tsx:78-82 | Every code link shown was given in `sourceLinks` or as `sourceLink`, and there are none only when neither prop supplies one |
| ProjectCard.Techs | src/components/card/ProjectCard.tsx:77 | An array is kept, anything else gives nothing |
| ProjectCard.CodeLabel | src/components/card/ProjectCard.tsx:143 | `"Code"` for a single link, `"Code <i+1>"` when there are several |
| ProjectCard.CodeLabelsDistinct | src/components/card/ProjectCard.tsx:138-143 | With several links no two code buttons share a label |
| ProjectCard.ProjectLink | src/components/card/ProjectCard.tsx:31-37 | Nothing exactly when the address is missing or empty, otherwise a button to it with its caption |
| ProjectCard.CodeButtons | src/components/card/ProjectCard.tsx:138-145 | One slot per link; a button exactly for a non-empty string link, to it and with its position's label |
| ProjectCard.DemoButton | src/components/card/ProjectCard.tsx:132-137 | A `"Demo"` button exactly for a non-empty string `demoLink` |
| ProjectCard.Rotation | src/components/card/ProjectCard.tsx:75 | For a non-negative index the tilt is in -1..1 and is `index mod 3` minus one; a negative index gives -3..-1 |
| ProjectCard.NegativeIndexRotation | src/components/card/ProjectCard.tsx:75 | Index -1 gives tilt -2, outside the intended range |

## Left out

- `fetchAndParseMd`, `axios`, `fs` and `gray-matter` are not modelled: no network, file or front-matter parsing. The directory listing and the per-file loader are parameters. A failed request, a failed read or a rejected `Promise.all` is `None`, and any such failure leads to `[]` or `null`.
- JavaScript `Date` is not modelled. The natural-language parse `new Date(s)` is a parameter that returns `None` for an invalid date. The two `new Date()` reads are one `now` value. A post's `date` is already the integer `getTime()` timestamp, and NaN timestamps are not modelled.
- Case mapping is ASCII only; Unicode case folding is not modelled.
- `localeCompare` is code-point order.
- String lengths and indices count Unicode scalar values, while JavaScript's `.length` and slices count UTF-16 code units. A character outside the Basic Multilingual Plane counts once here and twice in JavaScript. So a name with such a character, such as `"🍳 Cook"`, can sort differently against a name of about the same length in the menu order of `Nav.tsx`.
- Numbers are integers, so `String(x)` of a fractional number is not modelled.
- Regular expressions are modelled only for the keyword patterns this code builds. The global regex's `lastIndex` state is the scan's explicit position.
- The `catch` branches of `buildKeywordRegex` and `safeSegments` are not modelled. Nothing in the modelled code throws: the pattern is fully escaped and the scan is total.
- React rendering, hooks and `memo` are not modelled; `useDeferredValue` is taken as already settled.
- Animation props, icons and `key` props are not modelled.
- The clipboard copy and its timer are not modelled.
- The "SHOWING N POSTS" counter, the searching spinner and the empty-list message are not modelled.
- Views are an input field of the post (`Option<int>`); the view counts merged in by the blog page are not part of this model.
- Duration.FormatDuration: its own contract covers only the `"0 mo"` case. The exact writing of a positive label is stated by `FormatReadsBack` together with its converse `OnlyLabelsRead`, and by `ReadFormatted` and `FourteenMonths`.
- Duration.CalcDuration: its own contract covers the empty or `"present"` end only. `EndIsParsed` states the general case.
- Posts.StripExcerpt: its contract states that the body is trimmed and gives the case where neither the excerpt nor the separator occurs. `StripLeadingExcerpt` gives the excerpt, separator, body layout. The general replace-first composition is only its definition.
- Duration.ParseYearMonth: covers four-digit years 1000..9999. The years 0000..0099 that `new Date` turns into 19xx are covered by `MakeMonthDate` only.
- Nav.SortedItemsPermutation: requires at most one home entry. With two, `find` keeps one and the filter drops both, and `SortedItemsMembers` describes that case.
- Emphasis.SafeSegments: a non-string is rendered through `JsValues.ToJsString`, which covers integers, booleans, strings, nested arrays and plain objects only.

## Findings

| source | as written | input that shows it | evidently intended | confidence | as-written member | corrected member |
|---|---|---|---|---|---|---|
| src/containers/blog/BlogFilters.tsx:211-216 | The facet control lists its options upper-cased, and selecting one stores that upper-cased caption. The sentinel test compares with `"All"` exactly, so `"ALL"` is treated as a value. | One cooking post with origin `"Italy"`; select `"ALL"` in the origin control. The post disappears, although it is shown initially. | Selecting `"ALL"` resets the facet to the sentinel and shows every post again. | not executed | BlogFilters.SelectingAllHidesPosts | BlogFilters.SelectFacetMeaning |
| src/containers/nav/Nav.tsx:128 | A sub-entry is highlighted only when the path equals its address. The home sub-entries' addresses are `/#projects` and `/#skills`, and the router's path never holds a fragment. | The home page scrolled to `#projects`: the path is `"/"`, and the Projects sub-entry is not highlighted. | A sub-entry is highlighted when the path and the location's fragment together make its address. | not executed | Nav.HomeSubItemsNeverActive | Nav.ProjectsActiveAt |
