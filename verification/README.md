# Top sponsored card extraction, modelled in Dafny

The crawler service opens a search-results page in a headless browser. A
callback then runs inside the page (`page.evaluate` in `server.js`) and
reads the top sponsored card out of the DOM. This project models that
callback. Each step is a pure function or a short method over an immutable
snapshot of the page, and each step is proved to do what its code says:

1. `pickText` and `uniq` are modelled as `Dom.PickText` and `Unique.Uniq`.
   ECMAScript `trim` is modelled as `Text.Trim`, over its full white-space set.
2. The sponsor link is the first `a` element whose `href` attribute contains
   one of the three sponsor host names (`Dom.FindSponsorAnchor`). Without one,
   the result is `null`.
3. The card container (`Container.SelectContainer`):
   - Walk up from the link for at most 12 elements.
   - Keep each element that has an image and more than 30 characters of text.
   - Score each kept element by its text length, plus 500 when the text
     contains "광고" ("ad").
   - Take the first element of the stable sort by descending score.
   - With no candidate, fall back to the link's parent. With no parent, the
     result is `null`.
4. Thumbnail, advertiser, headline, schedule, tag pills, badge lines and link
   are in `Fields`.
5. The whole callback is `TopCardAd.ExtractTopAd`.

The DOM is given as data:
- Each element is a `Dom.Elem`, holding its tag, its `innerText`, its
  `textContent`, the top-left corner of its bounding box and its resolved
  image `src`.
- Each element's descendants are listed in document order (`Dom.Node`).
- The sponsor link carries its `parentElement` chain (`Dom.Link`).

`Array.prototype.sort` is modelled as a stable insertion sort over a
JavaScript comparator (`StableSort.SortBy`). ECMAScript 2019 and later
require the engine's sort to be stable. Every comparator in the callback is a
strict weak order, and under such an order the stable result is unique. So
the model picks the same first element the engine does. The four regular
expressions are written out as the backtracking matchers that run them, in
`DatePatterns`. Each matcher is proved to accept exactly a declarative
description of its strings.

Some consequences of the code:
- The code does not keep the advertiser and the headline apart.
  `TopCardAd.AdvertiserMayEqualHeadline` exhibits one container where they
  are the same string.
- Tags are 2 to 12 characters long, and at most 12 are kept.
- At most 10 badges are kept.
- The container score is the text length plus a bonus of 500 for "광고".
  Nothing else enters it.
- The advertiser is the top-left text of 2 to 20 characters that holds none
  of "광고", "새소식" and "img". Document order breaks exact position ties.

## Model

| member | source | states |
|---|---|---|
| Text.Trim | server.js:152 | the result of `trim` starts and ends with a non-white-space character (or is empty) |
| Text.TrimSlice | server.js:152 | `trim` returns a slice of its input and removes nothing but white space at both ends |
| Text.TrimOfPadded | server.js:152 | any split of a string into white space, a trimmed middle and white space determines what `trim` returns |
| Text.TrimFixedPoint | server.js:153 | `trim` is idempotent, and it leaves a string unchanged exactly when that string is already trimmed |
| Text.ContainsIff | server.js:175 | `includes` holds exactly when the word occurs at some position |
| Text.NotContainsWithoutFirst | server.js:217-219 | a string that lacks the first character of a word does not include that word |
| Text.SplitLines | server.js:274 | `split("\n")` yields at least one piece, and no piece holds a line feed |
| Text.JoinSplitLines | server.js:274 | joining the pieces of `split("\n")` with line feeds gives back the original text |
| Text.SplitJoinLines | server.js:274 | splitting line-feed-free lines after joining them gives back the same lines |
| Seqs.Filter | server.js:153 | `filter` keeps exactly the elements that pass the test, in their original order |
| Seqs.FilterCount | server.js:153 | `filter` keeps each passing element as often as it occurs in the input and drops every other one, so with `Filter`'s membership clause it fixes the result's multiset |
| Seqs.Map | server.js:153 | `map` yields one result per element, at the same index |
| Seqs.Take | server.js:265 | `slice(0, n)` is the prefix of length `n`, or the whole array when it is shorter |
| Seqs.FilterAll | server.js:276 | a filter that every element passes changes nothing |
| Seqs.SubseqOfPrefix | server.js:265 | a prefix of an order-preserving selection is itself one |
| Seqs.SubseqTrans | server.js:278-283 | two order-preserving selections in a row give one (used for the badge labels, a selection of a filter of the lines) |
| Seqs.SubseqMembers | server.js:283 | every element of an order-preserving selection occurs in its source |
| StableSort.SortBy | server.js:185 | sorting permutes the array (same multiset of elements) |
| StableSort.SortSorted | server.js:185 | for a strict weak order, no element of the sorted array comes before an element to its left |
| StableSort.SortHead | server.js:185 | `sort(cmp)[0]` is the first element, in input order, among those nothing goes before |
| StableSort.FirstBestUnique | server.js:185 | only one position satisfies that description, so the pick is well defined |
| StableSort.FilterSort | server.js:207-221 | filtering after the stable sort gives the same array as sorting after the filter |
| Unique.DedupeFrom | server.js:153 | `[...new Set(a)]` has no repeats, keeps each value not yet seen, and keeps input order |
| Unique.DedupeFromFirstOccurrence | server.js:153 | a `Set` yields its values in the order of their first occurrence |
| Unique.DedupeFromDistinct | server.js:153 | an array without repeats passes through a `Set` unchanged |
| Unique.Uniq | server.js:153 | `uniq` returns distinct values, each a trimmed non-empty input |
| Unique.UniqMembers | server.js:153 | each value `uniq` returns is some input trimmed, and every input that trims to a non-empty string is among them |
| Unique.UniqFirstOccurrence | server.js:153 | `uniq` lists the values in the order of their first occurrence after trimming |
| Unique.UniqOfTrimmed | server.js:153 | on trimmed, non-empty strings, `uniq` only removes repeats |
| Unique.UniqIdempotent | server.js:153 | applying `uniq` twice is the same as applying it once |
| Unique.TrimmedNonEmptyOfTrimmed | server.js:153 | `map(trim).filter(Boolean)` leaves trimmed, non-empty strings unchanged |
| Unique.FirstOccurrencePrefix | server.js:265 | a prefix of an array in first-occurrence order is still in that order |
| Unique.UniqPrefixMembers | server.js:265 | `uniq(a).slice(0, n)` has at most `n` distinct values, all from `a` |
| Unique.UniqPrefixFirstDistinct | server.js:265 | `uniq(a).slice(0, n)` holds distinct values of `a` in first-occurrence order, and all of them when fewer than `n` are kept |
| Unique.DedupeFromNoSkip | server.js:265 | the `Set` skips no value: every input ahead of the first occurrence of a kept value was already in the set or was kept earlier |
| Unique.DedupePrefixNoSkip | server.js:265 | a prefix of `[...new Set(s)]` holds every input that stands ahead of the first occurrence of one of its values |
| Unique.UniqPrefixNoSkip | server.js:265 | `uniq(a).slice(0, n)` skips no value: with `UniqPrefixFirstDistinct` it is exactly the first `n` distinct values of `a` |
| DatePatterns.GreedyDigits | server.js:235 | greedy `\d{1,2}` takes two digits when it can, otherwise one, and matches nothing before a non-digit |
| DatePatterns.DigitsSlashIff | server.js:235 | `\d{1,2}\/` matches exactly one or two digits followed by a slash, with backtracking from two digits to one |
| DatePatterns.StartsWithDayMonthIff | server.js:235 | `/^\d{1,2}\/\d{1,2}/` holds exactly for `d/d…` and `dd/d…` at the start |
| DatePatterns.SpaceRun | server.js:248 | greedy `\s*` takes the whole run of white space and stops at the first other character |
| DatePatterns.NonParenRun | server.js:248 | greedy `[^)]+` takes the whole run up to the next `)` |
| DatePatterns.MatchAt | server.js:248-250 | a match that starts at `i` ends after `i`, within the string |
| DatePatterns.YearMatchIff | server.js:250 | `\b20\d{2}\b` matches at `i` exactly when a word-bounded `20dd` stands there |
| DatePatterns.DayMonthMatchIff | server.js:249 | `\b\d{1,2}\/\d{1,2}\b` matches at `i` exactly when a word-bounded day/month stands there, and the match ends where that shape ends |
| DatePatterns.DatedParenMatchIff | server.js:248 | `\b\d{1,2}\/\d{1,2}\s*\([^)]+\)` matches at `i` exactly when a day/month, optional spaces and a non-empty parenthesis stand there, and the match ends at the `)` |
| DatePatterns.DatedParenShapeEnd | server.js:248 | each such shape fixes where the greedy matcher ends |
| DatePatterns.Leftmost | server.js:248-250 | `match` finds the match with the leftmost start, and reports none only when no start position matches |
| Dom.PickText | server.js:152 | `pickText` yields a trimmed string |
| Dom.SelectAll | server.js:202 | `querySelectorAll` of tag selectors yields only descendants with those tags, every such descendant, in document order |
| Dom.SelectAllCount | server.js:202 | each descendant with one of the tags is selected as often as it occurs, and no other element is, so equal nested elements are all kept |
| Dom.FindSponsorAnchor | server.js:156-161 | the anchor is the first link, in document order, whose `href` holds a sponsor host; there is none exactly when no link does |
| Dom.FirstImg | server.js:191-194 | `querySelector("img")` / `("img[src]")` yields the first matching descendant; there is none exactly when no descendant matches |
| Container.Walk | server.js:169-181 | the walk visits the link and then its ancestors, nearest first: 12 elements, or the link and all its ancestors when there are fewer |
| Container.CollectCandidates | server.js:168-181 | the candidates are exactly the walked elements with an image and more than 30 characters of text, nearest first, each with its score |
| Container.CollectStep | server.js:176-177 | pushing a new candidate keeps the loop invariant |
| Container.Best | server.js:184-185 | `candidates.sort(byScoreDesc)[0]` has the highest score and is the earliest pushed among equal scores; it is absent only for no candidates |
| Container.BestStep | server.js:184-185 | the entry picked is the walk step with the highest score, and every nearer candidate step scores strictly less |
| Container.BestIsBestStep | server.js:184-185 | what the sort picks from the collected candidates is that best step of the walk |
| Container.BestStepUnique | server.js:184-185 | only one step of the walk is the best one |
| Container.Parent | server.js:186 | the fallback is the link's parent, absent exactly when the link has none |
| Container.SelectContainer | server.js:168-188 | the container is the best candidate step, otherwise the parent; it is absent exactly when there is no candidate and no parent |
| Fields.ImageElem | server.js:191-194 | the image element is an `img` under the container or under the link |
| Fields.ImageThirdFallbackUnreachable | server.js:194 | the `img[src]` fallback never finds anything that the first `img` query missed |
| Fields.Image | server.js:195 | the thumbnail, `imgEl?.src` or `null`, is never the empty string |
| Fields.ImageIsFirstImage | server.js:191-195 | the thumbnail is the source of the container's first image, else the source of the link's first image, else absent |
| Fields.TextBlocks | server.js:202-204 | the advertiser candidates are trimmed texts of 2 to 20 characters |
| Fields.ByPositionIsReadingOrder | server.js:212 | the position comparator (top difference, else left difference) orders blocks from top to bottom, then left to right |
| Fields.ByPositionIsStrictWeakOrder | server.js:212 | that comparator is a strict weak order |
| Fields.Advertiser | server.js:202-223 | the advertiser has 2 to 20 characters, is trimmed and includes none of "광고", "새소식", "img"; it is absent exactly when no block passes the filter |
| Fields.AdvertiserPick | server.js:215-223 | the first block left after sorting and filtering is one of the blocks, and it passes the filter |
| Fields.AdvertiserIsTopLeft | server.js:207-223 | the advertiser is the top-left block that passes the filter, the first in document order among blocks at the same position |
| Fields.ByLengthDescIsStrictWeakOrder | server.js:238 | `b.length - a.length` is a strict weak order |
| Fields.Headline | server.js:229-238 | the headline passes all three filters and is trimmed; it is absent exactly when no text passes |
| Fields.HeadlineIsLongest | server.js:238 | the headline is the longest candidate, the first in document order among those of that length |
| Fields.FirstMatch | server.js:248-251 | `match(re)[0]` is the text of the leftmost match; it is absent exactly when no position matches |
| Fields.ScheduleOf | server.js:245-251 | the schedule is a substring of the container text; it is absent exactly when none of the three patterns matches |
| Fields.MatchOccurs | server.js:251 | the text of a match occurs in the string that was searched |
| Fields.ScheduleIsLeftmostOfFirstPattern | server.js:247-251 | the schedule is the leftmost match of the first pattern, in the order tried, that matches at all |
| Fields.Schedule | server.js:245 | the schedule is read from the text of the container |
| Fields.TagCandidates | server.js:257-261 | every tag candidate has 2 to 12 characters, includes neither "광고" nor "새소식", does not start like a date, and is trimmed |
| Fields.Tags | server.js:265 | at most 12 tags, no repeats, each a tag candidate |
| Fields.TagsFirstDistinct | server.js:265 | the tags are distinct candidates in first-occurrence order, and every candidate is present when fewer than 12 are kept |
| Fields.TagsNoSkip | server.js:265 | even at 12 tags, every candidate ahead of the first occurrence of a kept tag is kept too: the tags are the first 12 distinct candidates |
| Fields.Lines | server.js:273-276 | the lines are trimmed, non-empty and free of line feeds |
| Fields.TrimmedLines | server.js:275-276 | trimming pieces and dropping empty ones yields trimmed, non-empty, line-feed-free lines |
| Fields.TrimmedLinesIsTrimThenFilter | server.js:275-276 | that is the same as `map(trim)` followed by `filter(Boolean)` |
| Fields.TrimSubstring | server.js:275 | trimming adds no character |
| Fields.BadgeLabels | server.js:278-283 | at most 10 labels, no repeats, each a line of the container text that holds a badge keyword |
| Fields.BadgeLabelsFirstDistinct | server.js:278-283 | the labels are distinct keyword lines in first-occurrence order, and every keyword line is present when fewer than 10 are kept |
| Fields.BadgeLabelsNoSkip | server.js:278-283 | even at 10 labels, every keyword line ahead of the first occurrence of a kept label is kept too: the labels are the first 10 distinct keyword lines |
| Fields.BadgeLabelsInLineOrder | server.js:273-283 | the labels follow the order of the lines of the container text |
| Fields.Badges | server.js:286 | each badge carries a distinct keyword line as its label and no second line |
| Fields.LinkOf | server.js:290 | the link is absent exactly when the anchor's `href` is empty, and otherwise is that `href` |
| TopCardAd.CardOf | server.js:292-300 | a returned card has at most 12 tags and 10 badges, and a link exactly when the anchor's `href` is non-empty |
| TopCardAd.ContainerUnique | server.js:184-186 | the container is determined by the sponsor link |
| TopCardAd.ExtractTopAd | server.js:151-301 | `null` without a sponsor link, or without a candidate and a parent; otherwise the card read from the one container the link determines |
| TopCardAd.SampleTextTrimmed | server.js:152 | the sample text is already trimmed |
| TopCardAd.SampleTextNoDate | server.js:235 | the sample text does not start like a date |
| TopCardAd.SampleTextNoExcludedWord | server.js:217-219 | the sample text holds none of the excluded words |
| TopCardAd.SampleAdvertiser | server.js:200-224 | for the sample container, the advertiser is the sample text |
| TopCardAd.SampleHeadline | server.js:227-239 | for the sample container, the headline is the sample text |
| TopCardAd.AdvertiserMayEqualHeadline | server.js:200-239 | some container has an advertiser, and its headline is the same string |

## Left out

- The HTTP routes, the browser launch, the navigation and its wait, and the
  URL building around the callback are left out. They are I/O around the
  callback.
- The loop over several search keywords is left out. It calls the same
  extraction once per keyword.
- DOM semantics are not modelled; they are inputs:
  - `innerText` and `textContent`, including how `innerText` lays out line
    breaks;
  - `getBoundingClientRect`;
  - document order;
  - resolution of `href` and `src` against the page URL.
- `cur instanceof Element` is not modelled. The link and its `parentElement`
  chain are always elements.
- String lengths count Unicode scalar values. JavaScript counts UTF-16 code
  units, so the two differ only for characters outside the Basic
  Multilingual Plane. Such a character counts once here and twice in the
  browser.
- Bounding-box coordinates are integers, while the browser uses
  floating-point values. `NaN` and fractional differences are not modelled.
- Full ECMAScript regular-expression semantics are not modelled. Only the
  four fixed patterns of the callback are written out, in non-unicode mode.
  The keyword alternation of the badge filter is modelled as "contains one of
  the words".
- Dom.FirstImg: for `img[src]`, an element counts when its resolved source is
  non-empty. The presence of the attribute itself is not modelled.
- TopCardAd.CardOf: the field contracts are stated on the field functions. The
  card only repeats the bounds on its tags, its badges and its link.
- Dom.Link: the resolved `href` is an input of its own, not derived from the
  raw `hrefAttr`. So the model admits a sponsor link whose `href` is empty,
  and thus a card with no link. A browser never produces this, because an
  attribute that holds a sponsor host resolves to a non-empty URL.
