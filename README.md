# Team page: student directory

This is a Dafny model of the script behind the IMS-FORTH team page. The page lists student records fetched from `data.json`.

- Rendering puts them in the `#students` container, grouped by calendar month of arrival, newest month first. Each month gets a separator with its "Month Year" label, followed by a wrapper holding one card per student of that month.
- The search box filters the cards as the user types. A card stays displayed when the normalised term (lower-cased, then trimmed) occurs in its name, bio or job attribute. A month's separator and wrapper are hidden when none of its cards matches. When a non-empty term matches nothing, a single "no results" message is shown.
- Loading fills a counter with the number of records, or with an error mark when the fetch fails.

The project is split into modules that follow the script's parts:

| file | module | what it holds |
|---|---|---|
| `text.dfy` | `Text` | ASCII case mapping, JavaScript `trim`, `includes` and its meaning as "occurs at some position" |
| `dates.dfy` | `Dates` | arrival dates, their order, and the "Month Year" label (injective on calendar months) |
| `cards.dfy` | `Cards` | the student record and the card built from it (filter attributes and displayed text with fallbacks) |
| `grouping.dfy` | `Grouping` | the sorted copy, the `reduce` into month buckets, the key sort and its reversal |
| `rendering.dfy` | `Rendering` | the container's children after rendering |
| `filtering.dfy` | `Filtering` | what filtering does to the container's children, and the properties of the search |
| `page.dfy` | `TeamPage` | the page as a class whose methods `Render`, `Filter` and `Load` change the container and the counter step by step, each proved equal to the functions above |

The container is a sequence of `Node`s:

- a separator, with its label and whether it is displayed;
- a wrapper, with its cards and whether it is displayed;
- the empty-list placeholder;
- the load-error paragraph;
- the "no results" message.

A card carries its four lower-case `data-*` attributes, the texts it displays and its display flag.

## Model

| member | source | states |
|---|---|---|
| Text.TrimIsCore | static/js/script.js:156 | the trimmed term is a contiguous piece of the input with no whitespace at either end, and everything cut off is whitespace |
| Text.ContainsIffOccurs | static/js/script.js:178 | `includes(t)` holds exactly when `t` occurs at some position of the string |
| Text.ContainsTransitive | static/js/script.js:178 | a piece of a piece of a string is a piece of that string |
| Text.LowerIdempotent | static/js/script.js:108-111 | lower-casing twice is lower-casing once |
| Dates.LabelInjective | static/js/script.js:61-64 | two arrival dates get the same "Month Year" label if and only if they are in the same month of the same year |
| Cards.CardFallbacks | static/js/script.js:113-147 | a new card is displayed; name, school, bio, job, GitHub link and CV link show the field when present and the fixed fallback ("N/A", "N/A", "No bio available.", "STUDENT", "#", "#") when missing; the job is shown in capitals |
| Cards.CardAttributes | static/js/script.js:108-111 | the four filter attributes are lower case; a present name, school or bio is stored as displayed, up to case (the school is stored but never searched); a missing one is stored as the empty string, not as its fallback; the job attribute is the lower-cased displayed job, "student" by default |
| Grouping.SplitByDate | static/js/script.js:57-59 | every record is either dated or undated, and the two parts together are the input |
| Grouping.SortedCopyIsPermutation | static/js/script.js:46-51 | the sorted copy holds exactly the input records; it starts with all the dated records in ascending arrival order, and every record after them is undated |
| Grouping.AllDatedCopy | static/js/script.js:46-51 | when every arrival date is valid, the copy is exactly the stable ascending sort of the whole input |
| Grouping.SortStable | static/js/script.js:46-51 | records with the same arrival date keep their relative input order through the sort |
| Grouping.SortKeysKeepsAscending | static/js/script.js:77-82 | keys already in comparator order (each key's first record in an earlier month than the next key's) come out of the key sort unchanged |
| Grouping.KeySortUnchanged | static/js/script.js:54-82 | on an ascending input the reduce inserts its keys in comparator order, so the key sort gives the insertion order back unchanged |
| Grouping.MonthOrderKeys | static/js/script.js:77-86 | every label in the emission order is a key of the buckets, so each month's bucket is found |
| Grouping.GroupsLabelled | static/js/script.js:54-74 | every emitted group is non-empty; its records are dated, carry its label and fall in one calendar month; they keep ascending arrival order |
| Grouping.GroupsNewestFirst | static/js/script.js:77-84 | each group's month is strictly later than the month of every group emitted after it, so no label is emitted twice |
| Grouping.GroupsPartition | static/js/script.js:54-74 | the groups together hold every record with a valid date as often as the input does, and nothing else |
| Grouping.ExactPlacement | static/js/script.js:54-74 | a record with a valid date is in exactly one group, the one with its own label; an undated record is in none |
| Rendering.RenderShape | static/js/script.js:38-151 | rendering replaces the old content; an empty list gives only the placeholder; otherwise group `i` becomes its separator at position `2i` and its wrapper of one card per member right after; everything is displayed and no "no results" message is left |
| Rendering.RenderedCardCount | static/js/script.js:104-150 | there is one card per record with a valid date, and the cards are exactly those records' cards |
| Filtering.BlankTermIsEmpty | static/js/script.js:156 | a search input made only of whitespace gives the empty term |
| Filtering.NormalizeIsNormal | static/js/script.js:156 | the normalised term has no capital letters and no whitespace at either end, and normalising it again changes nothing |
| Filtering.MatchIffOccurs | static/js/script.js:175-178 | a card matches exactly when the term occurs in its name, bio or job attribute |
| Filtering.EmptyTermMatches | static/js/script.js:178 | the empty term matches every card |
| Filtering.NarrowerTermMatches | static/js/script.js:178 | a card that a term matches is matched by every piece of that term |
| Filtering.ShownIffMatches | static/js/script.js:170-193 | after the wrapper loop some card is displayed exactly when some wrapper had a matching card |
| Filtering.FilterRules | static/js/script.js:160-203 | only display flags change; a card is displayed iff it matches; a wrapper iff one of its cards is; a separator right before a wrapper iff that wrapper is; every other child is untouched; a message, if one is added, comes last, and it is added exactly when the term is not empty and nothing matched |
| Filtering.FilterMessage | static/js/script.js:160-203 | with at most one message before, there is exactly one message afterwards iff the term is not empty and no card is displayed, and none otherwise; with more messages before, there are never more afterwards |
| Filtering.RefreshIdempotent | static/js/script.js:170-193 | running the wrapper loop again with the same term changes nothing and finds the same matches |
| Filtering.FilterIdempotent | static/js/script.js:154-205 | filtering twice with the same term is filtering once, given at most one message to begin with |
| Filtering.FilterEmptyTerm | static/js/script.js:156-204 | the empty term displays every card and every wrapper that has a card, and adds no message |
| Filtering.FilterNarrowing | static/js/script.js:174-187 | narrowing the term to a piece of itself hides no card and no wrapper that the longer term displayed |
| Filtering.GroupMatchesCards | static/js/script.js:174-187 | a month's rendered cards have a match exactly when one of its records has a matching card |
| Filtering.SearchRendered | static/js/script.js:86-203 | on the page rendered from a non-empty list, each month's separator and wrapper stay in place; a card is displayed iff its record matches; the separator and wrapper are displayed iff some record of that month matches; the message is appended iff the term is not empty and no record of any month matches |
| TeamPage.BuildCards | static/js/script.js:104-149 | one card per member, in member order, each built from its record |
| TeamPage.GroupByMonth | static/js/script.js:54-74 | the loop builds the same buckets and the same insertion-ordered keys as the reduce modelled by `Grouping.Groups` and `Grouping.KeyOrder` |
| TeamPage.ShowMatching | static/js/script.js:171-185 | each card of a wrapper is displayed iff it matches, and the flag says whether any of them does |
| TeamPage.Restyle | static/js/script.js:168-193 | the wrapper loop restyles the children exactly as `Filtering.Refresh` defines, and the global flag says whether any wrapper had a match |
| TeamPage.Page.constructor | static/js/script.js:2-6 | the page starts with the three elements present or absent as given, an empty container, a blank counter and no records |
| TeamPage.Page.Render | static/js/script.js:33-152 | with a container present, its content is replaced by the rendering of the list, so rendering twice is rendering once and at most one message is present; without one nothing changes; the counter and the records are never touched |
| TeamPage.Page.Filter | static/js/script.js:154-205 | with a search box and a container present, the children become the filtered children for the normalised term; otherwise nothing changes; "at most one message" is preserved; the counter and the records are not touched |
| TeamPage.Page.Load | static/js/script.js:8-31 | without a container, only the counter changes, to the error mark; on a successful fetch the records are kept, the counter shows their number (dated or not) and they are rendered; on a failed fetch the container shows the load error and the counter the error mark |

## Left out

- Fetching and decoding `data.json` (lines 15-19) is not modelled as I/O: `Load` takes the fetch outcome as a parameter, either the records or a failure.
- The asynchronous timing of `loadStudents` and the `input` event wiring (lines 207-211) are left out. `Filter` is one call with the search box's current value.
- Markup, CSS classes, HTML escaping and the `innerHTML` strings are left out. A child of the container is an abstract `Node`, and a card records only its attributes, its displayed texts and its display flag.
- `console.error` and `console.warn` output is left out.
- Date parsing (`new Date(arrivalDate)`) is not modelled. A record's arrival is an already parsed calendar date, or absent when the string does not parse. Time of day and time zone are left out, so records arriving on the same day compare as equal.
- The label's locale: `toLocaleString('default', ...)` depends on the browser. The model fixes it to lower-case Italian month names followed by the decimal year; the script's capitalisation of the first letter is then applied.
- Case mapping covers ASCII letters only. `trim` uses JavaScript's whitespace set.
- An absent text field is modelled as the empty string, like any other falsy value. The interpolated image source therefore does not reproduce the literal `undefined` that the markup would print for a missing `profileImg`.
- The sort comparator at lines 46-51 answers 0 whenever a date is invalid. That is not a consistent order, so the engine's result is unspecified: around an undated record it may leave dated records out of order (for example, one non-descending run of 20 March, an invalid date and 1 March can come back unchanged). `SortedCopy` takes the dated records, stably sorted, followed by the undated ones in input order. When every date is valid this is exactly the stable sort the script asks for (`AllDatedCopy`).
- Grouping.GroupsLabelled: the ascending order inside a month is guaranteed by the script only when every date is valid; with an invalid date among the records it follows from the tie-break `SortedCopy` chooses, not from the script.
- The `catch` at lines 70-72 can never fire for a parsed date, so it is left out. So is the `isNaN` guard inside the key comparator at line 80, since every bucket's first record has a valid date.
- Keys of the bucket object that could clash with `Object.prototype` properties are left out. A label always contains a space and a year, so none of them clashes.
- An exception thrown by `renderStudents` inside `loadStudents`'s `try` (which would display the load error) is left out; rendering has no failing step in the model.
- `filterStudents` sets `anyCardVisibleGlobal` inside the card loop. `Restyle` sets it once per wrapper from the wrapper's flag, with the same final value.
- `previousElementSibling` is modelled as the child right before the wrapper, which must be a separator. The test at line 197 always passes, since the variable was reset at line 165, so the model appends the message without it.
- `querySelector('#no-filter-results-message')` removes only the first message. The model does the same, so the page's invariant `Valid` is "at most one message". `FilterIdempotent` requires it.
