# Garden entry list — a Dafny model

The homepage of this personal site lists its "garden" entries with a script,
`js/garden.js`. The script asks the hosting service for the files in the
`entries` folder. It keeps the `.html` files and sorts their names in
descending order. It then appends one link per file to the page, titled by
`formatTitle`. A response that is not ok, or any error thrown on the way,
replaces all of this with a single error line.

The model keeps that logic and drops the browser around it:

- `Text` (`text.dfy`) holds the string operations the script uses, each with
  its ECMAScript meaning. `endsWith` is the test of the listing filter.
  `formatTitle` is built from `replace` with a string pattern (first
  occurrence only), `replace(/-/g, ' ')`, and `replace(/\b\w/g, toUpperCase)`.
- `Order` (`order.dfy`) holds the sort order and an insertion sort into
  descending order. It proves that the order is total, so that the sorted
  listing is unique.
- `Garden` (`garden.dfy`) holds `FormatTitle`, the filter/sort/map pipeline
  and `LoadEntries`. The filter keeps the names for which `endsWith('.html')`
  holds. `LoadEntries` turns a `Response`
  (`Ok(names) | NotOk | Failed(message)`) into the list items the page shows
  (`Link(href, text) | Error(message)`).
- `TitleExamples` and `ListingExamples` (`title_examples.dfy`,
  `listing_examples.dfy`) work through concrete names.

Assumption about `localeCompare`: it is modelled as plain lexicographic order
on characters (`Order.LexLe`). A shorter string that is a prefix of a longer
one sorts first. Because this is a total order, two equal names are
identical. So the result of the sort does not depend on the algorithm or on
its stability, and `Order.SortedDescUnique` proves this.

What `garden.js` does with names and responses:

- It lists only `.html` files. No file gets a `.md` template URL.
- It does not parse a `YYYY-MM-DD-` prefix or format a date. The prefix stays
  in the title (`TitleExamples.ExampleDatePrefix`).
- It gives a 403 response no special message. Every response that is not ok
  gives the same fixed message.
- It takes titles from `formatTitle`. That function removes the *first*
  `.html` wherever it occurs. Every hyphen becomes a space. Each ASCII word
  character at a word boundary is upper-cased.

## Model

| member | source | states |
|---|---|---|
| Text.EndsWith | js/garden.js:46 | `name.endsWith('.html')`: true exactly when the suffix is no longer than the name and the name's last characters equal the suffix's, position by position. |
| Text.EndsWithAppend | js/garden.js:46 | Any text followed by the suffix ends with it. |
| Text.EndsWithSplit | js/garden.js:46 | A name that ends with the suffix is its front followed by the suffix. |
| Text.IndexOfFrom | js/garden.js:23 | The scan that finds the string pattern `.html` for `replace`. A found index is an occurrence at or after the start, with no occurrence between the start and it. "Not found" means there is no occurrence at or after the start. |
| Text.IndexOf | js/garden.js:23 | The pattern is found exactly when the string contains it, and the index found is the leftmost occurrence. |
| Text.RemoveFirst | js/garden.js:23 | `replace('.html', '')`: with no occurrence the string is unchanged. Otherwise exactly the leftmost occurrence is cut out, and the result is shorter by the pattern's length. |
| Text.RemoveFirstAt | js/garden.js:23 | Per character: characters before the first occurrence stay in place, and the rest move left by the pattern's length. |
| Text.RemoveFirstRoundTrip | js/garden.js:23 | Inverse: putting the pattern back at the first-occurrence index restores the original name. |
| Text.RemoveFirstKeepsLaterOccurrences | js/garden.js:23 | Only the first occurrence goes: a later, non-overlapping occurrence is still present, shifted left. |
| Text.ReplaceChar | js/garden.js:25 | `replace(/-/g, ' ')`: the length is preserved, every `-` becomes a space, every other character is unchanged, and no `-` remains. |
| Text.ToUpper | js/garden.js:27 | `toUpperCase` on a matched word character: only `a`-`z` change, each to its capital, and a character stays a word character or not. |
| Text.CapitalizeAfter | js/garden.js:27 | The left-to-right scan that carries "was the previous character a word character". It agrees at every index with the boundary rule. |
| Text.CapitalizeWords | js/garden.js:27 | `replace(/\b\w/g, …)`: the length is preserved. A character is upper-cased exactly when `\b\w` matches at its index, where `\b` means a word character on exactly one side. Every other character is unchanged. |
| Text.CapitalizeWordsChanges | js/garden.js:27 | Both directions: a character changes if and only if it is a lower-case ASCII letter at index 0 or after a non-word character. |
| Text.CapitalizeWordsIdempotent | js/garden.js:27 | Capitalising an already capitalised string changes nothing. |
| Garden.FormatTitle | js/garden.js:21-29 | The title is 5 shorter than the name when the name contains `.html`, and as long as the name otherwise. It contains no `-`. Each character is the stripped name's character, a space for a hyphen, or upper-case at a word start. Word starts are read off the stripped name, because hyphens and spaces are both non-word. |
| Garden.FormatTitleChanges | js/garden.js:21-29 | Both directions: a title character differs from the stripped name's character exactly at hyphens and at lower-case ASCII letters that start a word. |
| Garden.FormatTitleStripsExtension | js/garden.js:23 | For a name whose only `.html` is its extension, the text that is titled is the name without the extension. |
| Garden.HtmlOnly | js/garden.js:46 | `filter(endsWith('.html'))`: every kept name ends in `.html`. Each `.html` name is kept as many times as it occurs, and no other name is kept. |
| Order.LexLeReflexive | js/garden.js:47 | The assumed `localeCompare` order is reflexive. |
| Order.LexLeAntisymmetric | js/garden.js:47 | The order is antisymmetric: names that compare both ways are equal. |
| Order.LexLeTransitive | js/garden.js:47 | The order is transitive. |
| Order.LexLeTotal | js/garden.js:47 | The order is total: any two names compare one way or the other. |
| Order.LexLeAtFirstDifference | js/garden.js:47 | The order is decided at the first position where two names differ. |
| Order.Insert | js/garden.js:47 | Inserting into a descending sequence keeps it descending. It adds exactly one copy of the new name. |
| Order.SortDesc | js/garden.js:47 | `sort((a, b) => b.name.localeCompare(a.name))`: the result is in descending order and is a permutation of the input (same multiset). |
| Order.SortedDescUnique | js/garden.js:47 | Two descending sequences with the same elements are equal, so the sorted listing is uniquely determined. |
| Garden.Listing | js/garden.js:45-47 | The names the page links to are in descending order. Each `.html` name of the directory appears as many times as it occurs there, and no other name appears. |
| Garden.ListingCharacterised | js/garden.js:45-47 | Both directions: a sequence is the listing if and only if it is descending and holds exactly the directory's `.html` names, counted with multiplicity. |
| Garden.LoadEntries | js/garden.js:32-69 | A response that is not ok gives exactly `[Error("Не удалось загрузить записи. Попробуйте позже.")]`. A thrown error gives exactly one `Error` with its message. In both cases there is no link. An ok response gives one `Link` per `.html` name and nothing else. |
| Garden.PrefixRoundTrip | js/garden.js:53 | Text facts for the `href`: the folder is a prefix, the name can be read back after it, and a `.html` ending survives. |
| Garden.EntryLink | js/garden.js:49-55 | The link built for one file is a `Link` whose `href` starts with `entries/`. The file name read back from the `href` is the name the link was made for. A `.html` name gives an `href` ending in `.html`. The link text has no `-`. |
| Garden.LinkedNames | js/garden.js:53 | Reading names back off links gives one name per item. For a link into `entries/`, putting the folder back in front of the name gives the link's `href`. |
| Garden.LoadEntriesLinks | js/garden.js:48-55 | On success, item `i` is a `Link` with `href == "entries/" + name` for the `i`-th listed name. That name ends in `.html`, and the item's text is `formatTitle(name)` with no `-`. |
| Garden.LoadEntriesRoundTrip | js/garden.js:53 | Reading the file names back out of the links gives the listing, in order. |
| Garden.LoadEntriesPermutation | js/garden.js:46-48 | The links are a permutation of the filtered input: one link per `.html` name (with multiplicity), and none for any other name. |
| Garden.LoadEntriesOrdered | js/garden.js:47 | The links appear in non-increasing order of their file names. |
| TitleExamples.ExampleNoDate | js/garden.js:21-29 | `formatTitle("no-date-file.html") == "No Date File"`. |
| TitleExamples.ExampleDatePrefix | js/garden.js:21-29 | `formatTitle("2025-12-05-notes.html") == "2025 12 05 Notes"`: a date prefix is kept in the title. |
| TitleExamples.ExampleFirstOccurrence | js/garden.js:23-27 | `formatTitle("a.html-b.html") == "A B.Html"`: only the first `.html` is removed, and the `h` after the remaining `.` starts a word. |
| TitleExamples.ExampleCyrillic | js/garden.js:27 | `formatTitle("яblog-заметка.html") == "яBlog заметка"`: Cyrillic letters are non-word characters. They are never upper-cased, and a Latin letter right after one starts a word. |
| TitleExamples.ExampleNoExtension | js/garden.js:21-29 | `formatTitle("readme") == "Readme"`: without `.html` the length is kept. |
| ListingExamples.ExampleFilterAndSort | js/garden.js:45-47 | `["a.html", "notes.txt", "b.html"]` lists as `["b.html", "a.html"]` and gives two items. |
| ListingExamples.ExampleNewestFirst | js/garden.js:47 | Zero-padded date-prefixed names list newest first. |

## Left out

- The browser side is not modelled. This covers `fetch`, `response.json()`,
  `document.querySelector`, `createElement`/`appendChild`, `console.error`
  and the `DOMContentLoaded` listener. The result of the request is the
  `Response` parameter. The page content is the returned item sequence.
- Each directory record is reduced to its `name`. A malformed record (no
  `name`, or a `name` that is not a string) makes `file.name.endsWith` throw
  inside `filter` (js/garden.js:46). That happens before `sort` and
  `forEach` run, so no link has been appended yet, and the `catch`
  (js/garden.js:61-67) shows a single error item. A `json()` body that is not
  an array makes `files.filter` throw in the same place. `Failed(message)`
  covers all of these cases, so the data can never produce a partial list.
- Order.LexLe: `localeCompare` is locale-sensitive collation (ICU), and the
  code cannot show or check it. It is replaced by lexicographic order on
  characters, a total order. Dafny characters are Unicode scalar values,
  while ECMAScript strings are UTF-16 code units. The two orders can
  therefore differ when characters outside the Basic Multilingual Plane are
  compared with characters from U+E000 to U+FFFF.
- Garden.LoadEntries: the error item is `Error(message)`. The page shows the
  message inside a red `<span>` after a warning sign, set through
  `innerHTML`. That styling is presentation and is not modelled, and neither
  is the HTML-injection concern that `innerHTML` raises.
- Items are appended to whatever the `.garden-map` element already holds.
  The model returns only the items this run adds.
- `String.prototype.endsWith` and the regular expressions work on UTF-16
  code units. Every character the rules single out (`.`, `h`, `t`, `m`, `l`,
  `-`, `[A-Za-z0-9_]`) is ASCII, so treating strings as sequences of
  characters changes nothing except the `localeCompare` caveat above.
