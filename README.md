# Newsroom collection rules, verified in Dafny

This project models the logic of a small single-page newsroom app: the
articles and newsletter issues it stores, and the rules it applies to them.
The app is one React file, `src/App.jsx`. The model covers:

- the Articles page search. The query is trimmed and lowercased, an article
  must pass a text test and a tag test, and the survivors are sorted newest
  first;
- the Articles page tag list (`categories`);
- the Home headline, the four newest issues shown on Home, and the newsletter
  archive. All of these use the same date sort;
- the editor's draft tag list: adding with `+` and removing with `×`;
- the root component's state, which holds the two collections. It changes
  through publish, add newsletter, delete and import, and is read by export.

Modules:

| module | file | what it holds |
|---|---|---|
| `Sequences` | `sequences.dfy` | `Filter`, `Subsequence`, `NoDup`, `IndexOf` and `Dedup` (a JavaScript `Set` built in insertion order), with their lemmas |
| `Ordering` | `ordering.dfy` | the stable newest-first sort, `SortDesc`. It is proved to be ordered, to be a permutation of its input, and to be stable. These three properties determine it |
| `Text` | `text.dfy` | `trim` over ECMAScript's whitespace set, ASCII `toLowerCase`, `includes` and `join` |
| `Content` | `content.dfy` | the `Article` and `Newsletter` records |
| `Search` | `search.dfy` | the search pipeline, the tag list (an imperative method), the headline, the newsletter archive and the Home newsletter list |
| `DraftTags` | `draft_tags.dfy` | `addTag` and tag removal |
| `Newsroom` | `newsroom.dfy` | each transition as a function on the old collections, with lemmas. The class `Root` holds the two collections as fields, and one method per transition states its new state through those functions |

Representation choices:

- A date is an integer day number, so integer order is the calendar order of
  the ISO `YYYY-MM-DD` strings.
- `tags` is optional (`Option<seq<String>>`) because the code reads it as
  `a.tags?`.
- Fresh ids, the answer to the delete confirmation, the parsed import
  document and what local storage held at start-up are all parameters.

Three behaviours of the code worth knowing:

- The text search tests each field on its own. A query that spans two fields
  matches nothing (`FieldsAreSearchedSeparately`).
- Import reports success for any document that parses, even one without
  arrays, which then changes nothing (`ImportWithoutArraysReportsSuccess`).
  Only a parse failure, or the document `null`, reports failure.
- Articles with equal dates stay in collection order, because
  `Array.prototype.sort` is stable.

## Model

| member | source | states |
|---|---|---|
| Text.Trim | src/App.jsx:265 | the result is empty exactly when the input is all whitespace; otherwise it strips only whitespace from both ends and neither starts nor ends with whitespace |
| Text.TrimFixpoints | src/App.jsx:419 | trimming is idempotent, and a string is its own trim exactly when it has no whitespace at either end |
| Text.ContainsLower | src/App.jsx:272 | an occurrence of `q` in `s` survives lowercasing both strings |
| Text.JoinContains | src/App.jsx:270 | every tag occurs inside the tags joined by a separator |
| Sequences.FilterCount | src/App.jsx:267-274 | a `filter` keeps every passing element as often as it occurs, and drops every failing one |
| Sequences.FilterSubsequence | src/App.jsx:305 | a `filter` keeps the surviving elements in their original order |
| Sequences.FilterFilter | src/App.jsx:267-274 | two filters in a row equal one filter by the conjunction of their tests |
| Sequences.DedupSpec | src/App.jsx:259-261 | the distinct elements contain exactly the input's elements, each once, in the order of first occurrence |
| Ordering.SortPermutation | src/App.jsx:275 | the date sort is a permutation of its input |
| Ordering.SortOrdered | src/App.jsx:275 | the date sort never puts an older record before a newer one |
| Ordering.SortStable | src/App.jsx:275 | records with the same date keep their input order through the sort |
| Ordering.SortHead | src/App.jsx:628-630 | the first record of the sort is the first record in the input with the largest date |
| Ordering.SortUnique | src/App.jsx:275 | any sequence that is ordered newest first and has the input's records of each date in input order is the sort's result |
| Search.Selection | src/App.jsx:267-274 | the text filter followed by the tag filter keeps exactly the articles that pass both tests |
| Search.FilteredSpec | src/App.jsx:264-276 | the search result is ordered newest first, holds each article that passes both tests as often as the collection does and no other article, and keeps equal dates in collection order |
| Search.FilteredUnique | src/App.jsx:275 | the search result is the only sequence with the properties of FilteredSpec |
| Search.EmptySearchKeepsAll | src/App.jsx:265-275 | a blank query with no tag selected lists the whole collection newest first, as a permutation of it |
| Search.FilteredEmptyIff | src/App.jsx:266-275 | the result is empty exactly when no article passes both tests |
| Search.UnknownTagFindsNothing | src/App.jsx:274 | selecting a tag that no article carries finds nothing, whatever the query |
| Search.UnmatchedQueryFindsNothing | src/App.jsx:267-273 | a non-blank query that no lowercased field contains finds nothing, whatever the tag |
| Search.TagTextIsSearched | src/App.jsx:270-272 | a query contained in one of an article's lowercased tags passes its text test, because the joined tags are one of the searched fields |
| Search.FieldsAreSearchedSeparately | src/App.jsx:270-272 | with title `ab` and author `cd`, the query `bc` fails the text test although it occurs in the two fields written together |
| Search.AllTagsMembers | src/App.jsx:260 | the tags visited are exactly the tags some article carries; an article without tags contributes none |
| Search.AddEach | src/App.jsx:260 | adding one article's tags to the set leaves the distinct tags of everything seen so far, plus those tags, in first-seen order |
| Search.Categories | src/App.jsx:258-262 | the tag list has no duplicates, holds exactly the tags some article carries, and lists them in order of first occurrence across the articles |
| Search.CategoriesSpec | src/App.jsx:258-262 | the same properties for the first-occurrence list of all tags, as a lemma |
| Search.HeadlineSpec | src/App.jsx:628-630 | there is a headline exactly when there are articles; it is the first of the newest articles in collection order |
| Search.ArchiveSpec | src/App.jsx:327-329 | the archive lists every issue as often as it is stored, newest first, with issues of the same date in stored order |
| Search.LatestNewslettersSpec | src/App.jsx:670-672 | Home shows at most four issues, and exactly four when there are at least four. They are the archive's first issues, newest first, and drawn from the stored issues |
| Search.LatestNewslettersAreNewest | src/App.jsx:670-672 | no issue left off Home is newer than an issue it shows |
| DraftTags.AddTagSpec | src/App.jsx:418-424 | `+` keeps the old tags in place and appends the trimmed input exactly when it is non-empty and new. The input box is cleared when a tag was added, and keeps its text when none was |
| DraftTags.AddTagKeepsClean | src/App.jsx:418-424 | adding keeps the tags duplicate-free, non-empty and trimmed |
| DraftTags.AddTagIdempotent | src/App.jsx:418-424 | pressing `+` twice with the same input adds the tag once |
| DraftTags.RemoveTagSpec | src/App.jsx:511-513 | `×` on `t` drops every occurrence of `t` and keeps every other tag, as often as before and in order |
| DraftTags.RemoveTagKeepsClean | src/App.jsx:511-513 | removing keeps the tags clean, and removes exactly one tag when `t` was present |
| DraftTags.RemoveUndoesAdd | src/App.jsx:418-424 | removing a tag that `+` just added restores the previous tags |
| Newsroom.PublishSpec | src/App.jsx:540-548 | a draft without a title or an author changes nothing; otherwise the draft, under the fresh id, goes in front of the unchanged collection |
| Newsroom.PublishKeepsIdsUnique | src/App.jsx:545 | publishing under an id no article has keeps the article ids unique |
| Newsroom.PublishedIsListed | src/App.jsx:545 | a published article is listed on the Articles page before any search |
| Newsroom.AddNewsletterSpec | src/App.jsx:593-600 | an issue without a title changes nothing; otherwise the issue, under the fresh id, goes in front of the unchanged collection |
| Newsroom.AddNewsletterKeepsIdsUnique | src/App.jsx:598 | adding an issue under an id no issue has keeps the issue ids unique |
| Newsroom.AddedNewsletterIsShown | src/App.jsx:598 | an added issue is in the archive, and is shown on Home when it is newer than every stored issue |
| Newsroom.DeleteSpec | src/App.jsx:305 | delete removes exactly the articles with the id, keeps every other article as often as before and in order, and changes nothing when no article has the id |
| Newsroom.DeleteSparesSameTitle | src/App.jsx:305 | deleting one of two articles with the same title but different ids keeps the other |
| Newsroom.DeleteKeepsIdsUnique | src/App.jsx:305 | deleting keeps the article ids unique |
| Newsroom.DeleteRemovesOne | src/App.jsx:305 | with unique ids, deleting a present id removes exactly one article |
| Newsroom.ImportSpec | src/App.jsx:448-455 | an array field replaces its collection, each independently of the other, and a collection changes only when its field is an array; a failed parse changes neither and is reported as a failure |
| Newsroom.ImportWithoutArraysReportsSuccess | src/App.jsx:449-452 | a document that parses but has no arrays changes nothing, yet is reported as a success |
| Newsroom.ImportExportRoundTrip | src/App.jsx:429-431 | importing an exported document restores the exported collections, whatever the current state, and reports success |
| Newsroom.Root.constructor | src/App.jsx:688-689 | each collection starts as what local storage held for it, or as its seed records when nothing readable was stored |
| Newsroom.Root.Publish | src/App.jsx:540-548 | reports whether the draft passed the check; the articles become `AfterPublish` of the old ones, and the newsletters are unchanged |
| Newsroom.Root.AddNewsletter | src/App.jsx:593-600 | reports whether the issue passed the check; the newsletters become `AfterAddNewsletter` of the old ones, and the articles are unchanged |
| Newsroom.Root.Delete | src/App.jsx:302-307 | a declined confirmation changes nothing; a confirmed one leaves `AfterDelete` of the old articles, and the newsletters are unchanged |
| Newsroom.Root.Import | src/App.jsx:447-456 | reports success exactly when the document parsed to a value other than `null`; each collection is replaced by its field when that field is an array |
| Newsroom.Root.ExportAll | src/App.jsx:426-431 | importing the exported document, from any state, restores the current articles and newsletters and reports success |

## Left out

- `load` and `save` (src/App.jsx:76-89) use the browser's local storage and
  JSON. The constructor takes what was stored as an optional value, where a
  missing or unreadable entry is `None`. Writing back after each change is
  not modelled.
- `cryptoRandomId` (src/App.jsx:62-70) is random. Fresh ids are parameters,
  and the lemmas about unique ids assume the fresh id is new.
- `fmtDate` and JavaScript `Date` arithmetic are not modelled. Dates are
  integer day numbers, so a date that does not parse (which compares as
  `NaN`) has no counterpart.
- `miniMarkdown` and the article viewer are not modelled. They depend on
  JavaScript regular expressions and produce HTML.
- Export is modelled only as the document it writes (`Export`). The `Blob`,
  the download link and the file name are left out.
- Import is modelled from the parsed document onwards. `FileReader`, JSON
  parsing and the shape of each imported record are left out: imported
  records are taken to be well-formed articles and newsletters.
- `alert` and `confirm` are not modelled. Each check's outcome is a returned
  boolean, and the confirmation answer is a parameter of `Delete`.
- The editor resets its forms after publishing and adding a newsletter. That
  state lives inside the editor view, not in the root, so it is left out.
- The seed records `defaultArticles` and `defaultNewsletters` are parameters
  of the constructor, not constants.
- JSX, navigation between views, and the image-to-data-URL upload are UI
  only and not modelled.
- Text.LowerChar: only ASCII `A`–`Z` are lowercased. JavaScript's
  `toLowerCase` follows Unicode case mapping.
- Strings are sequences of code points. JavaScript strings are UTF-16 code
  units, which differ only outside the Basic Multilingual Plane.
- The search and the sorts are functions on values. The collections they
  read are never changed, because the code sorts a copy or a freshly
  filtered array.
