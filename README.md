# BetterGov.ph page logic and region-splitting script, modelled in Dafny

This project models the small pieces of sequential logic in the BetterGov.ph
website (a directory of Philippine government services) and proves properties
of them:

- **Senate Committees page** (`senate_committees.dfy`, module
  `SenateCommittees`): the Senate record is the first legislative chamber whose
  name contains `Senate`. Its `permanent_committees` list is used, or the empty
  list when the record or the field is missing. The list is then filtered by a
  search term. A committee is kept when the lower-cased term occurs in the
  lower-cased committee name or chairperson. The page shows the unfiltered
  count in its header, and the "No committees found" state when the filtered
  list is empty.
- **Project Ideas page** (`ideas.dfy`, module `ProjectIdeas`): the two badge
  colour mappings, the badge capitalisation and the five statistics (total
  ideas, high priority, distinct categories, simple projects, total upvotes).
  It also models the in-place ranking of the ideas by net score (upvotes minus
  downvotes, highest first). That ranking is `Array.prototype.sort`, which
  section 23.1.3.30 of ECMA-262 requires to be stable. `SortIdeas` sorts an
  `array<Idea>` in place with insertion sort and is proved equal to the
  specification function `SortByNet`. Lemmas prove that `SortByNet` is sorted,
  a permutation (ideas and ids), stable, and leaves every statistic unchanged.
- **LGU split script** (`split_lgu.dfy`, module `SplitLgu`): `main` validates
  its input (missing file, unparseable JSON, non-array top level: exit status
  1). It creates the output directory before reading the file, so a file that
  exists but cannot be read (`readFileSync` throws, and Node exits with status
  1) also leaves the directory created. Then it walks the regions
  in order:
  - non-objects are skipped silently;
  - objects without a non-empty string `slug` are skipped with a warning;
  - every other region is written unchanged to `<slug>.json`, counting the
    writes.

  The output directory is a class `OutputDir` whose `files` map (file name to
  JSON value) the loop updates in place. Slugs are not checked for uniqueness.
  A repeated slug overwrites the earlier file, and both writes are counted.
- **Shared option type** (`option.dfy`, module `Optional`): the `Option`
  datatype used by both the page model and the script model.
- **ASCII text helpers** (`text.dfy`, module `AsciiText`): `toLowerCase`,
  `includes` and `charAt(0).toUpperCase() + slice(1)`, restricted to ASCII
  letters.

JavaScript arrays are one detail the split script treats differently from
other non-objects. `typeof [] === 'object'` and `[]` is truthy, so an array
entry passes the first skip test. It then reaches the slug test (`[].slug` is
`undefined`) and is skipped *with* a warning. The model follows the code here.

## Model

| member | source | states |
|---|---|---|
| AsciiText.Lower | src/pages/government/legislative/senate-committees.tsx:29-30 | `toLowerCase` keeps the length and lower-cases each character on its own (ASCII letters only) |
| AsciiText.Includes | src/pages/government/legislative/senate-committees.tsx:29-30 | `includes` is true exactly when the term occurs at some position of the string |
| AsciiText.IncludesLower | src/pages/government/legislative/senate-committees.tsx:29-30 | an occurrence survives lower-casing both strings |
| AsciiText.IncludesTransitive | src/pages/government/legislative/senate-committees.tsx:29-30 | a substring of a substring is a substring |
| AsciiText.LowerIdempotent | src/pages/government/legislative/senate-committees.tsx:29-30 | lower-casing twice equals lower-casing once, so a lower-cased term searches like the original |
| AsciiText.CapitalizeKeepsLower | src/pages/Ideas.tsx:252-253 | the capitalised value equals the original up to ASCII case at every position |
| AsciiText.Capitalize | src/pages/Ideas.tsx:252-253 | the capitalised value has the same length; its first character is the upper-cased first character and every later character is unchanged; the empty value stays empty |
| SenateCommittees.FindSenate | src/pages/government/legislative/senate-committees.tsx:15-17 | the result is None exactly when no chamber name contains "Senate"; otherwise it is the record at the first index whose name contains "Senate" |
| SenateCommittees.CommitteeList | src/pages/government/legislative/senate-committees.tsx:20-23 | with no Senate record the list is empty; otherwise it is the first Senate record's permanent committees, or empty when that record has none |
| SenateCommittees.Matches | src/pages/government/legislative/senate-committees.tsx:28-30 | the empty term matches every committee |
| SenateCommittees.Search | src/pages/government/legislative/senate-committees.tsx:26-32 | every committee occurs in the result exactly as often as in the list when it matches the term, and not at all otherwise; so the result holds exactly the matching committees and is no longer than the list |
| SenateCommittees.SearchIsSubsequence | src/pages/government/legislative/senate-committees.tsx:26-32 | the result is a subsequence of the list: source order is kept |
| SenateCommittees.SearchEmptyQuery | src/pages/government/legislative/senate-committees.tsx:28-30 | the empty term keeps every committee, so the result equals the list |
| SenateCommittees.SearchExample | src/pages/government/legislative/senate-committees.tsx:26-32 | the term "fin" over Finance (chair Juan Dela Cruz) and Health (chair Maria Santos) keeps only Finance |
| SenateCommittees.SearchIgnoresCase | src/pages/government/legislative/senate-committees.tsx:29-30 | two terms with the same lower-casing give the same result |
| SenateCommittees.SearchLowerQuery | src/pages/government/legislative/senate-committees.tsx:29-30 | searching with a term or with its lower-cased form gives the same result |
| SenateCommittees.SearchNarrows | src/pages/government/legislative/senate-committees.tsx:28-30 | if term q occurs in term q', the result for q' is a subsequence of the result for q |
| SenateCommittees.NoSenateNoResults | src/pages/government/legislative/senate-committees.tsx:15-23 | with no Senate record the header count is 0 and every search result is empty |
| SenateCommittees.View | src/pages/government/legislative/senate-committees.tsx:42-70 | the header shows the size of the committee list and the cards are the search result of that list, in order; the card count never exceeds the header count; the "No committees found" state shows exactly when no committee of the list matches the term |
| SenateCommittees.HeaderIgnoresQuery | src/pages/government/legislative/senate-committees.tsx:42 | the header count is the length of the unfiltered list, whatever the term |
| ProjectIdeas.PriorityColor | src/pages/Ideas.tsx:76-87 | a priority gets the gray default class exactly when it is none of 'high', 'medium' and 'low' |
| ProjectIdeas.ComplexityColor | src/pages/Ideas.tsx:89-100 | a complexity gets the gray default class exactly when it is none of 'simple', 'moderate' and 'complex' |
| ProjectIdeas.PriorityColorsDistinct | src/pages/Ideas.tsx:76-87 | 'high', 'medium' and 'low' get three different classes |
| ProjectIdeas.ComplexityColorsDistinct | src/pages/Ideas.tsx:89-100 | 'simple', 'moderate' and 'complex' get three different classes |
| ProjectIdeas.PriorityBadge | src/pages/Ideas.tsx:252-254 | the priority badge is the priority followed by " Priority"; its first character is the upper-cased first character of the priority, the rest of the priority is unchanged, and it reads the same value up to ASCII case |
| ProjectIdeas.ComplexityBadge | src/pages/Ideas.tsx:261-263 | the complexity badge is the complexity followed by " Complexity"; its first character is the upper-cased first character of the complexity, the rest of the complexity is unchanged, and it reads the same value up to ASCII case |
| ProjectIdeas.BadgeText | src/pages/Ideas.tsx:252-262 | each badge upper-cases the first character of the priority or complexity and keeps the rest unchanged, so it reads the same value up to case |
| ProjectIdeas.PriorityBadgeExamples | src/pages/Ideas.tsx:252-253 | 'high', 'medium' and 'low' show as 'High', 'Medium' and 'Low' |
| ProjectIdeas.ComplexityBadgeExamples | src/pages/Ideas.tsx:261-262 | 'simple', 'moderate' and 'complex' show as 'Simple', 'Moderate' and 'Complex' |
| ProjectIdeas.HighPriority | src/pages/Ideas.tsx:169 | every idea whose priority is 'high' occurs in the High Priority list exactly as often as in the list of ideas, and no other idea occurs; the list is no longer than the list of ideas |
| ProjectIdeas.SimpleProjects | src/pages/Ideas.tsx:181 | every idea whose complexity is 'simple' occurs in the Simple Projects list exactly as often as in the list of ideas, and no other idea occurs; the list is no longer than the list of ideas |
| ProjectIdeas.StatsOf | src/pages/Ideas.tsx:160-190 | the High Priority and Simple Projects counts are each at most Total Ideas |
| ProjectIdeas.Categories | src/pages/Ideas.tsx:175 | the category of every idea is in the set, and the set is empty exactly when there are no ideas |
| ProjectIdeas.CategoryBounds | src/pages/Ideas.tsx:175 | the number of distinct categories is at most the number of ideas, and at least 1 when there is an idea |
| ProjectIdeas.CategoriesSnoc | src/pages/Ideas.tsx:175 | adding an idea adds its category to the set and nothing else |
| ProjectIdeas.TotalVotesIgnoresDownvotes | src/pages/Ideas.tsx:187 | Total Votes sums upvotes only: lists that differ only in downvotes have the same total |
| ProjectIdeas.TotalVotes | src/pages/Ideas.tsx:187 | with non-negative upvotes the total is non-negative; with TotalVotesAppend and TotalVotesSingle the total is the sum of the upvotes |
| ProjectIdeas.TotalVotesAppend | src/pages/Ideas.tsx:187 | the total of two lists joined is the sum of their totals |
| ProjectIdeas.TotalVotesSingle | src/pages/Ideas.tsx:187 | a single idea contributes exactly its upvotes |
| ProjectIdeas.TotalVotesBounds | src/pages/Ideas.tsx:187 | with non-negative upvotes the total is at least each idea's upvotes |
| ProjectIdeas.Compare | src/pages/Ideas.tsx:220-222 | the comparator is positive exactly when the second idea has the higher net score, and zero exactly when the net scores are equal |
| ProjectIdeas.SortByNet | src/pages/Ideas.tsx:219-222 | the ranking has as many ideas as its input |
| ProjectIdeas.SortIsSorted | src/pages/Ideas.tsx:219-222 | after the ranking no pair is out of order for the comparator: net score is non-increasing along the list |
| ProjectIdeas.SortIsPermutation | src/pages/Ideas.tsx:219-222 | the ranking has the same multiset of ideas as its input |
| ProjectIdeas.SortKeepsIds | src/pages/Ideas.tsx:219-224 | every id occurs after the ranking exactly as often as before, so an id present once stays present once |
| ProjectIdeas.SortIsStable | src/pages/Ideas.tsx:220-222 | for every net score, the ideas with that score keep their original relative order |
| ProjectIdeas.SortKeepsStats | src/pages/Ideas.tsx:160-222 | the five statistics are the same before and after the in-place ranking |
| ProjectIdeas.InsertAt | src/pages/Ideas.tsx:219-222 | inserting at the position where the shifting loop stops is the specification's insertion |
| ProjectIdeas.SortIdeas | src/pages/Ideas.tsx:219-222 | sorting the array in place leaves exactly the specification's ranking of the old contents |
| ProjectIdeas.InsertNext | src/pages/Ideas.tsx:219-222 | one insertion step moves the next idea into the sorted prefix and leaves the rest untouched |
| ProjectIdeas.ShiftLarger | src/pages/Ideas.tsx:219-222 | the shifting loop moves every idea of the sorted prefix that the comparator places after the new idea one place right, keeps the others, and stops after the last idea not placed after it |
| SplitLgu.Classify | scripts/split-lgu.cjs:48-57 | a region is written exactly when it is an object with a non-empty string slug, under the name slug + '.json'; it is skipped silently exactly when it is neither an object nor an array; a region skipped with a warning shows its warning label |
| SplitLgu.WarningLabel | scripts/split-lgu.cjs:53 | the label printed for a skipped region is the region's own `region` field when it is truthy, otherwise '(unknown)'; so it is always truthy |
| SplitLgu.Writes | scripts/split-lgu.cjs:47-61 | there are at most as many writes as regions |
| SplitLgu.WritesMatchClassify | scripts/split-lgu.cjs:57-59 | every write stores a region that is an object with a non-empty string slug, under the file name that slug gives |
| SplitLgu.Warnings | scripts/split-lgu.cjs:47-56 | there are at most as many warnings as regions |
| SplitLgu.WarningsAreTruthy | scripts/split-lgu.cjs:53 | every label printed is truthy: the region's name when that is truthy, otherwise "(unknown)" |
| SplitLgu.WritesBound | scripts/split-lgu.cjs:46-61 | writes plus warnings never exceed the number of regions, with equality exactly when no region is skipped silently |
| SplitLgu.WritesAppend | scripts/split-lgu.cjs:47-61 | the regions are handled in input order: the writes of a concatenation are the concatenation of theirs |
| SplitLgu.WarningsAppend | scripts/split-lgu.cjs:47-56 | the warnings of a concatenation are the concatenation of theirs |
| SplitLgu.SkipContinues | scripts/split-lgu.cjs:48-56 | a skipped region adds no write and the loop goes on with the next region; a silent skip adds no warning |
| SplitLgu.WritesAreAcceptedRegions | scripts/split-lgu.cjs:57-59 | every write stores an input region, unchanged, under that region's file name |
| SplitLgu.ApplyWritesFrame | scripts/split-lgu.cjs:57-59 | after the writes the directory holds the earlier files plus the written names, and files no write names keep their content |
| SplitLgu.LastWriteWins | scripts/split-lgu.cjs:47-61 | a file holds the value of the last write to its name, so a later region with a repeated slug overwrites the earlier one |
| SplitLgu.FileCountAtMostWrites | scripts/split-lgu.cjs:46-61 | starting from an empty directory there are never more files than writes |
| SplitLgu.FileNameInjective | scripts/split-lgu.cjs:57 | distinct slugs give distinct file names |
| SplitLgu.RepeatedSlugExample | scripts/split-lgu.cjs:47-61 | two regions with the same slug: two writes are counted, one file remains and it holds the later region |
| SplitLgu.OutputDir.Ensure | scripts/split-lgu.cjs:12-14 | the directory exists afterwards and its files are unchanged |
| SplitLgu.OutputDir.WriteFile | scripts/split-lgu.cjs:16-18 | the named file holds the new value afterwards, and every other file is unchanged |
| SplitLgu.SplitRegions | scripts/split-lgu.cjs:46-61 | the directory ends as the old one with the accepted writes applied in order; `written` is the number of accepted regions and at most the number of regions; the warnings are the labels of the regions skipped with a warning, in input order |
| SplitLgu.Run | scripts/split-lgu.cjs:20-64 | a missing input exits with status 1, prints no warning and leaves the directory untouched; otherwise the directory exists afterwards, even when reading or parsing then fails; an unreadable, unparseable or non-array input exits with status 1 before any file is written; an array completes with `written` equal to the number of accepted regions |

## Left out

- Unicode case mapping: `toLowerCase` and `toUpperCase` are modelled on the ASCII letters only; other characters keep their case.
- JavaScript numbers: upvotes, downvotes and JSON numbers are unbounded integers; fractions, NaN and floating-point overflow are not modelled, so the sort comparator is always consistent.
- The sort algorithm that a JavaScript engine uses is not prescribed; it is modelled by insertion sort. With a consistent comparator, a stable sort has only one possible result, and that result is `SortByNet`.
- React state and memoisation: `useState`/`useMemo` are treated as plain values and functions. The page calls `sort` on its state array while rendering; the model captures that one in-place reordering, not React's re-render cycle.
- JSX rendering, CSS classes other than the badge colours, Helmet metadata and the card icons are presentation and are not modelled; the `icon` field of an idea is dropped.
- The `window.open` handlers of the Ideas page and the Discord redirect are browser side effects and are not modelled.
- Malformed legislative records are not modelled: `chamber`, `committee` and `chairperson` are always strings here, whereas a record missing one of them makes `includes` or `toLowerCase` throw in the page (a committee without `chairperson` is still kept when its name matches, because `||` stops early).
- The legislative-directory renderer in `src/pages/government/legislative/[chamber].tsx` is not part of this model.
- `fs`, `path`, `JSON.parse`, `JSON.stringify` and `console` are foreign. The parsed input is a parameter. The output directory is a map from file name to the JSON value written. Warnings are returned as the list of labels printed; the texts of the error and summary messages are dropped.
- `path.join` normalisation is not modelled; the model keys every file by the plain text `slug + '.json'` in one flat directory. In the script, a slug containing `/` names a file in a subdirectory of the output directory, and only `..` segments escape the output directory. Normalisation also makes different slugs share one file, such as `ncr` and `./ncr`, which the model keeps as two files.
- Failures of `mkdirSync` or `writeFileSync` are not modelled: permissions, a full disk, or a slug with `/` whose subdirectory does not exist (`writeFileSync` does not create it). In the script such a failure throws out of the loop, so it exits with status 1 after the earlier files are written and without the summary line; the model writes that file and carries on. The `require.main === module` guard is not modelled either.
- `Member` reads only a region's own JSON fields; inherited JavaScript properties cannot come from parsed JSON and are not modelled.
- Browser tests, the resize observer, scroll utilities, the skip link and the home page are not part of this model: they are asynchronous browser automation, floating-point geometry or pure presentation.
