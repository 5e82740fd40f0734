# Resume parser and timeline, modelled in Dafny

The portfolio site treats the owner's LaTeX resume as the single source of
truth. One JavaScript module, `client/src/utils/resumeParser.js`, reads
four kinds of resume text and builds the Work-page timeline from them:

- `parseExperience` splits the experience text on `\cventry`. From each block
  it reads Job title, Organization, Location and Date, plus the `\item`
  bullets. It carries the last named organization and its location forward
  to continuation roles.
- `parseSkills` splits on `\cvskill` and scans each block's trimmed lines
  for anchored `Category` and `Skills` fields. It emits a category only when
  both are non-empty.
- `parseCertificates` splits on `\cvhonor`. It takes the braced values that
  open each line and maps them to a certificate by position: with four or
  more values the credential ID is the third; with three it is empty; with
  fewer the block is skipped.
- `parseEducation` splits on `\cventry` and reads Degree, Institution,
  Location and Date. A block that has Degree, Institution and Date but no
  Location makes the source dereference `null`. That is modelled as an
  `Err` result for the whole call.
- `groupExperienceByCompany` gathers the entries into one group per company
  value, null included. Groups come in first-appearance order, and each
  keeps its roles in entry order. An achievement longer than 100 characters
  is cut after its first full stop.
- `createTimelineFromResume` builds the timeline in two steps:
  - It makes one work item per group, with a year range computed from each
    role's period, one item for all certificates when there are any, and one
    item per education entry.
  - It sorts them: items whose year mentions `Present` come first, and
    within each class the start year goes from newest to oldest.

Modules follow the source's structure:

- `Text`: JavaScript string primitives:
  - `trim`, `indexOf`/`includes`, `split`;
  - the leftmost-match search shared by every `String.prototype.match` call;
  - decimal printing and `parseInt` of digits.
- `Sanitizer`: the four-step LaTeX clean-up chain, modelled once.
- `Fields`: the regular-expression scanners, each proved equal to a
  declarative reading of its pattern:
  - the label-anchored field;
  - the brace at the start of a line;
  - the global `\item` scan, which collects the bullets in text order.
- `Entries`: the four parsers.
- `Grouping`: the company grouping.
- `Years`: the date patterns, i.e. full range, single date and first four
  digits. The full-range and single-date scanners are also proved equal to
  declarative readings of their patterns.
- `Timeline`: item construction and the sort.

Every regular expression involved is written so that each quantifier is
forced. A match at a given start index is therefore computed by a scanner
without backtracking, and the leftmost match comes from trying each index in
turn (`Text.FirstSome`).

Two modelling choices shape the rest:

- `Array.prototype.sort` is stable (ECMAScript 2019 onwards). The comparator
  equals ordering by one number (`Timeline.Compare`), so the sort
  is modelled as a stable insertion sort on that number.
  `Timeline.ComparatorSortIsUnique` proves that no other stable arrangement
  exists.
- `new Date().getFullYear()` becomes the parameter `currentYear`.

The LaTeX clean-up chain is not idempotent: `\\&` (two backslashes and an
ampersand) becomes `\&` on the first pass and `&` on the second, because the
`\&` step runs before the `\\` step. `Sanitizer.SanitizeNotIdempotent`
proves this.

## Model

| member | source | states |
|---|---|---|
| Text.Trim | client/src/utils/resumeParser.js:83 | `trim` returns the slice of its input between the leading and the trailing white space. Those runs consist of white space only, and the result neither starts nor ends with white space. |
| Text.Split | client/src/utils/resumeParser.js:11 | `split` on a string separator returns at least one piece. The pieces joined with the separator give back the input, and no piece contains the separator. Without an occurrence the result is the input alone; otherwise the first piece is the text before the leftmost occurrence. |
| Text.IndexFrom | client/src/utils/resumeParser.js:296 | The result is the leftmost occurrence at or after the start index, or none exists there. |
| Text.FirstSomeNone | client/src/utils/resumeParser.js:17-20 | A `match` finds nothing exactly when the pattern matches at no start index. |
| Text.FirstSomeAt | client/src/utils/resumeParser.js:17-20 | A `match` returns the match at the least start index that has one. |
| Text.FirstSomeIndex | client/src/utils/resumeParser.js:271 | A successful `match` comes from a start index before which the pattern matches nowhere. |
| Text.NatToStringRoundTrip | client/src/utils/resumeParser.js:297-299 | The decimal text printed for a number reads back as that number. |
| Sanitizer.ReplacePair | client/src/utils/resumeParser.js:42-45 | A global replacement of a two-character sequence never lengthens the text and is the identity when the first character is absent. Every output character is either from the input or the replacement. |
| Sanitizer.ReplacePairMeans | client/src/utils/resumeParser.js:42-45 | Replacing a two-character sequence globally is the same as splitting the text at its occurrences and joining the pieces with the replacement. |
| Sanitizer.Sanitize | client/src/utils/resumeParser.js:52-57 | The clean-up never lengthens a text. On text without a backslash it is just `trim`. |
| Sanitizer.CleanSkill | client/src/utils/resumeParser.js:110-114 | The same holds for the per-skill clean-up, which trims before replacing. |
| Sanitizer.SanitizeNotIdempotent | client/src/utils/resumeParser.js:41-46 | On `\\&`, the first clean-up gives `\&` and a second gives `&`, so the chain is not idempotent. |
| Fields.LabeledAtMeans | client/src/utils/resumeParser.js:17-20 | At a given index the field scanner finds value v exactly when the text there reads: `{`, then v with no `}`, then `}`, white space, `%`, white space, the label. With the `+` form, v must also be non-empty. |
| Fields.BraceAtStart | client/src/utils/resumeParser.js:179 | A found value is braced at the start of the line and has no `}` in it. |
| Fields.BraceAtStartComplete | client/src/utils/resumeParser.js:179-182 | Every line that opens with a braced value has that value found. |
| Fields.ItemAt | client/src/utils/resumeParser.js:36 | A bullet match captures a non-empty text with no `}` in it and ends after its start. |
| Fields.ItemAtMeans | client/src/utils/resumeParser.js:36-39 | At a given index the bullet scanner captures v and ends at e exactly when the text there reads `\item`, optional white space, `{`, then v (non-empty, no `}`), then `}`, with e right after that brace. |
| Fields.ItemsFrom | client/src/utils/resumeParser.js:36-39 | Every bullet the global scan collects is non-empty and free of `}`. |
| Fields.ItemsFromFirst | client/src/utils/resumeParser.js:36-39 | The scan's first bullet is the capture of the leftmost match. The rest are the bullets found from the end of that match on, so bullets come in text order and matches do not overlap. |
| Fields.ItemsFromNone | client/src/utils/resumeParser.js:36-37 | The scan finds no bullet exactly when no index matches `\item\s*{[^}]+}`. |
| Fields.NoItemsWithoutMarker | client/src/utils/resumeParser.js:36-37 | A block without the text `\item` has no bullets. |
| Entries.Blocks | client/src/utils/resumeParser.js:11-14 | The blocks are the split pieces after the first, one fewer than the pieces. A text without the command has none, and no block contains the command. Otherwise, joined back with the command, the blocks give exactly the text after the first occurrence. |
| Entries.ReadFields | client/src/utils/resumeParser.js:17-26 | A Job title or Date read from a block is never empty (`[^}]+`). |
| Entries.ExperienceFold | client/src/utils/resumeParser.js:13-67 | The loop emits one entry per block that has both a Job title and a Date. Every entry has a non-empty period. Its company and location are null together, and a company is never empty. |
| Entries.ParseExperience | client/src/utils/resumeParser.js:5-70 | One entry per qualifying `\cventry` block, each well formed as above. |
| Entries.ParseExperienceMatchesSpec | client/src/utils/resumeParser.js:28-32 | The loop's result equals an accumulator-free description: one entry per qualifying block, with the company and location of the last qualifying block up to it that named an organization. |
| Entries.NullCompanyUntilFirstOrganization | client/src/utils/resumeParser.js:7-8 | The carried company is null exactly while no qualifying block has named an organization. |
| Entries.CarryForward | client/src/utils/resumeParser.js:28-32 | After a qualifying block names an organization, later blocks that name none keep its company and location. |
| Entries.ScanKeepsLastMatch | client/src/utils/resumeParser.js:87-104 | After the line loop the category is the sanitized value of the last matching Category line, and the skills text is that of the last Skills line. Each keeps its start value when no line matches. |
| Entries.ParseSkillBlockMeans | client/src/utils/resumeParser.js:83-121 | A skills block yields a category exactly when its last Category line has a non-empty sanitized value and some Skills line exists. The category and technologies are read from those last lines. |
| Entries.KeepNonEmpty | client/src/utils/resumeParser.js:115 | The filter keeps, in order and as a subsequence, exactly the non-empty skills, each as often as it occurs. |
| Entries.Technologies | client/src/utils/resumeParser.js:108-115 | There are no more technologies than comma pieces, and none is empty. |
| Entries.ParseSkills | client/src/utils/resumeParser.js:73-125 | There is at most one category per `\cvskill` block. Each has a non-empty name and no empty technology. The list is the one Entries.SkillsOfSnoc describes, for the text's blocks. |
| Entries.CertificateOf | client/src/utils/resumeParser.js:185-203 | A certificate exists iff there are at least three values. Title and issuer are the first two values. With four or more, the credential ID is the third and the period the fourth; with three, the credential ID is empty and the period the third. The date always equals the period. |
| Entries.ParseCertificates | client/src/utils/resumeParser.js:159-207 | There is at most one certificate per `\cvhonor` block, and each has date == period. The list is the one Entries.CertificatesOfSnoc describes, for the text's blocks. |
| Entries.SomesAppend | client/src/utils/resumeParser.js:117-121 | Collecting the present values of two lists in a row gives the values of the first, then those of the second, in order and with repeats kept. |
| Entries.SkillsOfSnoc | client/src/utils/resumeParser.js:79-121 | No blocks give no categories. One more block appends its category, if it yields one, after the categories of the blocks before it, so the list follows block order. |
| Entries.BracePartsAppend | client/src/utils/resumeParser.js:174-183 | The braced values of a sequence of lines are those of each part in turn, in order and with repeats kept. |
| Entries.BracePartsOne | client/src/utils/resumeParser.js:175-182 | One line gives its trimmed braced value if it starts with a brace group, else nothing. |
| Entries.CertificatesOfSnoc | client/src/utils/resumeParser.js:165-203 | No blocks give no certificates. One more block appends its certificate, if it yields one, after the certificates of the blocks before it, so the list follows block order. |
| Entries.EducationBlocks | client/src/utils/resumeParser.js:216-251 | The loop fails iff some block has Degree, Institution and Date but no Location. Otherwise it returns one entry per block with Degree, Institution and Date. |
| Entries.EducationBlocksMeans | client/src/utils/resumeParser.js:216-251 | When no block throws, the loop returns the accumulator-free reference list: the entries of the blocks that have all four fields, in block order. When one throws, it fails with the null-dereference message. |
| Entries.EducationSpecAt | client/src/utils/resumeParser.js:225-249 | When no block throws, the entry of a qualifying block sits at the position given by the number of qualifying blocks before it. |
| Entries.EducationSpecLength | client/src/utils/resumeParser.js:225-249 | When no block throws, the reference list has one entry per qualifying block. |
| Entries.ParseEducation | client/src/utils/resumeParser.js:210-254 | `parseEducation` fails exactly on a qualifying block without Location, and otherwise yields one entry per qualifying block. |
| Entries.ParseEducationMeans | client/src/utils/resumeParser.js:210-254 | `parseEducation` returns the reference list of its `\cventry` blocks when none throws, and the null-dereference message otherwise. |
| Entries.ParseEducationAt | client/src/utils/resumeParser.js:220-249 | When nothing throws, each qualifying block yields an entry at its rank among the qualifying blocks. The entry holds the block's trimmed Degree, Institution, Location and Date values and its sanitized bullet items. |
| Grouping.Shorten | client/src/utils/resumeParser.js:144-151 | An achievement of at most 100 characters, or one without a `.`, is unchanged. A longer one becomes the text up to and including its first `.`, so the result is always a prefix of the original. |
| Grouping.FindGroup | client/src/utils/resumeParser.js:132 | The lookup finds a group with the company, and finds none exactly when no group has it. |
| Grouping.FirstIndexAppend | client/src/utils/resumeParser.js:131-139 | A later entry does not move an earlier company's first occurrence. A new company first occurs at the new entry. |
| Grouping.GroupByCompanyMeans | client/src/utils/resumeParser.js:128-156 | The groups satisfy all of the following: <br>• company values are distinct, and they are exactly those of the entries, in first-occurrence order; <br>• each group has the location of its company's first entry; <br>• each group has exactly its company's roles, in entry order; <br>• no group is empty; <br>• the total number of roles equals the number of entries. |
| Years.FullRangeAt | client/src/utils/resumeParser.js:271 | A full-range match has four digits at its start year and, unless it ends in `Present`, at its end year. It begins with a single-date match. |
| Years.MonthYearAtMeans | client/src/utils/resumeParser.js:282 | At a given index the single-date scanner finds the year digits at d exactly when the text there reads: word characters, an optional `.`, at least one white-space character, then four digits at d. |
| Years.FullRangeAtMeans | client/src/utils/resumeParser.js:271 | At a given index the full-range scanner yields a match exactly when the text there reads: a single date, optional white space, `-`, optional white space, then either a second date or, where no date starts, `Present`. |
| Years.ExampleClosedRange | client/src/utils/resumeParser.js:264 | `Feb. 2019 - Feb. 2021` spans 2019 to 2021. |
| Years.ExampleOpenRange | client/src/utils/resumeParser.js:264 | `Jan 2024 - Present` spans 2024 to the current year. |
| Years.ExampleSingleDate | client/src/utils/resumeParser.js:264 | `May 2021` starts and ends in 2021. |
| Years.RoleSpanFullRange | client/src/utils/resumeParser.js:271-279 | With a full range leftmost at j, the role spans from its first year to its second, or to the current year for `Present`. |
| Years.RoleSpanSingleDate | client/src/utils/resumeParser.js:280-286 | Without a full range, a role with a single date leftmost at j starts and ends in that date's year. |
| Years.RoleSpanFallback | client/src/utils/resumeParser.js:267-268 | A period with no date at all gives 2020 to 2020. |
| Years.RoleSpan | client/src/utils/resumeParser.js:263-290 | Start years are four-digit values. End years are too, or the current year. |
| Years.NoDashSingleYear | client/src/utils/resumeParser.js:271-286 | A period without `-` (an en dash, say) never matches the full range, so the role ends the year it starts. |
| Years.PresentNeedsWord | client/src/utils/resumeParser.js:277-278 | A period without the text `Present` gives the same span whatever the current year. |
| Years.FirstYearMeans | client/src/utils/resumeParser.js:320-321 | A certificate year and the sort's start year both read the leftmost four digits. With none, they give 2023 and 0 respectively. |
| Years.StartYearOfPrinted | client/src/utils/resumeParser.js:368-371 | A year string that opens with a printed year from 1000 to 9999 reads back as that year. |
| Timeline.MinOf | client/src/utils/resumeParser.js:292 | The minimum is one of the start years and no larger than any. |
| Timeline.MaxOf | client/src/utils/resumeParser.js:293 | The maximum is one of the end years and no smaller than any. |
| Timeline.RangeTextPresent | client/src/utils/resumeParser.js:297-299 | A range text mentions `Present` exactly when it has no end year. |
| Timeline.WorkYearPresent | client/src/utils/resumeParser.js:295-299 | A work item's year mentions `Present` exactly when some role's period contains `Present`. |
| Timeline.WorkYearClosed | client/src/utils/resumeParser.js:292-299 | Without `Present`, the range is the earliest start, ` - `, the latest end, even when the two are equal. Those bound every role's years. |
| Timeline.WorkYearOpen | client/src/utils/resumeParser.js:292-299 | With `Present` in some role's period, the range is exactly the earliest start followed by ` - Present`. That start is no later than any role's start. |
| Timeline.WorkYearStart | client/src/utils/resumeParser.js:297-299 | The sort reads the company's earliest start year back from its work item, when that year has four digits. |
| Timeline.WorkItemMeans | client/src/utils/resumeParser.js:295-313 | The sort sees a work item as `Present` exactly when some role's period mentions `Present`. It reads back the company's earliest start year whenever that year has four digits. |
| Timeline.CertYearSingle | client/src/utils/resumeParser.js:324-326 | Certificates all of one year give that year alone, and the sort reads it back. |
| Timeline.CertItemMeans | client/src/utils/resumeParser.js:319-338 | The sort never sees the certification item as `Present`. Its year is a range (` - `) exactly when the certificates' years differ, and the earliest year is read back whenever it has four digits. |
| Timeline.CertItems | client/src/utils/resumeParser.js:317-339 | There is exactly one certification item when there are certificates, and none otherwise. It is never a `Present` item. |
| Timeline.EducationItem | client/src/utils/resumeParser.js:342-355 | The sort sees an education item as `Present` exactly when the entry's period mentions it, and reads its start year from the period. Its single role appends the location to the achievements. |
| Timeline.Compare | client/src/utils/resumeParser.js:359-379 | The comparator's sign is the order of a single key: `Present` class first, then start year descending. So the comparator is a consistent total preorder. |
| Timeline.Insert | client/src/utils/resumeParser.js:359 | Insertion into a sorted list adds one item and keeps it sorted. |
| Timeline.SortPermutes | client/src/utils/resumeParser.js:359 | The sort rearranges its input (same multiset). |
| Timeline.SortStable | client/src/utils/resumeParser.js:359-379 | Items of equal key keep their input order. |
| Timeline.SortedUnique | client/src/utils/resumeParser.js:359 | Two key-sorted lists with the same items of each key in the same order are equal. |
| Timeline.ComparatorSortIsUnique | client/src/utils/resumeParser.js:359-379 | Any arrangement that the comparator accepts as sorted, and that keeps tied items in input order, is the model's sort. |
| Timeline.SortedMeansPresentFirst | client/src/utils/resumeParser.js:363-378 | In the sorted timeline no item without `Present` precedes one with it. Within each class the start year does not increase. |
| Timeline.CreateTimeline | client/src/utils/resumeParser.js:257-382 | The timeline has as many items as were pushed, and they are sorted by the comparator's key. |
| Timeline.TimelineIsStableSort | client/src/utils/resumeParser.js:358-379 | The timeline is the pushed items rearranged, with items of equal key in pushed order. |
| Timeline.TimelineCounts | client/src/utils/resumeParser.js:261-356 | The timeline has one work item per company group, exactly one certification item iff there are certificates, and one education item per education entry. |

## Left out

- The rest of the repository is not part of this model: the React pages, the server, the build scripts and the code that loads the `.tex` files. Only `client/src/utils/resumeParser.js` is modelled.
- The wall clock: `new Date().getFullYear()` is the parameter `currentYear`.
- String lengths count Unicode characters, not UTF-16 code units. For the 100-character limit this differs only on text outside the Basic Multilingual Plane.
- `toLowerCase` in the single-role description is modelled for ASCII letters only; other characters are kept.
- The `type: 'work'` field of a company group is not modelled. The timeline items' `type` is the `kind` field.
- The JavaScript `Map` of companies is a sequence of groups searched by company. Its insertion order is the sequence order.
- The `TypeError` of `parseEducation` is modelled as an `Err` carrying V8's message text. How the caller reacts to the exception is not modelled.
- `Math.min`/`Math.max` over an empty list cannot arise. Every group has a role, and the certification item exists only for a non-empty list. The model requires non-empty lists there.
- Fields.LabeledAtMeans: the declarative reading is proved only for labels that start with a non-space character. All of the parser's labels do.
- Sanitizer.ReplacePair: the contract states only the length bound, the identity case and where each output character comes from. The exact result is stated by Sanitizer.ReplacePairMeans.
- Fields.ItemAt: the contract states only the shape of a match. What the scanner matches is stated by Fields.ItemAtMeans.
- Fields.ItemsFrom: the contract states only that each bullet is non-empty and free of `}`. Which bullets are collected, and in what order, is stated by Fields.ItemsFromFirst and Fields.ItemsFromNone.
- Years.FullRangeAt: the contract states only where the digits are. What the scanner matches is stated by Years.FullRangeAtMeans.
- Entries.EducationBlocks: the contract states only the failure condition and the count. The entries themselves are stated by Entries.EducationBlocksMeans.
- Entries.ParseEducation: the contract states only the failure condition and the count. The entries themselves are stated by Entries.ParseEducationMeans and Entries.ParseEducationAt.
- Entries.ParseSkills: the contract states the bound, the per-category facts and that the result is Entries.SkillsOf of the `\cvskill` blocks. It does not describe that list itself: what each block yields is stated by Entries.ParseSkillBlockMeans, and the order and multiplicity by Entries.SkillsOfSnoc.
- Entries.ParseCertificates: the contract states the bound, date == period and that the result is Entries.CertificatesOf of the `\cvhonor` blocks. It does not describe that list itself: what each block yields is stated by Entries.CertificateOf, and the order and multiplicity by Entries.CertificatesOfSnoc.
- Timeline.WorkYearStart: stated only for start years from 1000 to 9999. A smaller year prints with fewer than four digits, and the sort then reads a different start year from the text.
- The work-item description is modelled, in `Timeline.WorkDescription`, without a contract of its own. It is the source's fixed sentence, with the role count or the lower-cased title.
