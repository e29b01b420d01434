# Schedule manager: a verified model of the tagging and calendar core

Hours of writing in an Obsidian vault end up as notes. This plugin keeps
them sorted and scheduled. The model covers three pieces of it.

- The **tag manager** (`tagManager.ts`). It holds a fixed two-level
  taxonomy of 17 categories and their subcategories. `analyzeAndTagContent`
  lower-cases the note and walks the taxonomy in order. It keeps every
  category whose name is relevant to the note, and after each kept category
  the category's relevant subcategories. It then cuts the list to seven
  names. A name is relevant when every `-`-separated piece of it contains,
  or is contained in, some whitespace-separated word of the note.
  `formatTagsForFrontmatter` renders the names as `#name` separated by
  spaces.
- The **frontmatter update** (`updateFrontmatterTags` in `main.ts`). It finds
  the leading `---` block with the same lazy regular expression the code
  uses. It replaces the text from the first `tags:` anywhere in the header to
  the end of that line, so a `subtags:` key matches too. It appends a tags
  line only when the replacement came back empty, and splices the header back
  with a second `String.prototype.replace`. A note without a block gets a new one holding
  only the tags line. `AutoTag` chains the three steps, as the auto-tag
  command and the save hook do.
- The **calendar event** built by `addEvent` and `addReminder` in
  `googleCalendar.ts`. `addEvent` finds the leftmost date (`2024年3月5日`),
  time (`9:30`) and `# title` line. It refuses a note that lacks any of them,
  and rewrites each of `年`, `月` and `日` in the date as `-`. The record
  carries the fixed `Asia/Tokyo` time zone, an e-mail reminder a day ahead
  and a pop-up 30 minutes ahead. When a reminder time was given and it lies
  a positive number of whole minutes before the event, one more pop-up
  follows.

The JavaScript semantics the code relies on are written out in `text.dfy`
and `frontmatter.dfy`:
- `split` with a string separator and with `/\s+/`;
- the ECMAScript `\s` and line-terminator sets;
- `includes`, `join`, and ASCII `toLowerCase`;
- the multiline `$` anchor;
- the `$` patterns of a replacement string, as GetSubstitution in
  section 22.1.3.19.1 of ECMA-262 expands them.

Modules and files:
- `Text` (`text.dfy`): string primitives.
- `TagManager` (`tags.dfy`): the taxonomy, relevance, the classifier and
  the formatter.
- `Frontmatter` (`frontmatter.dfy`): the frontmatter update, as written and
  as intended, and the auto-tag command.
- `GoogleCalendar` (`calendar.dfy`): the scanners and the event records.
- `TagExample` (`tag_example.dfy`): the classifier's result for one note,
  "I love programming in python and javascript", worked out in full.

For that note the code returns `tutorial, idea, remind, remind-clients,
remind-internal, ai, ai-openai`. It does not return `tech`, `tech-python` and
`tech-javascript`, which a natural reading of the relevance rule suggests. The
one-letter word `i` lies inside every piece that holds an `i`. So `tutorial`,
`idea`, `remind`, `ai` and all their pieces with an `i` count as relevant, and
the seven-name cap is reached inside `ai`, before `tech`. The model follows
the code.

## Model

| member | source | states |
|---|---|---|
| TagManager.HierarchyWellFormed | tagManager.ts:7-119 | every category name is one plain piece, every subcategory name is its parent's name, a `-` and more, and category names are distinct |
| TagManager.AllNamesDistinct | tagManager.ts:7-119 | a well-formed taxonomy lists no name twice, across categories and subcategories |
| TagManager.SubcategoryImpliesParent | tagManager.ts:7-119 | in a well-formed taxonomy a relevant subcategory has a relevant parent, because the parent's name is its first piece |
| TagManager.RelevantIff | tagManager.ts:147-157 | relevance holds exactly when every `-` piece of the tag overlaps, with containment in either direction, some whitespace word of the text |
| TagManager.RelevantMonotone | tagManager.ts:147-157 | a tag whose pieces all occur among another relevant tag's pieces is relevant too |
| TagManager.EmptyWordRelevant | tagManager.ts:147-157 | when the word list holds the empty word, every tag is relevant |
| Text.EmptyFieldIff | tagManager.ts:149 | `split(/\s+/)` yields an empty word exactly when the text is empty or starts or ends with whitespace |
| Text.SplitWsTokenizes | tagManager.ts:149 | the words from `split(/\s+/)`, interleaved with the whitespace runs between them, give back the text |
| Text.SplitWsFieldsNoWs | tagManager.ts:149 | no word from `split(/\s+/)` holds whitespace |
| Text.JoinSplit | tagManager.ts:148 | joining the `split('-')` pieces with `-` gives back the tag, and no piece holds `-` |
| Text.SplitJoin | tagManager.ts:148 | splitting a `-`-join of separator-free pieces gives back the pieces |
| Text.ToLower | tagManager.ts:125 | lower-casing keeps the length and leaves no capital; each capital becomes the letter 32 code points above it, and every other character stays as it is |
| Text.ToLowerIdempotent | tagManager.ts:125 | lower-casing an already lower-cased text changes nothing |
| Text.Split | tagManager.ts:148 | definition of `split('-')`, with at least one piece; see Text.JoinSplit and Text.SplitJoin |
| Text.SplitWs | tagManager.ts:149 | definition of `split(/\s+/)`, with at least one word; see Text.SplitWsTokenizes, Text.SplitWsFieldsNoWs and Text.EmptyFieldIff |
| TagManager.IsContentRelevant | tagManager.ts:147-157 | definition of the relevance test; see TagManager.RelevantIff |
| TagManager.Walk | tagManager.ts:128-141 | definition of the uncapped walk; see TagManager.WalkTaxonomy and TagManager.WalkIsRelevantNames |
| TagManager.Classify | tagManager.ts:123-145 | definition of the capped walk; see TagManager.AnalyzeAndTagContent and TagManager.ClassifyCapped |
| TagManager.FormatTagsForFrontmatter | tagManager.ts:159-161 | definition of the formatter; see TagManager.FormatRoundTrip and TagManager.FormatEmptyIff |
| TagManager.PushRelevant | tagManager.ts:133-139 | the inner loop appends exactly the relevant subcategories, in order |
| TagManager.WalkTaxonomy | tagManager.ts:128-141 | the nested loops push exactly the walk: each relevant category followed by its own relevant subcategories |
| TagManager.AnalyzeAndTagContent | tagManager.ts:123-145 | the result is the capped walk of the lower-cased note, holds at most seven names, and lists no name twice |
| TagManager.WalkIsRelevantNames | tagManager.ts:128-141 | when no subcategory is relevant without its parent, the walk is the list of all names, in order, filtered by relevance |
| TagManager.WalkParentFirst | tagManager.ts:128-141 | over a taxonomy without repeated names, every subcategory in the walk comes after its parent |
| TagManager.ClassifyIsFirstRelevantNames | tagManager.ts:123-145 | the classification is the first seven relevant names of the taxonomy in definition order |
| TagManager.ClassifyCapped | tagManager.ts:144 | the classification holds at most seven names, exactly seven when the walk found seven or more, the whole walk when it found seven or fewer, and always a prefix of the walk |
| TagManager.ClassifyMembers | tagManager.ts:123-145 | every returned name is a taxonomy name relevant to the lower-cased note |
| TagManager.ClassifyDistinct | tagManager.ts:123-145 | no name is returned twice |
| TagManager.ClassifyParentFirst | tagManager.ts:123-145 | every returned subcategory comes after its parent |
| TagManager.ClassifyPlain | tagManager.ts:123-145 | every returned name is made of lower-case letters and `-` |
| TagManager.ClassifyWhitespaceEdge | tagManager.ts:147-157 | an empty note, or one starting or ending with whitespace, gets the first seven names of the taxonomy |
| TagManager.FormatRoundTrip | tagManager.ts:159-161 | for a non-empty list of tags without spaces, splitting the formatted string on spaces gives back each tag behind a `#` |
| TagManager.FormatEmptyIff | tagManager.ts:159-161 | the formatted string is empty exactly when there are no tags |
| TagManager.FormattedClassifyIsOneLine | tagManager.ts:159-161 | the formatted classification holds no `$` and no line terminator |
| TagExample.ClassifyTheseWords | tagManager.ts:123-157 | any note whose lower case splits into the words of "I love programming in python and javascript" gets the seven names listed above, in that order |
| TagExample.SentenceClassification | tagManager.ts:123-157 | the sentence itself gets those seven names |
| Frontmatter.FrontmatterEnd | main.ts:152-153 | a block is found only when the note starts with `---` and a line break, and then it closes at the first later line break followed by `---`; none is found when either is missing |
| Frontmatter.ParseRender | main.ts:152-153 | parsing the rendering of a header with no closing marker inside gives back that header and the rest |
| Frontmatter.RenderParse | main.ts:152-153 | rendering a parsed block gives back the note, and the parsed header holds no closing marker |
| Frontmatter.TagsLine | main.ts:159 | the tags line starts at the first `tags:` of the header and ends at the next line terminator, or at the end of the header |
| Frontmatter.Substitute | main.ts:158-162 | definition of the `$` expansion of a replacement string; see Frontmatter.SubstituteLiteral and Frontmatter.SubstituteAmpersand |
| Frontmatter.ReplaceTagsLine | main.ts:158-160 | definition of the `/tags:.*$/m` replace; see Frontmatter.TagsLine and Frontmatter.AsWrittenSplice |
| Frontmatter.UpdateHeaderAsWritten | main.ts:158-161 | definition of the header update with its `\|\|` fallback; see Frontmatter.AsWrittenSkipsMissingTagsLine |
| Frontmatter.UpdateFrontmatterTags | main.ts:151-167 | definition of the update as written; see Frontmatter.AsWrittenIsIntended, Frontmatter.AsWrittenIdempotent and Frontmatter.AsWrittenStartsWithOpen |
| Frontmatter.UpdateHeader | main.ts:158-161 | definition of the corrected header update; see Frontmatter.UpdateHeaderStable and Frontmatter.UpdateHeaderCloses |
| Frontmatter.UpdateFrontmatterTagsIntended | main.ts:151-167 | definition of the corrected update; see Frontmatter.IntendedParse, Frontmatter.IntendedSetsTags and Frontmatter.IntendedIdempotent |
| Frontmatter.AsWrittenIsIntended | main.ts:151-167 | when neither the tags nor the header hold `$`, and the header has a tags line or is empty, the code's update is the intended one |
| Frontmatter.AsWrittenIdempotent | main.ts:151-167 | for `$`-free tags on one line and a note whose header, if any, holds no `$`, running the code's update twice with the same tags gives what one run gives |
| Frontmatter.AsWrittenStartsWithOpen | main.ts:162-165 | whatever the note and the tags, the code's update starts with the `---` line |
| Frontmatter.AsWrittenSkipsMissingTagsLine | main.ts:158-161 | a non-empty header without `$` and without a tags line leaves the note unchanged, where the intended update changes it |
| Frontmatter.AsWrittenExpandsAmpersand | main.ts:158-162 | in a header made of a line ending in `$&` and a tags line, the `$&` is replaced by the whole old block |
| Frontmatter.IntendedKeepsAmpersand | main.ts:158-162 | the intended update keeps a `$&` in the header as written |
| Frontmatter.IntendedSetsTags | main.ts:151-167 | for tags on one line, after the intended update the note has a block, and its tags line is exactly `tags: <tags>` |
| Frontmatter.IntendedParse | main.ts:151-167 | for tags on one line, a note without a block gets one holding only the tags line, with a blank line and the note after it; otherwise the header is updated and the rest is kept |
| Frontmatter.IntendedReplacesOnlyTagsLine | main.ts:158-162 | when the header has a tags line, only that line's text changes, and the rest of the note is kept byte for byte |
| Frontmatter.IntendedAppendsTagsLine | main.ts:158-162 | when the header has no tags line, the line is inserted right after the header and nothing else changes |
| Frontmatter.IntendedIdempotent | main.ts:151-167 | for tags on one line, applying the intended update twice with the same tags gives what one application gives |
| Frontmatter.UpdateHeaderStable | main.ts:158-161 | for tags on one line, updating an updated header again with the same tags changes nothing |
| Frontmatter.UpdateHeaderCloses | main.ts:158-162 | for tags on one line, an updated header holds no closing marker, so the block still ends where the header does |
| Frontmatter.AutoTag | main.ts:113-117 | the command writes the as-written update of the note with its formatted classification, and where the two updates agree the block's tags line carries those tags |
| GoogleCalendar.MatchAt | googleCalendar.ts:32-34 | a pattern matches at a position with a given length exactly when the matcher returns that length |
| GoogleCalendar.Scan | googleCalendar.ts:32-34 | the scan returns the leftmost match at or after a position, and none exists when it returns nothing |
| GoogleCalendar.DateAtIff | googleCalendar.ts:32 | the date matcher returns a length exactly when four digits, `年`, one or two digits, `月`, one or two digits and `日` span that many characters there, so at most one length matches |
| GoogleCalendar.TimeAtIff | googleCalendar.ts:33 | the time matcher returns a length exactly when one or two digits, `:` and two digits span that many characters there |
| GoogleCalendar.TitleAtIff | googleCalendar.ts:34 | the title matcher returns a length exactly when `# ` at a line start and at least one more character run to the end of that line |
| GoogleCalendar.TimeWithoutRangeCheck | googleCalendar.ts:33 | a time such as `99:99` is accepted, since the pattern has no range check |
| GoogleCalendar.ExtractFacts | googleCalendar.ts:32-42 | extraction fails exactly when the date, the time or the title is missing; on success each fact has its pattern's shape |
| GoogleCalendar.DateIsLeftmost | googleCalendar.ts:32 | the extracted date is the text of the leftmost date match |
| GoogleCalendar.TimeIsLeftmost | googleCalendar.ts:33 | the extracted time is the text of the leftmost time match |
| GoogleCalendar.TitleIsLeftmost | googleCalendar.ts:34 | the extracted title follows `# ` at the leftmost title match |
| GoogleCalendar.NormalizeDate | googleCalendar.ts:40 | definition of the `/年\|月\|日/g` replace, keeping the length; see GoogleCalendar.NormalizedDateShape |
| GoogleCalendar.NormalizedDateShape | googleCalendar.ts:40 | each of `年`, `月` and `日` in the date becomes `-`, the digits stay in place, and the result ends in `-` |
| GoogleCalendar.DateExample | googleCalendar.ts:40-47 | `2024年3月5日` becomes `2024-3-5-`, so the start time reads `2024-3-5-T99:99:00+09:00` for time `99:99` |
| GoogleCalendar.EventDateTime | googleCalendar.ts:47 | the start time is the normalised date, `T`, the time and `:00+09:00` |
| GoogleCalendar.ReminderEvent | googleCalendar.ts:98-122 | the reminder starts and ends at the given time in `Asia/Tokyo`, carries the title and description, and has the e-mail 1440 and pop-up 30 reminders with defaults off |
| GoogleCalendar.AddEvent | googleCalendar.ts:28-82 | a note is refused with the fixed message exactly when a fact is missing; otherwise the event is the reminder record at the note's date and time, and a third pop-up at `minutesDiff` is present exactly when that is positive |

## Left out

- `gemini.ts`, the settings tab, the plugin's command registration and the Obsidian vault reads and writes are not part of this model. Neither are the notices and the error logging in the `try`/`catch` blocks.
- The save hook at `main.ts:134-146` writes the note it reacts to, which fires the hook again. The model gives the result of one run.
- `initialize`, OAuth, and the `events.insert` call with its error path: these are calls into Google's client library. The event record handed to `events.insert` is what the model computes.
- `GoogleCalendar.AddEvent`: the reminder time arrives already converted to whole minutes before the event, or `None` when none was given or it was not a date. `new Date`, `getTime` and `Math.floor` work on floating-point time and are left out. `minutesDiff` is also NaN when `new Date` rejects the event's own start string: `2024-3-5-T09:30:00+09:00` has unpadded fields and a `-` before `T`, so it is outside ECMAScript's date-time string format and its parsing depends on the engine. Where it is rejected the third pop-up never fires, which the model expresses by a `minutesDiff` of `None`.
- `Text.ToLower`: lower-cases ASCII letters only. JavaScript's full Unicode case mapping is left out.
- `TagManager.WalkTaxonomy`: the `if (category.subcategories)` test at `tagManager.ts:133` always holds for the literal taxonomy, which gives every category a list, so the model has no branch for it.
- `TagManager.WalkTaxonomy`: relevance is passed in as a function of the tag, fixed to the lower-cased note by `AnalyzeAndTagContent`. The loops do not recompute it.

## Findings

| source | as written | input that shows it | evidently intended | confidence | as-written member | corrected member |
|---|---|---|---|---|---|---|
| main.ts:158-161 | `replace` returns the header unchanged when no `tags:` line exists, so the `\|\|` fallback only fires for an empty header | `---\nnote: x\n---` stays unchanged | a `tags:` line is appended to any header that lacks one | not executed | Frontmatter.AsWrittenSkipsMissingTagsLine | Frontmatter.IntendedAppendsTagsLine |
| main.ts:158-162 | the updated header is used as the replacement string of the second `replace`, so `$&` in it expands to the whole matched block | `---\nnote: $&\ntags: x\n---` gets the old block pasted into its header | the header is spliced in literally | not executed | Frontmatter.AsWrittenExpandsAmpersand | Frontmatter.IntendedKeepsAmpersand |
