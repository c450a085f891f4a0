# luckydraw core in Dafny

This project models the logic of a small browser toolbox for events: a
roster of participants, a lucky draw that picks winners from the roster, and
a board that splits the roster into groups named by an outside provider.
Around these sit the text helpers they share: parsing pasted or uploaded
name lists, finding names that occur twice, a Fisher-Yates shuffle, and the
text of the two CSV exports. The model proves properties of that logic.

Modules, one per source file of the core:

- `Types` holds the `Participant` and `Group` records and the screen enumeration of `types.ts`. Only the roster's name list and a group list's member list are computed on them.
- `Seqs` holds generic facts about sequences: distinctness, occurrence counts and subsequences.
- `Helpers` covers `utils/helpers.ts`: `shuffleArray`, `parseNames`, `MOCK_NAMES`, `getDuplicateIds` and the CSV text builders.
  - `shuffleArray` and `getDuplicateIds` work step by step in the source. They are methods with loops, proved against the functions `Shuffled` and `DuplicateIds`.
  - `parseNames` is a pipeline and is written as functions. `Split` follows the regular-expression split on runs of `\n` and `,`, including its empty first and last pieces. `Trim` strips the whitespace and line-terminator characters of ECMAScript.
- `ParticipantManager` covers the roster handlers of `components/ParticipantManager.tsx`.
  - Every handler hands a whole new roster to its caller, so each handler is a function from the old roster to the new one.
  - Duplicate removal threads a set of names already seen through a filter. It is a method whose loop is proved against the function `Dedupe`.
- `GroupingBoard` covers `components/GroupingBoard.tsx`. `Board` is a class with the screen's state (`groups`, `perGroup`, `isGenerating`, `theme`). `performGrouping` is its method `PerformGrouping`, and the loop that pushes the groups is the method `PushGroups`.
- `LuckyDraw` covers `components/LuckyDraw.tsx`. `DrawSession` is a class whose fields are the screen's state (`isDrawing`, `currentName`, `winners`, `repeatable`, `availableNames`). Its handlers are proved against transitions on the snapshot datatype `DrawState`.

Inputs the code takes from outside become parameters:

- `Math.random()` becomes a sequence of reals in [0, 1), and an index is `floor(r * m)`.
- Record and group ids become a caller-supplied stream `newId: nat -> string`.
- The team-name provider becomes an arbitrary function from a count and a theme to a list of names.
- The confirmation dialog becomes a boolean.
- The text read from a file becomes an optional string, which is `None` when no file was chosen.

Where the documented intent of the project and the code differ, the model follows the code. Each such difference has its own lemma:

- `removeParticipant` drops every record with the given id, not exactly one (`RemoveParticipantMembers`).
- A group label from the provider can equal the fallback label of another group (`LabelsCanCollide`).
- When two participants share a name, one draw without repeats removes both entries from the available names (`DuplicateNameShrinksByTwo`). So "N − K names left after K draws" holds only for rosters without repeated names (`DrawsCount`).
- Export fields are not quoted, so a comma inside a group or member name makes two different group lists export the same text (`GroupsCsvCommaAmbiguity`).
- A group size below 1 is not rejected. A negative size gives no groups (`GroupRun`). Zero cannot occur, because `parseInt(..) || 2` maps it to 2 (`ParsedGroupSize`).
- Reading an exported roster back through `parseNames` yields the header word `姓名` as an extra first name (`ParseRosterCsv`).

## Model

| member | source | states |
|---|---|---|
| Types.Names | components/LuckyDraw.tsx:20 | `participants.map(p => p.name)` has one entry per record, in roster order, and entry k is record k's name |
| Helpers.RandomIndex | utils/helpers.ts:8 | `Math.floor(r * m)` for r in [0, 1) is an index below m |
| Helpers.Swap | utils/helpers.ts:9 | the destructuring swap exchanges the two positions, leaves every other position alone and keeps the multiset |
| Helpers.SwapChoices | utils/helpers.ts:7-8 | the loop draws one index per position from n−1 down to 1, exactly max(n−1, 0) draws, and draw t is at most n−1−t, so every access is in bounds |
| Helpers.ShuffleFromPermutes | utils/helpers.ts:7-10 | any run of the swap steps keeps the length and the multiset of elements |
| Helpers.ShufflePermutes | utils/helpers.ts:5-12 | the shuffle returns a permutation of its input whatever the random values |
| Helpers.ShuffleReadsPrefix | utils/helpers.ts:7-8 | the shuffle of n elements reads exactly the first n−1 random values |
| Helpers.SwapInPlace | utils/helpers.ts:9 | swapping two cells of the working array changes its contents exactly as `Swap` does |
| Helpers.ShuffleArray | utils/helpers.ts:5-12 | copying into a fresh array and swapping position i with `floor(random * (i + 1))` from the last index down to 1 yields `Shuffled(input)`, a permutation of the input; the input is a value and is left untouched |
| Helpers.Shuffled | utils/helpers.ts:5-12 | a list of at most one element comes back as it is (the loop does not run) |
| Helpers.TrimSpec | utils/helpers.ts:18 | `trim` returns a slice with only whitespace before and after it, whose first and last characters are not whitespace |
| Helpers.Trim | utils/helpers.ts:18 | `trim` never lengthens, and a text with non-whitespace at both ends is kept |
| Helpers.TrimNoSeparator | utils/helpers.ts:18 | trimming a separator-free piece keeps it separator-free |
| Helpers.Split | utils/helpers.ts:17 | the split yields at least one piece, and a text without `\n` or `,` is its only piece |
| Helpers.DropEmpty | utils/helpers.ts:19 | the filter keeps exactly the non-empty strings and never lengthens |
| Helpers.CleanTokensMembers | utils/helpers.ts:18-19 | after `map(trim)` and the filter, a string is present iff it is non-empty and the trim of some piece; never more strings than pieces |
| Helpers.SplitNoSeparator | utils/helpers.ts:17 | `split(/[\n,]+/)` yields at least one piece and no piece contains `\n` or `,` |
| Helpers.CleanPieces | utils/helpers.ts:18-19 | trimming and dropping empty strings leaves only non-empty, trimmed, separator-free names |
| Helpers.ParseNames | utils/helpers.ts:15-20 | every name `parseNames` returns is non-empty, has no leading or trailing whitespace and contains neither `\n` nor `,` |
| Helpers.ParseNamesConcat | utils/helpers.ts:17-19 | parsing `a`, a separator, then `b` gives the names of `a` followed by the names of `b`, so names come out in input order |
| Helpers.ParseNamesField | utils/helpers.ts:17-19 | a separator-free text parses to its trimmed self, or to nothing when that is empty |
| Helpers.ParseFieldThen | utils/helpers.ts:17-19 | a separator-free field followed by a separator contributes its trimmed self before the names of the rest |
| Helpers.ParseNamesMixedSeparators | utils/helpers.ts:17-19 | text shaped like `"Ann, Bob\nCarol,,  Dan "` parses to exactly `[Ann, Bob, Carol, Dan]` for any four clean names |
| Helpers.TrimClean | utils/helpers.ts:18 | trimming a clean name returns it unchanged |
| Helpers.ParseNamesJoin | utils/helpers.ts:15-20 | parsing clean names joined by newlines returns exactly those names (paste and re-parse round trip) |
| Helpers.MockNamesClean | utils/helpers.ts:23-28 | the demonstration list has 20 entries and each is a clean name |
| Helpers.DuplicatesAmongSpec | utils/helpers.ts:38-42 | the second pass collects the id of record k (k below the pass position) exactly when its name has count above 1 |
| Helpers.DuplicateIdsSpec | utils/helpers.ts:31-44 | an id is reported iff it belongs to a record whose name also belongs to another record |
| Helpers.DuplicateIdsEmptyIff | utils/helpers.ts:31-44 | nothing is reported iff the roster's names are pairwise distinct |
| Helpers.GetDuplicateIds | utils/helpers.ts:31-44 | the counting pass (the `get() \|\| 0` lookup, plus one per record) and the collecting pass return `DuplicateIds` |
| Helpers.GroupsCsv | utils/helpers.ts:47-53 | the groups text starts with the BOM and header line, and for a non-empty newline-free export the rest splits on newlines to exactly the rows |
| Helpers.ParticipantsCsv | utils/helpers.ts:66-70 | the roster text starts with the BOM and header line, and for a non-empty roster of newline-free names the rest splits on newlines to exactly the names |
| Helpers.GroupRowsCount | utils/helpers.ts:49-51 | `flatMap` over the groups (`GroupRows`, one `MemberRows` per group) gives one row per member of every group |
| Helpers.GroupRowsAppend | utils/helpers.ts:49-51 | rows come group by group in list order |
| Helpers.GroupRowsSingle | utils/helpers.ts:50 | a group's rows (`MemberRows`) are one per member, row k being the group name, a comma and member k |
| Helpers.SplitJoinLines | utils/helpers.ts:51 | newline-free rows joined with `"\n"` (`JoinLines`) split back into the same rows, so the rows are recoverable |
| Helpers.SplitJoinEmpty | utils/helpers.ts:68 | an empty list joins to the empty text, which reads back as one empty line |
| Helpers.RosterCsvExample | utils/helpers.ts:66-70 | the roster export of `王小明`, `李美玲` is, after the BOM, exactly `"姓名\n王小明\n李美玲"` |
| Helpers.GroupsCsvCommaAmbiguity | utils/helpers.ts:47-53 | fields are not quoted: a group `A,B` with member `C` and a group `A` with member `B,C` export the same text, though the group lists differ |
| Helpers.ParseRosterCsv | utils/helpers.ts:66-70 | parsing an exported roster of clean names yields the header word `姓名` (BOM trimmed away) followed by the roster's names |
| Helpers.ParseHeaderName | utils/helpers.ts:67 | the BOM-prefixed header line parses to the single name `姓名` |
| ParticipantManager.NewParticipants | components/ParticipantManager.tsx:18-21 | one new record per name, in order, carrying that name |
| ParticipantManager.AddNames | components/ParticipantManager.tsx:22 | the old roster is kept as a prefix and the new records' names are exactly the added names |
| ParticipantManager.HandleAddNames | components/ParticipantManager.tsx:16-24 | given names (even an empty list) are appended and the input box is kept; otherwise the box is parsed, appended and emptied |
| ParticipantManager.HandleLoadMockData | components/ParticipantManager.tsx:26-28 | the 20 demonstration names are appended after the old roster |
| ParticipantManager.HandleFileUpload | components/ParticipantManager.tsx:40-55 | no file leaves the roster as it was; otherwise the file's parsed names are appended |
| ParticipantManager.PasteAndUploadAgree | components/ParticipantManager.tsx:47-52 | uploading a text and pasting it add the same records |
| ParticipantManager.HandleClear | components/ParticipantManager.tsx:57-61 | a confirmed clear empties the roster; a declined one changes nothing |
| ParticipantManager.RemoveParticipant | components/ParticipantManager.tsx:63-65 | the filter never lengthens the roster |
| ParticipantManager.RemoveParticipantMembers | components/ParticipantManager.tsx:64 | a record survives iff it was present and its id differs from the removed id, so every record with that id goes |
| ParticipantManager.RemoveParticipantSubsequence | components/ParticipantManager.tsx:64 | the survivors keep their relative order |
| ParticipantManager.RemoveLeavesOut | components/ParticipantManager.tsx:64 | no survivor carries the removed id |
| ParticipantManager.RemoveAbsentId | components/ParticipantManager.tsx:64 | removing an id no record carries changes nothing |
| ParticipantManager.RemoveParticipantAppend | components/ParticipantManager.tsx:64 | removal distributes over concatenation of rosters |
| ParticipantManager.HandleRemoveDuplicates | components/ParticipantManager.tsx:30-38 | the seen-set filter returns `Dedupe`: an order-preserving subsequence whose names are pairwise distinct and with no duplicate ids left |
| ParticipantManager.DedupeFrom | components/ParticipantManager.tsx:31-36 | the filter with a seen-set never lengthens the roster |
| ParticipantManager.Dedupe | components/ParticipantManager.tsx:30-38 | deduplication never lengthens the roster and always keeps the first record first |
| ParticipantManager.DedupeFromFirsts | components/ParticipantManager.tsx:31-36 | the result is the first-of-their-name records among the first i, in order, followed by the filter of the remaining records with those i records' names seen |
| ParticipantManager.DedupeAtFirsts | components/ParticipantManager.tsx:30-38 | the result is exactly the records that are the first of their name, kept at their relative positions |
| ParticipantManager.DedupeFromMembers | components/ParticipantManager.tsx:31-36 | with a set of names already seen, a record survives iff it is the first of its name and that name was not yet seen |
| ParticipantManager.DedupeFromSubsequence | components/ParticipantManager.tsx:32-36 | the filter keeps survivors in roster order |
| ParticipantManager.DedupeFromAvoidsSeen | components/ParticipantManager.tsx:33 | no survivor's name was already seen |
| ParticipantManager.DedupeFromDistinct | components/ParticipantManager.tsx:33-35 | survivors' names are pairwise distinct |
| ParticipantManager.DedupeFromKeepsNames | components/ParticipantManager.tsx:33-35 | every name of the roster not already seen survives |
| ParticipantManager.DedupeFromNoop | components/ParticipantManager.tsx:32-36 | a roster with distinct names none of which was seen passes unchanged |
| ParticipantManager.DedupeSubsequence | components/ParticipantManager.tsx:30-38 | deduplication deletes records only, never reorders |
| ParticipantManager.DedupeDistinct | components/ParticipantManager.tsx:30-38 | after deduplication the names are pairwise distinct |
| ParticipantManager.DedupeKeepsFirst | components/ParticipantManager.tsx:30-38 | a record survives iff it was the first record of its name |
| ParticipantManager.DedupeKeepsNames | components/ParticipantManager.tsx:30-38 | a name occurs after deduplication iff it occurred before |
| ParticipantManager.DedupeIdempotent | components/ParticipantManager.tsx:30-38 | deduplicating twice is deduplicating once |
| ParticipantManager.DedupeClearsDuplicates | components/ParticipantManager.tsx:30-38 | after deduplication no duplicate ids are reported |
| ParticipantManager.DedupeChangesIffDuplicates | components/ParticipantManager.tsx:30-38 | deduplication changes the roster iff duplicates were reported |
| ParticipantManager.DedupeOfferedIff | components/ParticipantManager.tsx:124 | the remove-duplicates button shows iff two records share a name |
| ParticipantManager.DedupeOffered | components/ParticipantManager.tsx:124 | the button can show only for a roster of at least two records |
| ParticipantManager.AddCleanNames | components/ParticipantManager.tsx:16-22 | appending clean names keeps every roster name clean |
| ParticipantManager.HandlersKeepWellFormed | components/ParticipantManager.tsx:16-65 | pasting, loading the demonstration list, uploading, deduplicating, removing and clearing all keep every roster name clean |
| GroupingBoard.CeilDiv | components/GroupingBoard.tsx:24 | `Math.ceil(n / perGroup)` is non-negative for a positive size, at least one for a non-empty roster, and non-positive for a negative size |
| GroupingBoard.CeilDivSpec | components/GroupingBoard.tsx:24 | the group count c is the least with n ≤ c·perGroup |
| GroupingBoard.ChunkBounds | components/GroupingBoard.tsx:35 | each slice start is inside the roster and each slice end is the next start, and only the last end reaches the roster's length |
| GroupingBoard.Slice | components/GroupingBoard.tsx:35 | `slice` within bounds is the subsequence, and an end past the length is clamped |
| GroupingBoard.SliceIndex | components/GroupingBoard.tsx:35 | a `slice` bound is clamped into the roster: within bounds it is kept, past the end it is the length |
| GroupingBoard.NatToStringInjective | components/GroupingBoard.tsx:33 | distinct numbers print differently |
| GroupingBoard.NatToString | components/GroupingBoard.tsx:33 | the decimal text of a number is non-empty and all digits |
| GroupingBoard.FallbackName | components/GroupingBoard.tsx:33 | the fallback label is `隊伍 ` followed by at least one digit and nothing else |
| GroupingBoard.FallbackNamesDistinct | components/GroupingBoard.tsx:33 | the fallback labels `隊伍 i+1` of two different groups differ |
| GroupingBoard.GroupName | components/GroupingBoard.tsx:33 | a group takes the provider's entry when present and non-empty, else its fallback label |
| GroupingBoard.MembersFrom | components/GroupingBoard.tsx:29-37 | the members of groups i onward are exactly the shuffled names from position i·perGroup on |
| GroupingBoard.GroupingPartitions | components/GroupingBoard.tsx:24-37 | there are `ceil(n / perGroup)` groups and their members in order are exactly the shuffled names, each once |
| GroupingBoard.GroupingSizes | components/GroupingBoard.tsx:29-37 | every group but the last has perGroup members; the last has between one and perGroup |
| GroupingBoard.GroupRun | components/GroupingBoard.tsx:24-37 | a positive size gives `ceil(n / perGroup)` groups, a negative size none, and group i gets id i of the stream |
| GroupingBoard.GroupingNames | components/GroupingBoard.tsx:27-33 | group i carries provider entry i when usable, else `隊伍 i+1` |
| GroupingBoard.ExtraNamesIgnored | components/GroupingBoard.tsx:30-33 | provider entries beyond the group count play no part |
| GroupingBoard.FallbackLabelsDistinct | components/GroupingBoard.tsx:33 | for any provider list, two groups that both fall back (no entry, or an empty one) get different labels |
| GroupingBoard.LabelsCanCollide | components/GroupingBoard.tsx:33 | a provider name can equal another group's fallback label, so labels are not always distinct |
| GroupingBoard.ParsedGroupSize | components/GroupingBoard.tsx:59 | `parseInt(value) \|\| 2`: a number other than zero is kept, and a missing number or zero becomes 2, so the size is never zero |
| GroupingBoard.PushGroups | components/GroupingBoard.tsx:29-37 | the loop pushes exactly the groups `MakeGroups` describes, with id, label and slice `i·perGroup .. (i+1)·perGroup` |
| GroupingBoard.Board.constructor | components/GroupingBoard.tsx:12-15 | the screen starts with no groups, size 4, not busy, theme `Corporate Superheroes` |
| GroupingBoard.Board.SetPerGroup | components/GroupingBoard.tsx:59 | the size input stores `ParsedGroupSize` of the typed value and nothing else changes |
| GroupingBoard.Board.SetTheme | components/GroupingBoard.tsx:69 | the theme input stores the typed text and nothing else changes |
| GroupingBoard.Board.PerformGrouping | components/GroupingBoard.tsx:17-41 | an empty roster changes nothing; otherwise the groups become the run over the shuffled names with the provider asked for `ceil(n / perGroup)` names, and the busy flag ends cleared |
| GroupingBoard.Board.HandleExport | components/GroupingBoard.tsx:43-46 | with no groups nothing is exported; otherwise the export text of the groups |
| GroupingBoard.RunKeepsRoster | components/GroupingBoard.tsx:23-39 | after shuffling and grouping, the members of all groups are the roster's names with their multiplicities |
| LuckyDraw.RemoveAll | components/LuckyDraw.tsx:62 | a name survives the filter iff it was there and differs from the winner |
| LuckyDraw.RemoveAllSpec | components/LuckyDraw.tsx:62 | the filter keeps the other names in order, drops exactly the winner's occurrences and leaves no winner behind |
| LuckyDraw.RemoveAllDistinct | components/LuckyDraw.tsx:62 | filtering a repeat-free list leaves it repeat-free |
| LuckyDraw.RemoveOnce | components/LuckyDraw.tsx:62 | in a repeat-free list the filter removes exactly one entry |
| LuckyDraw.Draw | components/LuckyDraw.tsx:23-54 | an empty pool changes nothing; otherwise one winner from the pool is prepended, shown, and the draw ends |
| LuckyDraw.EmptyPoolUnchanged | components/LuckyDraw.tsx:26-29 | with nothing to draw from, the whole state is unchanged |
| LuckyDraw.FinishPrepends | components/LuckyDraw.tsx:56-59 | finishing prepends the winner, keeps earlier winners, shows the winner and clears the busy flag |
| LuckyDraw.FinishRemovesWinner | components/LuckyDraw.tsx:61-62 | without repeats every occurrence of the winner leaves the available names, the rest keep their order, and the list shrinks by the occurrence count |
| LuckyDraw.FinishRepeatableKeeps | components/LuckyDraw.tsx:61 | with repeats the available names are untouched |
| LuckyDraw.DrawFromAvailable | components/LuckyDraw.tsx:24-62 | a draw without repeats from a non-empty list picks a still-available name, prepends it to the earlier winners, shows it, removes it from the available names and ends with the busy flag cleared and the repeat flag kept |
| LuckyDraw.DrawFromRoster | components/LuckyDraw.tsx:24 | a draw with repeats picks a current roster name and leaves the available names |
| LuckyDraw.ResetEstablishes | components/LuckyDraw.tsx:66-70 | after a reset or mounting, winners are distinct and none is available |
| LuckyDraw.DrawKeepsInvariant | components/LuckyDraw.tsx:56-64 | a draw without repeats keeps winners distinct and disjoint from the available names |
| LuckyDraw.DrawsKeepInvariant | components/LuckyDraw.tsx:23-64 | any number of draws without repeats keeps that invariant |
| LuckyDraw.DrawsCount | components/LuckyDraw.tsx:59-62 | k draws without repeats over k or more distinct available names add k winners and leave exactly k fewer available |
| LuckyDraw.DrawsExhausted | components/LuckyDraw.tsx:26-29 | once nothing is available, further draws without repeats change nothing |
| LuckyDraw.Draws | components/LuckyDraw.tsx:23-64 | a run of draws adds at most one winner per roll and keeps the repeat flag |
| LuckyDraw.DrawsKeepEarlierWinners | components/LuckyDraw.tsx:59 | new winners only go in front: the earlier winners stay, in order, at the end of the list |
| LuckyDraw.DuplicateNameShrinksByTwo | components/LuckyDraw.tsx:62 | with two participants named `A`, drawing `A` removes both entries at once |
| LuckyDraw.RepeatableRepeats | components/LuckyDraw.tsx:24 | with repeats allowed, the same name can win twice |
| LuckyDraw.RosterChangeBreaksInvariant | components/LuckyDraw.tsx:19-21 | a roster change makes earlier winners available again, so the invariant can break |
| LuckyDraw.ResetSpec | components/LuckyDraw.tsx:66-70 | reset clears the winners, shows the greeting and makes every current name available |
| LuckyDraw.RosterChangeSpec | components/LuckyDraw.tsx:19-21 | a roster change makes the roster's names available and keeps winners and display |
| LuckyDraw.Toggle | components/LuckyDraw.tsx:80-84 | the checkbox sets the repeat flag to the new value unless a draw is running, and changes nothing else |
| LuckyDraw.DrawSession.constructor | components/LuckyDraw.tsx:11-21 | mounting starts idle with the greeting, no winners, repeats off and every roster name available |
| LuckyDraw.DrawSession.FinishDraw | components/LuckyDraw.tsx:56-64 | the fields become `Finish` of the old state |
| LuckyDraw.DrawSession.StartDraw | components/LuckyDraw.tsx:23-54 | the fields become `Draw` of the old state; it returns no winner iff the pool was empty, else a pool member that now heads the winners |
| LuckyDraw.DrawSession.ResetDraw | components/LuckyDraw.tsx:66-70 | the fields become `Reset` of the old state |
| LuckyDraw.DrawSession.OnParticipantsChanged | components/LuckyDraw.tsx:19-21 | only the available names change, to the roster's names |
| LuckyDraw.DrawSession.SetRepeatable | components/LuckyDraw.tsx:80-84 | the checkbox sets the flag unless a draw is running |

Some definitions transcribe the code directly and carry no contract of their own. The rows above pin them down:

- `MakeGroups` and `GroupAt` by `PushGroups`, `GroupingPartitions`, `GroupingSizes` and `GroupingNames`.
- `Finish` by `FinishPrepends`, `FinishRemovesWinner` and `FinishRepeatableKeeps`.
- `Pool` by `DrawFromAvailable` and `DrawFromRoster`.
- `Reset`, `RosterChanged` and `Mounted` by `ResetSpec`, `RosterChangeSpec`, `ResetEstablishes` and `DrawSession.constructor`.
- `TrimEach` and `CleanTokens` by `CleanTokensMembers` and `CleanPieces`.
- `Lookup` by `GetDuplicateIds`.
- `MemberRows` and `GroupRows` by `GroupRowsSingle`, `GroupRowsAppend` and `GroupRowsCount`.
- `JoinLines` by `SplitJoinLines` and `SplitJoinEmpty`.
- `ShuffleFrom` by `ShuffleFromPermutes` and `ShuffleReadsPrefix`.
- `DuplicatesAmong` and `DuplicateIds` by `DuplicatesAmongSpec` and `DuplicateIdsSpec`.

## Left out

- Writing files is not modelled: the Blob, object URL, hidden anchor and date-based file names of the CSV exports (utils/helpers.ts:54-62, 71-79) are left out. Only the text content is modelled.
- Reading files is not modelled: `FileReader` (components/ParticipantManager.tsx:44-54) becomes the text it delivers.
- The `confirm` and `alert` dialogs are left out. A confirmation is a boolean, and the alert is the `None` result of `StartDraw`.
- The draw's deceleration ticks and `setTimeout` chain (components/LuckyDraw.tsx:32-51) are left out. Each tick only changes the displayed name, and the state after a draw depends only on the last tick's roll. So a draw is one atomic step with that roll, and `isDrawing` is never observed set between handlers.
- Reset and start are disabled while a draw runs (components/LuckyDraw.tsx:106, 118). These guards are not modelled, because with atomic draws no handler runs during a draw.
- `Math.random` is an explicit random source. `floor(r * m)` is computed on exact reals, so floating-point rounding of the product is not modelled.
- Ids from `Math.random().toString(36)` are a caller-supplied stream. Their uniqueness is neither assumed nor proved.
- The team-name service (services/geminiService.ts) is an arbitrary function of count and theme, so its network call and its fallback list are not modelled. The `await` between setting the busy flag and storing the groups is treated as atomic.
- `App.tsx` is not part of this model: it only switches screens and renders.
- JSX rendering is not modelled. The remove-duplicates button condition (components/ParticipantManager.tsx:124), the size input (components/GroupingBoard.tsx:59) and the repeat checkbox are the exceptions.
- Helpers.MockNamesClean: proves the count and that every demonstration name is clean. It does not prove that the 20 names are pairwise distinct, because comparing the literal strings pairwise was too costly for the verifier.
- Helpers.ParseNamesMixedSeparators: the example `"Ann, Bob\nCarol,,  Dan "` is stated for any four clean names in that layout, not on the literal text, which the verifier would have to unfold character by character.
- `parseInt` itself is not modelled. The size input receives its result as an optional integer, with `None` for `NaN`.
- GroupingBoard.ParsedGroupSize: a digit string longer than about 309 digits makes `parseInt` return `Infinity` (or `-Infinity`), which is truthy; `perGroup` is then infinite and `Math.ceil(n / Infinity)` is 0, so no groups are made. An optional integer cannot express this.
