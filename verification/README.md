# Verified model of gitana's core algorithms and protocols

gitana is a Git implementation in Rust. This project models six of its hardest pieces in Dafny, in the form the
source gives them (loops over mutable buffers, cursor-moving parsers, classes whose fields the methods update, and
state machines over a directory), and proves what those pieces are for.

- **Line diff** (`Myers.dfy`). The greedy O(ND) search over a mutable frontier with saved snapshots, and the backward
  walk over them. The frontier is related to furthest reaching points of a grid that is not clipped at the ends of the
  inputs; the result is a valid script of minimal cost, and the walk may start at the far corner.
- **Config parser** (`ConfigGrammar.dfy`, `ConfigParser.dfy`, `ConfigWindows.dfy`, `ConfigLaws.dfy`,
  `ConfigEdits.dfy`, `ConfigForms.dfy`, `ConfigValues.dfy`, `ConfigLines.dfy`, `ConfigBytes.dfy`). `ConfigGrammar`
  says what is read at a position; the class `Parser` is the cursor parser proved against it. `ConfigForms`,
  `ConfigValues` and `ConfigLines` say without those functions what headers, values and lines are and mean, and the
  parser accepts and rejects exactly by that. On top stand the laws: parsing inverts rendering, files can be spliced,
  spans read back on their own, in-place edits are faithful exactly when a stated condition holds, and byte input
  stays bytes.
- **Config publication** (`Namespace.dfy`, `Publication.dfy`, `Recovery.dfy`). The journaled protocol over a target,
  its lock and a private name. `Namespace` has the conditional primitives as sequences of system calls. An `Env` says
  whether other processes may act between calls (`quiet`), whether the process may be cut off before a call
  (`steady`), and whether a primitive is one step or several (`coarse`); an atomic replacement is the run of
  exchange and removal in which nothing happens in between. Interference is an arbitrary change of the whole
  directory. Two ghost sets record what the process's own calls do: `lost` holds inodes left without any name, and
  `displaced` holds inodes some primitive took an entry from.
- **Link resolution** (`LinkResolution.dfy`, `LinkLaws.dfy`, `LinkContainment.dfy`). The mutually recursive resolver
  over shared counters and lists, proved equal to one flat rewriting of pending components, which in turn arrives,
  records and fails exactly as the textbook rule cut off after forty links; and the soundness of the containment
  guard.
- **Clone publication** (`CloneDirectories.dfy`, `CloneDestination.dfy`). Reservation, staging, swap, rollback and
  cleanup over directory identities, and the per-entry move into a directory that was there before. The ghost set
  `deleted` records every directory the attempt deletes.
- **Calendar and header selection** (`Calendar.dfy`, `HttpHeaders.dfy`). The closed-form day count with truncating
  division against the calendar's successor, and the one-pass specificity fold against a declarative choice.

Three promises of the source turned out to hold only under a condition, which is proved exact:

- Replacing a value and parsing again gives the edited file if and only if the value is not an unquoted one ending in
  a carriage return right before the line feed (`ConfigEdits.EditRoundTrips`, `ConfigEdits.ReturnIsLost`): the quoting
  rule at `crates/core/gitana-config/src/source.rs:1145-1149` does not list the carriage return.
- Text may be put behind a config file if and only if the file's last element ends its line. That an element's text
  ends in a newline is enough for headers and fillers, but not for variables: the newline of a final continuation
  belongs to the value (`ConfigLaws.Splice`, `ConfigLaws.HeaderAndFillerLinesClose`,
  `ConfigEdits.ContinuationStaysOpen`).

- A written section header reads back if and only if its subsection has no newline; with one, the written file is
  rejected (`ConfigLines.QuotedLineReads`), because the escaping at `crates/core/gitana-config/src/source.rs:1167-1177`
  keeps newlines as they are.

## Model

| member | source | states |
|---|---|---|
| Myers.Diff | crates/core/gitana-diff/src/myers.rs:17-58 | the result is a valid script (every line of both inputs once, in order, Equal only on equal lines), rebuilds the new sequence, and no valid script has fewer insertions and deletions; the cost is n + m - 2 * LCS, and no insertion stands right before a deletion |
| Myers.SearchDepth | crates/core/gitana-diff/src/myers.rs:34-54 | one depth of the search turns the frontier of furthest points with d-1 edits into the one with d edits on the unclipped grid, and stops exactly when the corner is reached with d edits |
| Myers.FiresAtTheCorner | crates/core/gitana-diff/src/myers.rs:49-52 | a furthest point past both ends is the corner itself, on diagonal n - m |
| Myers.ClipToCorner | crates/core/gitana-diff/src/myers.rs:37-49 | whatever point past both ends is reached with d edits, the corner is reached with no more, so leaving the grid never helps |
| Myers.LandingIsTheLastEdit | crates/core/gitana-diff/src/myers.rs:37-42 | the choice between down and right lands on the furthest point one edit after the previous frontier |
| Myers.ReachByEditsOnly | crates/core/gitana-diff/src/myers.rs:32-55 | the corner is reachable with n + m edits, so the depth loop never runs out |
| Myers.Backtrack | crates/core/gitana-diff/src/myers.rs:61-98 | from the saved frontiers the walk recovers a valid script with exactly the depth as its cost, with no index out of range and no negative cast |
| Myers.PopSnake | crates/core/gitana-diff/src/myers.rs:78-85 | the inner loop prepends the diagonal run down to the previous frontier's landing point |
| Myers.NoInsertionBehind | crates/core/gitana-diff/src/myers.rs:37-42 | an insertion at one depth is never followed directly by a deletion at the next, because the search prefers the diagonal above on ties |
| Myers.ScriptRebuildsNew | crates/core/gitana-diff/src/myers.rs:16 | any valid script turns the old sequence into the new one |
| Myers.ScriptCostsAtLeast | crates/core/gitana-diff/src/myers.rs:16 | no valid script is cheaper than n + m - 2 * LCS |
| Myers.LcsScript | crates/core/gitana-diff/src/myers.rs:16 | and some valid script is that cheap |
| ConfigParser.Parse | crates/core/gitana-config/src/parser.rs:22-83 | a text parses to given elements if and only if these are its lines, each with its meaning in the scope the ones before leave, and is rejected if and only if it has a bad line, for what is wrong with the first one |
| ConfigParser.ParseElements | crates/core/gitana-config/src/parser.rs:27-80 | the loop over lines gives the elements, or the error, the grammar gives for the text |
| ConfigLines.ElementIff | crates/core/gitana-config/src/parser.rs:27-80 | an element is read exactly where the text has such a line: filler, header or variable, with its raw text, names, value and span |
| ConfigLines.ElementErrIff | crates/core/gitana-config/src/parser.rs:27-80 | a line is rejected exactly when it is bad, and for the reason stated on the text |
| ConfigLines.RejectsIffBadLine | crates/core/gitana-config/src/parser.rs:22-83 | a text is rejected exactly for its first bad line |
| ConfigForms.HeaderIff | crates/core/gitana-config/src/parser.rs:116-147 | a header is read exactly where there is one: the name with its capitals made small, and the subsection as quoted, or from after the first dot made small, or none |
| ConfigForms.HeaderErrs | crates/core/gitana-config/src/parser.rs:116-169 | a bracket without a header is rejected for an unclosed quote or else for the missing bracket |
| ConfigLines.QuotedLineReads | crates/core/gitana-config/src/source.rs:1070-1080 | a written header gives the name made small and exactly the subsection, if and only if the subsection has no newline |
| ConfigLines.EscapeSubsection | crates/core/gitana-config/src/source.rs:1167-1178 | the loop builds the escaped form that reads back |
| ConfigLines.DottedLineReads | crates/core/gitana-config/src/parser.rs:131-138 | a dotted header is split at its first dot and both sides are made small |
| ConfigLines.BareLineReads | crates/core/gitana-config/src/parser.rs:131-141 | a header without quotes and dots has no subsection |
| ConfigValues.ValueIff | crates/core/gitana-config/src/parser.rs:213-274 | a value is read exactly where the text is blanks, pieces (letters, gaps, marks, escapes, continuations) and an end; the value is what the pieces mean and the span runs to the last piece that is no gap |
| ConfigValues.ValueErrIff | crates/core/gitana-config/src/parser.rs:213-274 | a value is rejected exactly where a quote is open at a newline or an escape is unknown |
| ConfigParser.Parser.ConsumeLine | crates/core/gitana-config/src/parser.rs:107-114 | the cursor stops after the next newline or at the end |
| ConfigParser.Parser.ParseSectionHeader | crates/core/gitana-config/src/parser.rs:116-147 | reads through its bracket what the grammar reads there, which is a header in all three forms, with case folding, or an error |
| ConfigParser.Parser.ParseQuotedSubsection | crates/core/gitana-config/src/parser.rs:149-169 | reads a quoted subsection with its escapes, and fails at a newline or the end |
| ConfigParser.Parser.ParseVariable | crates/core/gitana-config/src/parser.rs:171-211 | reads a variable line in all its forms through its line end |
| ConfigParser.Parser.ParseValue | crates/core/gitana-config/src/parser.rs:213-274 | decodes a value (quotes, escapes, continuations, CRLF, comments, held-back blanks) and finds its span |
| ConfigLaws.ParseInvertsRender | crates/core/gitana-config/src/parser.rs:8-12 | a text parses to given elements if and only if the elements are well formed and their raw texts in order are the text |
| ConfigLaws.RenderOfParse | crates/core/gitana-config/src/parser.rs:8-12 | the raw texts of a parsed file put together are the file |
| ConfigLaws.Splice | crates/core/gitana-config/src/parser.rs:27-80 | two files end to end parse to the elements of both, scopes, values and spans unchanged, if and only if the first one's last element ends its line |
| ConfigLaws.HeaderAndFillerLinesClose | crates/core/gitana-config/src/parser.rs:40-59 | a header or filler line ends its line exactly when its text ends in a newline |
| ConfigLaws.CompleteFileIgnoresScope | crates/core/gitana-config/src/parser.rs:60-64 | a file that parses on its own parses the same after any other section |
| ConfigWindows.ElementWindow | crates/core/gitana-config/src/parser.rs:27-80 | reading one element depends on nothing outside its own text |
| ConfigWindows.ScanWindow | crates/core/gitana-config/src/parser.rs:224-272 | the value loop depends on nothing past the line end it stops at |
| ConfigEdits.ParsedSpansHold | crates/core/gitana-config/src/parser.rs:10-12 | in a parsed file every value span lies in its raw text, and reading just that slice gives the same value with the whole slice as its span |
| ConfigEdits.SpanReparses | crates/core/gitana-config/src/parser.rs:216-274 | the same for one value at any position of any text |
| ConfigEdits.QuoteValue | crates/core/gitana-config/src/source.rs:1145-1165 | the loop builds the quoted form of a value |
| ConfigEdits.QuoteScans | crates/core/gitana-config/src/source.rs:1145-1165 | scanning a written value decodes to the value unless its bare final carriage return meets a line feed |
| ConfigEdits.SynthesizedStandsAlone | crates/core/gitana-config/src/source.rs:990-1003 | a generated variable line parses back to the variable if and only if its value does not join the line end |
| ConfigEdits.EditRoundTrips | crates/core/gitana-config/src/source.rs:728-750 | replacing the value of any one variable of a parsed file gives a text that parses to exactly the edited elements if and only if the new value does not join the line end |
| ConfigEdits.ReturnIsLost | crates/core/gitana-config/src/source.rs:1145-1149 | the value `a` with a carriage return is written unquoted and reads back as `a` |
| ConfigEdits.ContinuationStaysOpen | crates/core/gitana-config/src/parser.rs:247-252 | a file ending in a continued value ends in a newline, yet its last element does not end its line |
| ConfigBytes.EncodeDecode | crates/core/gitana-config/src/config_bytes.rs:112-127 | encoding and decoding are inverse bijections between byte strings and texts of characters below 256; encoding keeps the numbers |
| ConfigBytes.ParsedIsByte | crates/core/gitana-config/src/config_bytes.rs:18-21 | names, sections, subsections and values read from byte text are byte text, so decoding never panics |
| ConfigBytes.ParseIsLines | crates/core/gitana-config/src/config_bytes.rs:18-21 | bytes are read as the lines of the text of their characters, or rejected as that text is |
| ConfigBytes.GetRawIsLast | crates/core/gitana-config/src/config_bytes.rs:23-51 | the single lookup is the last of the list lookup, valueless occurrences included |
| ConfigBytes.GetRawFindsLastMatch | crates/core/gitana-config/src/source.rs:584-607 | the lookup answers with the last matching element and with none only if no element matches |
| ConfigBytes.GetRawAnswers | crates/core/gitana-config/src/config_bytes.rs:23-35 | the answer is the value bytes of the last variable whose section and name are those asked for with capitals made small and whose subsection has exactly the bytes asked for |
| ConfigBytes.GetAllRawIsListed | crates/core/gitana-config/src/config_bytes.rs:37-51 | the list is the values of exactly those variables, in file order |
| ConfigBytes.RawValueIsExact | crates/core/gitana-config/src/config_bytes.rs:119-127 | a decoded value encodes to exactly the parsed text |
| Namespace.Directory.RenameNoreplaceIfIdentity | crates/core/gitana-fs-native/src/namespace.rs:75-120 | undisturbed, renames exactly when the source has the expected identity and the new name is free, and otherwise changes nothing; whatever others do, success means that the new name has the expected inode, and no inode ever loses its last name |
| Namespace.Directory.Retire | crates/core/gitana-fs-native/src/namespace.rs:304-357 | POSIX removal: the entry's name is free afterwards only if it had the expected identity; whatever others do, success means that a private name has the file, and no inode loses its last name |
| Namespace.Directory.RemoveFileIfIdentity | crates/core/gitana-fs-native/src/windows.rs:134-147 | either platform: only the expected inode can lose its last name, and as one step only it can lose an entry |
| Namespace.Directory.ReplaceIfIdentities | crates/core/gitana-fs-native/src/namespace.rs:238-290 | undisturbed, either both entries had the expected identities and the prepared file is the target, or nothing changed, or the process was cut off between exchange and removal; no inode ever loses its last name |
| Namespace.Directory.PrivateAbsentName | crates/core/gitana-fs-native/src/namespace.rs:524-542 | finds a free private name exactly if one of the 4096 names from the counter on is free |
| Publication.Reserve | crates/core/gitana-config-native/src/lib.rs:1218-1243 | adds exactly one empty private file, if and only if the target is as planned and one of 100 private names is free |
| Publication.Prepare | crates/core/gitana-config-native/src/lib.rs:1245-1300 | writes the edited config into the reserved file and nowhere else, if and only if the target is as planned, the edit succeeds and the file still has its name |
| Publication.Discard | crates/core/gitana-config-native/src/lib.rs:1302-1330 | frees the private name exactly when the target is as planned and the name is free or the prepared file's; takes no other entry |
| Publication.Publish | crates/core/gitana-config-native/src/lib.rs:1332-1507 | whatever others do, only the before-image can lose its last name and only before-image and prepared file can lose an entry; undisturbed, an attempt cut off anywhere stays on track, and an uninterrupted one succeeds if and only if the directory is in a state publication completes from, leaving the prepared file as target and both other names free |
| Publication.RetireDisplaced | crates/core/gitana-config-native/src/lib.rs:1349-1392 | next to an installed target it frees lock and private name exactly when each was free or the before-image's |
| Publication.InstallAfterDisplacement | crates/core/gitana-config-native/src/lib.rs:1394-1434 | from the Windows window it installs the prepared file exactly when both images stand where an interrupted attempt left them |
| Publication.TakeLock | crates/core/gitana-config-native/src/lib.rs:1443-1471 | the prepared file ends up under the lock name exactly when it was under one of the two names alone and reads as the after-image |
| Publication.PublishLocked | crates/core/gitana-config-native/src/lib.rs:1473-1506 | with the lock taken, every cut leaves an on-track state, and completion needs exactly intact images and the boundary |
| Publication.PublishJournaled | crates/core/gitana-config-native/src/lib.rs:1718-1759 | from the locked state the platform's own way of replacing the target passes only through on-track states |
| Publication.Inspect | crates/core/gitana-config-native/src/lib.rs:1614-1691 | answers true exactly in the Windows window with intact images, false exactly when the target is one of the two images, and changes nothing |
| Publication.RequiresRestore | crates/core/gitana-config-native/src/lib.rs:1614-1691 | the same for the public entry point |
| Publication.Restore | crates/core/gitana-config-native/src/lib.rs:1509-1612 | renames and answers true exactly when inspection answers true, leaving the before-image as target and the prepared file locked; otherwise it changes nothing |
| Recovery.BeforeImageIsKept | crates/core/gitana-config-native/src/lib.rs:1394-1434 | in every on-track state the prepared file is installed or the before-image has one of the three names |
| Recovery.TargetIsAnImage | crates/core/gitana-config-native/src/lib.rs:1718-1759 | in every on-track state the target reads as one of the two images, and is absent only if there was none before or in the Windows window |
| Recovery.OnTrackCompletes | crates/core/gitana-config-native/src/lib.rs:1332-1507 | every state an attempt may be cut off in is one a publication completes from, and only an installed one needs no boundary |
| Recovery.OnTrackIsActiveOrVacant | crates/core/gitana-config-native/src/lib.rs:1614-1691 | in every such state inspection has an answer, never an error |
| Recovery.RecoverAndPublish | crates/core/gitana-config-native/src/lib.rs:1332-1612 | after any sequence of publish, restore and inspect attempts, each cut off anywhere, one uninterrupted publication succeeds: prepared file at the target, lock and private names free, nothing else changed |
| Recovery.RunDisturbed | crates/core/gitana-config-native/src/lib.rs:1332-1612 | over any run of attempts with arbitrary interference and cuts, no inode loses its last name except the before-image on Windows, and no entry of a foreign inode is taken or overwritten by a primitive taken as one step |
| Recovery.RestoreTwiceThenPublish | crates/core/gitana-config-native/src/lib.rs:1509-1612 | a restoration yields the before-image, a second one does nothing, and publication completes |
| Recovery.EditConfig | crates/core/gitana-config-native/src/lib.rs:1218-1507 | reserving, preparing, any cut-off attempts and one publication replace the target's text by the edited text |
| LinkResolution.Resolver.ResolveTarget | crates/core/gitana-config-native/src/lib.rs:2092-2154 | terminates on every filesystem graph and gives the target, links, traversed directories and path of the flat rewriting, or its error |
| LinkResolution.Resolver.ResolveName | crates/core/gitana-config-native/src/lib.rs:2196-2249 | the same for one name, following it while it is a link |
| LinkResolution.RunThenOpen | crates/core/gitana-config-native/src/lib.rs:2123-2134 | resolving a name and then what is below it is resolving both at once, counters and lists included |
| LinkLaws.ResolvesIffLeads | crates/core/gitana-config-native/src/lib.rs:2092-2249 | resolution arrives at a target if and only if the textbook rule leads there within forty links, and records exactly the links followed, in order |
| LinkLaws.PinConfigTarget | crates/core/gitana-config-native/src/lib.rs:2002-2029 | the result is exactly the textbook rule's: target, links, traversed directories and path when it finds one within forty links, and otherwise its reason to stop |
| LinkLaws.ArrivesIffFinds | crates/core/gitana-config-native/src/lib.rs:2092-2249 | resolution arrives exactly where the textbook rule does, with exactly what that records |
| LinkLaws.FailsIffStuck | crates/core/gitana-config-native/src/lib.rs:2092-2249 | resolution fails with NotFound exactly at a name that is not last and has no entry, with NotADirectory exactly at one whose entry is neither link nor directory, with NoFileName exactly where the path ends without a name, and with TooManyLinks exactly beyond forty links |
| LinkLaws.TraceArrives | crates/core/gitana-config-native/src/lib.rs:2206-2209 | a path that needs more than forty links is refused for that reason |
| LinkLaws.TargetIsNoLink | crates/core/gitana-config-native/src/lib.rs:2231-2247 | what has a resolved name is no link |
| LinkLaws.SelfLinkIsRefused | crates/core/gitana-config-native/src/lib.rs:2206-2209 | a link to itself is refused |
| LinkContainment.PathIsCanonical | crates/core/gitana-config-native/src/lib.rs:2002-2029 | the recorded path without its last name leads from the root, through directories only, to the target's directory |
| LinkContainment.PathsMeanWhatTheySay | crates/core/gitana-config-native/src/lib.rs:2092-2154 | a path of names without links is walked from the root, or from the directory it is resolved in; a path without a final name has no target |
| LinkContainment.WithinIsAncestor | crates/core/gitana-config-native/src/lib.rs:1203-1216 | being within a directory means reaching it by some number of steps up, none included |
| LinkContainment.DirectoryIsWithin | crates/core/gitana-config-native/src/lib.rs:1203-1216 | the walk up the parents answers whether a directory is the ancestor or below it |
| LinkContainment.EnsureInputOutside | crates/core/gitana-config-native/src/lib.rs:983-1004 | accepts exactly when every consulted directory is outside every forbidden one |
| LinkContainment.ReadConfigInput | crates/core/gitana-config-native/src/lib.rs:1143-1155 | the answer is a text and path exactly if the textbook rule leads over that path to a regular file of that text with everything consulted outside the forbidden directories; none exactly if it leads outside to a name without an entry; and an error exactly if it leads to anything else, leads inside, or stops, for that reason |
| LinkContainment.AcceptedInputIsUnaffected | crates/core/gitana-config-native/src/lib.rs:983-1004 | what the guard accepts has the same target and bytes, and is accepted, in every filesystem that differs only in directories at or below a forbidden one |
| LinkContainment.AcceptedAnswerIsUnaffected | crates/core/gitana-config-native/src/lib.rs:983-1004 | so a text read, and the answer that there is none, are the same in all those filesystems |
| CloneDestination.Start | crates/cli/gta-core/src/clone_destination.rs:49-102 | adds an empty staging directory and, for a new destination, an empty reservation, or changes nothing |
| CloneDestination.Attempt.Publish | crates/cli/gta-core/src/clone_destination.rs:178-200 | whatever others do, deletes only the attempt's own directories; undisturbed, changes nothing when the requested name has another directory or one with content, and otherwise publishes exactly under the stated conditions |
| CloneDestination.Attempt.TakeReservation | crates/cli/gta-core/src/clone_destination.rs:290-326 | moves the reservation aside exactly when the first identity check passes, and otherwise leaves everything in place |
| CloneDestination.Attempt.InstallStaged | crates/cli/gta-core/src/clone_destination.rs:328-378 | the staged clone takes the name exactly when the second check passes and the reservation is empty, and otherwise everything is moved back |
| CloneDestination.Attempt.Rollback | crates/cli/gta-core/src/clone_destination.rs:434-448 | moves the staged clone back and the backup into its place |
| CloneDestination.Attempt.RestoreOrDiscard | crates/cli/gta-core/src/clone_destination.rs:450-473 | restores the backup, or deletes at most the attempt's own empty reservation |
| CloneDestination.Attempt.PublishReplacing | crates/cli/gta-core/src/clone_destination.rs:286-378 | the swap is all or nothing: published, or the directory unchanged |
| CloneDestination.Attempt.MoveAll | crates/cli/gta-core/src/clone_destination.rs:219-247 | moves entries in name order up to the first that clashes or is not accepted; exactly those before it have moved, and it too if it did not clash |
| CloneDestination.EntriesAreInOnePlace | crates/cli/gta-core/src/clone_destination.rs:221-247 | while entries move, each is in exactly one of staging and destination with its identity, and the destination's own entries stay |
| CloneDestination.Attempt.ValidatePublished | crates/cli/gta-core/src/clone_destination.rs:404-432 | accepts exactly when the destination holds the moved entries with their identities and no others |
| CloneDestination.Attempt.PublishIntoPreexisting | crates/cli/gta-core/src/clone_destination.rs:206-276 | succeeds exactly when the destination was empty and every entry was accepted, and then it holds exactly the staged entries and staging is gone; a failure moves nothing back and deletes nothing |
| CloneDestination.Attempt.RemoveOwned | crates/cli/gta-core/src/clone_destination.rs:495-543 | deletes at most the pinned directory, and moves back what it does not delete |
| CloneDestination.Attempt.Cleanup | crates/cli/gta-core/src/clone_destination.rs:475-493 | takes away staging with all it holds and the reservation only if owned and empty |
| CloneDestination.Attempt.Commit | crates/cli/gta-core/src/clone_destination.rs:104-176 | publication with cleanup on failure deletes only the attempt's own directories under arbitrary interference |
| CloneDestination.CloneToNew | crates/cli/gta-core/src/clone_destination.rs:49-176 | a whole clone to a new name: done if both identity checks pass, and otherwise the parent directory is as it was before the start |
| CloneDestination.CloneIntoExisting | crates/cli/gta-core/src/clone_destination.rs:206-276 | a whole clone into an empty directory: exactly the staged entries, or those up to the first one rejected, in name order |
| Calendar.NextIsOneMore | crates/cli/gta-core/src/shallow.rs:185-195 | the day after a valid date has the next number, across month ends, leap days, centuries, eras and negative years |
| Calendar.EpochIsZero | crates/cli/gta-core/src/shallow.rs:185-195 | 1970-01-01 is day zero |
| Calendar.EraIsFloor | crates/cli/gta-core/src/shallow.rs:189 | the corrected truncating division is the floor for negative years too |
| Calendar.NumberIsIncreasing | crates/cli/gta-core/src/shallow.rs:187-195 | later dates have larger numbers |
| Calendar.NumberIsBijective | crates/cli/gta-core/src/shallow.rs:187-195 | every integer is the number of exactly one valid date |
| Calendar.ParseIsoUtc | crates/cli/gta-core/src/shallow.rs:128-159 | the reader accepts exactly valid dates and times, second 60 included, and otherwise names the first check that fails |
| Calendar.TimestampOrigin | crates/cli/gta-core/src/shallow.rs:137-158 | a date without a time counts from midnight, and midnight of 1970-01-01 is zero |
| Calendar.NextSecondIsOneMore | crates/cli/gta-core/src/shallow.rs:153-158 | the timestamp of the next second is one more, and a leap second has that of the minute after it |
| Calendar.TimestampsAreOrdered | crates/cli/gta-core/src/shallow.rs:153-158 | timestamps keep the order of instants, and two different instants share one exactly across a leap second |
| Calendar.TimestampFits | crates/cli/gta-core/src/shallow.rs:158 | for years within 292 billion of zero the timestamp fits 64 bits |
| HttpHeaders.ExtraHeaders | crates/cli/gta-core/src/http_headers.rs:27-72 | fails exactly when an applying entry has no value, naming the first, and otherwise sends one pair for each of the declaratively chosen values that sends something, in order |
| HttpHeaders.ChosenIsUnique | crates/cli/gta-core/src/http_headers.rs:32-69 | the declarative choice (highest applying level, config order, after the last empty value) is unique |
| HttpHeaders.LevelHasPlaces | crates/cli/gta-core/src/http_headers.rs:55-69 | the values of a level are those of exactly the entries at that level, in config order |
| HttpHeaders.AppliesIff | crates/cli/gta-core/src/http_headers.rs:36-45 | section-wide entries apply to every target at the lowest rank, URL entries to exactly the targets they fit and above it, unparseable ones to none |
| HttpHeaders.MatchesIff | crates/cli/gta-core/src/http_headers.rs:146-167 | a pattern matches exactly a target of its scheme and port, of its user if it pins one, label by label and at a path boundary |
| HttpHeaders.SpecificityCounts | crates/cli/gta-core/src/http_headers.rs:162-166 | a match ranks by the pattern's host characters that are neither dots nor stars, its path length and its user |
| HttpHeaders.RankedByHostPathUser | crates/cli/gta-core/src/http_headers.rs:170-177 | more of the host outranks everything, then a longer path outranks a pinned user, and that outranks none; the order is total |
| HttpHeaders.SplitHeaderIff | crates/cli/gta-core/src/http_headers.rs:78-85 | a line is sent as a name and value exactly if it is that name, trimmed, before its first colon and that value, not empty, after it and at most one space |
| HttpHeaders.SplitHeaderNoneIff | crates/cli/gta-core/src/http_headers.rs:78-85 | nothing is sent exactly for a line without a colon or without a value |
| HttpHeaders.PlainLinesAreSent | crates/cli/gta-core/src/http_headers.rs:78-85 | `name: value` and `name:value` are sent as the name and the value |
| HttpHeaders.BlankIsWhiteSpace | crates/cli/gta-core/src/http_headers.rs:84 | names are trimmed of exactly the characters with the White_Space property |
| HttpHeaders.HostMatch | crates/cli/gta-core/src/http_headers.rs:196-216 | the label loop computes the literal length of a match of all labels, or none |
| HttpHeaders.ExactMatchesItself | crates/cli/gta-core/src/http_headers.rs:196-216 | a pattern without a star matches only its own host |
| HttpHeaders.ExactHostOutranksWildcard | crates/cli/gta-core/src/http_headers.rs:189-195 | an exact host strictly outranks any wildcard host matching the same target |
| HttpHeaders.EqualLengthPathsAreEqual | crates/cli/gta-core/src/http_headers.rs:218-228 | two patterns matching one target with paths of equal length have the same path |
| HttpHeaders.PathMatchesAtBoundary | crates/cli/gta-core/src/http_headers.rs:218-228 | a match ends at a slash or at the end of the target |
| HttpHeaders.UrlOutranksSection | crates/cli/gta-core/src/http_headers.rs:179-187 | a matching URL entry always outranks a section-wide one |
| HttpHeaders.TiesAgree | crates/cli/gta-core/src/http_headers.rs:170-177 | patterns that tie on a target differ at most in wildcard hosts |
| HttpHeaders.SplitOnceAtFirstColon | crates/cli/gta-core/src/http_headers.rs:78-85 | a header line is split at its first colon |

## Left out

- ConfigParser.Parse: positions are character indices, where the source has byte offsets of UTF-8 text.
- ConfigEdits.EditRoundTrips: covers replacing one value; inserting a variable, removing entries, include expansion and the typed readers of `source.rs` are not modelled.
- Myers.Diff: equality of lines is taken to be an equivalence, and the machine integers are unbounded.
- Publication.Publish: the checks repeated right before a step only narrow races; no clause says that one of them cannot be skipped. A failing directory sync counts as being cut off there. Permissions, UTF-8 decoding and config parsing of the files are not modelled: a file has a text or is unreadable.
- Publication.Prepare: that it writes only its own file is stated for an undisturbed directory.
- Namespace.Directory.RenameNoreplaceIfIdentity: on Windows opening a handle, checking it and renaming through it are one step, because the handle keeps referring to the checked file. Platforms without these primitives, which refuse to publish, are not modelled.
- Namespace.Directory.Retire: a private name taken between its choice and the rename is an error here, where the source chooses another one.
- LinkResolution.Resolver.ResolveTarget: the filesystem does not change during a resolution, so the checks against concurrent change always pass; Windows path prefixes and permission errors are not modelled.
- CloneDestination.Start: when another process makes the new staging directory unopenable, the source removes whatever empty directory has its name, so the promise about deleted directories begins once the attempt has pinned both. Creating missing parents and canonicalising the path are not modelled.
- CloneDestination.Attempt.Publish: the repository identity returned to the caller is not modelled, and names inside a directory are numbers in byte order.
- HttpHeaders.ExtraHeaders: takes parsed URLs; URL parsing, percent-decoding and port normalisation are not modelled.
- Calendar.ParseIsoUtc: takes the fields as integers; splitting and integer parsing are not modelled, nor overflow for years beyond the stated range.
- Layering of config files, URL rewriting, fetch-depth options, command surfaces, credentials, networking and subprocesses are not modelled.
