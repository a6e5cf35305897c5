# Verified model of pre-commit-review

This project models the parts of pre-commit-review that carry hard guarantees, and proves them for all
inputs, all runs and all interleavings.

- **Archives** (`UstarFormat`, `UstarWriter`, `UstarHeader`, `UstarInspector`, `UstarAccepted`, `HeaderAccepted`,
  `UstarRoundTrip`, `PackInventory`): the deterministic writer and the strict inspector of the ustar interchange format of the `pax` utility in
  POSIX.1-2017, as array and cursor code proved against recursive specifications. The inspector accepts an
  archive exactly when entries tile it, and it undoes the writer.
- **Redaction** (`Utf8`, `Utf8Exact`, `FindingSpans`, `Redaction`, `Summaries`, `Sanitizer`, `RedactedText`): locating findings, merging their spans and
  rewriting the text from right to left. The result is the weave of the kept text with one token for each
  maximal merged span, and every surviving byte keeps its line.
- **Review scope** (`Numerals`, `ScopeFingerprint`, `GitPaths`, `GitFormats`, `Classification`, `ReviewScope`,
  `GroupReasons`, `ControlPlane`, `ReviewPlan`, `ScopeContents`, `ScopeChecked`): the framed fingerprint is injective, Git's listings read back, and every collected scope satisfies the
  independent checker of the control plane.
- **Hunks** (`HunkHeaders`, `HunkWalk`, `HunkAccepted`): the two walks over unified diffs return exactly the inserted lines and
  the changed ranges, and agree wherever they can.
- **Artifacts** (`PackRecords`, `FileTrees`, `CacheEntry`, `PackAccepted`, `Inventory`, `CachePublish`, `ManifestRules`, `ProvisionSteps`,
  `Provision`, `ProvisionSafety`, `TargetAccepted`, `ProvisionAgain`, `ProvisionSuccess`): publishing and provisioning as state machines over any number of
  processes that may stop at every step, with the invariants that every step keeps; the distribution manifest
  and its update.
- **Measurement** (`ResourceMonitor`, `ProcessTree`, `Percentile`): the monitor thread with its readers, the process
  walk, and the percentile that two programs compute.

`Bytes` holds the shared byte strings, their order and splitting; `Sorting` holds the stable sort that the
others use, with its order, members and stability.

Code that updates state step by step is modelled by methods with loops, arrays and classes, each proved
against a specification function about which the properties are then proved. Protocols of several processes
are relations between states, and the theorems are about every finite run.

Some properties that one would expect turn out to be false of the code. Each is shown by a lemma with a
concrete input (marked "a finding" below), beside the exact condition under which it does hold:

- A file map can be unwritable although each of its files fits, because a directory above a file does not
  (`UstarRoundTrip.DirectoryMayNotFit`; exactly when: `UstarRoundTrip.MapIsWritable`).
- A pack manifest may list a licence in a subdirectory, which the inventory check of the same program rejects
  (`PackInventory.NestedLicenseIsRejected`; exactly when: `PackInventory.WrittenInventory`).
- Recovery of a shifted finding considers only the occurrences that a left-to-right scan visits
  (`FindingSpans.NearestMayBeSkipped`; exactly when: `FindingSpans.NearestExactlyWithoutOverlap`).
- The list of redaction summaries can contain equal entries (`Sanitizer.EqualSummariesMaySurvive`; exactly when:
  `Summaries.SummariesAreDistinct`).
- The reason of the lockfile group can depend on the order of the files
  (`GroupReasons.LockfileReasonDependsOnOrder`; exactly when: `GroupReasons.ReasonIsStableExactly`).
- Two paths that are not UTF-8 can become the same path when Git's listings are read
  (`GitFormats.UndecodablePathsCollide`; exactly when entries survive: `GitFormats.NameStatusExact`). A hunk
  heading that is not UTF-8 makes the whole diff unreadable (`HunkHeaders.HeaderReadsBack`).
- The two hunk walks differ when a hunk ends exactly at the last 32-bit line number
  (`HunkWalk.WalksDifferOnlyAtTheLastLine`).
- A provisioning call that stopped half-way cannot be repeated once it made its pack directory
  (`ProvisionSafety.BegunBlocksRetry`), and one that stopped while it wrote the distribution manifest blocks every
  pack (`ProvisionSuccess.CrashBlocksEveryPack`). Exactly when a call can be repeated:
  `ProvisionSuccess.RepeatsExactly`; exactly when a target lets a call succeed, which leftover profiles, registries
  and receipts also decide: `ProvisionSuccess.SucceedsExactly`.
- A snapshot can show the capped peak without reporting the limit (`ResourceMonitor.CapWithoutExceeded`;
  exactly when it does report it: `ResourceMonitor.CapIsReportedExactly`), and an unavailable status hides a breach
  (`ResourceMonitor.BreachCanBeHidden`; exactly when it stays visible: `ResourceMonitor.BreachStaysReported`).

`dafny verify dfyconfig.toml` checks everything.

## Model

| member | source | states |
|---|---|---|
| `UstarRoundTrip.FileMapRoundTrip` | collect-diff-context-cli/src/artifacts/writer.rs:587-621 | a sorted file map is written, and inspecting the archive returns exactly its entries with their recorded offsets and sizes, if and only if every file and every implied directory fits the format, every file passes the header checks, and the entry limit and the case-collision check hold; the directories in the archive are then ancestors of files |
| `UstarRoundTrip.MapIsWritable` | collect-diff-context-cli/src/artifacts/writer.rs:587-683 | a file map can be written if and only if each file has a path of at most 100 bytes or one with a slash that leaves a short enough name and prefix, a mode below 8^7 and a size below 8^11, and each directory that is not itself a file path has such a path too |
| `UstarRoundTrip.RoundTripExact` | collect-diff-context-cli/src/artifacts/pack.rs:281-441 | for any sorted entry list that can be written, inspect-after-write returns the same entries if and only if each header passes, the entry limit holds and no two paths differ only in case |
| `UstarRoundTrip.DataIsWhereRecorded` | collect-diff-context-cli/src/artifacts/writer.rs:623-658 | the recorded offset and size of every entry slice exactly that file's bytes out of the archive |
| `UstarRoundTrip.ReadsBack` | collect-diff-context-cli/src/artifacts/pack.rs:335-378 | one written header reads back as its own entry exactly when the path, mode and size rules accept it; in particular its checksum and octal fields are never the reason for a rejection |
| `UstarRoundTrip.WrittenPathReadsBack` | collect-diff-context-cli/src/artifacts/pack.rs:531-582 | the prefix and name fields of a written header give back the path of the entry |
| `UstarRoundTrip.SafePrefix` | collect-diff-context-cli/src/artifacts/pack.rs:531-582 | every parent of a safe path is a safe path |
| `UstarRoundTrip.AncestorPasses` | collect-diff-context-cli/src/artifacts/writer.rs:588-604 | every directory that the writer adds for an accepted file path is itself an accepted directory path |
| `UstarRoundTrip.DirectoryMayNotFit` | collect-diff-context-cli/src/artifacts/writer.rs:660-672 | a finding: the map of one file whose path fits, in a directory with a name of 150 letters, cannot be written, because the directory does not fit |
| `UstarWriter.NormalizedArchive` | collect-diff-context-cli/src/artifacts/writer.rs:587-621 | the writer emits one entry for each file and for each ancestor directory, in path order, and the bytes are those of the entries followed by the two end blocks |
| `UstarWriter.CollectDirectories` | collect-diff-context-cli/src/artifacts/writer.rs:588-601 | the directory set is exactly the set of proper ancestors of the file paths, in order |
| `UstarWriter.MergeEntries` | collect-diff-context-cli/src/artifacts/writer.rs:602-604 | directories and files merge into one sorted map in which a later value replaces an earlier one |
| `UstarWriter.ArchiveOutput.AppendUstarEntry` | collect-diff-context-cli/src/artifacts/writer.rs:623-658 | filling the header array and growing the output appends exactly the bytes of the entry, or leaves the output alone and reports which field does not fit |
| `UstarWriter.WriteOctal` | collect-diff-context-cli/src/artifacts/writer.rs:674-683 | the in-place octal writer fills the field with a zero-padded numeral and a NUL, or reports that the value does not fit, and touches nothing else |
| `UstarWriter.AncestorsExact` | collect-diff-context-cli/src/artifacts/writer.rs:588-601 | the directories created for a relative path are exactly its proper ancestors |
| `UstarWriter.SplitRejoins` | collect-diff-context-cli/src/artifacts/writer.rs:660-672 | the two fields rejoin to the path exactly when a long path is not split at a slash in its first place |
| `UstarFormat.ChecksumFits` | collect-diff-context-cli/src/artifacts/writer.rs:645-649 | the byte sum of every possible header fits six octal digits |
| `UstarFormat.ChecksumOfHeader` | collect-diff-context-cli/src/artifacts/writer.rs:641-650 | the checksum of the finished header is the one that was stored, since the sum counts the checksum field as spaces |
| `UstarHeader.ParseOctalExact` | collect-diff-context-cli/src/artifacts/pack.rs:512-529 | a numeric field is accepted with a value exactly when it is a non-empty run of octal digits of that value, then at least one NUL or space and nothing else but those |
| `UstarHeader.ParseUndoesWrite` | collect-diff-context-cli/src/artifacts/pack.rs:512-529 | reading undoes writing for every value that fits the field |
| `UstarInspector.InspectUstar` | collect-diff-context-cli/src/artifacts/pack.rs:281-441 | the cursor loop computes the recursive inspection of the whole file |
| `UstarInspector.ReadEntry` | collect-diff-context-cli/src/artifacts/pack.rs:304-438 | one round of the loop: header, checks, order checks and padding, in the order of the program |
| `UstarInspector.AdmitPath` | collect-diff-context-cli/src/artifacts/pack.rs:379-400 | the running previous path and path sets decide order, duplicates and case collisions as the global history does |
| `UstarInspector.OrderErrors` | collect-diff-context-cli/src/artifacts/pack.rs:379-400 | a path that sorts before the previous one is out of order, otherwise one that was there before is a duplicate, and otherwise one that was there but for its case is a collision |
| `UstarInspector.SkipData` | collect-diff-context-cli/src/artifacts/pack.rs:402-432 | data and padding are inside the archive and the padding is zero, without overflow |
| `UstarAccepted.InspectExact` | collect-diff-context-cli/src/artifacts/pack.rs:281-441 | the inspector accepts an archive with these entries if and only if the entries tile it, each with a header that reads as the entry, up to two zero blocks at the very end, and the entries are ordered, distinct and few enough |
| `UstarAccepted.AcceptedArchive` | collect-diff-context-cli/src/artifacts/pack.rs:281-441 | an accepted archive is as long as its entries with padding plus 1024; it has at most 128 entries; data ranges are inside it, disjoint and ascending; paths are strictly ascending, differ in more than case, are relative and free of dot parts and control characters; directories are empty |
| `UstarAccepted.NoOverflow` | collect-diff-context-cli/src/artifacts/pack.rs:312-432 | the unchecked additions of the walk never overflow, and the expanded-size error cannot occur for an archive within the hard limit |
| `HeaderAccepted.ReadsExactly` | collect-diff-context-cli/src/artifacts/pack.rs:335-378 | a block is accepted as a header for a path, size and kind if and only if its fields spell them: six octal digits that denote the sum of all bytes with the checksum field as spaces, the magic and version, type "0" or "5", the expected mode, owner, group and time 0, all unused bytes zero, and name and prefix fields that give a safe path |
| `HeaderAccepted.AcceptedBlocksSpell` | collect-diff-context-cli/src/artifacts/pack.rs:281-441 | in an accepted archive the block before the data of every entry spells that entry |
| `HeaderAccepted.ChecksumExactly` | collect-diff-context-cli/src/artifacts/pack.rs:443-474 | the checksum test passes if and only if the digits denote the sum of the block |
| `HeaderAccepted.ChecksumErrors` | collect-diff-context-cli/src/artifacts/pack.rs:443-474 | a checksum field that is not six octal digits, a NUL and a space is a format error, and one with another sum a checksum error |
| `HeaderAccepted.TypeErrors` | collect-diff-context-cli/src/artifacts/pack.rs:349-363 | a type other than file and directory is an error of its own, unless it is a metadata type with more bytes than metadata may have |
| `HeaderAccepted.PathExactly` | collect-diff-context-cli/src/artifacts/pack.rs:531-582 | the joined name is accepted if and only if it is short enough, relative, UTF-8, free of empty, "." and ".." parts, backslashes, colons and control characters, and only a directory ends in a slash |
| `PackInventory.WrittenInventory` | collect-diff-context-cli/src/artifacts/pack.rs:648-682 | the inventory of a written pack is accepted exactly when its files are the pack manifest and the files that it lists, and no file lies deeper than "bin/" or "licenses/" |
| `PackInventory.InventoryErrors` | collect-diff-context-cli/src/artifacts/pack.rs:648-682 | a file that the manifest does not list is reported before one that is missing, and both before a directory other than "bin/" and "licenses/" |
| `PackInventory.WrittenFiles` | collect-diff-context-cli/src/artifacts/pack.rs:652-660 | the files observed in a written archive are those of the file map |
| `PackInventory.WrittenDirectories` | collect-diff-context-cli/src/artifacts/pack.rs:673-676 | the directories of a written archive are the ancestors of its files |
| `PackInventory.NestedLicenseIsRejected` | collect-diff-context-cli/src/artifacts/pack.rs:648-682 | a finding: a licence in a directory of its own satisfies the role rule of the pack manifest, but the archive of every pack that holds one, and otherwise exactly what its manifest lists, is rejected as having an unexpected entry |
| `FindingSpans.LineStarts` | collect-diff-context-cli/src/secret_scan.rs:497-505 | the loop computes the list of line starts |
| `FindingSpans.LineStartsExact` | collect-diff-context-cli/src/secret_scan.rs:497-505 | line starts are index 0 and every index after a newline that is inside the text, in ascending order |
| `FindingSpans.SpanFoundExactly` | collect-diff-context-cli/src/secret_scan.rs:444-495 | a lookup succeeds exactly when the reported lines exist, the match is not empty and it occurs in the region of those lines |
| `FindingSpans.SpanIsTheMatch` | collect-diff-context-cli/src/secret_scan.rs:444-495 | a successful lookup gives a non-empty range on character boundaries inside the reported lines whose text equals the match |
| `FindingSpans.ReportIsTheAnswer` | collect-diff-context-cli/src/secret_scan.rs:464-475 | when the text at the reported columns of the reported lines is the match, the reported start and end are the answer |
| `FindingSpans.OtherwiseTheNearest` | collect-diff-context-cli/src/secret_scan.rs:477-494 | otherwise the answer is the nearest scanned occurrence to the reported start, the first of them on a tie |
| `FindingSpans.LineEndExact` | collect-diff-context-cli/src/secret_scan.rs:507-512 | a line ends before its newline, the last one at the end of the text, and has no newline inside |
| `FindingSpans.RecoveryPicksNearest` | collect-diff-context-cli/src/secret_scan.rs:477-494 | recovery takes, of the occurrences that the left-to-right scan visits, the nearest to the reported start, the first of them on a tie |
| `FindingSpans.ScanSound` | collect-diff-context-cli/src/secret_scan.rs:487-488 | every scanned position is an occurrence, and scanned occurrences do not overlap |
| `FindingSpans.ScanComplete` | collect-diff-context-cli/src/secret_scan.rs:487-488 | the scan finds an occurrence whenever there is one |
| `FindingSpans.MatchIsOnBoundaries` | collect-diff-context-cli/src/secret_scan.rs:444-495 | an occurrence of valid UTF-8 text in valid UTF-8 text starts and ends on character boundaries |
| `Utf8Exact.ValidExactly` | collect-diff-context-cli/src/artifacts/pack.rs:543-548 | a byte string is read as text if and only if it is the UTF-8 encoding of Unicode scalar values, and these are its characters |
| `FindingSpans.NearestMayBeSkipped` | collect-diff-context-cli/src/secret_scan.rs:487-494 | a finding: the lookup can skip the nearest of all occurrences, because the scan does not visit overlapping ones ("aaa" with "aa" reported at column 2) |
| `FindingSpans.NearestExactlyWithoutOverlap` | collect-diff-context-cli/src/secret_scan.rs:444-495 | for existing lines and a non-empty match, the lookup gives a nearest of all occurrences whatever columns are reported, if and only if no two occurrences in those lines overlap |
| `Redaction.MergeStep` | collect-diff-context-cli/src/secret_scan.rs:398-409 | merging the next sorted span keeps the merged list a strictly separated cover of the same positions with, for each merged span, exactly the rules of the spans inside it |
| `Redaction.MergeUnique` | collect-diff-context-cli/src/secret_scan.rs:398-409 | there is only one such list, so the result does not depend on the order of equal spans |
| `Redaction.SanitizedRuleName` | collect-diff-context-cli/src/secret_scan.rs:514-531 | a sanitized rule id is 1 to 80 characters from letters, digits, ".", "_" and "-" |
| `RedactedText.RuleNameIs` | collect-diff-context-cli/src/secret_scan.rs:514-531 | the name has one byte for each of the first 80 characters of the id: the character itself when it is a letter, a digit, ".", "_" or "-", and "_" otherwise; the empty id has the name "unknown-rule" |
| `RedactedText.AllowedNameIsKept` | collect-diff-context-cli/src/secret_scan.rs:514-531 | an allowed id of at most 80 characters is its own name |
| `RedactedText.UnknownRuleExactly` | collect-diff-context-cli/src/secret_scan.rs:514-531 | only the empty id and "unknown-rule" itself have that name |
| `RedactedText.TokenSpells` | collect-diff-context-cli/src/secret_scan.rs:417-421 | a token is "[redacted:", names, "]" and as many newlines as the replaced text has, and cutting the names at each "+" gives back exactly the rules of the span |
| `RedactedText.TokenStands` | collect-diff-context-cli/src/secret_scan.rs:411-423 | the token of every merged span stands in the output, on the line on which the span starts |
| `RedactedText.LengthIsKept` | collect-diff-context-cli/src/secret_scan.rs:411-423 | the output is as long as the input without the spans and with the tokens |
| `RedactedText.TokensStandForFindings` | collect-diff-context-cli/src/secret_scan.rs:384-409 | every finding is covered by a token that names its rule, and every name in a token is the rule of a finding that the token covers |
| `RedactedText.VerdictSays` | collect-diff-context-cli/src/secret_scan.rs:425-442 | a rewritten text is returned exactly when the second scan succeeds and finds nothing, with the rule, start line and end line of every finding and of no others, by line and rule, and no two equal neighbours |
| `Sanitizer.MergeSpans` | collect-diff-context-cli/src/secret_scan.rs:398-409 | the merge loop produces the maximal merged spans of the sorted list |
| `Sanitizer.Rewrite` | collect-diff-context-cli/src/secret_scan.rs:411-423 | rewriting from right to left gives the weave of the kept text with one token for each merged span; it fails exactly when a span is off a character boundary |
| `Sanitizer.BoundariesUnmoved` | collect-diff-context-cli/src/secret_scan.rs:411-423 | text to the left is untouched while the right is rewritten, so a boundary check on the partly rewritten text is a check on the input |
| `Sanitizer.MergeIsUsable` | collect-diff-context-cli/src/secret_scan.rs:398-423 | the merged spans of located findings always lie on character boundaries, so the boundary error of the rewrite is unreachable |
| `Sanitizer.SurvivorKeepsLine` | collect-diff-context-cli/src/secret_scan.rs:411-423 | every byte outside the spans is found again in the output with the same number of newlines before it |
| `Sanitizer.SurvivorsKeepOrder` | collect-diff-context-cli/src/secret_scan.rs:411-423 | the surviving bytes keep their order |
| `Sanitizer.SanitizeWith` | collect-diff-context-cli/src/secret_scan.rs:370-442 | the outcome for every report: a scanner error, clean text unchanged, a bad location, or the weave, judged by the second scan |
| `Sanitizer.EqualSummariesMaySurvive` | collect-diff-context-cli/src/secret_scan.rs:425-435 | a finding: for a report of three located findings of one rule, two of them on line 1 and between them one from line 1 to line 2, both equal summaries are in the output, because the end line is not part of the sort key |
| `Summaries.SummariesAreDistinct` | collect-diff-context-cli/src/secret_scan.rs:430-435 | the summaries that come out are distinct if and only if the report has no three findings in order of one rule and start line of which the first and the last, but not the middle one, have the same end line; this needs the stability of the sort |
| `ScopeFingerprint.MaterialInjective` | collect-diff-context-cli/src/app.rs:979-1025 | two fingerprint materials are equal exactly when source, ref, HEAD, diff bytes and both budgets are equal and the two pattern lists are equal as sets, whatever bytes they contain |
| `ScopeFingerprint.FieldsInjective` | collect-diff-context-cli/src/app.rs:840-847 | a list of framed fields can be read in one way only |
| `ScopeFingerprint.ScopeMaterial` | collect-diff-context-cli/src/app.rs:979-1025 | the appends to the byte vector build exactly the framed fields in order |
| `ScopeFingerprint.FieldsAre` | collect-diff-context-cli/src/app.rs:979-1025 | the fields are source, selected ref, HEAD, the diff unless there is no source, the two budgets in decimal, and then the path patterns and the content patterns |
| `ScopeFingerprint.MaterialBuffer.AppendFingerprintField` | collect-diff-context-cli/src/app.rs:840-847 | one append adds name, NUL, decimal length, NUL, value, NUL |
| `ScopeFingerprint.MaterialBuffer.AppendRegexSet` | collect-diff-context-cli/src/app.rs:970-977 | the patterns are appended as a sorted set |
| `ScopeFingerprint.ObservationsAgree` | collect-diff-context-cli/src/app.rs:2101-2137 | for an injective hash a scope opens exactly when its two observations agree, and then revalidates exactly when a third one agrees with them; the second comparison with an expected fingerprint never fails |
| `GitPaths.UnquoteUndoesQuote` | collect-diff-context-cli/src/app.rs:728-769 | a decoder for plain, escaped and three-digit octal forms recovers every path from its quoted form, for all byte strings |
| `GitPaths.QuoteInjective` | collect-diff-context-cli/src/app.rs:2024-2026 | distinct paths get distinct unit ids |
| `GitPaths.QuotedPathIsPrintable` | collect-diff-context-cli/src/app.rs:728-769 | quoted paths are printable ASCII |
| `ScopeContents.ShownPathIs` | collect-diff-context-cli/src/app.rs:728-769 | a path of printable bytes without quote and backslash is shown as it is, any other one between quotes with its bytes escaped |
| `ScopeContents.EscapeIs` | collect-diff-context-cli/src/app.rs:728-769 | letters for the bytes 7 to 13, quote and backslash, three octal digits of their value for other bytes that are not printable, and all others unchanged |
| `GitPaths.QuoteGitPathLoop` | collect-diff-context-cli/src/app.rs:728-769 | the loop with its early return for plain paths computes the quoted form |
| `Classification.RiskIsInThePrefix` | collect-diff-context-cli/src/app.rs:1966-1999 | the risk of a group is fixed by the prefix of its id, and its units are tagged high-risk exactly in a high-risk group |
| `Classification.ReasonIsFixed` | collect-diff-context-cli/src/app.rs:1966-1999 | the reason of a group is fixed too, except for the lockfile group |
| `Classification.LockfileReasonsDiffer` | collect-diff-context-cli/src/app.rs:1967-2004 | a generated file below "lockfiles" and a lockfile share a group id and have different reasons |
| `GroupReasons.ReasonIsStableExactly` | collect-diff-context-cli/src/app.rs:1967-2016 | a group has the same reason in every order of the files if and only if it does not have both a lockfile and a generated file |
| `GroupReasons.MixedExactly` | collect-diff-context-cli/src/app.rs:1967-1999 | a group has both exactly when it is the lockfile group, some file is a lockfile, and some generated file has "lockfiles" as its component |
| `GroupReasons.LockfileReasonDependsOnOrder` | collect-diff-context-cli/src/app.rs:1967-2016 | a finding: two such files give the lockfile group one reason in one order and another in the other |
| `ReviewScope.Collect` | collect-diff-context-cli/src/app.rs:1943-2064 | the four hash maps and the sort give one group for each id in use, with the bytes, files and first class of its units |
| `ReviewScope.BuildGroups` | collect-diff-context-cli/src/app.rs:2039-2064 | the groups come out the same in whatever order the hash map is walked |
| `ReviewScope.GroupsUnique` | collect-diff-context-cli/src/app.rs:2039-2064 | the groups are determined by the files |
| `ScopeContents.UnitsSay` | collect-diff-context-cli/src/app.rs:1943-2037 | unit i carries the shown path, tag and group of file i and its status, additions, deletions, diff bytes and fingerprint, each in its own field |
| `ScopeContents.GroupsSay` | collect-diff-context-cli/src/app.rs:1986-2064 | every group has the sum of the diff bytes of its files and their paths in order, the risk and reason of the first of them, and must be split exactly when the sum is above the hard limit, is over target exactly when it is above the target and not above the hard limit; ids ascend strictly and every file is in a group |
| `ScopeContents.ClassSays` | collect-diff-context-cli/src/app.rs:1966-1999 | tag, group id, risk and reason of a path by the first of the three patterns that it matches |
| `ScopeContents.ComponentSays` | collect-diff-context-cli/src/app.rs:1288-1317 | the component is the first part of the shown path, with the second one when that is a directory of migrations or schemas, or the whole path when it has one part, with "_" for all but letters, digits, ".", "_" and "-" |
| `ScopeContents.WorkSays` | collect-diff-context-cli/src/review_scope.rs:103-130 | the work order has one item for each group and no others: splitting with priority 1, then reviews of high-risk, consistency and other groups with 2, 3 and 4, by priority and group id |
| `ScopeContents.PlanSays` | collect-diff-context-cli/src/app.rs:1597-1708 | the plan has an entry for each group and no others, with the group's work item, risk, reason, budget, bytes and files, and requires exactly its files |
| `ScopeContents.PayloadSays` | collect-diff-context-cli/src/app.rs:1077-1137 | the payload carries the fingerprints, the units, one tuple with the group's own values and the ascending indexes of its units for each group, and the work order |
| `ReviewScope.FromParts` | collect-diff-context-cli/src/review_scope.rs:103-130 | the work order holds one item for each group, by priority and then by id |
| `ReviewPlan.BuildReviewPlan` | collect-diff-context-cli/src/app.rs:1597-1708 | the loop over the groups and the sort give one entry for each group, in the one order by priority and id, with its units, and count the files of high-risk groups and the groups to split |
| `ReviewPlan.PlanMatchesTheScope` | collect-diff-context-cli/src/app.rs:1597-1708 | the plan lists the groups exactly in the work order of the scope, and requires of each group exactly the files that the group names |
| `ControlPlane.ScopeSatisfiesChecker` | scripts/validate_schemas.py:190-245 | every scope that the collector builds satisfies the independent checker: counts, distinct group ids, groups that partition the unit indexes, byte sums and the expected work order |
| `ScopeChecked.CheckerExactly` | scripts/validate_schemas.py:190-245 | the checker accepts an authoritative payload if and only if the counts are the numbers of units, groups, high-risk units and groups to split and the sums over the units, the three fingerprints agree, the groups have distinct ids, each lists every one of its units once and no others with the sum of their bytes, every unit has a group, and the work order has the right item for each group in the right order |
| `ControlPlane.OpenAuthoritativeScope` | collect-diff-context-cli/src/app.rs:1823-2098 | collection succeeds exactly when the fingerprints before and after agree with each other and with the expected one if there is one, fails with the error of the first comparison that fails, and the emitted payload then passes the checker |
| `ControlPlane.GroupsPartition` | scripts/validate_schemas.py:211-227 | the sorted covered indexes are exactly the unit indexes |
| `ControlPlane.BytesAreTheSum` | scripts/validate_schemas.py:224-225 | the bytes of a group are the sum over the units that its indexes name |
| `ControlPlane.TuplesMatch` | collect-diff-context-cli/src/app.rs:1077-1137 | each emitted group tuple names in-range, distinct units of its own group, and carries their byte sum |
| `ControlPlane.TotalsAgree` | scripts/validate_schemas.py:196-205 | the totals accumulated in one pass are the four sums that the checker computes |
| `ControlPlane.PlanCountsHighRiskUnits` | collect-diff-context-cli/src/app.rs:1597-1640 | the review plan's count of high-risk files equals the control plane's count of high-risk units |
| `HunkHeaders.HeaderReadsBack` | collect-diff-context-cli/src/review_scope.rs:396-425 | a rendered hunk header reads back as its four numbers exactly when they fit their types and the heading is UTF-8, and is rejected otherwise |
| `HunkWalk.ParseAddedLines` | collect-diff-context-cli/src/review_scope.rs:317-352 | the line loop computes the recursive walk with its hunk cursor |
| `HunkWalk.ParseChangedRanges` | collect-diff-context-cli/src/review_scope.rs:354-381 | the line loop computes the ranges of the headers |
| `HunkWalk.AddedLinesExact` | collect-diff-context-cli/src/review_scope.rs:317-352 | for every rendered diff, with any amount of context, the added lines are exactly the new-file numbers of the inserted lines, whatever the lines look like; no-newline markers and file headers do not count; or the error of the first unreadable hunk |
| `HunkWalk.ChangedRangesExact` | collect-diff-context-cli/src/review_scope.rs:354-381 | the changed ranges are one for each hunk header, or the error of the first unreadable one |
| `HunkWalk.WalksAgree` | collect-diff-context-cli/src/review_scope.rs:317-381 | on zero-context diffs the ranges that are not anchors cover exactly the added lines |
| `HunkWalk.OneRangePerHunk` | collect-diff-context-cli/src/review_scope.rs:354-381 | each hunk gives one range in order: an anchor at its new start, or at line 1 when that is 0, when it inserts nothing, and otherwise the block of its new lines |
| `HunkWalk.WalksDifferOnlyAtTheLastLine` | collect-diff-context-cli/src/review_scope.rs:317-381 | the added-line walk reads a diff exactly when the range walk does and no hunk ends at the last 32-bit line number |
| `HunkWalk.RenderedWalksAgree` | collect-diff-context-cli/src/review_scope.rs:317-381 | the same statements about the bytes that the two parsers are given |
| `HunkWalk.RangesReadExactly` | collect-diff-context-cli/src/review_scope.rs:354-425 | the ranges of a rendered diff can be read if and only if every heading is UTF-8, every number fits its type, and the last new line of every hunk that has one fits 32 bits |
| `HunkWalk.InsertedReadExactly` | collect-diff-context-cli/src/review_scope.rs:317-425 | the added lines can be read if and only if the same holds and the line after the last new line of every hunk fits 32 bits |
| `HunkAccepted.HeaderExactly` | collect-diff-context-cli/src/review_scope.rs:396-425 | any line is read as a hunk header with certain numbers if and only if it is UTF-8, its first word is "@@", and the next two are "-" and "+" with a number and, unless it is 1, a count |
| `HunkAccepted.AddedLinesAreAnnounced` | collect-diff-context-cli/src/review_scope.rs:317-352 | whatever the bytes are, every added line is one that a hunk header announces |
| `GitFormats.ParseNameStatusZ` | collect-diff-context-cli/src/app.rs:1319-1354 | the iterator loop computes the recursive reading of the NUL-separated pieces |
| `GitFormats.ParseNumstatZ` | collect-diff-context-cli/src/app.rs:1356-1409 | the iterator loop computes the recursive reading, with its two tab searches |
| `GitFormats.NameStatusRoundTrip` | collect-diff-context-cli/src/app.rs:1319-1354 | parsing undoes rendering for every list of plain, renamed and copied entries, up to the lossy decoding of each string |
| `GitFormats.NameStatusExact` | collect-diff-context-cli/src/app.rs:1319-1354 | the entries come back unchanged exactly when all their strings are UTF-8 |
| `GitFormats.NumstatRoundTrip` | collect-diff-context-cli/src/app.rs:1356-1409 | the same for numstat, with paths that may contain tabs and newlines |
| `GitFormats.NumstatExact` | collect-diff-context-cli/src/app.rs:1356-1409 | the entries come back unchanged exactly when their paths are UTF-8 |
| `GitFormats.BrokenOffEntryIsDropped` | collect-diff-context-cli/src/app.rs:1319-1354 | a listing that breaks off in a status, or in the old path of a move, ends with the entry before |
| `GitFormats.EmptyStatusIsSkipped` | collect-diff-context-cli/src/app.rs:1319-1326 | an empty piece in place of a status is skipped |
| `GitFormats.OtherPiecesAreSkipped` | collect-diff-context-cli/src/app.rs:1356-1409 | a piece without two tabs is no entry, and a move that breaks off before its second path is dropped |
| `GitFormats.CountIsTrimmed` | collect-diff-context-cli/src/app.rs:1377-1380 | blanks around a count are dropped |
| `GitFormats.UndecodablePathsCollide` | collect-diff-context-cli/src/app.rs:1319-1354 | a finding: two files whose names are not UTF-8 can be listed under the same path |
| `CacheEntry.StagedEntryValidates` | collect-diff-context-cli/src/artifacts/cache.rs:683-748 | a finished staging directory passes the full validation and gives back the publisher's own receipt; the inventory limit is never reached |
| `CacheEntry.RecordDeterminesEntry` | collect-diff-context-cli/src/artifacts/cache.rs:683-748 | a record determines its cache entry: any two entries that validate against it have the same files with the same contents, apart from the receipt of the publisher |
| `PackAccepted.ValidatesExactly` | collect-diff-context-cli/src/artifacts/cache.rs:683-748 | a directory is accepted as the cache entry of a record, with a receipt, if and only if it holds exactly this receipt, a manifest with the record's digest that describes the record, and the files of the manifest with their sizes and digests, and the receipt names the record field by field |
| `PackAccepted.AdmittedExactly` | collect-diff-context-cli/src/artifacts/cache.rs:195-205 | a verified pack is admitted for publication if and only if the record is valid, binds its size and digests, describes its manifest and was probed as it says, and what was extracted are exactly the files of the manifest |
| `PackAccepted.GoodManifestExactly` | collect-diff-context-cli/src/artifacts/contract.rs:561-622 | a pack manifest passes its checks if and only if of its 3 to 127 files, in strictly ascending path order, exactly one is the executable, exactly one the bill of materials and at least one a licence, each where its role puts it, apart from the field checks and the size limit |
| `PackAccepted.DescribesExactly` | collect-diff-context-cli/src/artifacts/cache.rs:810-890 | a manifest in order matches a record if and only if it has the identity of the record, the record binds its executable, its licences and no other files in path order, and its bill of materials |
| `CachePublish.PublishingIsSafe` | collect-diff-context-cli/src/artifacts/cache.rs:195-289 | from any cache, in every interleaving of any number of publishers with failures and crashes: entries never change once visible, new ones are complete, at most one publisher of a digest reports that it published, and every success is validated against the caller's record and stays so |
| `CachePublish.EntriesAreFinal` | collect-diff-context-cli/src/artifacts/cache.rs:263-279 | once an entry is visible it never changes |
| `CachePublish.EntriesAreComplete` | collect-diff-context-cli/src/artifacts/cache.rs:263-279 | an entry is absent or complete at every moment, unless it was incomplete before the run |
| `CachePublish.AtMostOnePublishes` | collect-diff-context-cli/src/artifacts/cache.rs:263-279 | of the publishers of one digest at most one reports that it published, at whatever times they report |
| `CachePublish.SuccessIsValidated` | collect-diff-context-cli/src/artifacts/cache.rs:282-289 | a reported receipt is what the full validation of the entry returns, then and at every later time |
| `CachePublish.PublishedOpens` | collect-diff-context-cli/src/artifacts/cache.rs:263-270 | after a successful rename the reopening cannot fail validation |
| `CachePublish.GuardRemovesNothing` | collect-diff-context-cli/src/artifacts/cache.rs:219-270 | the temporary-directory guard, which still has the old name after a successful rename, then removes nothing |
| `CachePublish.StepKeepsInv` | collect-diff-context-cli/src/artifacts/cache.rs:195-280 | every step of every publisher keeps the invariant behind these statements |
| `CachePublish.ProtocolIsSound` | collect-diff-context-cli/src/artifacts/cache.rs:219-261 | the program's own staging list, receipt and validation are what the protocol needs |
| `FileTrees.StepKeepsInPlace` | collect-diff-context-cli/src/artifacts/cache.rs:893-1004 | creating, writing and finishing one file keeps all finished files complete and touches no other path |
| `Inventory.CollectRegularFiles` | collect-diff-context-cli/src/artifacts/cache.rs:1109-1192 | the directory worklist terminates and succeeds exactly when nothing in the tree is unsafe or unexpected, no file appears twice and the files are at most 130; it then returns the files |
| `Inventory.FilesExactly` | collect-diff-context-cli/src/artifacts/cache.rs:1130-1189 | the paths of a directory are the names that lead to its files, joined with slashes |
| `Inventory.ReadDirectory` | collect-diff-context-cli/src/artifacts/cache.rs:1130-1189 | one directory of the worklist: files move to the observed set, directories to the worklist |
| `Inventory.WalkDecidesTheInventory` | collect-diff-context-cli/src/artifacts/cache.rs:730-742 | for a tree of regular files, the walk and the comparison with the expected files decide whether the tree has exactly those files |
| `ProvisionSafety.ReceiptMeansInstalled` | collect-diff-context-cli/src/artifacts/cache.rs:291-408 | at every step and after every crash of any number of provisioners: when a receipt can be read, every file that it binds is in place with the bound size and digest; this holds for new receipts and for older ones that held before the run |
| `ProvisionSafety.FinishedVerifies` | collect-diff-context-cli/src/artifacts/cache.rs:478-581 | a provisioner that wrote its last file passes the verification: the receipt built from the cache is the inventory that the verifier recomputes from the pack manifest on disk |
| `ProvisionSafety.InstalledStays` | collect-diff-context-cli/src/artifacts/cache.rs:478-581 | and it passes it at every later time, whatever other provisioners do |
| `TargetAccepted.VerifiesExactly` | collect-diff-context-cli/src/artifacts/cache.rs:478-581 | a target is accepted, with a receipt, if and only if the receipt names the artifact, the distribution manifest and an active record of it field by field, binds exactly the pack manifest and the files of the pack in order, and the target holds the receipt, a pack manifest that describes the record and has its digest, and in the pack directory exactly the files of that manifest with their sizes and digests |
| `TargetAccepted.ReceiptAcceptedExactly` | collect-diff-context-cli/src/artifacts/contract.rs:683-730 | a receipt alone passes its checks if and only if its fields do, both lists are not empty and in strict path order, its two probes are valid and in order, and its canonical bytes are at most 1 MiB |
| `TargetAccepted.VerifiedBindingsHold` | collect-diff-context-cli/src/artifacts/cache.rs:564-570 | in an accepted target every bound file is in place with the bound size and digest |
| `TargetAccepted.VerifiedTargetsAgree` | collect-diff-context-cli/src/artifacts/cache.rs:478-581 | any two accepted targets of one artifact and platform hold the same files with the same contents in the pack directory |
| `ProvisionSafety.BegunBlocksRetry` | collect-diff-context-cli/src/artifacts/cache.rs:325-330 | a finding: after the pack directory is made, whatever became of the call that made it, no other call for that pack gets past its first check, in every interleaving |
| `ProvisionSuccess.SucceedsExactly` | collect-diff-context-cli/src/artifacts/cache.rs:291-408 | a call alone on a target, for a validated cache entry, can return its receipt if and only if target and cache are independent, the receipt passes its field checks and its size limit, the pack directory neither exists nor has a file above it, the distribution manifest is the same or can be created, and the paths of the receipt and, for a provider, of the profile and the registry are free |
| `ProvisionSuccess.SuccessfulTargetIs` | collect-diff-context-cli/src/artifacts/cache.rs:291-408 | a call that succeeds leaves every file of the target as it was and adds the distribution manifest, the files of the pack, a provider's profile and registry, and the receipt, with their own bytes, and nothing else |
| `ProvisionSuccess.RepeatsExactly` | collect-diff-context-cli/src/artifacts/cache.rs:325-331 | after a call that could have succeeded, at whatever step it stopped, the same call can succeed again if and only if the pack directory was not made and the distribution manifest is missing or complete |
| `ProvisionSuccess.CallStopsInTheManifest` | collect-diff-context-cli/src/artifacts/cache.rs:410-426 | a call can stop when it has just created the distribution manifest, before it makes its pack directory |
| `ProvisionSuccess.CrashBlocksEveryPack` | collect-diff-context-cli/src/artifacts/cache.rs:410-426 | a finding: in every run of any number of calls for any packs, once a call has stopped with a distribution manifest that does not reach as far as the manifest of any of them, no call is or ever gets past the manifest, and the target never changes again |
| `ProvisionAgain.PartialManifestIsFinal` | collect-diff-context-cli/src/artifacts/cache.rs:410-426 | the same for any plans that share the path of the manifest |
| `ProvisionSuccess.ReadyExactly` | collect-diff-context-cli/src/artifacts/cache.rs:291-408 | the needs of the file protocol, item by item, are the conditions on the target that a caller can look at |
| `ProvisionAgain.CanFinishExactly` | collect-diff-context-cli/src/artifacts/cache.rs:291-426 | for any plan, a run that writes all of its files exists if and only if everything that the plan needs is there before it |
| `ProvisionAgain.RepeatableExactly` | collect-diff-context-cli/src/artifacts/cache.rs:291-426 | for any plan, what a call leaves behind lets it be repeated if and only if no pack directory was made and the distribution manifest is missing or complete |
| `ProvisionSafety.ReceiptIsWellFormed` | collect-diff-context-cli/src/artifacts/contract.rs:683-730 | the order, count and probe checks of the receipt never fail on the receipt that provisioning builds; only the field checks and the size limit can |
| `ProvisionSafety.ReceiptBinds` | collect-diff-context-cli/src/artifacts/cache.rs:357-377 | the receipt binds the pack manifest and every file of the pack, and nothing else |
| `ProvisionSafety.InventoryIsExpected` | collect-diff-context-cli/src/artifacts/cache.rs:571-579 | the pack directory holds the bound files and nothing else |
| `ProvisionSafety.RootsDoNotNest` | collect-diff-context-cli/src/artifacts/cache.rs:1206-1212 | no pack directory lies inside another one |
| `ProvisionSafety.PlansAreOk` | collect-diff-context-cli/src/artifacts/cache.rs:291-408 | the program's own file list has the order that the protocol needs: bound files first, the receipt last, and no file in another pack's directory |
| `ProvisionSteps.ReceiptComesLast` | collect-diff-context-cli/src/artifacts/cache.rs:376-401 | a new file in the receipts directory holds a beginning of the receipt of a call all of whose bound files are complete |
| `ProvisionSteps.OldFilesStay` | collect-diff-context-cli/src/artifacts/cache.rs:893-1004 | files that were in the target before any call stay as they were |
| `ProvisionSteps.StepKeepsInv` | collect-diff-context-cli/src/artifacts/cache.rs:291-408 | every step of every call, including the removal of a provider profile, keeps the invariant |
| `ProvisionSteps.NoSecondAttempt` | collect-diff-context-cli/src/artifacts/cache.rs:325-330 | a call whose pack directory exists never gets past its first check |
| `ManifestRules.Validate` | collect-diff-context-cli/src/artifacts/contract.rs:405-479 | the single pass with three sets and the previous key reports the first error in list order, and for one record in the order of the checks |
| `ManifestRules.OnePassIsGlobal` | collect-diff-context-cli/src/artifacts/contract.rs:427-470 | the pass accepts exactly the lists whose records are valid, strictly sorted as a whole, pairwise distinct in asset name and digest, and with at most one active record for an artifact and platform |
| `ManifestRules.ManifestAcceptedExactly` | collect-diff-context-cli/src/artifacts/contract.rs:405-479 | a manifest is accepted if and only if its version, kind, repository and revocation digest are right, it has at most 256 records, which are valid, strictly sorted and apart, and its canonical bytes are at most 1 MiB |
| `ManifestRules.SelectionIsUnique` | collect-diff-context-cli/src/artifacts/contract.rs:481-500 | selection returns a record exactly when it is in the manifest and active: it is the only one |
| `ManifestRules.UpdateKeepsOthers` | collect-diff-context-cli/src/artifacts/writer.rs:257-270 | replacing and sorting keeps every other record as often as before and adds only the new one |
| `ManifestRules.UpdateSelectsTheNewRecord` | collect-diff-context-cli/src/artifacts/writer.rs:257-271 | when the updated manifest validates, it selects the new record |
| `ManifestRules.UpdateValidates` | collect-diff-context-cli/src/artifacts/writer.rs:257-271 | the update of a valid manifest validates exactly when the new record shares no key, asset name or digest with a kept record and the limits allow it |
| `ResourceMonitor.ConcurrentUpdatesEndAtTheMaximum` | collect-diff-context-cli/src/provider_resources.rs:327-335 | however concurrent updates interleave, when all have returned the peak is the greatest of the initial and the observed values |
| `ResourceMonitor.SharedStateMovesForward` | collect-diff-context-cli/src/provider_resources.rs:199-306 | in every interleaving the peak never falls and never passes the cap, the status never returns to available, and unavailable is final |
| `ResourceMonitor.PeakIsTheHighestSample` | collect-diff-context-cli/src/provider_resources.rs:248-256 | whenever no update is in progress the peak is exactly the highest bounded sample |
| `ResourceMonitor.ExceededSnapshotsCarryTheCap` | collect-diff-context-cli/src/provider_resources.rs:294-306 | a snapshot that reports an exceeded limit always carries the limit plus one as its peak |
| `ResourceMonitor.StepKeepsInv` | collect-diff-context-cli/src/provider_resources.rs:199-306 | every access by the thread, a reader or the caller keeps the invariant behind these statements |
| `ResourceMonitor.CapWithoutExceeded` | collect-diff-context-cli/src/provider_resources.rs:248-266 | a finding: the converse fails, a snapshot between the two writes shows the cap and no exceeded limit |
| `ResourceMonitor.CapIsReportedExactly` | collect-diff-context-cli/src/provider_resources.rs:294-306 | a snapshot with the cap reports the limit if and only if, in case a sample above the limit was recorded before its peak was loaded, such a sample was judged and nothing had failed before its status was loaded; with the greatest number as the limit if and only if no recorded sample is that number |
| `ResourceMonitor.SnapshotTells` | collect-diff-context-cli/src/provider_resources.rs:294-306 | what the two loads of a snapshot say of the samples: the cap means a sample above the limit recorded before the second load, the report means one judged before the first with nothing failed |
| `ResourceMonitor.CapMeansExceeded` | collect-diff-context-cli/src/provider_resources.rs:248-280 | for a limit below the greatest number, in one shared state, whenever the thread is not recording or judging a sample, the peak is the cap if and only if some sample exceeded the limit, and unless something failed if and only if the status reports it |
| `ResourceMonitor.GreatestLimitIsNeverExceeded` | collect-diff-context-cli/src/provider_resources.rs:248-280 | with the greatest number as the limit nothing is ever reported as exceeded, and the peak is the cap exactly when some sample is that number |
| `ResourceMonitor.BreachCanBeHidden` | collect-diff-context-cli/src/provider_resources.rs:219-280 | a finding: after a breach a failed sample makes the status unavailable, and new snapshots no longer report the breach |
| `ResourceMonitor.BreachStaysReported` | collect-diff-context-cli/src/provider_resources.rs:219-280 | after a breach the status keeps reporting it if and only if no later sample or termination failed |
| `ResourceMonitor.SnapshotReportsTheBreach` | collect-diff-context-cli/src/provider_resources.rs:294-306 | a snapshot that loads the status after a breach reports it if and only if nothing failed in between |
| `ResourceMonitor.BoundedPeak` | collect-diff-context-cli/src/provider_resources.rs:323-325 | an observation within the limit is kept, and one above it is recorded as the limit plus one, saturating |
| `ProcessTree.DescendantProcesses` | scripts/measure_provider_baseline.py:641-652 | the walk returns each process that is reachable from the root through parent links once, never the root and nothing else, and terminates also when parent links are cyclic |
| `Percentile.NearestRankIsTheSmallest` | scripts/measure_provider_baseline.py:701-719 | the selected value is a sample, and the smallest number with at least 95 percent of the samples at or below it |
| `Percentile.OrderDoesNotMatter` | scripts/measure_provider_baseline.py:701-719 | it does not depend on the order of the samples |
| `Percentile.RanksAgree` | collect-diff-context-cli/src/artifacts/contract.rs:984-994 | the two ways of computing the rank agree and stay inside every non-empty list |
| `Percentile.CheckAcceptsTheMeasurement` | collect-diff-context-cli/src/artifacts/contract.rs:973-994 | the check accepts exactly 20 to 100 samples of 1 to 30000 ms with the smallest number that at least 95 percent of them do not exceed |
| `Percentile.PercentileExactly` | scripts/measure_provider_baseline.py:701-719 | this number is the one that the script computes |
| `Percentile.Measure` | scripts/measure_provider_baseline.py:687-719 | the samples are kept in order and the peak is the greatest one seen |

## Left out

- `gzip` is the identity, SHA-256 is a function (injective where a digest must decide), canonical JSON is an encoder with a reader that undoes it and of which no document is empty or a proper prefix of another, and `to_lowercase` is an arbitrary function of paths.
- Regular expressions, the content-risk scan and the Git executable: risk, generated and lockfile classes are arbitrary predicates on paths, and what Git prints is an arbitrary byte string or a rendered diff.
- Wall-clock deadlines, timeouts and the waiting of the monitor thread between two samples.
- Weak memory: each access to an atomic is one step. The program orders every access to the peak and the status by acquire and release, so a reader that sees the later status also sees the earlier peak, which is what the interleaving of single accesses gives.
- Loss of power: a file that is written is written. In `provision_from_cache` the receipt is synchronised before the directories of the files that it binds, so the order that reaches the disk after a loss of power is not part of this model.
- Directories apart from pack directories: a directory exists when a file lies beneath it. File modes, owners and access control lists are left out.
- No file of a cache entry lies beneath another one, as in every file system. A staging directory is dropped in one step when its publisher returns, and its name, which the program takes at random, is never given out again; otherwise a guard could remove the directory of another publisher. A target or cache that somebody changes by hand is not part of this model.
- The opening of a cache entry is one step. Entries never change once visible (`CachePublish.EntriesAreFinal`), so reading them file by file gives the same.
- `usize` sums of diff bytes, group sizes and file counts are unbounded numbers.
- Field-by-field checks of records, manifests and receipts (`ArtifactPackRecord::validate`, text and URL fields, the pinned rust-analyzer values) are arbitrary predicates; `validate_manifest_identity`, `extract_inventory`, `validate_record_bindings` and `validate_sbom` of `verify_pack` are left out as further comparisons of fields.
- `generate_provider_authorization` gives two arbitrary byte strings; they are written and, on failure, withdrawn as in the program.
- `lookup_numstat`, the parsing of additions and deletions to numbers, review commands and shell quoting: they would only add easy members.
- `decode_git_quoted_path` is not part of this model; the decoder that undoes quoting is a specification.
- The candidate, index, overlay, traversal, storage and static-analysis modules, the network, the command line and all report printing.
- A-B-A changes between two observations of a scope: the theorem is about the values that were observed.
