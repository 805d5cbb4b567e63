# Verified models of EdenFS

Dafny models of the parts of EdenFS whose correctness is not local, with proofs of what they promise. `dafny verify dfyconfig.toml` checks everything.

| files | part of EdenFS |
|---|---|
| `OverlayGraph`, `OverlayExtract`, `Fsck`, `FsckRepair`, `ScanTheorems`, `ErrorPaths`, `FsckTheorems`, `FsckChecker` | the overlay checker: a graph of numbered inode files, its scan, its repair, and the objects that do both step by step |
| `OverlayPaths`, `OverlayHeader` | paths of inodes up and down the overlay; the header of an overlay file |
| `EnvironmentFile`, `EnvironmentFileLines`, `EnvironmentFileParser` | the `EnvironmentFile=` format of systemd.exec(5): meaning, printer, hand-written lines, and the scanner and parser |
| `FuseSession`, `FuseSessionTheorems`, `FuseSessionSteps`, `InvalidationQueue`, `RequestReply` | the life of a FUSE channel, its invalidation thread, and the replies to one request |
| `CheckoutAction` | loading data for one entry of a checkout and deciding about conflicts |
| `ConfigLock`, `RepositoryCalls` | the lock file around the user configuration, and the calls of add_repository that it protects |
| `FileMonitor` | the throttled cache of a parsed file |
| `DirList`, `Snapshot`, `Hexadecimal`, `ByteOrder` | the FUSE dirent buffer and the SNAPSHOT file |
| `VariableExpansion`, `ExpanderAgreement` | `${VAR}` expansion as written twice, in C++ and in Python |

Objects that change in place are classes proved against functions on values; the theorems are about those functions. Concurrent code is a state machine: one step for each locked section or system call, and a theorem quantifies over every interleaving of any length, any number of threads or processes, and any contents. Exceptions are values (`Raised`, `None`, or a result flag).

Main results:

- Repairing an overlay converges and loses nothing (`RepairConverges`, `RepairLosesNothing`), and a scan reports exactly what is wrong (`ScanIsExact`).
- The environment file printer and parser are inverse, with framing, on all inputs (`LoadsInvertsDumps`, `ReadPrintRead`), lines written by hand mean what systemd.exec(5) says (`WrittenLine`), and the parser with its scanner is total (`LoadFile`).
- A FUSE session completes once and its channel is deleted once (`SessionCompletesOnce`, `DeletedExactlyOnceUnlessStartFailed`), when it does not complete is known exactly (`CompletesUnlessNeverStarted`), and it reports the reason of the first step that asked to stop (`ReportsFirstAsked`); invalidations keep their order (`InvalidationOrder`); a request is answered once, and which answer it gets is known from the steps (`AtMostOneReply`, `SilentHandlerGetsAnswer`); a checkout action finishes once, and replaces the entry exactly when it should (`FinishesOnce`, `ReplacedExactly`).
- The configuration lock excludes, and its users are serializable (`MutualExclusion`); which calls are refused and which repositories can be overwritten is known exactly (`RefusedExactlyIfKnown`, `OverwrittenExactlyIfSpaced`).
- The file cache refines loading the file (`Serve`); the formats are read back as written (`AddAllThenExtract`, `ReadBackInvertsWritten`, `ParseInvertsSerialize`); the two expanders agree, and for which values is known exactly (`ExpandersAgree`, `ExpandersAgreeExactly`).

Where the code differs from its documentation the model follows the code:

- The comment in requestSessionExit says that a later reason replaces one that left the device usable. The test asks about the old reason twice, so the first reason always stays. `UpgradeIsNeverMade` says exactly when that makes a difference.
- After a failure to create worker threads a channel with outstanding requests is never deleted, although destroy() leaves it to the last request. `DeletedExactlyOnceUnlessStartFailed` gives the exact condition and `LeakExample` an instance.
- extract_file unlinks the inode also with `remove=False`. `ExtractDirEffect` states what is removed in both cases.
- lookup_path is documented to raise for a name that does not exist, but answers with the last entry of a non-empty directory (`AbsentNameFindsLastEntry` says exactly when it raises, `AbsentNameAnywhere` what it answers). `UpThenDown` is about names that exist.
- fix_errors raises for an orphaned directory that cannot be parsed, for a missing symlink below an orphan, and for an error whose path runs into a cycle of directories, since it describes each error before repairing it. `RepairConverges` gives the exact condition for the whole run; `UnparseableOrphanRaises`, `MissingSymlinkBelowOrphanRaises`, `FaultyCycleRaises` and `SelfListedRaises` are instances.
- add_repository means to refuse a repository that exists, but does not find one whose name has a space and overwrites it. `OverwrittenExactlyIfSpaced` says that no other name is affected.
- An exception in `_acquire_lock`, such as a failed lstat, lets `__del__` unlink a file that the process does not hold the real lock of. `MutualExclusion` excludes only unlinks that hit a process past the check; `HarmfulUnlinkAdmitsSecond` and `HarmfulUnlinkIsReachable` show that these break it.
- The two expanders are to be kept in sync, but differ for values that mention variables: the C++ one does not end if a value contains its own token (`LoopsEndExactly`), and `${HOME}` is first in its order and last in the other (`ExpandersAgreeExactly`).
- extract reads back a name of 2^32 bytes or more with a truncated length (`DecodeInvertsEncodeAll`).

## Model

| member | source | states |
|---|---|---|
| `FsckTheorems.RepairConverges` | eden/cli/fsck.py:394-611 | for every overlay where each inode number is listed at most once and nothing lists the root, fix_errors returns normally if and only if every unreadable inode and every directory with a missing child has a path that ends, no orphan is an unparseable directory, and every entry below an orphan can be extracted; then a fresh scan, in any listing order and with or without the lock, reports only unexpected files |
| `FsckTheorems.RepairLosesNothing` | eden/cli/fsck.py:197-290 | after a repair every inode file is still in the overlay unchanged, or was unreadable and is in broken_inodes byte for byte, or lay on a chain from an orphan and, if it is a regular file or a symlink, has its contents at the lost+found path that the chain spells out |
| `FsckTheorems.FixOutcome` | eden/cli/fsck.py:543-611 | the whole state after a repair: which inode files remain, exactly which files are under lost+found and with which contents, what is in broken_inodes, and a next inode number that is kept if it was above every number in use and is otherwise the largest of these plus one; raising is characterised by the same condition, which includes that every error can be described |
| `FsckTheorems.ExtractDirRemovesSubtree` | eden/cli/overlay.py:341-385 | with remove=True, extraction from an inode nothing lists returns exactly when everything it meets is good, deletes exactly the reachable inodes, and leaves no entry newly dangling and no inode newly unlisted |
| `FsckTheorems.OrphansEffect` | eden/cli/fsck.py:267-290 | moving all orphans out works exactly when every entry below them is good, and then removes exactly their subtrees and saves exactly the regular files and symlinks in them |
| `FsckTheorems.OrphansExtractable` | eden/cli/fsck.py:267-290 | the condition under which the orphan repair works, after missing and unreadable inodes have been replaced, is equivalent to one on the overlay as it was before any repair |
| `FsckTheorems.UnderClosed` | eden/cli/overlay.py:341-385 | a subtree hanging off an unlisted inode is closed: an entry between present inodes lies inside it at both ends or at neither |
| `FsckTheorems.RepairedHealthy` | eden/cli/fsck.py:453-487 | what remains after a repair has no unreadable inode, no missing materialized child and no orphan, and still at most one parent entry for each inode |
| `FsckTheorems.RepairedIsReadable` | eden/cli/fsck.py:197-224 | after a repair every inode file is a readable file or a readable directory, and the originals that were neither, and only these, are in broken_inodes |
| `FsckTheorems.SymlinkBelowOrphan` | eden/cli/overlay.py:317-321 | a file that an entry below an orphan lists as a symlink makes the repair raise if its contents are empty or hold a null byte, and is otherwise saved as a symlink with those contents under the name of that entry |
| `FsckTheorems.BelowOrphanIsSaved` | eden/cli/fsck.py:267-290 | everything on a chain from an orphan leaves the overlay, and every file on it has its copy at the path that the chain spells out |
| `FsckTheorems.OrphanFileIsSaved` | eden/cli/fsck.py:281-288 | an orphan file is saved as a regular file named after its own number |
| `FsckTheorems.HealthyScan` | eden/cli/fsck.py:394-426 | a scan of such an overlay with a large enough next inode number reports nothing but unexpected files |
| `FsckTheorems.PatchOutcome` | eden/cli/fsck.py:141-224 | describing and repairing the missing and the unreadable inodes gives each an empty stand-in of the right kind, keeps every unreadable original and changes nothing else, if and only if all of them are anchored; otherwise it raises |
| `FsckTheorems.OrphansAtTheirTurn` | eden/cli/fsck.py:585-588 | when the list of repairs reaches the orphans this is what has happened, and the orphans are still unlisted inodes of a forest, so extracting them terminates |
| `FsckTheorems.FaultyCycleRaises` | eden/cli/fsck.py:605-606 | a concrete overlay for which repair raises: the path of a child missing from a detached cycle of directories never ends, and nothing else is wrong |
| `FsckTheorems.SelfListedRaises` | eden/cli/fsck.py:298-302 | a concrete overlay for which repair raises: a directory that lists itself, listed by the root as well, cannot be described if it is scanned first |
| `ErrorPaths.ClimbEndsIfAnchored` | eden/cli/fsck.py:34-73 | computing the path of an inode ends if and only if going up from it ends at an inode that nothing lists |
| `ErrorPaths.ListedByRootEnds` | eden/cli/fsck.py:66-73 | the path of an inode whose first parent is the root ends there, even if something lists the root |
| `ErrorPaths.ScanDescribable` | eden/cli/fsck.py:605-606 | all errors of a scan can be described if and only if every unreadable inode and every directory with a missing child is such an inode |
| `FsckRepair.FixAllIs` | eden/cli/fsck.py:585-590 | one error that cannot be described makes the whole list raise, otherwise the repairs alone decide |
| `FsckTheorems.UnparseableOrphanRaises` | eden/cli/fsck.py:197-224 | a concrete overlay for which repair raises: an orphaned unparseable directory is rewritten as a directory and then extracted as a file |
| `FsckTheorems.MissingSymlinkBelowOrphanRaises` | eden/cli/overlay.py:301-339 | a concrete overlay for which repair raises: the empty stand-in of a missing symlink below an orphan cannot become a symlink |
| `FsckTheorems.InextractableRaises` | eden/cli/fsck.py:267-290 | any entry below an orphan that cannot be extracted makes the repair raise |
| `FsckTheorems.HardLinksStay` | eden/cli/fsck.py:293-302 | where only inodes with several parents and unexpected files are reported, a repair changes nothing, so the next scan finds them again, and it raises if and only if the path of one of those parents never ends |
| `FsckTheorems.RootLinksStay` | eden/cli/fsck.py:293-302 | two names of one inode in the root directory can be described, and a repair changes nothing |
| `FsckTheorems.DetachedCycleIsNotReported` | eden/cli/fsck.py:475-487 | a cycle of directories cut off from the root is not noticed by a scan |
| `ScanTheorems.ScanIsExact` | eden/cli/fsck.py:394-487 | an error is reported if and only if it is there: a missing materialized child, an unreadable inode, an inode listed twice, an inode other than the root that nothing lists, a next inode number that is absent under the lock, corrupt, or not above every number in use |
| `ScanTheorems.UnreadableIsReported` | eden/cli/fsck.py:475-478 | an inode is reported as invalid if and only if it is neither a readable file nor a readable directory |
| `ScanTheorems.ExpectedTypeIsExact` | eden/cli/fsck.py:167-177 | what an unreadable inode is taken for: by the mode of the entry that lists it, otherwise a directory exactly if its header says so |
| `ScanTheorems.OrphansAreFiled` | eden/cli/fsck.py:228-238 | an orphan is filed under directories exactly if its entries can be read, so an unparseable directory is filed under files |
| `Fsck.ParentsIn` | eden/cli/fsck.py:453-473 | the parents linked to an inode are exactly the entries anywhere in the overlay that list its number, number 0 excepted |
| `Fsck.MaxInodeIsMax` | eden/cli/fsck.py:489-541 | the number the scan ends up with is the largest inode number that is present or listed |
| `FsckRepair.AtMostOneParent` | eden/cli/fsck.py:475-487 | with unique references no inode is reported as hard-linked |
| `FsckRepair.ExpectedStandIn` | eden/cli/fsck.py:167-177 | the type guessed from the first parent entry is the type of the only entry that lists the inode |
| `OverlayExtract.ExtractDirEffect` | eden/cli/overlay.py:341-385 | for both values of remove: extract_dir terminates, returns exactly when every entry it meets is good, unlinks exactly the subtree (file inodes even with remove=False), and saves exactly its regular files and symlinks |
| `OverlayExtract.ExtractEntriesEffect` | eden/cli/overlay.py:356-381 | the same for the loop over a directory from any entry on |
| `OverlayExtract.ExtractEntryEffect` | eden/cli/overlay.py:356-381 | the same for one entry, which is skipped if its inode is not in the overlay |
| `OverlayExtract.ExtractFileEffect` | eden/cli/overlay.py:301-339 | a file inode is saved and unlinked exactly if its header says it is a file and, for a symlink, its contents are not empty and hold no null byte |
| `OverlayExtract.PathOfInjective` | eden/cli/overlay.py:375-381 | two inodes are never saved at the same place |
| `OverlayExtract.PathSpelled` | eden/cli/overlay.py:373-381 | each name in the path of a saved file is the name of the entry that leads from one inode of its chain to the next, and the last entry gives its mode |
| `OverlayExtract.NothingInTheWay` | eden/cli/overlay.py:317-323 | neither the place of the next file nor any directory above it is taken by a file saved before |
| `OverlayExtract.EntryDecreases` | eden/cli/overlay.py:375-377 | following an entry from a chain that starts at an unlisted inode meets an inode not yet on the chain, which is why the recursion ends |
| `OverlayGraph.ChainUnique` | eden/cli/overlay.py:341-385 | with at most one parent entry each, an inode is reached from an unlisted start in one way only |
| `OverlayGraph.RootedChainNoDup` | eden/cli/overlay.py:341-385 | a chain from an unlisted inode never enters a cycle |
| `FsckChecker.FilesystemChecker.ScanForErrors` | eden/cli/fsck.py:394-426 | the error list is the scan of the overlay, in its order |
| `FsckChecker.FilesystemChecker.ReadInodes` | eden/cli/fsck.py:428-451 | every listed inode is loaded, names that are no numbers are reported, and the maximum covers all of them and their children |
| `FsckChecker.FilesystemChecker.LinkInodeChildren` | eden/cli/fsck.py:453-473 | each inode ends up with exactly the entries that list it as parents, and the missing children are reported in visiting order |
| `FsckChecker.FilesystemChecker.LinkChildren` | eden/cli/fsck.py:455-473 | the same for the children of one directory |
| `FsckChecker.FilesystemChecker.ScanInodesForErrors` | eden/cli/fsck.py:475-487 | unreadable and hard-linked inodes are appended to the errors and the orphans are collected, in visiting order |
| `FsckChecker.FilesystemChecker.ScanInode` | eden/cli/fsck.py:476-487 | the same for one inode |
| `FsckChecker.FilesystemChecker.ExpectedTypeOf` | eden/cli/fsck.py:167-177 | the type by the first parent entry, else by the header |
| `FsckChecker.FilesystemChecker.PartitionOrphans` | eden/cli/fsck.py:228-238 | readable directories on one side, everything else on the other, order kept |
| `FsckChecker.FilesystemChecker.CheckNextInodeNumber` | eden/cli/fsck.py:409-426 | the three errors about the next inode number |
| `FsckChecker.FilesystemChecker.LoadInodeInfo` | eden/cli/fsck.py:493-541 | the inode as a scan sees it, and the maximum over it and its entries |
| `FsckChecker.FilesystemChecker.FixErrors` | eden/cli/fsck.py:543-603 | without the lock it raises and changes nothing; with it, it returns normally exactly if the overlay can be repaired, and leaves what the list of repairs describes |
| `FsckChecker.FilesystemChecker.FixError` | eden/cli/fsck.py:605-611 | describes the error by the inodes that were scanned, then makes the change of its kind of repair |
| `FsckChecker.FilesystemChecker.Describe` | eden/cli/fsck.py:125-139 | true exactly if every path in the text of the error ends |
| `FsckChecker.FilesystemChecker.ParentPathsEnd` | eden/cli/fsck.py:298-302 | the same for all entries that list a hard-linked inode |
| `FsckChecker.FilesystemChecker.PathEnds` | eden/cli/fsck.py:66-73 | following first parents ends exactly if it does not come back to an inode |
| `FsckChecker.FilesystemChecker.RepairOrphans` | eden/cli/fsck.py:267-290 | orphan directories and then orphan files, stopping at the first that raises |
| `FsckChecker.Overlay.ExtractDir` | eden/cli/overlay.py:341-385 | the recursive loop refines the extraction function and terminates |
| `FsckChecker.Overlay.ExtractFile` | eden/cli/overlay.py:301-339 | saves and unlinks, or raises and leaves the overlay and lost+found as they were |
| `OverlayPaths.UpThenDown` | eden/cli/fsck.py:34-73 | for every inode whose first parents lead to the root through materialized directory entries, looking up the path computed for it gives its number |
| `OverlayPaths.TextUpThenDown` | eden/cli/overlay.py:251-299 | the same through the text of the path, joined with slashes on the way up and split on the way down |
| `OverlayPaths.PartsOfJoined` | eden/cli/fsck.py:34-37 | splitting a joined path gives its names back |
| `OverlayPaths.PartsExactly` | eden/cli/overlay.py:266-275 | the parts of a path are those on both sides of a slash; nothing and a single dot have none |
| `OverlayPaths.LookupPath` | eden/cli/overlay.py:251-299 | the loop with the moving parent gives what looking up part by part gives, including every way to raise and the answer for a directory that is not materialized |
| `OverlayPaths.LookupStep` | eden/cli/overlay.py:272-299 | a name that exists leads to its entry; inside a path the lookup fails if that is no directory, is undecided if it has a hash that is not empty, and goes on in it otherwise |
| `OverlayPaths.LookupNeedsDirectory` | eden/cli/overlay.py:272-299 | a lookup in what is not a readable directory of the overlay fails |
| `OverlayPaths.PickEntry` | eden/cli/overlay.py:277-284 | the entry of that name, otherwise whichever came last |
| `OverlayPaths.AbsentNameFindsLastEntry` | eden/cli/overlay.py:277-299 | a name that a directory lacks: at the end of a path it is an error if and only if the directory is empty, otherwise the last entry is the answer; inside a path it is an error if and only if the directory is empty, or its last entry is no directory, or the rest of the path fails in it |
| `OverlayPaths.AbsentNameAnywhere` | eden/cli/overlay.py:272-299 | anywhere in a path such a name is answered as if the name of the last entry had been given |
| `EnvironmentFile.LoadsInvertsDumps` | eden/cli/systemd.py:117-141 | for every list of variables, dumps succeeds exactly if all are valid, and loads of its output followed by any bytes gives those variables in order and then the entries of what follows |
| `EnvironmentFile.EntriesAreValid` | eden/cli/systemd.py:266-285 | whatever the input, every entry returned passes validation |
| `EnvironmentFile.ReadPrintRead` | eden/cli/systemd.py:117-141 | whatever the input, what was read can be printed and reading that gives the same entries |
| `EnvironmentFile.DumpsInjective` | eden/cli/systemd.py:123-141 | different valid variables are printed differently |
| `EnvironmentFile.EntryOfPrinted` | eden/cli/systemd.py:266-285 | one printed entry is read back exactly, whatever follows it |
| `EnvironmentFile.InQuotesOfEscaped` | eden/cli/systemd.py:135-141 | reading up to the closing quote undoes the escaping |
| `EnvironmentFile.UpToNullOfConcat` | eden/cli/systemd.py:388-392 | truncation at a null byte does not reach into printed entries |
| `EnvironmentFileLines.WrittenLine` | eden/cli/systemd.py:266-365 | a line made of a name, an equal sign, any number of quotations in either kind of quotes and unquoted text, with blanks around all of these, is read as that name with what the quotations and the text mean: a backslash stands for the byte after it and, before a line break, for nothing; the entry is taken if and only if it is valid, and what follows the line is read as if it stood alone |
| `EnvironmentFileLines.CommentLine` | eden/cli/systemd.py:367-382 | a comment, with anything in it and a backslash before a line break continuing it, contributes nothing and what follows is read as if it stood alone |
| `EnvironmentFileLines.UnclosedLine` | eden/cli/systemd.py:304-333 | a quotation that is not closed reaches to the end of the input, and the entry still counts |
| `EnvironmentFileLines.LoneBackslash` | eden/cli/systemd.py:335-365 | a backslash at the very end of the input is nothing |
| `EnvironmentFileLines.LineWithoutEquals` | eden/cli/systemd.py:287-296 | a line without an equal sign after its first byte contributes nothing |
| `EnvironmentFileLines.BlankLine` | eden/cli/systemd.py:266-285 | a blank line contributes nothing |
| `EnvironmentFileLines.NothingAfterNull` | eden/cli/systemd.py:388-392 | nothing after the first null byte is read |
| `EnvironmentFileLines.UnquotedText` | eden/cli/systemd.py:335-365 | unquoted text, with blanks inside and backslashes anywhere, is read as what it means |
| `EnvironmentFileLines.ClosedQuotation` | eden/cli/systemd.py:312-331 | text between two quotes of either kind is read as what it means, up to and over the closing quote |
| `EnvironmentFileLines.AllQuotations` | eden/cli/systemd.py:304-333 | quotations in a row are read as what they mean, one after the other |
| `EnvironmentFileLines.PrintedBytes` | eden/cli/systemd.py:123-141 | an entry is printed as its name, an equal sign, the value in double quotes with a backslash before each backslash and double quote, and a line feed |
| `EnvironmentFileLines.ValidExactly` | eden/cli/systemd.py:152-181 | an entry is valid if and only if its name is a non-empty run of letters, digits, underscores and bytes from 128 on that does not start with a digit, and its value has no control bytes other than tab and line feed |
| `EnvironmentFileParser.LoadFile` | eden/cli/systemd.py:117-121 | on every byte string the scanner and parser terminate with the entries that the byte-by-byte reading gives |
| `EnvironmentFileParser.DumpFile` | eden/cli/systemd.py:123-133 | the printing loop, raising at the first invalid entry |
| `EnvironmentFileParser.IsValidEntry` | eden/cli/systemd.py:143-181 | the validation loops accept exactly the valid entries |
| `EnvironmentFileParser.EscapeValue` | eden/cli/systemd.py:135-141 | quotes around the value, a backslash before each backslash and quote |
| `EnvironmentFileParser.Parser.ParseEntries` | eden/cli/systemd.py:258-264 | reads to the end of the input |
| `EnvironmentFileParser.Parser.ParseEntry` | eden/cli/systemd.py:266-285 | one entry, comment or blank line, and always at least one byte further |
| `EnvironmentFileParser.Parser.ParseEntryNameAndEqualSign` | eden/cli/systemd.py:287-296 | the name up to the equal sign without trailing spaces, or nothing if the line or the input ends first; the assertion in it holds |
| `EnvironmentFileParser.Parser.ParseEntryValue` | eden/cli/systemd.py:298-302 | quotations first, then the rest of the line |
| `EnvironmentFileParser.Parser.ParseQuotedEntryValue` | eden/cli/systemd.py:304-333 | any number of quotations in a row |
| `EnvironmentFileParser.Parser.ParseQuotation` | eden/cli/systemd.py:312-331 | one quotation read run by run equals reading it byte by byte; the unreachable branch is not reached |
| `EnvironmentFileParser.Parser.ParseUnquotedEntryValue` | eden/cli/systemd.py:335-365 | the rest of the line read run by run equals reading it byte by byte; the unreachable branch is not reached |
| `EnvironmentFileParser.Parser.ScanSpaces` | eden/cli/systemd.py:353-363 | a run of spaces, and whether the line ends after it |
| `EnvironmentFileParser.Parser.ParseComment` | eden/cli/systemd.py:367-382 | ends where the byte-by-byte reading of the comment ends; the unreachable branch is not reached |
| `EnvironmentFileParser.Parser.ScanOneByte` | eden/cli/systemd.py:206-211 | the next byte, or a ValueError at the end of the input |
| `EnvironmentFileParser.Parser.PeekOneByte` | eden/cli/systemd.py:213-216 | the next byte without moving, or a ValueError |
| `EnvironmentFileParser.Parser.ScanWhileAny` | eden/cli/systemd.py:223-242 | the longest run of such bytes |
| `EnvironmentFileParser.Parser.ScanUntilAny` | eden/cli/systemd.py:226-242 | everything before the first such byte |
| `FuseSessionTheorems.SessionCompletesOnce` | eden/fs/fuse/FuseChannel.cpp:1369-1397 | in every interleaving sessionComplete has been entered exactly once if every thread has stopped and no request is outstanding, and not at all otherwise; never after a failed initialization; it reports the recorded reason, which is never RUNNING, and hands over the device exactly after a takeover or a destructor |
| `FuseSessionTheorems.FirstReasonWins` | eden/fs/fuse/FuseChannel.cpp:755-787 | once a reason to stop is recorded it never changes again, and stop_ stays set |
| `FuseSessionTheorems.DeletedAtMostOnce` | eden/fs/fuse/FuseChannel.cpp:510-541 | the channel is deleted at most once, by one of destroy() and sessionComplete(), never with a request outstanding; destroyPending is only set when no worker is running or can start |
| `FuseSessionTheorems.DeletedExactlyOnceUnlessStartFailed` | eden/fs/fuse/FuseChannel.cpp:480-541 | when nothing is left to happen after destroy(), the channel has been deleted exactly once, unless creating the threads had failed and destroy() had found requests outstanding: then it never is |
| `FuseSessionTheorems.CompletesUnlessNeverStarted` | eden/fs/fuse/FuseChannel.cpp:480-508 | when nothing is left to happen all threads have returned and the session was completed and its promise fulfilled, if and only if initialization did not fail and the other workers were created before the channel was stopped |
| `FuseSessionTheorems.LeakExample` | eden/fs/fuse/FuseChannel.cpp:490-541 | an interleaving that ends in that exception: nothing is left to happen and the channel is not deleted |
| `FuseSessionTheorems.UpgradeIsNeverMade` | eden/fs/fuse/FuseChannel.cpp:755-768 | the recorded reason is the one the comment promises if and only if the first reason already made the device unusable or no later one does |
| `FuseSessionTheorems.IntendedReason` | eden/fs/fuse/FuseChannel.cpp:755-787 | any series of exit requests leaves the first reason, while the rule of the comment would end with one that tells that the device is unusable if any of them does |
| `FuseSessionTheorems.StepInv` | eden/fs/fuse/FuseChannel.cpp:801-858 | every locked section and every step between them keeps the relation between thread positions, counters, request table, reason and deletion |
| `FuseSessionTheorems.JoinedAfterStart` | eden/fs/fuse/FuseChannel.cpp:510-541 | if requests are outstanding once all threads are joined, every one of them has counted itself as stopped |
| `FuseSessionSteps.ReasonIsFirstAsked` | eden/fs/fuse/FuseChannel.cpp:755-787 | the reason recorded is the one that the first step to ask for a stop gave: DESTRUCTOR for destroy(), INIT_FAILED for a thread that could not be created, otherwise the reason it names |
| `FuseSessionSteps.ReportsFirstAsked` | eden/fs/fuse/FuseChannel.cpp:1369-1397 | sessionComplete reports that reason, and hands over the device if and only if it is a takeover or the destructor |
| `FuseSessionSteps.AnyReasonIsReported` | eden/fs/fuse/FuseChannel.cpp:1369-1397 | for every reason there is a run in which it is the one reported |
| `FuseSessionSteps.CountersAreTallies` | eden/fs/fuse/FuseChannel.cpp:843-857 | the number of stopped threads is the number of threads that recorded it, and requests get the numbers from 1 on as they begin |
| `FuseSessionSteps.OutstandingRequests` | eden/fs/fuse/FuseChannel.cpp:1248-1283 | the request table holds exactly the requests that have begun and not finished |
| `FuseSessionSteps.CompletionsAreTally` | eden/fs/fuse/FuseChannel.cpp:843-857 | sessionComplete is entered once for each step that finds every thread stopped and no request outstanding, and in a whole run there is one such step at most |
| `FuseSessionSteps.CompletesIfCreated` | eden/fs/fuse/FuseChannel.cpp:480-508 | when nothing is left to happen the session was completed and its promise fulfilled if and only if no step of the set-up failed and the other workers, if there are to be any, were created before anybody asked to stop |
| `FuseSessionSteps.DeletionsAreTally` | eden/fs/fuse/FuseChannel.cpp:510-541 | the deletions are those of the steps that delete, and destroy() leaves deletion to the last request exactly if it found one outstanding |
| `FuseSessionSteps.OneStepDeletes` | eden/fs/fuse/FuseChannel.cpp:510-541 | once destroy() was called and nothing is left to happen exactly one step has deleted the channel, unless creating a thread had failed and destroy() had found requests outstanding: then none has |
| `InvalidationQueue.InvalidationOrder` | eden/fs/fuse/FuseChannel.cpp:860-909 | in every interleaving what was sent, the rest of the batch and the queue spell out what was appended, in order; the thread exits only after everything appended before stop was sent |
| `InvalidationQueue.FlushWaitsForEarlier` | eden/fs/fuse/FuseChannel.cpp:570-605 | a flush promise is fulfilled if and only if everything up to and including its entry was handed over |
| `InvalidationQueue.NothingSentAfterExit` | eden/fs/fuse/FuseChannel.cpp:874-895 | what is appended after the thread has left is never sent and its flushes are never fulfilled |
| `InvalidationQueue.EveryFlushIsAnswered` | eden/fs/fuse/FuseChannel.cpp:302-316 | once the channel is deleted each flush was fulfilled if and only if its entry was handed over, and is broken if and only if it was not |
| `InvalidationQueue.OnlyGrows` | eden/fs/fuse/FuseChannel.cpp:543-581 | entries are only ever added to the history, and sent entries are never withdrawn |
| `InvalidationQueue.HistoryIsAppended` | eden/fs/fuse/FuseChannel.cpp:543-581 | the history is what the callers appended, in the order of their locked sections |
| `InvalidationQueue.SentIsAppended` | eden/fs/fuse/FuseChannel.cpp:860-909 | what has been sent is always the first part of what was appended; once the thread has left, stop was set at some step and everything appended up to it was sent |
| `InvalidationQueue.IdleMeansAllSent` | eden/fs/fuse/FuseChannel.cpp:877-898 | a thread with nothing to do has sent everything that was appended, or has left, and it has left if and only if it was told to stop |
| `InvalidationQueue.CallersAreServed` | eden/fs/fuse/FuseChannel.cpp:543-605 | as long as the channel is there callers can append anything, also after stop, and the channel can be deleted once the thread has left, whatever is still queued |
| `RequestReply.AtMostOneReply` | eden/fs/fuse/RequestData.h:94-121 | in every interleaving of handler, failing writes, timeout and error handlers at most one message with the id of the request is written; the statistics are closed once and the request erased once; if the first of timeout and end of the handler is an error that the chain catches, the request is answered or released before its statistics are closed |
| `RequestReply.SilentAfterReply` | eden/fs/fuse/RequestData.cpp:82-118 | nothing is written any more once the header was taken |
| `RequestReply.UnansweredExactlyIfNobodySpoke` | eden/fs/fuse/RequestData.cpp:112-138 | when the chain is over a request is unanswered if and only if none of the steps was a reply or release of the handler and the handler ended, before any timeout, well or with an exception that nothing catches |
| `RequestReply.SilentHandlerGetsAnswer` | eden/fs/fuse/RequestData.cpp:120-138 | a request whose handler says nothing gets exactly the message that the first end of the chain calls for: ETIMEDOUT after a timeout, the error number of a system error, EIO for any other exception, nothing otherwise |
| `RequestReply.FirstToSpeakIsHeard` | eden/fs/fuse/RequestData.cpp:82-118 | a handler that replies or releases while the header is there is heard, whatever comes after |
| `RequestReply.LateHandlerIsIgnored` | eden/fs/fuse/RequestData.cpp:82-90 | a handler that goes on after its request was answered may try to reply or release it, and changes nothing |
| `RequestReply.ChainRuns` | eden/fs/fuse/RequestData.h:94-121 | when nothing is left to happen the handler has ended and the whole chain has run |
| `CheckoutAction.FinishesOnce` | eden/fs/inodes/CheckoutAction.cpp:67-188 | in every completion order the counter is the number of live refcounts, allLoadsComplete is called exactly once, after run() has returned and all callbacks are gone; the promise is fulfilled at most once and the entry updated at most once, only with all data loaded and no conflict unless forced |
| `CheckoutAction.AlwaysFulfilled` | eden/fs/inodes/CheckoutAction.cpp:227-318 | when nothing is left to happen the promise was fulfilled exactly once, and the entry updated exactly if all data was loaded, the conflict check did not throw, and there was no conflict or the update is forced |
| `CheckoutAction.OnlyUnchangedIsReplaced` | eden/fs/inodes/CheckoutAction.cpp:281-388 | in every completion order, without force an entry is only replaced if the check was made and the inode is what the old commit had or a directory it did not know |
| `CheckoutAction.ConflictExactly` | eden/fs/inodes/CheckoutAction.cpp:281-388 | once the check was made, no conflict is recorded if and only if the inode is what the old commit had or a directory it did not know, a removal if and only if a changed file is not in the new commit, an untracked file if and only if only the new commit has a file there, and otherwise a modification |
| `CheckoutAction.DecisionIsFinal` | eden/fs/inodes/CheckoutAction.cpp:243-279 | the check is made once at most and what it records stays |
| `CheckoutAction.NeededAreWanted` | eden/fs/inodes/CheckoutAction.cpp:117-180 | a load is started for each entry there is, and for the inode if it is not at hand |
| `CheckoutAction.DataReadyExactly` | eden/fs/inodes/CheckoutAction.cpp:117-279 | when nothing is left to happen all data is there if and only if no load failed and starting them did not throw, and then every load that the action wants has succeeded |
| `CheckoutAction.ReplacedExactly` | eden/fs/inodes/CheckoutAction.cpp:227-318 | when nothing is left to happen the entry was replaced if and only if no load failed, the check did not throw, and it found no conflict or is overruled |
| `CheckoutAction.NothingStartsAfterThrow` | eden/fs/inodes/CheckoutAction.cpp:117-188 | once starting a load has thrown no other load is started |
| `CheckoutAction.StepInv` | eden/fs/inodes/CheckoutAction.cpp:67-188 | every step keeps the relation between counter, refcounts, loads and outcome |
| `ConfigLock.MutualExclusion` | eden/cli/config.py:890-934 | over all interleavings of any number of processes, dying or failing at any point, in which no __del__ unlinks the file under its user: at most one process is past the inode check, the path names its file, and the calls of add_repository are equal to some serial order |
| `ConfigLock.DoneAreCalls` | eden/cli/config.py:360-383 | the calls in that order are exactly those that the processes made, in the order in which they made them |
| `ConfigLock.NoFileLeftBehind` | eden/cli/config.py:917-929 | a process that closes its lock file has unlinked it before, and when all processes are done and none of them died there is no lock file |
| `ConfigLock.DeathReleases` | eden/cli/config.py:899-911 | a process that dies with the lock leaves its file, and the next process gets the lock on that file |
| `ConfigLock.FailureReleases` | eden/cli/config.py:872-882 | an exception while loading or saving releases the lock, unlinks the file and leaves the configuration as it was |
| `RepositoryCalls.ListedIfNoSpace` | eden/cli/config.py:231-241 | a repository is found in the list of repositories if and only if its name has no space |
| `RepositoryCalls.SerialKeepsAll` | eden/cli/config.py:360-383 | in a serial order a name is there in the end if and only if it was there or was used by a call, and what a name without a space stands for does not change |
| `RepositoryCalls.RefusedExactlyIfKnown` | eden/cli/config.py:365-371 | a call is refused if and only if its name has no space and was there or was used by an earlier call |
| `RepositoryCalls.LastCallCounts` | eden/cli/config.py:381-383 | in the end a name stands for what the last call that took effect said |
| `RepositoryCalls.OverwrittenExactlyIfSpaced` | eden/cli/config.py:365-383 | a call that took effect can be overwritten by a later one if and only if its name has a space |
| `RepositoryCalls.MyRepoIsOverwritten` | eden/cli/config.py:365-383 | for instance the second of two calls for my repo overwrites the first |
| `RepositoryCalls.SerialOncePerName` | eden/cli/config.py:365-371 | a second call with the same name is refused if and only if the name has no space |
| `ConfigLock.HarmfulUnlinkAdmitsSecond` | eden/cli/config.py:881-882 | if __del__ of a process that opened or locked the file, but did not pass the check, unlinks it while another process is past the check, a third one can pass it too |
| `ConfigLock.HarmfulUnlinkIsReachable` | eden/cli/config.py:900-934 | such a state is reached by three processes making ordinary calls, when lstat finds no file |
| `ConfigLock.StepInv` | eden/cli/config.py:890-969 | every system call keeps the relation between lock owners, path, loaded configurations and history |
| `FileMonitor.Serve` | eden/fs/config/CachedParsedFileMonitor.h:55-79 | over every series of calls the cache answers what loading the file would give at that moment, or, within the throttle duration of the last check of the same path, at that check; never data of another path |
| `FileMonitor.Answer` | eden/fs/config/CachedParsedFileMonitor.h:55-58 | the same for one call in the series |
| `FileMonitor.LoadExactly` | eden/fs/config/CachedParsedFileMonitor.h:107-139 | loading gives data if and only if stat, open, fstat and the parser succeed, otherwise the error of the first that does not, and EIO for a parser that throws or fails without an error number |
| `FileMonitor.CachedParsedFileMonitor.GetFileContents` | eden/fs/config/CachedParsedFileMonitor.h:66-79 | an unthrottled call gives what loading gives now, a throttled one the outcome at the last check; the first call for a path is never throttled |
| `FileMonitor.CachedParsedFileMonitor.SetFilePath` | eden/fs/config/CachedParsedFileMonitor.h:55-58 | another path forgets what was seen, the same path changes nothing |
| `FileMonitor.CachedParsedFileMonitor.ProcessUpdatedFile` | eden/fs/config/CachedParsedFileMonitor.h:81-92 | the cached outcome is the error or the outcome of the parser, and the update is counted |
| `FileMonitor.CachedParsedFileMonitor.ParseFile` | eden/fs/config/CachedParsedFileMonitor.h:123-139 | the outcome of the parser; an exception counts as EIO |
| `FileMonitor.FileChangeMonitor.CheckIfUpdated` | eden/fs/config/FileChangeMonitor.cpp:46-105 | throttled: nothing happens; otherwise the saved stat and errors, also one of fstat, describe the file now, and no update is reported only if loading gives what it gave at the last check |
| `FileMonitor.FileChangeMonitor.IsChanged` | eden/fs/config/FileChangeMonitor.cpp:107-145 | a change is a different stat error, or a different stat |
| `FileMonitor.FileChangeMonitor.SetFilePath` | eden/fs/config/FileChangeMonitor.cpp:35-40 | a different path forces the next check, the same path changes nothing |
| `DirList.AddAllThenExtract` | eden/fs/fuse/DirList.cpp:21-64 | for any series of add calls the used part is exactly the records of the accepted entries with zero padding, its length is a multiple of 8 and at most the size of the buffer, and extract returns exactly those entries, in order and intact, if and only if every accepted name is shorter than 2^32 bytes |
| `DirList.DecodeInvertsEncodeAll` | eden/fs/fuse/DirList.cpp:49-64 | the same for any list of records |
| `DirList.SmallBufferFits` | eden/fs/fuse/DirList.cpp:21-27 | a buffer of less than 2^32 bytes accepts only such names |
| `DirList.List.Add` | eden/fs/fuse/DirList.cpp:21-43 | appends one record if it fits, and changes nothing otherwise |
| `DirList.List.Extract` | eden/fs/fuse/DirList.cpp:49-64 | walking the buffer gives what reading record by record gives, and the entries back if and only if their names are short enough for the length field; leaving the used part is None |
| `DirList.DecodeInvertsEncode` | eden/third-party/fuse_kernel_linux.h:733-739 | a record is read back with inode, offset, type and name intact, whatever follows it, if and only if the length of the name fits its field |
| `DirList.Layout` | eden/third-party/fuse_kernel_linux.h:733-743 | the bytes of a record: inode number, offset, length of the name and type in little-endian order, the name from byte 24 on, and fewer than eight zeros up to a multiple of eight |
| `DirList.Align` | eden/third-party/fuse_kernel_linux.h:742-743 | the next multiple of 8 |
| `DirList.AlignMask` | eden/third-party/fuse_kernel_linux.h:742-743 | the mask of the macro rounds up to a multiple of 8, for every 64-bit value |
| `VariableExpansion.ReplacingUsesDollars` | eden/fs/config/FieldConverter.cpp:50-56 | each replacement leaves fewer dollar signs, on any text |
| `VariableExpansion.LoopOnPieces` | eden/fs/config/FieldConverter.cpp:50-56 | with a value that does not mention the variable, replacing until none is left replaces exactly its mentions |
| `VariableExpansion.ReplaceOnPieces` | eden/cli/configinterpolator.py:30-35 | one pass replaces exactly the mentions of that variable, whatever the value |
| `VariableExpansion.SelfReferenceNeverEnds` | eden/fs/config/FieldConverter.cpp:50-56 | on any text with the token, a value that contains the token keeps the loop going for ever |
| `VariableExpansion.LoopEndsExactly` | eden/fs/config/FieldConverter.cpp:50-56 | for text and value whose dollar signs all start tokens: the loop ends if and only if the text or the value does not mention the variable, and then has replaced exactly its mentions |
| `VariableExpansion.DollarFreeEnds` | eden/fs/config/FieldConverter.cpp:50-56 | with a value free of dollar signs the loop ends on any text |
| `VariableExpansion.ReplaceUntilNone` | eden/fs/config/FieldConverter.cpp:50-56 | what the loop returns, for any text and value for which it ends |
| `ExpanderAgreement.ExpandersAgree` | eden/fs/config/FieldConverter.cpp:43-58 | on text whose dollar signs all start one of the three tokens, with values that mention no variable, replacing until none is left and one pass per variable in the other order both give the simultaneous substitution, whichever variables have values |
| `ExpanderAgreement.ExpandersAgreeExactly` | eden/fs/config/FieldConverter.cpp:43-58 | for values that may mention variables: the two agree on every such text if and only if no value mentions its own variable, the values of USER and USER_ID do not lead to HOME, and that of HOME does not mention USER_ID, nor USER unless USER comes out as its own token |
| `ExpanderAgreement.LoopsEndExactly` | eden/fs/config/FieldConverter.cpp:43-58 | the replacing loops end on every such text if and only if no value mentions its own variable |
| `ExpanderAgreement.BothOnPieces` | eden/fs/config/FieldConverter.cpp:43-58 | for any order of the variables: when the loops end, what they give and what the passes give |
| `ExpanderAgreement.HomeMentionsUser` | eden/cli/configinterpolator.py:30-35 | with the home directory given as the token of USER the one expander replaces that too and the other leaves it |
| `ExpanderAgreement.ExpandField` | eden/fs/config/FieldConverter.cpp:43-58 | what the nested loops return if they end, which with values free of dollar signs is the simultaneous substitution |
| `ExpanderAgreement.DollarFreeExpands` | eden/fs/config/FieldConverter.cpp:43-58 | with values free of dollar signs they end on every text |
| `ExpanderAgreement.Interpolate` | eden/cli/configinterpolator.py:30-35 | one pass for each variable in the order of the dictionary, which with such values is the simultaneous substitution |
| `VariableExpansion.FindToken` | eden/fs/config/FieldConverter.cpp:51-54 | the first occurrence, if there is one |
| `VariableExpansion.Tokens` | eden/fs/config/FieldConverter.cpp:16-20 | the three tokens as text |
| `ExpanderAgreement.SpelledOut` | eden/fs/config/FieldConverter.cpp:43-58 | on the text of the three tokens in a row both expanders put the three values there |
| `Snapshot.ReadBackInvertsWritten` | eden/fs/config/CheckoutConfig.cpp:70-156 | one or two parents written by setParentCommits are read back by getParentCommits |
| `Snapshot.AcceptedExactlyIfWritten` | eden/fs/config/CheckoutConfig.cpp:70-156 | a file with the magic is accepted if and only if it is what setParentCommits writes for some parents, and those are the ones returned |
| `Snapshot.SavedIsReadByBoth` | eden/cli/config.py:1150-1162 | a commit saved by the command line is read by the daemon as that single parent and by the command line in lower case |
| `Snapshot.ReadersAgree` | eden/cli/config.py:1150-1155 | of every file the daemon accepts the command line returns the first parent, except old-style files, which it refuses; of the files the command line accepts the daemon accepts exactly two lengths |
| `Snapshot.OldStyleIsRead` | eden/fs/config/CheckoutConfig.cpp:85-96 | an old-style file is read whatever spaces, tabs, carriage returns and line feeds surround the commit |
| `Snapshot.OldStyleNeedsDigits` | eden/fs/config/CheckoutConfig.cpp:85-96 | any other byte that is no hexadecimal digit makes an old-style file unreadable |
| `Snapshot.WrittenBytes` | eden/fs/config/CheckoutConfig.cpp:132-156 | the bytes of the file: eden, then 0, 0, 0, 1, then 20 bytes for each parent |
| `Snapshot.SetParentCommits` | eden/fs/config/CheckoutConfig.cpp:132-156 | the bytes pushed through the cursor, which read back as the same parents |
| `Snapshot.GetParentCommits` | eden/fs/config/CheckoutConfig.cpp:70-130 | reading through the cursor with every error case |
| `Hexadecimal.UnhexlifyInvertsHexlify` | eden/fs/model/Hash.h:84-115 | reading hexadecimal digits undoes writing them |
| `Hexadecimal.HexlifyInvertsUnhexlify` | eden/cli/config.py:1150-1162 | the other way round only the case of the letters is lost |
| `Hexadecimal.Digits` | eden/fs/model/Hash.h:103-115 | the sixteen digits that are written, and that exactly these and their upper case are read |
| `OverlayHeader.ParseInvertsSerialize` | eden/cli/overlay.py:51-89 | a packed header is parsed back, with every field but the padding, if and only if it has one of the two types and version 1 |
| `OverlayHeader.SerializeInvertsParse` | eden/cli/overlay.py:140-152 | a parsed header can be packed and gives back all bytes before the padding |
| `OverlayHeader.ParseExactly` | eden/cli/overlay.py:51-89 | fewer than 64 bytes are an invalid overlay file and more an error of struct; otherwise the first eight bytes have to be one of the two types and 0, 0, 0, 1 |
| `OverlayHeader.HeaderBytes` | eden/cli/overlay.py:140-152 | the bytes of a header: four for the type, the version, six big-endian times of eight bytes each, and the padding |
| `OverlayHeader.TypeBytes` | eden/cli/overlay.py:42-49 | the two types are OVDR and OVFL |
| `ByteOrder.BigEndianInverts` | eden/cli/overlay.py:49-49 | a big-endian field of any width is read back as written |
| `ByteOrder.BigEndianIsOnto` | eden/cli/overlay.py:49-49 | and every sequence of bytes is the field of the number read from it |
| `ByteOrder.BigEndianDigit` | eden/cli/overlay.py:49-49 | its byte at place i is the digit of that place in base 256 |
| `ByteOrder.LittleEndianDigit` | eden/third-party/fuse_kernel_linux.h:733-739 | the same for the fields of a record of the dirent buffer, in the other order |

## Left out

- Thrift serialization of directories and TOML and JSON parsing: what a directory file or a configuration parses to is data of the model.
- Overlays where an inode has several parent entries, beyond the scan and `HardLinksStay`: extracting from them may visit an inode twice or not end, and the repair function then stands at `Raised` without meaning it.
- Directory entries without an inode number field: extract_dir raises a TypeError on them; number 0 stands for them in a scan.
- Inode files in the wrong subdirectory, with a non-canonical number as name, or with number 0.
- Entry names that are empty, `.` or `..`, or contain a slash or a null byte, as places below lost+found: pathlib drops the first two, and the others name another place or raise. Lengths of paths beyond what the system accepts.
- Python's limit on recursion for paths and trees that are deep but finite.
- The path `/` that compute_path gives for the root itself, which lookup_path refuses as absolute.
- An fsck directory that already holds data; failing file writes, renames and log files during a repair; the state that a repair leaves behind when it raises.
- The return value of fix_errors (the directory, or nothing if there was nothing to fix), the text of log messages (that making it can raise is modelled), and times and permission bits of saved files.
- The range of the stored next inode number (8 bytes).
- FsckChecker: InodeInfo objects are values in a map, so sharing between them is not modelled; the result of a directory listing is a parameter.
- Memory ordering, signals, condition variable wake-ups and the raw FUSE device: a thread may find anything there.
- The FUSE opcode handlers, the INIT negotiation and the dispatcher: a request is begun and finished at any time.
- FuseSession: a failure to create threads in initializeFromTakeover, and accesses to the channel by the end of sessionComplete after destroy() has deleted it, are not steps of the model.
- InvalidationQueue: what sendInvalidation writes to the device, and its errors, which are logged only; a channel that is deleted without its invalidation thread ever having been started.
- CheckoutAction: moving a LoadingRefcount is handing on its token; an action with neither an old nor a new entry, which the constructor rules out, is not described; checkoutUpdateEntry and the loads are steps with any result.
- RequestReply: taking the header is one step, although nothing in the source makes it atomic.
- ConfigLock: bind mounts stored with a repository, the temporary file that save writes before the rename, and Windows, where no lock is taken; an inode number is not reused while the file is open.
- FileMonitor: stat, open, fstat and parsing in one check see the same file and, where both succeed, the same stat, one clock value serves for one check, and files with equal stats load equally, which the source assumes as well.
- DirList.AlignMask: stated for 64-bit vectors; the functions around it use the equivalent rounding on numbers.
- VariableExpansion.LoopEndsExactly: values with a dollar sign that does not start a token are not covered, since replacing can put new tokens together from their ends; for them there are `SelfReferenceNeverEnds` and what `ReplaceUntilNone` returns if it ends.
- ExpanderAgreement.ExpandField: requires that the loops end, as the original does not return otherwise; normalization of the resulting path and its error message.
- OverlayHeader: conversion of times from and to floating point.
- Snapshot: writing the file atomically.
- escape_dbus_address, systemd unit names and service configuration: easy next to the environment file, or thin layers over D-Bus.
- ReloadableConfig, DirstateChecker and argument joining for systemd services.
- Command-line front ends, doctor checks, mounts, process management, and everything else that mainly calls other programs.
