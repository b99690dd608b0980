# A verified model of the harder parts of this repository

The repository is a trimmed Chromium `base` library with a small IPC host on top. This project
models seven of its components in Dafny and proves what they promise, for all inputs, all runs or
all interleavings:

1. **Windows command lines** (`Text`, `Quoting`, `CommandLineModel`, `CommandLineObject`,
   `TokenRoundTrip`, `CommandLineProofs`, `SwitchMap`, `SwitchLookup`, `Reparsing`). A command line is quoted,
   printed, split again by the published rules of the Win32 function CommandLineToArgvW
   ("Parsing C++ command-line arguments", linked at commonlib/common/base/command_line.cc:106-107),
   sorted into switches and arguments, and mirrored in a switch map. Where a doubled quote inside
   a quoted part is read differently by different implementations, `DoubledQuote` lists the
   readings, and every theorem holds for each of them.
2. **Directory traversal and its clients** (`FileTree`, `Traversal`, `FileSystem`,
   `BreadthFirst`, `FileEnumeratorPosix`, `FileEnumeratorWin`, `Delete`, `ByteCopy`,
   `CopyDirectory`, `CopyResults`). The file system is a finite map from component paths to kinds; the order in
   which directories are listed, what the system refuses to touch, how many bytes each read or
   write moves, and which of these calls fail are arbitrary.
3. **Compare-and-swap loops and what is built on them** (`AtomicOps`, `AtomicHistory`,
   `AtomicRefCount`, `RefCountHistory`, `AtomicSequenceNum`): any number of actors over one 32-bit cell, one access per step.
4. **The registry of named threads** (`BrowserThread`, `LockElision`, `LockedPosts`,
   `StartOrder`): posting without the lock, what a post under the lock can miss, and what the order
   of starting threads is needed for.
5. **The cancelable callback** (`CancelableCallback`).
6. **The host's send queue and its child process** (`HostQueue`, `ChildProcessLauncher`).
7. **Logarithms of 32-bit numbers** (`Bits`).

Code that changes state is written as classes and loops, each method tied to a function on values;
the theorems are about those functions. Protocols are state machines whose steps are single
accesses to shared state. `dafny verify dfyconfig.toml` checks everything.

## Where the code and its comments differ

- Quoting says that an argument is "interpreted as one argument"
  (commonlib/common/base/command_line.cc:104-111). It is, exactly when it is not empty and has
  no tab without a space, quote or backslash beside it: `Quoting.QuotedArgumentIsOneArgument`,
  `TokenRoundTrip.EmptyAndTabbedAreLost`.
- A token such as `--=` changes its meaning when the object is built again from its own tokens
  (commonlib/common/base/command_line.cc:329-346): `Reparsing.BarePrefixCollapses`,
  `Reparsing.NormalisingIsIdempotent`. A switch name with `=` in it makes the map and the vector
  disagree: `SwitchMap.AppendSwitchAgreesIff`, `SwitchMap.EqualsInTheName`.
- FileEnumerator is announced as a breadth-first search (commonlib/common/base/file_util.h:485-487).
  It works off a stack, so it is one only if no subdirectory holds something deeper than something
  in a subdirectory listed before it: `BreadthFirst.BreadthFirstIff`,
  `BreadthFirst.DeeperBeforeShallower`. What follows in the comment, that files of a directory come
  before those of its subdirectories, is true: `Traversal.DirectoriesComeFirst`.
- CopyDirectory compares paths as text to find a target inside the source
  (commonlib/common/base/file_util_posix.cc:314-317), so it also refuses a sibling with a longer
  name: `CopyResults.RefusedIff`, `CopyResults.LongerSiblingIsRefused`. Copying a directory into
  the directory it already is in empties its files and is reported as success:
  `CopyResults.FilesSurviveTheCopy`, `CopyResults.EmptiesItself`. A file in the place of a target
  directory is accepted: `CopyResults.ImageOfADirectory`, `CopyResults.CopiesNothing`. What is
  inside a directory that cannot be opened is silently missed: `CopyResults.NothingIsMissedIff`.
- "There are no race conditions" (ServerPort/ipc_process/browser_thread.h:47) holds for the posts
  that avoid the lock. A post under the lock can go to a loop that its target has lost, because
  the end of a thread does not wait for the lock; the exact condition is
  `LockedPosts.LockedPostIsCurrentIff`, a run is `LockedPosts.StopOvertakesALockedPost`. A caller
  without a message loop is taken for a thread that was registered but not started
  (ServerPort/ipc_process/browser_thread_impl.cc:437-443): `BrowserThread.IdentifiesCallerIff`,
  `LockElision.NullLoopAvoidsTheLock`.
- The dialog starts IO before PROCESS_LAUNCHER (ServerPort/ServerPort/ServerPortDlg.cpp:98-99),
  against the order of lifetimes. Then a post from IO can go to a loop that was not there when the
  call began: `StartOrder.IoSeesTheLauncherStart`. It does no harm if no registered thread at or
  below the new one is in a call, in particular if all threads are started before the first call:
  `StartOrder.UndisturbedIffHarmless`, `StartOrder.StartingFirstIsEnough`.
- The host's test of the process handle (ServerPort/ServerPort/ServerPortDlg.cpp:331-336) is never
  made, because the launcher calls back from its own constructor, before it is stored:
  `HostQueue.FirstLaunchOnly`.

## Model

| member | source | states |
|---|---|---|
| Quoting.QuoteForCommandLineToArgvW | commonlib/common/base/command_line.cc:105-145 | the index loop over backslash runs and quotes computes the specification `Quote` |
| Quoting.QuoteBodyOfRun | commonlib/common/base/command_line.cc:116-134 | a run of n backslashes becomes 2n before a quote or the end and stays n elsewhere |
| Quoting.BackslashRule | commonlib/common/base/command_line.cc:106-107 | the splitter reads 2n and 2n+1 backslashes before a quote as the published rules say |
| Quoting.ScanUndoesQuoteBody | commonlib/common/base/command_line.cc:113-144 | reading a quoted value from behind its opening quote gives the value back and stops right behind its closing quote, for every mix of backslashes and quotes |
| Quoting.ScanUndoesQuote | commonlib/common/base/command_line.cc:105-145 | the same for the printed value behind any plain prefix, such as a switch name and its equals sign |
| Quoting.QuotedArgumentIsOneArgument | commonlib/common/base/command_line.cc:104-111 | a printed argument is read back as that one argument if and only if it is not empty and any tab in it comes with a character that forces quotes |
| TokenRoundTrip.SplittingUndoesPrinting | commonlib/common/base/command_line.cc:239-280 | splitting the printed line by the Win32 rules gives back exactly the token vector if and only if the program and every token are clean, under every reading of doubled quotes |
| TokenRoundTrip.CleanTokensSplit | commonlib/common/base/command_line.cc:252-280 | a printed vector of clean tokens is split into exactly those tokens |
| TokenRoundTrip.SplitTokensClean | commonlib/common/base/command_line.cc:252-280 | if splitting gives the tokens back, each of them was clean (by counting the characters that quoting costs) |
| TokenRoundTrip.ProgramRoundTrip | commonlib/common/base/command_line.cc:239-243 | the program name, which has escape-free rules of its own, is read back if and only if it is clean |
| TokenRoundTrip.EmptyAndTabbedAreLost | commonlib/common/base/command_line.cc:108-111 | two vectors that the printed line does not preserve |
| SwitchLookup.QuotedOnlyIfNeeded | commonlib/common/base/command_line.cc:108-111 | an argument is printed as it is if and only if it has no space, backslash or quote, and otherwise between quotes |
| SwitchLookup.PrintedInOrder | commonlib/common/base/command_line.cc:252-280 | the printed tokens stand in order, with one space between two, and behind a terminator nothing is printed as a switch |
| SwitchLookup.PrintedToken | commonlib/common/base/command_line.cc:260-277 | a single token by its characters: of a switch only what follows the first equals sign is quoted, an empty value goes with its equals sign, anything else is quoted whole |
| Text.TrimIsCut | commonlib/common/base/string_util.cc:214-246 | trimming cuts off only whitespace, and all of it at both ends: the result is a slice that is empty or starts and ends with another character |
| Text.WhitespaceByCode | commonlib/common/base/string_util.cc:119-147 | the 27 whitespace characters by their codes |
| CommandLineObject.GetSwitchPrefixLength | commonlib/common/base/command_line.cc:43-50 | two for two dashes, one for a dash or a slash, zero for anything else |
| CommandLineProofs.SwitchByCharacters | commonlib/common/base/command_line.cc:54-68 | a token is a switch if and only if it goes on behind its prefix; name and value are what stands before and behind its first equals sign |
| CommandLineObject.CommandLine.AppendSwitchesAndArguments | commonlib/common/base/command_line.cc:71-91 | the loop has the effect of the fold `AppendTokens`, and keeps begin_args_ within 1..argv_.size() |
| CommandLineObject.CommandLine.InitFromArgv | commonlib/common/base/command_line.cc:232-237 | resets argv_ and begin_args_ but not switches_, then appends |
| CommandLineObject.CommandLine.AppendSwitchNative | commonlib/common/base/command_line.cc:329-346 | inserts, before the arguments, the lower-case token with a prefix and its value if it has one, and maps the unprefixed lower-case key to the value; moves the divider by one |
| CommandLineObject.CommandLine.AppendArguments | commonlib/common/base/command_line.cc:394-399 | appends the parsed tokens of another object, and takes its program if asked |
| CommandLineObject.CommandLine.GetArgs | commonlib/common/base/command_line.cc:366-375 | all tokens behind the divider without the first "--" among them, and only that one |
| CommandLineObject.CommandLine.GetArgumentsString | commonlib/common/base/command_line.cc:252-280 | the printing loop computes the specification `PrintTokens` |
| CommandLineObject.CommandLine.ParseFromString | commonlib/common/base/command_line.cc:414-428 | leaves the object alone if the text is nothing but whitespace, and otherwise splits the trimmed text (see `Text.TrimIsCut`) and initialises |
| CommandLineProofs.ParsingIsAStablePartition | commonlib/common/base/command_line.cc:71-91 | a fresh object holds the trimmed program, the switches before the first terminator in order, the other tokens before it in order, and all after it; GetArgs() drops just that terminator |
| CommandLineProofs.AppendingPartitions | commonlib/common/base/command_line.cc:71-91 | appending tokens to any object extends its switch section and its argument section, each in order, and folds the switches into the map |
| CommandLineProofs.InitializedLine | commonlib/common/base/command_line.cc:232-237 | an object that is initialised again is a new one but for its map, into which the new switches are folded; without tokens only the map stays |
| CommandLineProofs.AppendArgumentsPartitions | commonlib/common/base/command_line.cc:394-399 | the other object's switches come behind the own ones and its arguments at the end, each in order; the program is the other's, trimmed, if it was asked for, and the own one if not |
| SwitchMap.AppendSwitchAgreesIff | commonlib/common/base/command_line.cc:329-346 | one appended switch keeps the map equal to the last-wins fold of the parsed switch tokens if and only if its name has no equals sign and name and value are not both empty |
| SwitchMap.EqualsInTheName | commonlib/common/base/command_line.cc:329-346 | a switch name after which the map and the vector disagree |
| SwitchMap.MapAgreesInEveryRun | commonlib/common/base/command_line.cc:329-399 | over every sequence of clean AppendSwitch, AppendArg and AppendArguments on a fresh object, the map agrees with the vector and begin_args_ stays in range |
| SwitchMap.SectionsInEveryRun | commonlib/common/base/command_line.cc:329-399 | after every run of appends, clean or not: the last program taken over, then all switches, then all arguments, each in the order of the calls |
| SwitchLookup.SwitchIsFound | commonlib/common/base/command_line.cc:290-320 | a switch that was appended with any prefix, or none, is found by its bare name in any case, with its value, and every other name finds what it found before |
| Reparsing.NormalisingIsIdempotent | commonlib/common/base/command_line.cc:232-237 | building again from argv() gives the same object if and only if no switch with an empty value collapses to a bare prefix or a name that trimming changes |
| Reparsing.ParsingUndoesPrinting | commonlib/common/base/command_line.cc:414-428 | for every token vector whose trimmed program and tokens are clean: parsing the printed line of the object built from it gives an object with the same argv_, begin_args_ and switches_ |
| Reparsing.BarePrefixCollapses | commonlib/common/base/command_line.cc:329-346 | a vector on which building twice differs from building once |
| FileTree.NextStackIs | commonlib/common/base/file_util_posix.cc:756-785 | reading the top directory leaves pending directories that do not lie inside each other, and less below them than before |
| Traversal.WalkMembers | commonlib/common/base/file_util_posix.cc:749-788 | exactly the entries of a requested type behind readable directories are returned |
| Traversal.WalkIsOrdered | commonlib/common/base/file_util_posix.cc:749-788 | no entry is returned twice, entries of a directory precede those of its subdirectories, and the entries of one directory stand together |
| Traversal.ReturnedIff | commonlib/common/base/file_util_posix.cc:749-788 | the same for one root, spelled out: below it, in it if not recursive, of a requested type, and with only readable directories on the way |
| Traversal.SiblingsInListedOrder | commonlib/common/base/file_util_posix.cc:765-782 | entries of one directory are returned in the order in which the system lists them |
| Traversal.DirectoriesComeFirst | commonlib/common/base/file_util.h:484-487 | a directory is returned before anything inside it, and its files before those of its subdirectories |
| Traversal.SubtreesAreTakenWhole | commonlib/common/base/file_util_posix.cc:756-785 | the directories pushed last are walked completely before those pushed earlier |
| BreadthFirst.BreadthFirstIff | commonlib/common/base/file_util.h:484-487 | paths never get shorter along the walk if and only if, in every directory that the walk comes to, no subdirectory holds something deeper than something in a subdirectory listed before it |
| BreadthFirst.DeeperBeforeShallower | commonlib/common/base/file_util.h:484-487 | a tree and a listing order with a file at depth 3 returned before one at depth 2 |
| Traversal.SameWalk | commonlib/common/base/file_util_posix.cc:749-788 | a walk depends only on what lies below its pending directories |
| FileEnumeratorPosix.ReadDirectory | commonlib/common/base/file_util_posix.cc:821-857 | lists a directory once per name with the kind lstat() gives, or fails when it cannot be opened |
| FileEnumeratorPosix.FileEnumerator.Load | commonlib/common/base/file_util_posix.cc:765-782 | the inner loop keeps the wanted entries and pushes the directories, in the listed order |
| FileEnumeratorPosix.FileEnumerator.NextDirectory | commonlib/common/base/file_util_posix.cc:756-764 | one turn of the outer loop leaves what is still to be returned unchanged, and makes progress |
| FileEnumeratorPosix.FileEnumerator.Next | commonlib/common/base/file_util_posix.cc:749-788 | returns and removes the first of the remaining paths, or ends exactly when none remain |
| FileEnumeratorPosix.EnumerateAll | commonlib/common/base/file_util_posix.cc:749-788 | calling Next() until the empty path returns exactly the walk, and ends |
| FileEnumeratorPosix.RestSurvives | commonlib/common/base/file_util_posix.cc:749-788 | changing an entry that is neither pending nor still to be returned does not disturb a traversal under way |
| FileEnumeratorWin.FileEnumerator.Next | commonlib/common/base/file_util_win.cc:694-756 | the machine with a find handle also returns and removes the first of the remaining paths |
| FileEnumeratorWin.EnumerateAll | commonlib/common/base/file_util_win.cc:694-756 | the Windows machine returns the same walk as the POSIX one |
| Delete.EmptyWhenReached | commonlib/common/base/file_util_posix.cc:246-250 | when the second loop comes to a directory, it is empty unless it could not be opened and hides entries |
| Delete.UnlinkFiles | commonlib/common/base/file_util_posix.cc:229-244 | the first loop removes exactly the non-directories and stacks up the directories; if one is refused it stops there, with just the ones before it gone |
| Delete.RemoveDirectories | commonlib/common/base/file_util_posix.cc:246-250 | the second loop succeeds exactly when every directory empties and is not refused; otherwise it stops at the last that does not go, with just those behind it gone |
| Delete.DeletableIff | commonlib/common/base/file_util_posix.cc:214-252 | the two loops together succeed exactly on a deletable tree, and then leave the tree without the subtree |
| Delete.Delete | commonlib/common/base/file_util_posix.cc:214-252 | succeeds if and only if nothing at or below the path resists (and it is empty, when not recursive), and removes exactly the subtree then; on failure the tree is exactly what was removed before the first entry that resists, and unchanged if not recursive |
| ByteCopy.WriteAll | commonlib/common/base/file_util_posix.cc:1003-1014 | for every schedule of positive short writes the buffer is appended in order; it fails exactly when a write fails, with a proper first part appended |
| ByteCopy.CopyLoop | commonlib/common/base/file_util_posix.cc:992-1015 | for every schedule of short reads and writes the loop ends; it succeeds exactly when no read or write fails, and then the output equals the input |
| ByteCopy.CopyFileUnsafe | commonlib/common/base/file_util_posix.cc:977-1022 | succeeds if and only if the source is a regular file, the target can be created and no read, write or close fails; the target then holds the source's bytes, or nothing when it is the source; otherwise the tree is unchanged or the target holds a first part |
| ByteCopy.WriteFileDescriptor | commonlib/common/base/file_util_posix.cc:664-677 | answers the size after writing exactly data[0..size), and -1 after a proper first part, exactly when a write failed |
| CopyDirectory.Landing | commonlib/common/base/file_util_posix.cc:347-356 | a target inside the source is its own original, or the source itself |
| CopyDirectory.ParentExistsByThen | commonlib/common/base/file_util_posix.cc:345-378 | when an entry is reached, its mkdir or file copy has a place now exactly when the original tree provides one: the directory above was there or has been made |
| CopyDirectory.SourceIsIntact | commonlib/common/base/file_util_posix.cc:345-378 | an entry is copied as it was before the call |
| CopyDirectory.Undisturbed | commonlib/common/base/file_util_posix.cc:345-381 | no copy disturbs the traversal of the source |
| CopyDirectory.CopyDirectory | commonlib/common/base/file_util_posix.cc:284-381 | always ends, removes nothing and leaves alone all that is not below the target; unless the copies would lie at a proper ancestor of the source, reports success if and only if every listed directory and regular file finds its place and no read, write or close fails, and then the tree is exactly the old one with the copies put in; otherwise it has stopped at the first entry for which that is not so, with the copies before it put in |
| CopyResults.TargetsGo | commonlib/common/base/file_util_posix.cc:334-356 | the target of an entry is its path below the source, put below `to`, or below the source's name in `to` if the copy is recursive and `to` is a directory |
| CopyResults.CopiedIff | commonlib/common/base/file_util_posix.cc:320-323 | what is set out to be copied: the source, and below it what is behind readable directories, or in it and no directory if the copy is not recursive |
| CopyResults.CopyIsFaithful | commonlib/common/base/file_util_posix.cc:284-381 | beside the source: the source is unchanged, each listed regular file has an equal image, each listed directory an image with its permission unless something was there, every image stands in a directory, and what is neither file nor directory is passed over |
| CopyResults.NothingIsMissedIff | commonlib/common/base/file_util_posix.cc:749-788 | a recursive copy lists the whole source exactly when every directory in it that holds something can be opened |
| CopyResults.ImageOfADirectory | commonlib/common/base/file_util_posix.cc:358-364 | the image of a directory is a directory exactly when nothing else stood in its place |
| CopyResults.CopiesNothing | commonlib/common/base/file_util_posix.cc:358-364 | a call that copies a directory onto a file, changes nothing and reports success |
| CopyResults.FilesSurviveTheCopy | commonlib/common/base/file_util_posix.cc:334-341 | a file equals its image after the copy unless the directory was copied into its own parent and the file was not empty |
| CopyResults.EmptiesItself | commonlib/common/base/file_util_posix.cc:334-341 | a call that empties the file it copies and reports success |
| CopyResults.RefusedIff | commonlib/common/base/file_util_posix.cc:296-317 | a copy is refused if and only if the source's path takes 4096 characters or more, the source or the directory of the target is missing, or the source's path is the beginning of the target's up to the last name, and that name the beginning of the one beside it |
| CopyResults.LongerSiblingIsRefused | commonlib/common/base/file_util_posix.cc:314-317 | every existing sibling with a longer name is refused |
| AtomicOps.LoopsAreLinearizable | commonlib/common/base/atomicops_internals_gcc.h:15-53 | under every interleaving each finished call has exactly one entry in a log that replays to the cell, made between its start and its return, with its own operation and result |
| AtomicOps.LogRespectsRealTime | commonlib/common/base/atomicops_internals_gcc.h:15-53 | a call that returned before another began took effect before it |
| AtomicHistory.CallsAreAtomic | commonlib/common/base/atomicops_internals_gcc.h:15-53 | every call that returns was made with its operation, and at one step of its own actor in between the cell goes from its old value to the new one: the sum modulo 2^32, the value given, or the replacement if the expected value was there; it answers the new value for an increment and the old one for the others |
| AtomicHistory.OnlyCallsChangeTheCell | commonlib/common/base/atomicops_internals_gcc.h:15-53 | an event that changes the cell is a step with which a call takes effect |
| AtomicHistory.ReplayIsTheCellThen | commonlib/common/base/atomicops_internals_gcc.h:15-53 | after every event of a run the log so far replays to the value that the cell has then |
| AtomicHistory.CallsAreAccountedFor | commonlib/common/base/atomicops_internals_gcc.h:15-53 | every call that was begun has returned exactly once, unless its actor is still in it |
| AtomicHistory.AloneItReturns | commonlib/common/base/atomicops_internals_gcc.h:15-53 | in every state of every run, an actor that is left alone gets its call through in two steps |
| AtomicHistory.ExchangeAnswersTheOldValue | commonlib/common/base/atomicops_internals_gcc.h:27-34 | an exchange answers the value that its place in the log finds in the cell, and leaves its own |
| AtomicHistory.IncrementAnswersTheNewValue | commonlib/common/base/atomicops_internals_gcc.h:41-53 | an increment answers the value that it leaves: the one it found plus its amount, modulo 2^32 |
| AtomicHistory.ExchangesTakeTurns | commonlib/common/base/atomicops_internals_gcc.h:27-34 | when only exchanges run, each answers what the one before it stored, the first one the initial value |
| AtomicHistory.ExchangesLoseNothing | commonlib/common/base/atomicops_internals_gcc.h:27-34 | then the values given and the initial one are the values answered and the final one, as multisets |
| AtomicOps.CompareAndSwapTellsTheTruth | commonlib/common/base/atomicops_internals_gcc.h:15-25 | the old value is answered exactly when the cell was written; otherwise a different value that the cell held during the call |
| AtomicOps.IncrementsAddUp | commonlib/common/base/atomicops_internals_gcc.h:41-53 | when only increments run, the cell is the initial value plus those that took effect, modulo 2^32 |
| AtomicOps.RetriesAreBounded | commonlib/common/base/atomicops_internals_gcc.h:15-53 | between any two moments of any run an actor takes at most two steps for each call that takes effect, and two more: it retries only because another call got through |
| AtomicRefCount.CountIsReferencesHeld | commonlib/common/base/atomic_ref_count.h:22-39 | under the usual discipline the count always equals the references held |
| AtomicRefCount.LastReleaseIsUnique | commonlib/common/base/atomic_ref_count.h:31-39 | a release answers false at most once in any run, and nothing is held then |
| AtomicRefCount.FalseExactlyAtTheLastDrop | commonlib/common/base/atomic_ref_count.h:31-39 | an increment comes to zero exactly at the step that drops the last reference |
| RefCountHistory.FalseIffNothingIsLeft | commonlib/common/base/atomic_ref_count.h:22-39 | every call that returns adds to or drops from the references of its own actor just what was asked for, at one step, and answers false if and only if nobody holds a reference after that step |
| RefCountHistory.DroppedIffSaidZero | commonlib/common/base/atomic_ref_count.h:34-38 | nobody holds a reference if and only if a call has come to zero, and has answered false or is about to |
| RefCountHistory.ExactlyOneFalse | commonlib/common/base/atomic_ref_count.h:34-38 | in every run whose last reference was dropped by a call that has returned, exactly one call has answered false |
| RefCountHistory.LastDropByAnother | commonlib/common/base/atomic_ref_count.h:34-38 | a run in which the only reference changes hands and its new holder is answered false |
| RefCountHistory.ReferencesAddUp | commonlib/common/base/atomic_ref_count.h:22-39 | the references held are those at first with all that calls have added and dropped |
| RefCountHistory.LoadsTellTheTruth | commonlib/common/base/atomic_ref_count.h:53-77 | the count reads one exactly when one actor holds one reference and nobody else any, and zero exactly when nobody holds any |
| RefCountHistory.MemoryRuns | commonlib/common/base/atomic_ref_count.h:22-39 | every run of the count is a run of the increment loops |
| AtomicRefCount.OneMeansExclusive | commonlib/common/base/atomic_ref_count.h:53-65 | when the count reads one, a holder is alone, and nobody is adding a reference |
| AtomicSequenceNum.StaticAtomicSequenceNumber.GetNext | commonlib/common/base/atomic_sequence_num.h:24-27 | answers the number before the increment, as the signed number of 32 bits that is congruent to it, and counts up with wrap-around |
| AtomicSequenceNum.NumberIsPlaceInLog | commonlib/common/base/atomic_sequence_num.h:24-27 | the number is the signed 32-bit value of the initial value plus the count of calls that took effect earlier |
| AtomicSequenceNum.NumbersAreDistinct | commonlib/common/base/atomic_sequence_num.h:24-37 | two calls get the same number if and only if a multiple of 2^32 calls took effect between them, so at most 2^32 calls get different ones |
| BrowserThread.BrowserThreadGlobals.Initialize | ServerPort/ipc_process/browser_thread_impl.cc:210-217 | puts the thread into its slot under the lock |
| BrowserThread.BrowserThreadGlobals.Destroy | ServerPort/ipc_process/browser_thread_impl.cc:219-235 | empties the slot, and reports whether the younger threads were gone |
| BrowserThread.BrowserThreadGlobals.GetCurrentThreadIdentifier | ServerPort/ipc_process/browser_thread_impl.cc:426-446 | the scan finds the first registered thread with the caller's message loop |
| BrowserThread.BrowserThreadGlobals.PostTaskHelper | ServerPort/ipc_process/browser_thread_impl.cc:238-274 | answers true if and only if the target is registered and has a loop; then the task is appended to that loop's queue and every other queue is unchanged, otherwise all are; takes the lock unless the caller is a registered thread that the target outlives |
| BrowserThread.IdentifiesCallerIff | ServerPort/ipc_process/browser_thread_impl.cc:426-446 | the scan gives the slot that holds the caller's own loop, or none for an unregistered caller, if and only if the caller has a message loop or no registered thread lacks one |
| LockElision.UnlockedReadsAreStable | ServerPort/ipc_process/browser_thread_impl.cc:238-274 | in every run obeying the lifetime order, a registered thread's call reads without the lock only slots up to its own, none of which has changed or can be written during the call |
| LockElision.UnlockedPostIsLockedPost | ServerPort/ipc_process/browser_thread_impl.cc:245-274 | the post without the lock puts the task where a locked post would, now and at the start of the call, and answers the same |
| LockElision.FinishedCalls | ServerPort/ipc_process/browser_thread_impl.cc:245-274 | the lock was avoided exactly for registered callers that the target outlives; queues hold exactly what calls answered to have posted, once and in order |
| LockElision.QueueHoldsThePosts | ServerPort/ipc_process/browser_thread_impl.cc:260-274 | in every run, the queue of a loop holds one task for each finished call that answered that it posted there, that call's own, in the order of the answers |
| LockElision.LifeOfAThread | ServerPort/ipc_process/browser_thread_impl.cc:210-235 | a thread that is registered, started, stopped and unregistered has its loop in its slot in between and leaves everything as it was |
| LockElision.AloneItIsPostTaskHelper | ServerPort/ipc_process/browser_thread_impl.cc:238-274 | the steps of one call, taken without interruption from any state, end with the queues, the answer and the use of the lock that PostTaskHelper() promises |
| LockElision.NothingItReadsIsWritten | ServerPort/ipc_process/browser_thread.h:51-53 | every write that the lifetime order allows goes below the slots of all registered threads that are in a call |
| LockElision.NullLoopAvoidsTheLock | ServerPort/ipc_process/browser_thread_impl.cc:437-443 | a run in which a thread without a message loop avoids the lock |
| LockedPosts.LockedPostIsCurrentIff | ServerPort/ipc_process/browser_thread_impl.cc:254-272 | in every run, when a caller that holds the lock reads the target's loop: whatever the other threads do before it posts, the post goes to the loop the target has then, if and only if nobody is registered for the target, or a thread below it is registered, or the target's own thread is in a call that needs the lock |
| LockedPosts.StopOvertakesALockedPost | ServerPort/ipc_process/browser_thread_impl.cc:219-226 | a run that ends with the task in the queue of a loop that the target has lost, and with the answer that it was posted |
| StartOrder.UndisturbedIffHarmless | ServerPort/ipc_process/browser_thread.h:51-53 | in every run with threads started in any order, no call of a registered thread sees its part of the array change if and only if no thread is started while a registered thread at or below its slot is in a call |
| StartOrder.StartingFirstIsEnough | ServerPort/ServerPort/ServerPortDlg.cpp:98-99 | if all starts come before the first call, in any order, posts without the lock go where the array has the target, now and at the start of the call |
| StartOrder.IoSeesTheLauncherStart | ServerPort/ServerPort/ServerPortDlg.cpp:98-99 | a run in the dialog's order in which IO posts without the lock to a loop that was not there when its call began |
| CancelableCallback.CancelableCallback.Cancel | commonlib/common/base/cancelable_callback.h:74-78 | invalidates the flag, drops forwarder and callback |
| CancelableCallback.CancelableCallback.Reset | commonlib/common/base/cancelable_callback.h:87-97 | cancels, binds a new forwarder to a new flag, and installs the callback |
| CancelableCallback.CancelableCallback.Run | commonlib/common/base/bind_internal.h:875-885 | a copy runs the installed callback if its flag is valid, and nothing otherwise |
| CancelableCallback.CopyRunsItsBinding | commonlib/common/base/cancelable_callback.h:64-114 | over every history a copy runs something exactly when no Cancel, Reset or destruction came after the event that bound it, and then the callback of that event |
| CancelableCallback.RunOfACopy | commonlib/common/base/cancelable_callback.h:64-114 | told by the events alone: a copy taken after one history and run after another runs the callback of the last Reset before it was taken if nothing has ended that since, and otherwise nothing; running it changes nothing |
| CancelableCallback.CancelledIffNothingBound | commonlib/common/base/cancelable_callback.h:81-83 | IsCancelled() says so exactly when no Reset stands that has not been ended |
| CancelableCallback.MadeCopyRunsItsBinding | commonlib/common/base/cancelable_callback.h:63-69 | the same for an object that was made with a callback, whose making counts as the first Reset |
| ChildProcessLauncher.Context.Launch | ServerPort/ipc_process/child_process_launcher.cc:51-66 | stores handle and client, is no longer starting, and calls the client back; without one it dispatches the handle for termination at once if the flag is set |
| ChildProcessLauncher.Context.GetChildTerminationStatus | ServerPort/ipc_process/child_process_launcher.cc:208-236 | while a handle is held the answer is the reported status with the reported exit code, or the old one if none is reported, and a final status closes the handle; without a handle the answer is the stored one and nothing changes |
| ChildProcessLauncher.HandleIsInOnePlace | ServerPort/ipc_process/child_process_launcher.cc:144-158 | in every run the launched handle is held, dispatched or closed, never two of them nor twice, and no other handle ever is |
| ChildProcessLauncher.DispatchedAtTheEnd | ServerPort/ipc_process/child_process_launcher.cc:83-85 | destruction dispatches the handle if and only if it is still held and the flag is set |
| ChildProcessLauncher.DispatchedIff | ServerPort/ipc_process/child_process_launcher.cc:144-158 | over every run, by its events: the handle is dispatched by the end exactly if there was no client, or no final status was reported and the flag was last set; it is closed here exactly if one was reported to a client's launcher |
| ChildProcessLauncher.FinalStatusIsFinal | ServerPort/ipc_process/child_process_launcher.cc:208-236 | after a status other than still-running all later answers are the same, exit code included |
| ChildProcessLauncher.AnswerIsTheReply | ServerPort/ipc_process/child_process_launcher.cc:208-236 | over every run, by its events: as long as no final status was reported to a client's launcher a query is answered with the reply itself, or with the last exit code reported if it brings none; a launcher that kept no handle answers normal termination and zero |
| ChildProcessLauncher.FirstFinalReplyIsKept | ServerPort/ipc_process/child_process_launcher.cc:208-236 | every answer from the first final reply on is exactly that reply |
| HostQueue.CServerPortDlg.Send | ServerPort/ServerPort/ServerPortDlg.cpp:230-247 | with a channel the message is handed over; without, it is queued behind the others before the first launch, and rejected after it |
| HostQueue.CServerPortDlg.OnProcessLaunched | ServerPort/ServerPort/ServerPortDlg.cpp:323-356 | whenever the flush ends at all, it hands over the whole queue in order if the channel is there |
| HostQueue.CServerPortDlg.LaunchClientProc | ServerPort/ServerPort/ServerPortDlg.cpp:208-228 | with a channel nothing changes; without, channel and launcher are made and the whole queue is handed over in order, whatever handle was got |
| HostQueue.EveryMessageOnceInOrder | ServerPort/ServerPort/ServerPortDlg.cpp:208-247 | in every run Send() accepts every message; the channel's messages followed by the queue are all of them in order, once each; the queue is empty from the first launch on |
| HostQueue.FirstLaunchOnly | ServerPort/ServerPort/ServerPortDlg.cpp:208-228 | the first launch flushes everything whatever handle it gives, and later launches change nothing |
| Bits.Log2Floor | commonlib/common/base/bits.h:17-32 | the position of the highest bit, -1 for zero; the loop ends with value 1 |
| Bits.Log2Ceiling | commonlib/common/base/bits.h:35-42 | the i with 2^(i-1) < n <= 2^i, -1 for zero |
| Bits.BoundsDetermine | commonlib/common/base/bits.h:16-42 | the documented bounds leave one answer each, and the two differ by one except at powers of two |

## Left out

- Reparsing.ParsingUndoesPrinting: stated for clean vectors only; which other vectors come back by accident is not determined.
- Reparsing.NormalisingIsIdempotent: assumes ASCII switch names, which the source checks in debug builds; `Text.Narrow` then keeps the name.
- CopyDirectory.CopyDirectory: when a recursive copy's image root is a proper ancestor of the source (such as /a/b/a copied to /), the tree changes while it is walked, and what is copied and reported is not determined; the source says that it does not handle overlapping targets properly. The debug check that a non-recursive source is a directory is not assumed.
- LockElision.UnlockedReadsAreStable: says nothing about callers that are not registered threads; their scan reads slots that may be written at the time.
- LockElision.UnlockedPostIsLockedPost: each access is one sequentially consistent step; memory barriers and torn reads are not modelled.
- CommandLineObject.CommandLine.AppendArguments: not for an object with arguments that is appended to itself, because that loop never ends (`CommandLineModel.SelfAppendNeverEnds`).
- HostQueue.CServerPortDlg.OnProcessLaunched: not for a queue that Send() would put back, because that loop never ends (`HostQueue.FlushMakesProgressIff`).
- PrependWrapper, which moves the program into the switch section but leaves GetArgs() and switches_ alone, and building a used object again, whose switches_ are kept.
- UTF-16 surrogates, NUL characters and the 8-bit code page: text is a sequence of characters. CommandLineToArgvW of an empty string, which names the running program, is never asked for.
- The POSIX branch of the command line, which does not quote.
- File name patterns, INCLUDE_DOT_DOT, following symbolic links, hard links and mount points, relative paths and paths with dots: paths are component lists from the root. A symbolic link or device is one kind of entry, which can be removed but not opened for writing.
- Permission bits beyond "can be listed" and "is refused", and errors of lstat() other than a missing entry; other processes that change the tree meanwhile.
- A write() that moves nothing: the loops of the source would spin on it.
- ReadFile, WriteFile and AppendToFile around the inner loop, and MoveUnsafe, ContentsEqual and the temporary-file helpers.
- The x86, Mac, MIPS and TSan atomics, and barriers: every access is one step.
- Message loops beyond their queues, delayed tasks becoming due, thread pools, delegates.
- Reentrant use of a cancelable callback from inside the callback that it runs or from its bound state's destructor; the arity boilerplate of Bind.
- The check that the launcher is destroyed on the UI thread, LaunchInternal and Notify, and what the launcher thread does with a dispatched handle (or whether the post finds that thread).
- Dialogs, painting, message boxes, path providers, version and CPU detection, environment, base64, event recorder: user interface and wrappers.
