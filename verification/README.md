# A model of WinBox's programs, formats and probes

WinBox runs Windows 3.1 programs. This project models the parts of it that
are easiest to get subtly wrong, and proves what they keep and where they
fall short of what their own comments say.

- **Selectors and programs** (`SelectorAllocator`, `TaskLifecycle`,
  `SelectorConservation`, `ModuleHandles`, `Exhaustion`, `ReloadCycle`): programs loaded,
  prepared and ended over a free list of selectors, as a state machine and as
  a class whose methods are proved to make its steps. Every run keeps each
  selector in one place; which selectors are lost, and when, is exact.
- **Start-up stack** (`StackLayout`): where a program's stack is put, and what
  `InitTask` records and leaves on it, in sixteen bits.
- **Zip archives** (`ZipReader`, `ZipFormat`, `ZipInPlainTerms`, `DosTime`): the reader, against
  the format of PKWARE's APPNOTE.TXT (sections 4.3.7, 4.3.12, 4.3.16 and
  4.4.6), a writer of it, and a calendar counted year by year.
- **Streams** (`BlockStream`, `StreamInterleaving`): a file fetched a block at
  a time from a server that may or may not answer ranges, read in sequence,
  and by any number of reads at once.
- **NE executables** (`EntryTable`, `Structures`, `ResourceTable`,
  `ResourceFormat`, `NameTable`, `ResourceNaming`): three tables, encoders for
  them, and the names the last gives the second.
- **Probes** (`Decimal`, `ScreenRuns`, `GroupedNumber`): two run-length codes
  of a screen's rows with their decoders, and a parser of grouped numbers.
- **DOS** (`BiosClock`, `DiskBlocks`, `AbsoluteDisk`): the BIOS clock, and
  sectors read and written by number over a disk kept in blocks.

`Wrappers` and `Bytes` hold what several of them share. In each module the
code that changes state is a method or a class, proved against functions; the
lemmas are about those functions. `dafny verify dfyconfig.toml` checks it all.

## Where the code does not do what it is for

Each of these is a property that fails, with the exact condition under which
it holds and an input for which it does not.

- *A path has a module handle exactly while an instance lives; all instances
  share one database.* Registering a second instance's loader
  (src/win16.ts:919) passes no handle, and so clears the path's
  (src/win16/module-manager.ts:171). A load that finds no descriptor makes no
  handle. And a task's path is compared without case where handles go by the
  exact path. `ModuleHandles.HandleWhileRunningExactly` is over every run from
  the system's start, its condition judged event by event (`KeepsHandle`):
  a program is started alone and a database is found; by another spelling of
  its path it is started only while it runs, and ended only leaving it
  running; and the kept Program Manager's handle is given to a path only while
  it runs. In runs that are `Plain` (the path spelt one way, a descriptor for
  each new database, the kept handle not given to it) the condition is that
  the program is never started while it runs (`PlainlyOneAtATime`), and a path
  has a handle exactly when an odd number of starts were made since none of it
  ran (`HandleIsOddStarts`). It fails for `TwoInstancesHaveNoHandle`,
  `ExhaustedStartHasNoHandle` (`Exhaustion.LargestLeavesNoHandle`) and
  `OtherSpellingKeepsHandle`.
- *No selector is lost.* The database whose handle was cleared is lost, and
  so is the code of an instance that ends while another runs or with no
  handle. `LosesNothingExactly` says when an event loses nothing,
  `RunLosesNothingExactly` when a run does; `TwoInstancesLoseDatabase` is one
  that does not. That nothing is held twice, or given twice, holds of every
  run.
- *Ending a task twice changes nothing* but for the kept Program Manager: its
  handle goes with its last instance and its selectors stay, so a second end
  gives them back (`EndedAgainExactly`, `KeptEndedTwiceGivesBack`).
- *A table that ran out recovers.* A load that was answered -1 gives -1 back,
  and a later request is answered that -1, however many descriptors are free
  (`GivenNoneIsAnsweredNone`). How many answers of a load are -1 is exact
  (`Exhaustion.LoadIsServedExactly`), and so is when a run first puts one on
  the list (`NeverListsMinusOneExactly`). `ShortLoadDoesNotRecover` is a run
  for every booted system, `LargestDoesNotRecover` one of a program of 8,190
  segments.
- *A stream read is the file's bytes.* A kept block is a `DataView`, which
  has no `slice` (src/stream.ts:230-232, 256, 297), so with a ranged server a
  region is read exactly where something was read before and none of its
  blocks was; a number of two or four bytes exactly where it is within one
  block. `viewsSlice` is false for the source as it stands; where it is true
  every read in bounds is the file's bytes. The byte reads use the file's
  offset within the block (src/stream.ts:102, 159), and so work, with a ranged
  server, exactly in the first block. `FirstReadFails` and
  `SecondBlockByteFails` are such reads. Of reads made at once, one fails
  exactly where it comes to a block kept by then
  (`StreamInterleaving.ReadFailsExactly`).
- *The stack above its limit never meets the data*, exactly where the stack is
  no larger than 96h or data and stack together are within 64K
  (`StackMeetsDataExactly`, `StackMeetsData`). The six bytes of the start-up's
  call and frame are not held to the limit: they miss the data exactly where
  there is none, or data and stack are within 64K and the stack holds the six
  (`FrameMeetsDataExactly`, `FrameMeetsData`).
- *The start-up frame is the same return address above a nought, and the
  header's words are its own*, of any stack size, for every return address,
  exactly where the stack pointer is not from 0Bh to 15h
  (`StartUpFrameExactly`, `StartUpSpoilsFrame`).
- *A type named by a text keeps its name.* The type's identifier stays the
  text's place in the table, by which the naming pass then looks it up;
  `OwnTextKeptExactly` says when the text is kept, and `OwnTextOverwritten` is
  one that is not. A resource named by a text that is a numeral is looked up
  as that number (`NumeralsAreNumbers`).
- *A sector written by number reads back the same*, exactly where the flags
  the second call leaves on the stack, if they fall in its buffer, are the
  bytes written there (`WrittenIsReadExactly`, `FlagsSpoilBuffer`); and read
  and written back it changes nothing under the like condition
  (`ReadThenWrittenIsNothingExactly`).

## Model

| member | source | states |
|---|---|---|
| SelectorAllocator.GlobalAllocator.Find | src/win16/global-allocator.ts:430-446 | the first descriptor from the start not marked, else -1, and none unmarked before it |
| SelectorAllocator.NoneFoundExactly | src/win16/global-allocator.ts:430-446 | -1 exactly where each descriptor from 1 to 8,191 is marked |
| SelectorAllocator.GlobalAllocator.Take | src/win16/global-allocator.ts:382-392 | the latest of those given back that no one has marked since, the marked ones above it dropped, else the first free |
| SelectorAllocator.GlobalAllocator.Give | src/win16/global-allocator.ts:395-398 | the descriptor free and on top of the list, nothing else moved |
| SelectorAllocator.GlobalAllocator.Reserve | src/win16/global-allocator.ts:406-424 | what `take` answers, marked; with none, -1 and nothing marked |
| SelectorAllocator.AskingIsFresh | src/win16/global-allocator.ts:382-424 | a request answers a descriptor no one had, marks that one and no other, and leaves it off the list |
| SelectorAllocator.AskingMarks | src/win16/global-allocator.ts:406-424 | its answer is marked, even a -1, but that one that only reserves marks nothing for a -1 |
| SelectorAllocator.AskedTimesIsFresh | src/win16/loader.ts:138-143 | so do any number of requests in a row: all new, all different, and exactly what is marked |
| SelectorAllocator.AskedTimesIsLastFirst | src/win16/global-allocator.ts:382-392 | requests on a list of free selectors are answered them last given back first, the rest staying as they were |
| SelectorAllocator.TakeFailsExactly | src/win16/global-allocator.ts:382-392 | when `take` answers -1: exactly when a -1 is the first unmarked entry of the list, or no entry is unmarked and the table is full |
| SelectorAllocator.GivenNoneIsAnsweredNone | src/win16/global-allocator.ts:395-398 | a -1 given back is what the next request is answered, however many descriptors are free |
| TaskLifecycle.Win16.Load | src/win16.ts:868-959 | a load asks for a module database if the path has no handle, then task database, prefix, second, queue and segments, clears the path's handle, and puts the new database's in its place |
| TaskLifecycle.Win16.Acquire | src/win16.ts:880-909 | the answers in their order, place by place |
| TaskLifecycle.Win16.Prepare | src/win16.ts:1074-1081 | the environment at the first free descriptor, whatever is on the list |
| TaskLifecycle.Win16.IsRunning | src/win16/kernel/WinExec.ts:80-87 | whether a task not ended is of a path, paths compared without case |
| TaskLifecycle.RunningExactly | src/win16/kernel/WinExec.ts:80-87 | a path runs exactly while some task not ended has a path as long, each character the same or the other case of a letter of A to Z |
| TaskLifecycle.Win16.FreeModuleSegments | src/win16/library.ts:718-741 | the data segment, the database where it goes, then the other segments by number where the module goes whole |
| TaskLifecycle.Win16.ExitTask | src/win16.ts:601-695 | an end by its cases: what is given back and in which order, the task's own let go once, the handle taken with the last instance |
| TaskLifecycle.Win16.Start | src/win16/kernel/WinExec.ts:137-165 | a program loaded and set going: the state of a start event, so the runs below are the class's |
| TaskLifecycle.Win16.PutKept | src/win16/progman/main.ts:213-275 | the kept Program Manager's handle put in its path's place |
| SelectorConservation.RunConsistent | src/win16.ts:601-695 | over every run of starts and ends, in any order, tasks ended again or not: no selector in two places, every one held marked and not the system's, none twice on the free list |
| SelectorConservation.NextIsUnheld | src/win16.ts:868-959 | so the next selector given is one nothing holds, and the marked ones are exactly the system's, those held and those lost |
| SelectorConservation.AfterConsistent | src/win16.ts:601-959 | one event keeps all that, and adds to the selectors lost exactly those named for it |
| SelectorConservation.LosesNothingExactly | src/win16.ts:632-690 | when an event loses nothing, by what can be seen before it |
| SelectorConservation.RunLosesNothingExactly | src/win16.ts:601-959 | a run has lost no selector if and only if each of its events, as it happened, met that condition |
| SelectorConservation.ExitedLoses | src/win16.ts:659-691 | what an end loses: the code of an instance that is not the last, or of one whose module has no handle; and nothing where it is the last |
| SelectorConservation.InstalledLoses | src/win16/module-manager.ts:169-176 | what a start loses: the database whose handle the loader's registering clears |
| SelectorConservation.FirstInstanceTakesDatabase | src/win16.ts:880-909 | a new module's database is made before any of its first task's selectors, and is its handle |
| SelectorConservation.FurtherInstanceLosesDatabase | src/win16.ts:919-952 | a start of a program whose path has a handle leaves the path without one and the database lost |
| SelectorConservation.TwoInstancesLoseDatabase | src/win16.ts:919-952 | two starts of one program from boot: a selector is lost |
| ModuleHandles.HandleIsOddStarts | src/win16.ts:880-952 | in every run that spells the path one way, finds its databases and does not give it the kept handle, the path has a handle exactly when an odd number of starts of it were made since none of it ran |
| ModuleHandles.HandleWhileRunningExactly | src/win16.ts:659-691 | in every run from boot, of any programs, a path has a handle exactly while an instance runs, throughout, if and only if each event as it happened met a condition seen before it |
| ModuleHandles.EventKeepsHandleExactly | src/win16.ts:880-952 | that condition, event by event: started alone with a database found; another spelling started only while it runs, and ended only leaving it running; the kept handle given only while it runs |
| ModuleHandles.PlainlyOneAtATime | src/win16.ts:880-952 | with one spelling, databases found and no kept handle, the condition is that the path is never started while it runs |
| ModuleHandles.OtherRunsOn | src/win16.ts:659-691 | two programs started from boot, of paths that differ so, and the first ended alone: its handle is gone, its database and every selector it was given are on the list, and the other's handle stays |
| ModuleHandles.TwoInstancesHaveNoHandle | src/win16/module-manager.ts:169-176 | two starts of one program from boot: it runs, and its path has no handle |
| ModuleHandles.ExhaustedStartHasNoHandle | src/win16.ts:880-882 | a start that finds no descriptor, of a path without a handle: it runs, and its path has none |
| ModuleHandles.OtherSpellingKeepsHandle | src/win16/kernel/WinExec.ts:80-87 | two spellings of one path started and ended: nothing runs, and the first has its handle still |
| Exhaustion.LoadIsServedExactly | src/win16.ts:868-909 | with no -1 on the list, a load's answers are descriptors while any are free, in the order it asks, and -1 from there on |
| Exhaustion.StartIsSoleExactly | src/win16.ts:868-959 | with no -1 on the list, a program started alone has every selector it asked for, and is its module's one instance, exactly when as many were free |
| Exhaustion.NeverListsMinusOneExactly | src/win16.ts:648-676 | in every run from boot a -1 comes to be on the list if and only if a task ends that gives back a place it was answered -1 for |
| Exhaustion.EnoughListsNoMinusOne | src/win16.ts:648-676 | while every start finds as many free as it asks for, no -1 is ever on the list |
| Exhaustion.ShortLoadDoesNotRecover | src/win16/global-allocator.ts:382-398 | in any system booted: a program that ends in a code segment and asks for more than is free, started and ended, leaves a list on which some requests later a -1 is answered with descriptors free |
| Exhaustion.LargestDoesNotRecover | src/win16/global-allocator.ts:382-398 | so does a program of 8,190 segments from a system newly booted |
| Exhaustion.LargestLeavesNoHandle | src/win16.ts:880-952 | while it runs another program started has no handle |
| ReloadCycle.ReloadTakesBack | src/win16.ts:632-680 | ended as the last instance and loaded again: exactly the selectors given back, last first, for any number of segments, the list as it was before the end |
| ReloadCycle.AgainHolds | src/win16.ts:869-897 | which place gets which place's selector, place by place |
| ReloadCycle.AgainMarksNoMore | src/win16.ts:1074-1081 | no selector is marked that was not before, but for an environment no higher than the old one's |
| ReloadCycle.RunMoreMarksNoMore | src/win16.ts:1074-1081 | so over any number of runs, whatever the segments, no selector is marked above those of the first |
| ReloadCycle.AgainRotates | src/win16.ts:869-879 | with one code and one data segment: module, task database, prefix, code and data take the old task database, second, prefix, data and queue; second and queue the old code and module |
| ReloadCycle.RunMoreRotates | src/win16.ts:632-680 | any number of such runs turn the assignment that many times and leave the free list alone |
| ReloadCycle.AssignmentRepeats | src/win16.ts:869-879 | so the assignment repeats every six runs, from any run on |
| ReloadCycle.StartIsSole | src/win16.ts:868-959 | a program started alone from any consistent state, and given every selector, is one these hold of |
| ReloadCycle.StartedRepeats | src/win16.ts:869-879 | in any run from boot, so started and then ended and started again: what it is assigned is what it is assigned six runs later |
| ReloadCycle.EndedAgainExactly | src/win16.ts:643-680 | ending a task a second time changes nothing, except exactly where the first end was of the kept Program Manager's last instance |
| ReloadCycle.KeptEndedTwiceGivesBack | src/win16.ts:643-680 | Program Manager started from boot, given its kept handle and ended twice: the second end changes the state |
| StackLayout.Core.InitTask | src/win16.ts:1171-1239 | the answer, the registers and every word written; nothing changed where the local heap cannot be made |
| StackLayout.Core.StartUp | src/win16.ts:1130-1239 | prepared and called: the answer, the registers and the stack, from the program's sizes alone, and the frame right where the stack is clear of the header |
| StackLayout.StartUpRecords | src/win16.ts:1200-1206 | called from start-up with BX kept: bottom is data end plus stack size and limit data end plus 96h, modulo 64K |
| StackLayout.StackIsFromLimit | src/win16.ts:1200-1204 | the bytes of the stack above its limit, as recorded: from the limit up, as many as the size less 96h, in sixteen bits |
| StackLayout.StackMeetsDataExactly | src/win16.ts:1645-1654 | some byte of the stack above its limit is the data's if and only if the stack is larger than 96h and data and stack together run past 64K |
| StackLayout.FrameMeetsDataExactly | src/win16.ts:1222-1234 | some byte of the six the start-up's call leaves is the data's if and only if they run past 64K or the stack is too small for the six |
| StackLayout.RecordedAboveDataExactly | src/win16.ts:1200-1206 | limit and bottom as recorded are at or above the data's end if and only if data and margin, and data and stack, are each below 64K |
| StackLayout.StackMeetsData | src/win16.ts:1130 | 64,000 bytes of data and a stack of 4,000: a byte is both |
| StackLayout.FrameMeetsData | src/win16.ts:1130 | 1,000 bytes of data and a stack of four: a byte is the data's and the frame's |
| StackLayout.StartUpFrame | src/win16.ts:1222-1234 | the same far return address above a nought word, the header's three words, and no other byte changed |
| StackLayout.StartUpFrameExactly | src/win16.ts:1200-1234 | of every stack size that holds, for every return address, if and only if the stack pointer is not from 0Bh to 15h; 1, 3 and 5 fault |
| StackLayout.StartUpSpoilsFrame | src/win16.ts:1200-1234 | 0F000h bytes of data and a stack of 1010h: the stack pointer is 10h, and for one return address it does not hold |
| DosTime.ReadsWhatWasKept | src/zip.ts:28-46 | every moment from 1980 to 2107, put in the format's two fields, is read as its seconds since 1970 |
| DosTime.NoneExactly | src/zip.ts:29-34 | no time exactly when the month field or the day field is out of range |
| DosTime.ReadInOrder | src/zip.ts:36-45 | a later moment is read as strictly more seconds |
| DosTime.NextDayIsADayMore | src/zip.ts:36-45 | a day later is 86,400 seconds more, over month ends and leap days |
| DosTime.KnownMoments | src/zip.ts:36-45 | the seconds of three moments: midnight as 1980 begins, two seconds before 2000, and a leap day's noon |
| DosTime.TimesOfADay | src/zip.ts:41-43 | the seconds of a day's time by the field's hours, minutes and twos of seconds |
| ZipReader.FindEnd | src/zip.ts:76-85 | the loop backwards finds what the search is specified to |
| ZipReader.ReadDirectory | src/zip.ts:100-150 | the walk yields the directory's entries in order, or its first error |
| ZipReader.ReadZip | src/zip.ts:73-151 | the whole reader, errors included |
| ZipFormat.LastEndIsFound | src/zip.ts:76-89 | the search finds a place if and only if it is in the window, signed, and none later is; none if and only if the window holds none |
| ZipFormat.EndFoundExactly | src/zip.ts:76-89 | an archive's end record is found behind any comment if and only if no later signature has a record's length after it |
| ZipFormat.ArchiveReads | src/zip.ts:98-150 | any layout of the format, files stored or deflated, with gaps, any order of data and differing extra lengths, is read as its files |
| ZipFormat.RoundTrip | src/zip.ts:73-151 | reading back an archive written, of files stored or deflated, gives exactly the files, in directory order, directories dropped |
| ZipFormat.AcceptedAsRecorded | src/zip.ts:98-150 | any archive accepted has as many records as its end record says and yields one entry for each not a directory, of the recorded name, size and time, its data the recorded bytes at its local header's place, as far as the archive goes, or what they inflate to |
| ZipInPlainTerms.AcceptedYields | src/zip.ts:98-147 | of any archive accepted, byte by byte: its records, each path by the name's bytes and bit 800h, one entry exactly for each path that does not end in a slash, that path its own, and the lowest bit of its flags clear |
| ZipInPlainTerms.RecordAnswered | src/zip.ts:101-141 | what a record is refused for, in which order: damaged, encrypted, no local header, a method not read; or dropped as a directory |
| ZipInPlainTerms.CutRecordAnswered | src/zip.ts:101-103 | what a record is refused for that the archive ends within |
| ZipInPlainTerms.Zip64Exactly | src/zip.ts:91-96 | refused as zip64 exactly where the end record's count or place is full of ones |
| ZipInPlainTerms.NoArchiveExactly | src/zip.ts:76-89 | refused as no archive exactly where no end signature has 22 bytes to it and at most 65,535 after |
| ZipInPlainTerms.ReadsBack | src/zip.ts:73-151 | an archive written reads back as the files among its members, each with its path by its name's bytes, its data and its time |
| ZipInPlainTerms.DroppedByLastByte | src/zip.ts:114-120 | a member whose name is not UTF-8 is dropped exactly where the name's last byte is 2Fh |
| BlockStream.Stream.ReadBlock | src/stream.ts:252-306 | a block kept or fetched, each kept block the file's, a block of a ranged server never answered for twice |
| BlockStream.LastAskedExactly | src/stream.ts:258-262 | the last byte asked for: a block's of 102,400, or the file's where that is known and comes first |
| BlockStream.Stream.Keep | src/stream.ts:271-299 | one good answer: the mode it tells, the size, and the block or the whole file kept |
| BlockStream.Stream.Read | src/stream.ts:209-247 | every region not empty and in bounds is answered the file's bytes, or fails on a kept view, exactly when; `viewsSlice` says whether kept views can be sliced |
| BlockStream.Stream.Read8 | src/stream.ts:92-103 | the byte, exactly when the server has no ranges or the offset is in the first block; else the read is past the view's end |
| BlockStream.Stream.Read16 | src/stream.ts:105-125 | the number at the offset in either byte order, straddles included, or the failure, exactly when |
| BlockStream.Stream.Read32 | src/stream.ts:127-147 | the same of four bytes |
| BlockStream.Stream.ReadSigned8 | src/stream.ts:149-160 | the signed byte, exactly as `read8` answers one: from -80h to 7Fh, and the byte or 100h less |
| BlockStream.Stream.ReadSigned16 | src/stream.ts:162-182 | the signed number of two bytes: from -8000h to 7FFFh, and the unsigned one or 10000h less |
| BlockStream.Stream.ReadSigned32 | src/stream.ts:184-204 | the signed number of four bytes: from -80000000h to 7FFFFFFFh, and the unsigned one or 100000000h less |
| BlockStream.NumberDigits | src/stream.ts:105-147 | a number's digits of eight bits are the file's bytes, lowest first or highest first as asked |
| BlockStream.HighFirstIsReversed | src/stream.ts:105-147 | high byte first it is the number of the bytes reversed |
| BlockStream.Stream.Head | src/stream.ts:56-90 | size and mode learned once, nothing fetched or kept |
| BlockStream.FirstReadFails | src/stream.ts:209-247 | a new stream of a ranged server, with views as they are: the first region read, in bounds, is not |
| BlockStream.SecondBlockByteFails | src/stream.ts:92-103 | a byte past the first block, in bounds, is not read |
| StreamInterleaving.EveryInterleavingAgrees | src/stream.ts:209-306 | under every interleaving of reads, either mode, kept views sliced or not: kept blocks are the file's, and each read is on its way to the file's bytes or stopped by a kept view |
| StreamInterleaving.EveryReadIsTheFile | src/stream.ts:209-247 | so a read that ends, in bounds and not empty, is answered the file's slice, or that a kept view has none, and only where that is so |
| StreamInterleaving.EveryReadEnds | src/stream.ts:209-306 | a read begun at any time, of any region, has ended once it went on by three events a block and four more, whatever others do, and then is answered so |
| StreamInterleaving.ReadFailsExactly | src/stream.ts:222-242 | a read in bounds and not empty has failed where views cannot be sliced and it came to a block kept by then, and else, once it ends, is answered the file's bytes |
| StreamInterleaving.FirstReadsFail | src/stream.ts:212-232 | with such views and a ranged server, no read begun before anything was read succeeds, however many there are |
| StreamInterleaving.NeverStuck | src/stream.ts:209-306 | until it ends, its turn or its answer is an event it goes on by |
| EntryTable.ReadEntryPoints | src/executable.ts:138-251 | the loops over bundles and points read what the table is specified to hold |
| EntryTable.RoundTrip | src/executable.ts:147-247 | any entries in any bundles of up to 255 are read back, numbered from 1, whatever follows the table |
| EntryTable.BundlingDoesNotMatter | src/executable.ts:156-177 | what is read does not depend on the bundling |
| EntryTable.AnyPointsRead | src/executable.ts:179-242 | every list of absent, movable, constant and fixed entries has a table that reads as it |
| EntryTable.EntryIsAtItsOrdinal | src/executable.ts:147-247 | of any table read, well formed or not, entry i has ordinal i, and the entries are bounded by the table's length |
| EntryTable.MovableRead | src/executable.ts:180-206 | a movable entry's bytes one by one |
| EntryTable.ConstantRead | src/executable.ts:207-222 | a constant's |
| EntryTable.SkippedAndFixedRead | src/executable.ts:170-177 | two ordinals skipped and then a fixed entry's bytes |
| EntryTable.CutTableFails | src/executable.ts:158-168 | a table that ends before its length fails, in a bundle's place, its header or its points |
| Structures.ReadString | src/util.ts:25-41 | a text up to its length or a nought, none where it runs past the bytes |
| Structures.StringAtExactly | src/util.ts:25-41 | a text is the bytes from its place up to a nought or its length, none exactly where they run out first |
| Structures.ReadStructure | src/util.ts:73-98 | each field's value at its place, or none exactly when a field cannot be read |
| Structures.FieldExactly | src/util.ts:76-95 | each kind of field by its bytes, and when it cannot be read |
| Structures.SignedExactly | src/util.ts:88-94 | a signed field is in the signed range, and the unsigned number or so much less |
| ResourceTable.ReadResourceTable | src/executable.ts:257-321 | the loops over types and resources read what the table is specified to hold, at most 31 types |
| ResourceTable.AtMostThirtyOne | src/executable.ts:270-272 | no table is read past 31 types |
| ResourceTable.TableBegins | src/executable.ts:261-271 | a table without its shift cannot be read, and one that ends there is empty |
| ResourceTable.IdExactly | src/executable.ts:281-289 | an identifier's number without its top bit, or the text at its place from the table's start |
| ResourceTable.ResourceExactly | src/executable.ts:295-309 | a resource's fields by its bytes |
| ResourceTable.ShiftExactly | src/executable.ts:306-307 | a shift is by the count's low five bits, to the signed number of 32 bits that is the same in them |
| ResourceTable.EachDoubles | src/executable.ts:306-307 | each of which doubles |
| ResourceFormat.RoundTrip | src/executable.ts:257-321 | up to 31 types with any numbered or named types and resources are read back in order with their names and shifted offsets, wherever the table is |
| ResourceFormat.ShiftedOffset | src/executable.ts:306-307 | shifts up to 15 give the offset in its units, never wrapping to a negative number |
| ResourceNaming.ReadNames | src/executable.ts:311-314 | the first resource of a type numbered 15 is the name table that counts |
| ResourceNaming.HasNameTableExactly | src/executable.ts:311 | a type is a name table's exactly where it is numbered 15, or its text is 15 bytes into the table |
| ResourceNaming.Name | src/executable.ts:325-348 | the naming pass: each type's and each resource's name, or none |
| ResourceNaming.TypeIsNamedByTheLast | src/executable.ts:330-332 | a type takes the name of the last entry that names it, else keeps its own text |
| ResourceNaming.ResourceIsNamedByTheLast | src/executable.ts:334-346 | a resource takes the name of the last entry for its type and number, and of none otherwise |
| ResourceNaming.NumeralsAreNumbers | src/executable.ts:343-345 | a resource known by a text is looked up by a number exactly when the text is that number's numeral |
| ResourceNaming.OwnTextKeptExactly | src/executable.ts:330-332 | when a type known by a text keeps it: exactly when the last entry for the text's place in the table, if any, gives the same |
| ResourceNaming.OwnTextOverwritten | src/executable.ts:330-332 | a type whose text is at 40 and a name table with a type numbered 40: renamed |
| NameTable.ReadNameTable | src/executable.ts:367-431 | the loop puts each entry's names over those before |
| NameTable.OneEntryRead | src/executable.ts:391-427 | a table of one entry byte by byte |
| NameTable.NoEntryExactly | src/executable.ts:391-398 | where no entry is read: the resource or the bytes end first, or it is said to be shorter than six |
| NameTable.LastEntryWins | src/executable.ts:419-422 | a resource's name is that of the last entry for its type and number that has one, and there is one only then |
| NameTable.LastTypeNameWins | src/executable.ts:415-417 | the same of a type's |
| NameTable.RoundTrip | src/executable.ts:390-426 | every table is read back as its entries |
| NameTable.CutRoundTrip | src/executable.ts:383-405 | a table cut anywhere is read as the entries before the cut |
| NameTable.CutIsWholeAndOneClipped | src/executable.ts:399-412 | those are whole entries and at most one clipped, its names fronts of the entry's own |
| ScreenRuns.Capture | oracle/probes/alttab.c:135-164 | the loop writes the runs of what stands for the row's colours, with separators |
| ScreenRuns.ReadShade | oracle/probes/choosclr.c:82-93 | what stands for a colour: its palette place's character, or the mark for none |
| ScreenRuns.Pixels | oracle/probes/choosclr.c:266-291 | the loop writes them without |
| ScreenRuns.ShadeTells | oracle/probes/choosclr.c:55-93 | no character is the end mark or, among the letters, a digit, and characters agree exactly when palette places do |
| ScreenRuns.ShadeExactly | oracle/probes/choosclr.c:82-93 | a colour's character by the first of the palette that is its red, green and blue, of each probe's sixteen, and a question mark for none |
| ScreenRuns.WrittenOut | oracle/probes/alttab.c:148-158 | one row written out in either code |
| ScreenRuns.RunsAreTheRow | oracle/probes/alttab.c:140-162 | the runs are maximal, none longer than the row, add up to the width and spell the row |
| ScreenRuns.CaptureRoundTrip | oracle/probes/alttab.c:135-164 | a decoder gives every row back from its text |
| ScreenRuns.PixelsRoundTrip | oracle/probes/choosclr.c:266-291 | so it does without separators, of every row of colours |
| ScreenRuns.WrittenAlikeExactly | oracle/probes/choosclr.c:266-291 | in either code two rows are written alike if and only if their colours agree in the palette, place by place |
| ScreenRuns.DigitPixelsAreAmbiguous | oracle/probes/choosclr.c:279-285 | were a pixel a digit, two rows would be written alike |
| GroupedNumber.Shown | oracle/probes/about.c:36-62 | the scan, its early return and its tail as specified |
| GroupedNumber.AnsweredExactly | oracle/probes/about.c:36-62 | of every text and tail, a number if and only if the text is digits, ungrouped or in threes, and then exactly the tail, which begins with no digit, nor with a comma but after more than three digits ungrouped; else -1 |
| GroupedNumber.ShownIsAnswered | oracle/probes/about.c:36-62 | so of a tail that begins with neither, of every numeral followed by it |
| GroupedNumber.NumeralsFinish | oracle/probes/about.c:42-57 | the scan goes through exactly the numerals |
| GroupedNumber.CommasRoundTrip | oracle/probes/about.c:36-62 | every number below 2 to the 31st, grouped with commas, is read as itself |
| GroupedNumber.WithCommasExactly | oracle/probes/about.c:36-62 | what grouped with commas means: the thousands, a comma, and three digits more |
| BiosClock.Clock.Invoke | src/dos.ts:232-252 | CX:DX recombine to the ticks, which stay below a day's; AL and the day kept; other functions change nothing |
| BiosClock.TicksOfTheTime | src/dos.ts:238-246 | the ticks are the whole ones, of 1,573,040 a day, in the time's hours, minutes, seconds and milliseconds |
| BiosClock.TicksRise | src/dos.ts:238-243 | the ticks never fall from a time to a later one of a day, by hour, minute, second and millisecond |
| BiosClock.ASecondLater | src/dos.ts:238-243 | and rise by at least eighteen a second |
| BiosClock.TurnedExactly | src/dos.ts:247-248 | over any run of calls AL is 1 exactly when the date changed since the clock was last asked for, and else 0 |
| BiosClock.DayIsTheDate | src/dos.ts:237 | the day's number tells any two dates apart |
| BiosClock.InvokeAll | src/dos.ts:232-252 | the handler called in a run answers as that run is specified to |
| DiskBlocks.Disk.Write | src/emulator/disk.ts:98-121 | over blocks made as they are met, exactly the bytes given, from the sector's address on, and every other byte as it was |
| DiskBlocks.Disk.Read | src/emulator/disk.ts:200-221 | exactly the disk's bytes from the sector's address on, across blocks |
| DiskBlocks.Disk.RetrieveBlock | src/emulator/disk.ts:176-185 | making a block of noughts changes no byte the disk holds |
| DiskBlocks.ReadsWhatWasWritten | src/emulator/disk.ts:98-221 | what is written is read back |
| DiskBlocks.NoFurtherRound | src/emulator/disk.ts:98-221 | short of 200 0000 0000h bytes, a run read or written is just the bytes from its start on |
| DiskBlocks.OverlaidInTwo | src/emulator/disk.ts:106-118 | two pieces written one after the other are the one run |
| AbsoluteDisk.Machine.AbsoluteDisk | src/dos.ts:119-169 | the handler's whole effect on registers, memory, stack and disk, for either interrupt |
| AbsoluteDisk.MovesByRegisters | src/dos.ts:119-157 | with CX not 0FFFFh: every byte off the stack word, and of the disk, after a call, by 512 times DX and DS:BX |
| AbsoluteDisk.MovesByPacket | src/dos.ts:129-157 | with 0FFFFh: the same by the packet's own words |
| AbsoluteDisk.LeavesFlags | src/dos.ts:164-166 | the word left is at SS and two below SP, the call's flags with the carry their lowest bit |
| AbsoluteDisk.WrittenIsRead | src/dos.ts:145-166 | sectors written by INT 26h and read by INT 25h, into any buffer and by either form, are byte by byte what was written, and in the word the second call leaves on the stack its flags |
| AbsoluteDisk.WrittenIsReadExactly | src/dos.ts:145-166 | the whole buffer reads back if and only if the flags left in it are the bytes written there |
| AbsoluteDisk.FlagsSpoilBuffer | src/dos.ts:164-166 | a sector of noughts so written and read with the stack in the buffer: its first byte is the flags' |
| AbsoluteDisk.ReadThenWrittenIsNothingExactly | src/dos.ts:145-166 | sectors read and written back from where they were read leave the disk as it was if and only if the flags left among them are the bytes read there |
| AbsoluteDisk.OtherSectorsStay | src/dos.ts:149-156 | sectors a write is not of read as they did |
| AbsoluteDisk.FailsExactly | src/dos.ts:141-168 | carry set and AX 8002h exactly when there is no drive; the flags on the stack; no other register changed |
| AbsoluteDisk.PacketIsRead | src/dos.ts:130-139 | any request put in a packet is read from it |
| AbsoluteDisk.InRegistersExactly | src/dos.ts:125-130 | which requests the registers alone can make |
| AbsoluteDisk.FormsAgree | src/dos.ts:119-169 | one request in either form does the same to memory, disk and the other registers |

## Left out

Selectors and programs:

- TaskLifecycle.Win16.Load: leaves out the libraries a program brings, whose
  selectors come from the same table and are not counted here, as are not
  global blocks, their runs of several selectors, and the interrupt table's
  descriptor at the first task.
- TaskLifecycle.Win16.ExitTask: does not let go of libraries.
- TaskLifecycle.Win16.IsRunning: upper case is of ASCII letters only.
- ModuleHandles.HandleIsOddStarts: is of runs that are `Plain`; in others the
  number of starts does not tell whether there is a handle, and
  `HandleWhileRunningExactly` says what every event does to it.
- ReloadCycle.AgainMarksNoMore: is of a program that was found an environment;
  one that was not may be found one the next time.
- ReloadCycle.RunMoreMarksNoMore: is of one whose first run was.
- The kept Program Manager's descriptor is the system's from the start, where
  the source takes it when it is first asked for (src/win16.ts:1596-1601,
  src/win16/progman/main.ts:197-204).
- `load` and `prepare` are one step each; what happens between a task's start
  and its end takes no selectors.
- The handle table: a module's handle is its database's selector, found
  always (`resolveModule`), and a task's handle is its place in the list.
- Descriptors' contents, segment bytes, windows, hooks, timers and the
  scheduler.
- Programs without a path.
- TaskLifecycle.Win16.PutKept: the handle is put in any path's place, where
  the source puts it in Program Manager's.
- SelectorAllocator.GlobalAllocator.Find: finds one descriptor, not a run.

Start-up:

- StackLayout.Core.InitTask: does not model `LocalInit` and the libraries'
  start, whose outcome is a parameter, nor the registers set to handles and
  selectors; a word that would run past the segment's end, which faults, is
  shut out by its `requires`.
- StackLayout.StartUpFrame: leaves out the stack pointers from 0Bh to 15h, of
  which it is not true, and 1, 3 and 5, where the call faults.
- StackLayout.Core.StartUp: leaves those that fault out of its `requires`.
- The stack's clearing to noughts and the program segment prefix.

Zip and streams:

- Inflating and UTF-8 decoding, which are parameters of the reader; and the
  bytes a name's decoding may lose.
- ZipFormat.RoundTrip: deflating is not modelled, but that what is written as
  deflated inflates to the data; and an archive whose comment or data shows a
  later end signature is shut out, as `EndFoundExactly` says it must be.
- HTTP: an answer is refused or is the bytes, its headers and body one step;
  a server changing its answers is not modelled.
- BlockStream.Stream.Read: says nothing of regions that are empty or run past
  the file's end.
- StreamInterleaving.EveryInterleavingAgrees: `head` and number reads are not
  among the reads.

Executables:

- Headers, segments, relocations, and the check that a file is an NE one.
- EntryTable.ReadEntryPoints: the table's bytes are given, not fetched.
- ResourceTable.ReadResourceTable: the name table is read after the table and
  not as its entry is met, which no later read depends on; and only one
  reading of a file is modelled, where a second keeps the first name table.
- ResourceNaming.Name: names found on the prototype of every object, as
  `constructor`, are not modelled.
- Structures.ReadStructure: little-endian only, as the tables are read.

Probes:

- The screen, and the probes' buffers: a row's text is taken to fit.
- ScreenRuns.Capture: counts are not cut to the probe's 16-bit `int`; none is
  more than the row's width (`RunsAreTheRow`). The palette's sixteen colours
  are a parameter.
- ScreenRuns.Pixels: the same.
- GroupedNumber.Shown: `lstrcmp` is equality of texts, as where it answers
  nought; digits and groups are counted without bound, the number in 32 bits
  that wrap; texts hold no nought within.

DOS:

- BiosClock.TicksRise: is of ticks in whole numbers.
- BiosClock.Clock.Invoke: the ticks are taken in whole numbers; the rounding
  of the source's floating-point product is not modelled.
- DiskBlocks.Disk.Write: sectors are of 512 bytes and blocks of 32 KiB, as
  every disk made is; the note of which sectors were written, and disks over
  an image (`OverlayDisk`), are not modelled.
- AbsoluteDisk.Machine.AbsoluteDisk: a place of memory never written reads as
  nought; a segment's base is a parameter, and an offset past its limit,
  which faults, and addresses past 4 GiB are not modelled; the flags are one
  word.

Everything that draws, plays or talks to a user, file systems, MSCDEX, the
PE tables, and the other probes: they rest on code outside these files or
would add only easy members.
