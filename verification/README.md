# Verification of the f4 file system layer

f4 is a two-panel file manager written in Go. This project models the parts of its `vfs` package where correctness
hangs on loops, state or several processes, and proves what they promise. `dafny verify dfyconfig.toml` checks all of it.

Code that changes state step by step is modelled by classes and methods with loops, each proved against a
specification function; the theorems are about these functions. Protocols of several processes or threads are state
machines: a run is any schedule of steps with any outcome of every system call, and a theorem about `Run` holds at
every step because every prefix of a run is a run.

- **.reg files and the registry** (`RegFormat`, `RegExport`, `RegImport`, `RegRoundTrip`, `RegText`, `RegGrammar`,
  `RegReading`, `RegLines`, `RegWidth`, `Utf16`, `Utf8`, `Registry`, `Ordering`, `RegTree`, `RegTransfer`, `RegOrder`,
  `RegEdit`, `RegWithin`, `RegStore`). A printer and a parser with their exact round trip, the grammar of what the
  parser takes, the tree they serialise, what importing any section or an export does to any registry, and that editing
  one key touches nothing else. A registry is a map from folded paths to keys; how the registry folds names, how hives
  are compared and how paths are checked are three arbitrary foldings.
- **The trash** (`Trash`, `TrashProgress`, `RenameNoReplace`, `PathResolve`, `PathSteps`, `PathAgreement`,
  `MountRoot`). The reservation protocol of the FreeDesktop.org Trash Specification 1.0, section "Contents of a trash
  directory", the portable rename that must not replace, the resolver of symbolic links, and the walk to the mount root
  with the path arithmetic after it.
- **The scanner** (`Scanner`, `ScanTotals`, `ScanMet`, `ScanItems`, `ScanDepth`). Totals over a tree or a cyclic graph
  with hard links.
- **The elevated dispatcher** (`ElevatedIO`, `SudoFrame`, `SudoSession`, `SudoServe`, `IdleTimer`). Chunked files,
  frames, the pairing of requests and answers over byte streams, the hello, and the idle timer.
- **Smaller algorithms** (`Pua`, `Search`, `SearchStream`, `Patch`, `Junction`, `LockManager`, `Utf16Detect`).

A Dafny `char` is a Unicode scalar value, so a `string` is valid Unicode text; where the program works on arbitrary bytes
the model does, too. Sizes, offsets and counters are unbounded integers, except the 16-bit and 32-bit fields of the file
formats, whose ranges are part of the proofs.

Four places where the code promises less than its comments suggest:

- Whether a .reg section is within the edited key is decided on lower-cased paths. Go lower-cases U+0130 to `i`, so two
  names that a registry keeps apart can pass for one (`RegWithin.DottedI`). `RegWithin.ConfinedExactly` says of every
  single section when an accepted import is confined to the edited key.
- The portable rename loses a symbolic link where link(2) follows links (`RenameNoReplace.KeptExactly`).
- The resolver follows a link that leads out of a file, such as `f/..` (`PathAgreement.LinkBehindFile`), which pathname
  resolution does not; `PathAgreement.AgreesExactly` says when both agree.
- A whole-word search of a file that needs more than one read can find what is no whole word, at either end of what it
  looks at (`SearchStream.NeighbourToCome`, `SearchStream.NeighbourDropped`). It never misses one, and
  `SearchStream.RightExactly` says when the answer is right. U+FFFD is no word character.

## Model

| member | source | states |
|---|---|---|
| `RegRoundTrip.RoundTrip` | vfs/registry_reg_export.go:50-150 | reading a written file gives every key, name, type and byte back in order (a text REG_SZ ended by one NUL) if and only if every path is non-empty, does not start with `-`, and neither paths nor value names have a line feed; nothing else is excluded, not even a lone carriage return |
| `RegRoundTrip.ReadDataExact` | vfs/registry_reg_export.go:106-128 | a value comes back with exactly its bytes unless it is text REG_SZ, and then exactly when it ended with one NUL; otherwise only the number of NULs at its end changes |
| `RegRoundTrip.ReadDataStable` | vfs/registry_reg_import.go:263-270 | writing what was read and reading it again changes nothing any more |
| `RegRoundTrip.DecodeReadable` | vfs/registry_reg_import.go:36-81 | whatever the bytes, every key that is read has a non-empty path not starting with `-` and all its names on one line |
| `RegRoundTrip.HexLine` | vfs/registry_reg_import.go:107-133 | the physical lines a hex value is wrapped to are joined to the value on one line, wherever it was wrapped |
| `RegRoundTrip.UnquoteQuote` | vfs/registry_reg_import.go:226-242 | a quoted name or text is unquoted to itself, whatever quotes and backslashes it has and whatever follows |
| `RegRoundTrip.QuotedOutside` | vfs/registry_reg_import.go:137-151 | behind any quoted text the reader is outside quotes, so an escaped backslash is never taken for a continuation |
| `RegRoundTrip.ReadLine` | vfs/registry_reg_import.go:155-222 | the line written for any value (string, dword or hex form) is parsed back as that value |
| `RegText.HandWritten` | vfs/registry_reg_import.go:36-222 | a file written by hand or by the exporter, byte for byte in UTF-16LE, is read as exactly what its lines mean, in any mix: text, numbers, bytes of any type, written values, `=-` as the removal of that value and `[-path]` as the removal of that key, with the names escaped or `@` |
| `RegText.HandWrittenUtf8` | vfs/registry_reg_import.go:84-96 | the same text in UTF-8 is read as the same, with a byte order mark or without one |
| `RegText.WrittenForm` | vfs/registry_reg_export.go:76-97 | a value is written as a string exactly if it is text REG_SZ, as a number if it is a REG_DWORD of four bytes, and otherwise as its type and its bytes in hexadecimal |
| `RegText.ExportedBytes` | vfs/registry_reg_export.go:50-71 | the bytes of an export are those of a file with the header, an empty line and one section for each key |
| `RegGrammar.DataExactly` | vfs/registry_reg_import.go:174-220 | what stands behind the equals sign is read as a value if and only if a grammar says so that is written without the reader: `-`, a quoted spelling of a text, dword: with a number of 32 bits, or hex with a type and pairs of digits, in either case of letters and with the blanks allowed |
| `RegGrammar.ValueLineExactly` | vfs/registry_reg_import.go:155-222 | a line is read as a value if and only if it is a name, spelled in quotes or as `@`, and such data |
| `RegReading.LineExactly` | vfs/registry_reg_import.go:50-79 | a line is taken if and only if it is blank, a comment, a section or a value of the section it is in, and it adds exactly that to the keys read so far |
| `RegReading.FileExactly` | vfs/registry_reg_import.go:36-81 | lines are read as keys if and only if the first that is not blank is the header and all others mean something in turn |
| `RegReading.FirstRefused` | vfs/registry_reg_import.go:50-79 | a file is refused for the first line that means nothing where it stands, with the number of that line |
| `RegLines.LinesBack` | vfs/registry_reg_import.go:107-108 | lines end with a line feed, with or without a carriage return before it |
| `RegLines.GoesOnExactly` | vfs/registry_reg_import.go:124-133 | a line goes on in the next one if and only if it ends with a backslash, at most blanks behind it, and no quote before that is open |
| `RegLines.OpenExactly` | vfs/registry_reg_import.go:137-151 | a text ends inside quotes if and only if its last quote has no end, backslashes inside quotes keeping the character behind them |
| `RegLines.LineByItself` | vfs/registry_reg_import.go:107-120 | a line that does not go on is a line of its own, with its number |
| `RegLines.LineWithNext` | vfs/registry_reg_import.go:107-120 | a line that goes on is one line with the next, without the backslash and the blanks around the break, has the number of its first part, and the lines behind it keep theirs |
| `RegExport.PlainStringSound` | vfs/registry_reg_export.go:106-128 | REG_SZ data written as text is that text in UTF-16 followed by zero words only, without NUL, line break or replacement character in it |
| `RegExport.PlainStringComplete` | vfs/registry_reg_export.go:106-128 | every such data is written as text |
| `RegWidth.HexLinesFit` | vfs/registry_reg_export.go:133-150 | a wrapped hex value stays within 80 columns except for a first line that its name makes longer |
| `RegWidth.HexLinesFilled` | vfs/registry_reg_export.go:133-150 | no line is wrapped too soon: only before a byte that would make it 80 wide, and never before its first byte |
| `RegExport.RegPlainString` | vfs/registry_reg_export.go:106-128 | the loops of the function compute the text the lemmas are about |
| `RegExport.RegHexLines` | vfs/registry_reg_export.go:133-150 | the loop with its width counter builds the wrapped text the lemmas are about |
| `RegExport.EncodeRegFile` | vfs/registry_reg_export.go:50-71 | the bytes written are the byte order mark and the UTF-16LE words of the text the round trip is about |
| `RegImport.RegEndsInsideQuotes` | vfs/registry_reg_import.go:137-151 | the index loop decides whether the last character is inside quotes, skipping escapes |
| `RegImport.RegJoinLines` | vfs/registry_reg_import.go:107-120 | the loop joins exactly the lines that go on |
| `RegImport.RegLogicalLines` | vfs/registry_reg_import.go:107-120 | the loop splits a text into its logical lines with their numbers |
| `RegImport.RegUnquote` | vfs/registry_reg_import.go:226-242 | the loop over the characters returns the unquoted text and where it ends |
| `RegImport.RegHexBytes` | vfs/registry_reg_import.go:245-261 | the loop over the pairs returns the bytes, or fails on the first bad pair |
| `RegImport.DecodeRegFile` | vfs/registry_reg_import.go:36-81 | the loops of the whole reader return what the decoding function says of which the grammar, the round trip and the meaning of hand-written files are proved, errors with their line numbers included |
| `Utf16.DecodeEncode` | vfs/registry_reg_import.go:263-270 | decoding undoes UTF-16 encoding on every text (sections 2.1 and 2.2 of RFC 2781) |
| `Utf16.EncodeDecode` | vfs/registry_reg_export.go:123-127 | words whose decoding shows no replacement character are reproduced by encoding it again |
| `Utf16.DecodeAppend` | vfs/registry_reg_import.go:84-96 | words are decoded piece by piece unless a pair of surrogates is cut |
| `Utf16.DecodeOne` | vfs/registry_reg_import.go:84-96 | a surrogate by itself is one replacement character, any other word its character |
| `Utf8.RuneExactly` | vfs/registry_reg_import.go:95-95 | what starts with the encoding of a character is decoded as that, anything else as one invalid byte |
| `Registry.CreatedIn` | vfs/registry_reg_apply_windows.go:42-45 | creating a key keeps every key there is and adds only the missing ones on the way down, without values |
| `Registry.ApplyTree` | vfs/registry_reg_apply_windows.go:27-56 | an import, complete or stopped, keeps the registry a tree |
| `RegTree.ApplySettings` | vfs/registry_reg_apply_windows.go:27-71 | importing sections that set values of different keys never fails and merges them: named keys get the values on top, others stay, keys created on the way have none |
| `RegEdit.LastLineDecides` | vfs/registry_reg_apply_windows.go:58-71 | the last line of a name decides: a removal leaves no such value, anything else exactly its type and bytes |
| `RegEdit.SpellingStays` | vfs/registry_reg_apply_windows.go:58-71 | a value that is set again keeps the spelling of its name |
| `RegEdit.NewSpelling` | vfs/registry_reg_apply_windows.go:58-71 | a new value has the spelling of its first line |
| `RegEdit.RemovedKeyGoes` | vfs/registry_reg_apply_windows.go:27-56 | importing the bytes of `[-path]` removes exactly the key of that path and all below it |
| `RegEdit.SectionSets` | vfs/registry_reg_apply_windows.go:27-71 | importing the bytes of any section sets the values of its key as its lines say and changes nothing else but for missing keys above it |
| `RegEdit.RemovedValueGoes` | vfs/registry_reg_apply_windows.go:58-71 | importing the bytes of a section with one `=-` line removes exactly that value |
| `RegEdit.TargetSpelled` | vfs/registry_reg_apply_windows.go:76-87 | a hive and names, however many backslashes are at either end, mean the key of these names below that hive |
| `RegEdit.TargetRefused` | vfs/registry_reg_apply_windows.go:76-87 | a path that starts with no hive and a hive itself are refused |
| `RegEdit.RefusedKey` | vfs/registry_reg_apply_windows.go:31-41 | a refused section changes nothing; a name left out between two backslashes is refused when it is to be set, and no key when it is to be removed |
| `RegTransfer.ExportListed` | vfs/registry_vfs_windows.go:468-513 | an export lists every key at or below the exported one exactly once, under its path, with exactly its values |
| `RegOrder.ExportInOrder` | vfs/registry_vfs_windows.go:491-511 | an export starts with its key and lists every key before those below it and before those whose names come later |
| `RegOrder.ValuesAscend` | vfs/registry_vfs_windows.go:475-490 | the values of each key are listed by ascending names |
| `RegOrder.BeforeMeans` | vfs/registry_vfs_windows.go:479-497 | names are ordered by the first character in which they differ |
| `RegOrder.TooDeepExactly` | vfs/registry_vfs_windows.go:472-474 | an export gives up if and only if something is more than 512 levels below its key |
| `RegTransfer.ImportExport` | vfs/registry_reg_apply_windows.go:27-71 | importing the export of a key into any registry never fails, gives every exported key exactly its exported values on top of what was there, and leaves every other key and value unchanged |
| `RegTransfer.ReimportSame` | vfs/registry_reg_apply_windows.go:27-71 | importing an export into the registry it came from changes nothing but how text values end |
| `RegTransfer.ImportFresh` | vfs/registry_reg_apply_windows.go:27-71 | importing an export where nothing is at or below the key rebuilds it with all its subkeys and values |
| `RegTransfer.TargetOfPath` | vfs/registry_reg_apply_windows.go:76-87 | a path made of names from a hive down leads to the key of these names |
| `RegStore.Store.ApplyRegValues` | vfs/registry_reg_apply_windows.go:58-71 | the values of one key change as the lines say, one after the other, up to the first name with a NUL, which is an error; no other key changes |
| `RegStore.Store.DeleteRegistryTree` | vfs/registry_reg_apply_windows.go:91-110 | the recursive removal, which can only remove keys without subkeys, removes the key with everything below it and nothing else |
| `RegStore.Store.ApplyRegSection` | vfs/registry_reg_apply_windows.go:31-54 | one section: a wrong path is refused before anything changes, a removal takes the whole subtree, and otherwise the key is made and its lines are applied as far as their names can be set |
| `RegStore.Store.ApplyRegFile` | vfs/registry_reg_apply_windows.go:27-56 | the sections are applied in order up to the first that is refused, and what was applied before stays |
| `RegStore.Store.ImportContent` | vfs/registry_reg_apply_windows.go:136-159 | text that cannot be read or has a section outside the edited key changes nothing; otherwise its sections are applied, and nothing outside the edited key changes if each of them leads below that key |
| `RegStore.Store.ExportRegistryKey` | vfs/registry_vfs_windows.go:468-513 | the recursive walk appends the key and its subkeys in the order of their names, or fails below depth 512 |
| `RegWithin.TargetWithin` | vfs/registry_reg_apply_windows.go:163-166 | a section accepted as within the edited key names that key or one below it, to the registry, if and only if its hive is the same and, as far as the edited path goes, it is spelled like it but for what the registry folds |
| `RegWithin.SpelledBelow` | vfs/registry_reg_apply_windows.go:163-166 | a section spelled like the edited key as far as that goes always leads below it |
| `RegWithin.ImportWithin` | vfs/registry_reg_apply_windows.go:136-166 | however far the import of sections that are accepted and lead below the edited key gets, nothing outside that key changes but for missing keys above it, which are created without values |
| `RegWithin.ConfinedExactly` | vfs/registry_reg_apply_windows.go:27-56 | an accepted section changes nothing outside the edited key, in any registry, if and only if it leads below that key or the calls refuse it |
| `RegWithin.DottedI` | vfs/registry_reg_apply_windows.go:161-166 | within the key named `i` the key named U+0130 is accepted, and importing it creates a key outside the edited one |
| `RegStore.UneditedExport` | vfs/registry_reg_apply_windows.go:130-159 | a key saved as the text it was opened as: the bytes are read, accepted and applied in full, and the registry is as before but for how text values of that key end |
| `Trash.NothingOverwritten` | vfs/trash_xdg.go:360-402 | over every run of any number of processes no entry of `files/` or `info/` from before is removed or changed |
| `Trash.NamesApart` | vfs/trash_xdg.go:360-402 | no two processes succeed with the same name |
| `Trash.MovedHasInfo` | vfs/trash_xdg.go:375-400 | at every step each item moved into `files/` has the complete info entry made by the process that moved it |
| `Trash.ErrorLeavesSource` | vfs/trash_xdg.go:375-402 | a process that ends with an error has moved nothing, its source is in place unless another process moved it, and it has no info entry unless a removal of it failed |
| `Trash.SuccessMoves` | vfs/trash_xdg.go:391-399 | a process that succeeds has moved its source under its own new name, with the matching info entry |
| `Trash.UnobstructedMoves` | vfs/trash_xdg.go:360-399 | with other processes present, a process that runs undisturbed with its base name free succeeds, and the item has the base name; taken names are the subject of TrashProgress |
| `TrashProgress.FirstFreeName` | vfs/trash_xdg.go:368-400 | a process nothing else interferes with moves its item under the first of base, base.1, base.2 and so on, below 100000, that is free in `files/` and in `info/`, with its complete info entry, and changes nothing else |
| `TrashProgress.NumberedApart` | vfs/trash_xdg.go:372-377 | these names are pairwise different, in both directories |
| `TrashProgress.LostAtLook` | vfs/trash_xdg.go:378-380 | a name that cannot be looked up is given up for the next free one |
| `TrashProgress.LostAtCreate` | vfs/trash_xdg.go:383-386 | who loses a name when making the info entry ends with the item under the next free one |
| `TrashProgress.LostAtRename` | vfs/trash_xdg.go:393-397 | who loses a name when renaming, or is told so, has its info entry removed and ends with the item under the next free name |
| `TrashProgress.NoNameLeftExactly` | vfs/trash_xdg.go:368-402 | a process by itself ends without a name if and only if all 100000 are taken |
| `TrashProgress.EndsAtOnce` | vfs/trash_xdg.go:369-388 | a caller that is gone, or an info entry that cannot be made, ends the process with that error and nothing changed |
| `TrashProgress.EndsWithoutInfo` | vfs/trash_xdg.go:389-399 | with the info entry made, a caller that is gone, a failed write or a failed rename ends the process with that error, and the entry is removed |
| `Trash.RunOnePlace` | vfs/trash_xdg.go:391-400 | an item that is in exactly one place stays in exactly one place |
| `Trash.NextInv` | vfs/trash_xdg.go:360-402 | every step of every process keeps the invariant behind these: held info entries are the own ones and written before the move |
| `RenameNoReplace.NothingReplaced` | vfs/rename_noreplace.go:64-111 | whatever the object is and whatever other processes create meanwhile, nothing there at the start is replaced or removed; only the old name goes, and only on success |
| `RenameNoReplace.OnlyEmptyDirectoryLost` | vfs/rename_noreplace.go:75-109 | what any single step takes away from a name is an empty directory, or the moved object, which then has the other name; where link(2) leads away from the object it may also be its old name or the link just made |
| `RenameNoReplace.KeptExactly` | vfs/rename_noreplace.go:64-111 | the object is under one of the two names at every step, at the new one on success, at the old one on error with the reservation removed if removing works, if and only if the destination is taken or link(2) does not follow the object to another one |
| `RenameNoReplace.UnobstructedRenames` | vfs/rename_noreplace.go:64-111 | with nothing in the way a directory, past its own reservation, a file or a link ends at the new name and everything else is as it was |
| `RenameNoReplace.LinksAwayLoses` | vfs/rename_noreplace.go:97-109 | where link(2) follows symbolic links a rename of one succeeds and loses it |
| `RenameNoReplace.TakenFromTheStart` | vfs/rename_noreplace.go:64-70 | a destination that is there is reported as existing at once, whatever the source is, and nothing is changed |
| `RenameNoReplace.TakenIsExists` | vfs/rename_noreplace.go:68-103 | whoever finds the destination taken when looking at it, again after giving up its own reservation, or when making the directory or the link ends with that error |
| `RenameNoReplace.ExistsMeansTaken` | vfs/rename_noreplace.go:64-111 | in every run that error means that the destination is there |
| `RenameNoReplace.OtherErrors` | vfs/rename_noreplace.go:71-111 | a missing source is an error and one of another kind is not supported |
| `RenameNoReplace.LinkTakenBack` | vfs/rename_noreplace.go:97-109 | where the old name cannot be removed, the link just made is |
| `RenameNoReplace.DirectoryTakenBack` | vfs/rename_noreplace.go:75-94 | where a directory cannot be renamed, the one that reserves its name is removed |
| `RenameNoReplace.TriedOnceMore` | vfs/rename_noreplace.go:81-92 | a file system that does not rename over the empty directory gets the rename once more without it |
| `PathResolve.ResolveTrashDir` | vfs/trash_xdg.go:162-199 | the loop ends on every link graph, follows up to 40 links as the lemmas say, and its result has no link in any prefix |
| `PathResolve.FollowIsLenient` | vfs/trash_xdg.go:162-199 | putting the names of a link before the remaining ones is the same, errors included, as resolving each link as a path of its own, without the checks for directories and empty links |
| `PathResolve.FollowMeetsStandard` | vfs/trash_xdg.go:162-199 | whenever pathname resolution (section 4.13 of POSIX.1-2017 Base Definitions) finds an object within 40 links the code finds the same one, and so for missing objects and too many links |
| `PathSteps.ThroughNoLink` | vfs/trash_xdg.go:165-181 | names that exist and lead through no link lead to their path with the dots cleaned out |
| `PathSteps.FirstMissing` | vfs/trash_xdg.go:176-181 | the first name behind them that is missing is an error |
| `PathSteps.FirstLink` | vfs/trash_xdg.go:182-197 | the first link behind them is replaced by the names of its text, from the root if it is absolute and otherwise behind the names of the directory it is in, and by nothing else, until no link is left to follow |
| `PathSteps.OneOfThree` | vfs/trash_xdg.go:165-197 | one of these three is the case for every path, so together they say where it leads |
| `PathSteps.NeighbourLink` | vfs/trash_xdg.go:172-197 | a link to `../name` leads to the neighbour of the directory it is in |
| `PathAgreement.AgreesExactly` | vfs/trash_xdg.go:162-199 | for every cleaned path the code finds a directory exactly when that pathname resolution does, and the same one, if and only if no link that the code follows is empty or leads out of something that is no directory |
| `PathAgreement.LinkBehindFile` | vfs/trash_xdg.go:171-196 | such a link is one to `f/..` behind a file `f`: the code follows it, the standard does not |
| `PathResolve.ResolveTrashSource` | vfs/trash_xdg.go:150-160 | only the directory of the item is resolved, its own name stays |
| `MountRoot.FilesystemMountRoot` | vfs/trash_xdg.go:313-338 | the walk starts at a directory or at that of anything else; the result is the start or above it, everything walked is on the device, and it is the root or has its parent on another device; it fails if and only if a directory cannot be looked at before that |
| `MountRoot.MountRootUnique` | vfs/trash_xdg.go:313-338 | there is only one such directory |
| `MountRoot.MountRootRelative` | vfs/trash_xdg.go:340-351 | an item other than its mount root always has a relative path, and the mount root joined with it is the item |
| `MountRoot.WithinMeansPrefix` | vfs/trash_xdg.go:410-417 | for all absolute paths, however written, the text comparison is the comparison by names |
| `MountRoot.RelUnderMeansBelow` | vfs/trash_xdg.go:441-459 | the relative path exists exactly for what is below the base and consists of the names below it |
| `Scanner.Walk.ScanRecursive` | vfs/scanner.go:198-322 | the recursive walk that updates totals and seen identities in place computes the totals the lemmas are about |
| `Scanner.Walk.GenericScan` | vfs/scanner.go:160-196 | the loop over the roots stops at the first that fails |
| `ScanTotals.TotalsExact` | vfs/scanner.go:160-322 | however a scan ends its totals are a sum over distinct objects below the roots, each counted once; a complete scan has counted exactly those that can be reached, on cyclic graphs too |
| `ScanMet.TotalsOfMet` | vfs/scanner.go:160-322 | in every world, also where hard links disagree, the totals are the sum over entries below the roots among which no identity is twice (and no key at all where names are not listed twice); after a complete scan neither a root nor anything directly below one of these entries is left out |
| `ScanItems.TotalsInItems` | vfs/scanner.go:160-322 | said of listings and items alone: the six totals are the numbers of the directories gone into and of the other entries, the sums of their sizes, the number of entries of unknown size and the sum of the sizes on disk, listed or asked for but never asked for a link, over entries each of which is a root or listed in a directory of the list and no identity of which is twice; a complete scan leaves no root and nothing listed out |
| `ScanDepth.StopsAt` | vfs/scanner.go:160-222 | a scan stops only at the first root that is not there, or where items are nested more than 1000 deep; an unreadable directory does not stop it |
| `ScanDepth.CompleteExactly` | vfs/scanner.go:160-222 | without identities it is complete if and only if all roots are there and nothing is nested so deep |
| `ScanTotals.OrderDoesNotMatter` | vfs/scanner.go:305-319 | two complete scans of the same objects have the same totals, whatever the order of the listings |
| `ScanTotals.CompletesAmongFew` | vfs/scanner.go:203-206 | with identities for cycles and at most 1000 objects the depth limit is never reached |
| `ScanTotals.TotalsOfAgreeing` | vfs/scanner.go:94-100 | the totals are exact whenever entries with one identity agree on what they are and on what is below them |
| `ScanTotals.TotalsOfApart` | vfs/scanner.go:94-100 | entries agree, and the totals are exact, where no two ways lead to one directory and the hard links of a file have one size |
| `Pua.MapValid` | vfs/pua.go:49-60 | the mapping of any name is valid UTF-8 |
| `Pua.UnmapMap` | vfs/pua.go:49-84 | a name comes back from its mapping if and only if it is not UTF-8 or does not itself look like a mapping |
| `Pua.MapInjective` | vfs/pua.go:49-60 | names that come back have different mappings |
| `Pua.MappingIs` | vfs/pua.go:49-60 | the mapping of a name that is not UTF-8 is the three bytes of U+FFFE and, for each byte b, those of U+E000 + b |
| `Pua.UnmappedExactly` | vfs/pua.go:71-84 | exactly such bytes are unmapped, to the bytes they stand for; every other name stays as it is |
| `Pua.MappingCollides` | vfs/pua.go:62-84 | the mapping of a name that is not UTF-8 is also the mapping of itself |
| `Pua.PathOfMapped` | vfs/pua.go:101-123 | a path joined from mapped slash-free names is unmapped to the path of the raw names if and only if each of them comes back by itself |
| `Pua.DecodeUtf8OrMap` | vfs/pua.go:49-60 | the loop over the bytes builds the mapping |
| `Pua.EncodeMappedString` | vfs/pua.go:71-84 | the loop fills the bytes or gives the name back as it is |
| `Pua.DecodeMappedPathSegments` | vfs/pua.go:101-123 | the loop with its early return unmaps every part of the path by itself |
| `ElevatedIO.WriteAll` | vfs/sudo_elevated_file.go:79-113 | any sequence of writes followed by Close fails if and only if a request fails on the way, and otherwise leaves exactly what was written, an empty file when that is nothing |
| `ElevatedIO.ElevatedWriter.Write` | vfs/sudo_elevated_file.go:79-90 | everything written is in the file or in the buffer, in order, with less than a chunk in the buffer |
| `ElevatedIO.ElevatedWriter.Close` | vfs/sudo_elevated_file.go:104-113 | Close fails only where its request does; otherwise the file is what was written; closing twice does nothing |
| `ElevatedIO.LogAt` | vfs/sudo_elevated_file.go:92-100 | of the requests of a file only the first truncates, each carries at most a chunk and starts where the data before it ends |
| `ElevatedIO.ElevatedFile.ReadAt` | vfs/sudo_elevated_file.go:31-51 | the buffer holds the bytes of the file from the offset on, and the end is reported exactly when there are fewer than asked for; an error means that a request failed, the file is missing or the offset is negative |
| `ElevatedIO.ElevatedFile.Read` | vfs/sudo_elevated_file.go:53-59 | reading goes on where the last read ended, and fails only where a request fails or the file is missing |
| `ElevatedIO.ReadAll` | vfs/sudo_elevated_file.go:31-59 | reading on with any buffer gives the whole file unless a request fails or there is no file |
| `ElevatedIO.WrittenAtEnd` | vfs/sudo_elevated_ops.go:157-181 | a chunk written at the end of the file is appended, the first one after emptying it |
| `ElevatedIO.ReadAnswered` | vfs/sudo_elevated_ops.go:119-134 | a read is refused exactly for a missing file, an offset before its start or a size that is not positive or over 4 MiB; otherwise it gives the bytes from the offset on, byte for byte, and says whether they were fewer |
| `ElevatedIO.WriteAnswered` | vfs/sudo_elevated_ops.go:157-181 | a write is refused exactly for an offset before the start or more than 4 MiB; otherwise every byte of the file is the data, what was there unless it was emptied, or zero in a gap |
| `SudoFrame.ParseFrame` | vfs/sudo_frame.go:19-50 | a frame is read back as its payload, whatever follows it |
| `SudoFrame.WireRead` | vfs/sudo_frame.go:19-50 | everything sent is read back, in order |
| `SudoFrame.CutWireRead` | vfs/sudo_frame.go:36-50 | wherever the stream breaks off, what was read until then is what was sent first |
| `SudoFrame.Connection.ReadFrame` | vfs/sudo_frame.go:36-50 | what is read does not depend on the portions in which the bytes arrive |
| `SudoFrame.MakeFrame` | vfs/sudo_frame.go:19-33 | the buffer filled in place is four bytes of length, the low one first, and the message; one over 64 MiB is not sent |
| `SudoFrame.LengthDecides` | vfs/sudo_frame.go:36-50 | the four bytes in front are the length, the low one first: over 64 MiB it is refused, and otherwise exactly so many bytes are the message |
| `SudoSession.AnswerIsOwn` | vfs/sudo_client.go:328-362 | in every run of concurrent calls, errors, reconnections and bytes arriving in any portions or breaking off, a call returns the answer the dispatcher gave to the very message this call sent |
| `SudoSession.HandledAsSent` | vfs/sudo_frame.go:36-50 | what a dispatcher reads over any connection, also one given up, are the messages sent over it, in order |
| `SudoSession.AnswerComes` | vfs/sudo_client.go:328-362 | a waiting call receives its answer as soon as what is on its way has arrived and been handled |
| `SudoSession.CallGetsThrough` | vfs/sudo_client.go:328-362 | a call nobody is in front of, over the connection there is or a new one, is sent and returns the answer the dispatcher gives |
| `SudoSession.DispatcherEnds` | vfs/sudo_frame.go:19-50 | a dispatcher that is sent a length over the limit, or has such an answer, ends without handling it |
| `SudoSession.IdleGivenUp` | vfs/sudo_client_elevated.go:155-170 | only a connection no call waits on is given up as idle, and the next call makes a new one |
| `SudoSession.NextInv` | vfs/sudo_client.go:328-362 | every step keeps the invariant behind these: over each connection at most one request is ahead of the answers read, and what is on its way is the start of its frame or of the answer to it |
| `SudoServe.Dispatcher.ServeElevated` | vfs/sudo_elevated.go:77-91 | the handler is called with the texts of the operation messages, in order, of the session of the first client that presents the token, whose messages are answered as ServeSession says; every client before gets at most a refusal and none after it is served |
| `SudoServe.Dispatcher.ServeSession` | vfs/sudo_elevated.go:107-127 | message by message, until the client is gone, a ping is answered with nothing, a second hello with a refusal, and an operation with the result of the handler for its text, or with a refusal where there is no handler; the handler is called with exactly these texts |
| `SudoServe.Dispatcher.AcceptHello` | vfs/sudo_elevated.go:93-105 | a client is accepted exactly if its first message presents the token and it can be told so |
| `IdleTimer.OpenIsWatched` | vfs/sudo_client_elevated.go:140-170 | in every run an open connection has a callback outstanding that is due no later than the idle time after the last answer, so without an overdue callback the idle time is not over |
| `IdleTimer.ClosedOnlyWhenIdle` | vfs/sudo_client_elevated.go:155-170 | in every run an open connection that is not lost is closed by a callback, however late, if and only if the time that passed since the last answer or connect of the run is at least the idle time, and the consent goes with it |
| `IdleTimer.ConsentIsCounted` | vfs/sudo_client_elevated.go:155-208 | the user agrees once more than idle connections are closed while a connection is open |
| `IdleTimer.AsksAgain` | vfs/sudo_client_elevated.go:179-187 | after an idle closing no connection comes up without the user agreeing |
| `IdleTimer.Client.ArmIdleLocked` | vfs/sudo_client_elevated.go:140-150 | on an open connection the idle time starts now with a new callback due at its end; of the other callbacks only the former one goes, and only if it was not fired |
| `IdleTimer.Client.CloseIfIdleLocked` | vfs/sudo_client_elevated.go:155-170 | an open connection is closed and the consent forgotten exactly when the idle time has passed; otherwise a callback is due at its end |
| `IdleTimer.Client.ConnectElevatedLocked` | vfs/sudo_client_elevated.go:179-208 | nothing happens without consent; with it a connection that comes up starts its idle time now, and an agreement is counted only where there was no consent |
| `SearchStream.FindFileContains` | vfs/os_vfs_search.go:288-331 | for every way a file is split into reads and every query the loop answers whether some window, the carried tail and the portion, has a match, or the negation; a read error counts only if nothing was found before |
| `SearchStream.NeverMissed` | vfs/os_vfs_search.go:311-321 | however the file is split, no match in it is missed, whole words included |
| `SearchStream.TextNeverMissed` | vfs/os_vfs_search.go:207-331 | in a UTF-8 file no word is missed, even where a read ends within a character |
| `SearchStream.FoundExactly` | vfs/os_vfs_search.go:311-321 | what is found is the matches of the file and nothing but occurrences whose word characters on either side are cut off by a window |
| `SearchStream.RightExactly` | vfs/os_vfs_search.go:311-321 | the answer is right for the file if and only if the file has a match or no occurrence in it is cut off so; without whole words it always is |
| `SearchStream.OnePortion` | vfs/os_vfs_search.go:288-331 | a file that comes in one read is always answered rightly, whole words included |
| `SearchStream.NeighbourToCome` | vfs/os_vfs_search.go:311-321 | a whole word found that is none: the character behind it comes with the next read |
| `SearchStream.NeighbourDropped` | vfs/os_vfs_search.go:311-321 | a whole word found that is none: the character before it is dropped from the carried tail |
| `Search.HasMatch` | vfs/os_vfs_search.go:207-257 | a match is found if and only if some occurrence, overlapping ones included, is delimited where whole words are asked for |
| `Search.MatchesText` | vfs/os_vfs_search.go:207-286 | in UTF-8 text the search in bytes finds exactly the words that are there, delimited by characters that are no word characters |
| `Search.LastRuneOf` | vfs/os_vfs_search.go:268-274 | whatever precedes it, a character is decoded as the last one |
| `Patch.ValidateInPlacePieces` | vfs/vfs.go:747-756 | the loop accepts exactly the lists in which every copied piece stays at its offset |
| `Patch.PatchInPlace` | vfs/os_vfs.go:562-594 | a refused list changes nothing; otherwise, unless a write fails, the file becomes what the pieces describe, also when that is shorter; a cancelled patch has only its front replaced |
| `Patch.PatchDiskInPlace` | vfs/disks_vfs.go:154-204 | on a disk everything behind the last piece stays |
| `Patch.InPlaceAt` | vfs/vfs.go:747-756 | an accepted copy is at the end of the pieces before it |
| `Patch.AcceptedExactly` | vfs/vfs.go:747-756 | a list is accepted if and only if every copied piece is where the lengths before it put it |
| `Junction.ParseBuffer` | vfs/os_vfs_windows.go:94-109 | the buffer of an accepted target is read back as the normalised target, whatever follows the buffer |
| `Junction.MountPointReparseBuffer` | vfs/junction_buffer.go:26-64 | a target is accepted exactly if it is on a drive and both names fit into 16 KiB, and the buffer filled in place has the layout of BufferLayout |
| `Junction.NamesFit` | vfs/junction_buffer.go:38-62 | both names with their NULs fill the declared data length exactly |
| `Junction.BufferLayout` | vfs/junction_buffer.go:44-63 | the bytes of the buffer: the tag, the length of the data, two zeros, offset and length of both names, and both in UTF-16LE with two zero bytes behind each |
| `Junction.FieldsFit` | vfs/junction_buffer.go:40-55 | every length and offset fits its 16 bits |
| `Junction.NormalisedIsAbsolute` | vfs/junction_buffer.go:27-35 | the normalised target has the characters of the target with backslashes for slashes, without those at its end but for the root of the drive |
| `Junction.ParseJunction` | vfs/os_vfs_windows.go:94-109 | the loop that fills the words reads what the lemmas are about |
| `LockManager.MutualExclusion` | vfs/vfs.go:384-415 | over every interleaving no two threads hold the same path |
| `LockManager.NoLostWakeUp` | vfs/vfs.go:384-415 | a thread parked on a path waits for a holder; when that unlocks, every such thread is runnable and the next to go on gets the lock |
| `LockManager.TakenOrWaits` | vfs/vfs.go:384-406 | in every run a path nobody holds is taken at once, by Lock and by TryLock; where somebody holds it TryLock changes nothing and Lock waits |
| `LockManager.Manager.LockPass` | vfs/vfs.go:384-396 | one pass through the loop takes the lock, or parks the thread on the condition and leaves the lock as it is; other paths stay as they are |
| `LockManager.Manager.Unlock` | vfs/vfs.go:408-415 | the path is free, everyone parked on it is woken and nobody is parked there any more; other paths stay as they are |
| `Utf16Detect.TextDetected` | vfs/codepages.go:392-433 | UTF-16LE text is recognised if and only if it has at least 8 words and no NUL, an eighth are characters below U+0100 and these outnumber words with a zero low byte by more than 8 to 1 |
| `Utf16Detect.SwappedDetect` | vfs/codepages.go:416-432 | swapping the bytes of every pair swaps the verdict |
| `Utf16Detect.OutweighsOneWay` | vfs/codepages.go:426-431 | both verdicts can never hold at once |
| `Utf16Detect.NoZerosUnknown` | vfs/codepages.go:392-433 | data without zero bytes is never taken for UTF-16 |
| `Utf16Detect.DetectUtf16WithoutBom` | vfs/codepages.go:392-433 | the counting loop with its early return computes the verdict the lemmas are about |

## Left out

- The text of a UTF-8 .reg file with invalid UTF-8 in it: each invalid byte is read as U+FFFD, as Go's conversion to runes does, but nothing is claimed about such files.
- Failures of registry calls other than for a wrong path or a name with a NUL, cancellation of an import or export, and keys or values that vanish while they are exported.
- How the registry spells a key it creates: the model keeps the spelling of the import.
- Keys at which the tree itself has a name with a line feed: `RegStore.UneditedExport` requires the exported text to be writable, which `RegRoundTrip.RoundTrip` shows to be exactly the condition.
- RegStore.Store.ExportRegistryKey: does not model cancellation, and its result is stated by the recursive specification whose meaning RegTransfer.ExportListed gives.
- Trash.RunOnePlace: sources are single places; a source inside another source is not modelled, so moving a directory does not move a second source with it.
- Choosing between the home trash and the volume trash, creating and checking the trash directories, and the deletion date in the info file.
- The branch of the rename where source and destination are one object (a change of case only): that check follows links and promises no such thing.
- Processes that remove or rename things while the portable rename runs; the model lets them create anything anywhere.
- PathResolve.FollowMeetsStandard and PathAgreement.AgreesExactly: the tree does not change during the resolution, and readlink and lstat fail only for what is not there.
- Permissions along a path, and links whose reading fails.
- MountRoot.FilesystemMountRoot: does not model how lstat obtains a device; what is missing from the answers is an error.
- Cancellation and progress reports of a scan, the shortcut for remote file systems that scan themselves, and the wrap-around of 64-bit totals.
- ScanTotals.CompletesAmongFew: the limit is on all objects together, not on the length of chains, because a depth-first walk may follow the longest chain.
- The rendering of mapped names on the screen (`DisplayName`) and file names that come from UTF-16.
- ElevatedIO.RemoteFile.WriteAt: does not say what a failed write leaves; the claims are about runs without an error.
- The mode and the exclusive flag of an elevated write, and several processes writing one file at the same time.
- ScanDepth.CompleteExactly: with identities the condition for stopping at the depth limit is stated one way only, because which of several ways to an object is walked depends on what was met before.
- The JSON in the frames, file descriptors passed along, and the socket itself.
- SudoSession.AnswerIsOwn: a call makes one request; the launch of the dispatcher and the dialogs are one step that succeeds or fails.
- The comparison of tokens in constant time, and the time limits of the hello: a client that falls silent is one whose messages end.
- The choice to remember consent, settings changed while a timer is pending, and an idle time of zero.
- Searches without regard to case and with regular expressions, whose matching is left to libraries; matching of file name masks and the walk of a search over directories.
- Patch.PatchInPlace: what a failed write leaves, and lists whose data has another length than stated or whose copies lie outside the file, beyond that they are refused under the same condition.
- Junction.ParseBuffer: reading symbolic links of the other kind and joining a relative target to the directory of the link are not modelled; Junction.NormalisedIsAbsolute shows that the second never applies to a junction written here.
- LockManager.NoLostWakeUp: does not claim fairness; a thread that never waited may take the lock first.
- Guessing single-byte code pages, which rests on tables and on a language detector.
- Parsing and printing single registry values through quoting functions of the standard library, the lines kept from the output of sudo, and the tables of error codes.
