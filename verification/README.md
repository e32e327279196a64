# Verified models of MagiC components

This project models seven components of the MagiC operating system for Atari-compatible
machines and proves what they promise. It is written in Dafny 4.11; `dafny verify
dfyconfig.toml` checks all of it. Nothing here runs the original program.

| component | files here | source |
|---|---|---|
| VFAT directories: code page, names, long names, scan, free slots, aliases, creation, search, opening, dot files, removal, renaming | `CodePage`, `Names`, `Slots`, `LongNames`, `Reading`, `Creation`, `Alias`, `FreeSlots`, `Directory`, `Searching`, `Opening`, `DotFiles`, `Renaming` | `kernel/dos/vfat.c`, `kernel/dos/xfs_vdos.s`, `kernel/allg/std.s` |
| HFS catalog: extents, nodes, B*-tree descent, enumeration | `HfsExtents`, `HfsNode`, `HfsCatalog`, `HfsFolder` | `extensio/cd-mxfs/hfs.c` |
| sector cache of the CD file systems | `SectorCache` | `extensio/cd-mxfs/doscache.c` |
| audio tracks as WAV files | `WavTrack` | `extensio/cd-mxfs/tocfs.c` |
| VDI driver manager and loader | `Drivers`, `Relocation` | `kernel/vdi/drivers.c` |
| drag and drop pipe protocol | `DragDrop` | `apps/magiccfg/dragdrop.c` |
| 32 by 32 bit product | `WideMul` | `lib/mylibs/ll.c` |

## Main results

- **Creating an entry preserves the listing.** On every well-formed directory, searching for
  room, growing the directory if need be and writing the slots leaves a well-formed directory
  whose complete listing is the old one with exactly the new entry in its place
  (`Directory.CreationPreservesListing`), and so does every run of creations
  (`Directory.CreateAll` with `Directory.RunKeepsListing`). The entry is listed if and only if its
  name does not begin with character 0xe5, which marks deleted slots; `Directory.CreationListing`
  says what the listing is otherwise. `Creation.FillingAddsOne` is the same for arbitrary
  directories as long as the scan has no name pending at the gap.
- **Long names come back.** `Creation.LongNameRoundTrip` holds for every name of 1 to 299
  characters and says exactly which names survive: those whose characters are all at least a space
  and never 173. The cause of the exception is that the binary search over the Unicode table never
  probes row 0 (`CodePage.SearchMissesExactlyRowZero`).
- **Removing and renaming.** Removing an entry takes exactly that entry from the listing and undoes
  a creation (`Renaming.RemovalKeepsListing`, `Renaming.RemovalUndoesCreation`). Renaming inside a
  directory, which may reuse the old slots in part, lists every other entry unchanged, the old one no
  more and exactly the new one (`Renaming.Rename`, `Renaming.RenamingKeepsListing`).
- **Room and every reason to fail.** The search answers with the first run of vacant slots and
  fails for exactly the reasons that `FreeSlots.Complaint` reads off the directory
  (`FreeSlots.FFree`). It writes to memory that is not its own in exactly two cases
  (`FreeSlots.WildAccessExactly`): a name like A~40000.TXT exists (`Alias.LargeNumberIsWild`), or the
  blank base of a dot file that needs a number happens to lie behind another blank in memory.
- **Aliases.** The alias with number `k` is new in every directory in which it is chosen if and only
  if the base is used as it is and is not numbered, or `k` is patched into a base that is not blank
  (`Alias.AliasIsUniqueExactly`). After a search that found nothing it is new among the files for every
  name but a dot file with a number (`Opening.AliasIsNewAfterSearch`). Two dot files with the same
  extension created one after the other always get the same short name
  (`DotFiles.DotFilesShareAlias`); `.profile` and `.profanity` are such a pair.
- **A new file is found again.** From the search over the conversion of the name to the written
  slots: old entries unchanged, exactly one new one, and the next search finds it
  (`Opening.OpenOrCreate`, `Opening.NewFileIsFound`). It is listed under exactly the name that was
  asked for, case included (`Opening.NameReadsBack`). What is listed is said by the attribute bits
  (`Reading.ListedExactly`), and what counts as the same name by the pairs of letters
  (`Names.SameNameExactly`, `Names.CaseIsNotStored`).
- **B*-tree descent.** Despite the lagging child pointer the descent terminates at a leaf given in
  closed form, which is a sound lower bound; descent and forward search together find the first
  record of a folder in the whole catalog, and enumeration returns exactly the folder's
  folders, files and thread, in order.
- **Listing a folder by its ID** is complete for every described folder with an ID below 65536,
  with its entry `.` exactly when the 16-bit cut of the parent's ID does no harm
  (`HfsFolder.ListById`). An ID of 65536 or more is taken for a position, and for each of them there
  is a catalog in which the folder is not found at all (`HfsFolder.LargeFolderIsMissed`).
- **HFS reads.** The read loop never advances its offset; it is right on every medium if and only
  if a request stays inside one extent (`HfsExtents.ReadsRightExactly`), which node reads always do.
- **The cache refines the medium** over every run of reads and media changes; a read fails exactly
  when one of its transfers does and needs none if its blocks are cached. The cache replaces an
  invalid or the least recently touched entry, also across a wrap of the tick counter.
- **A WAV read is a slice** of header and frames, for all alignments and all ways of cutting it
  outside the header; it fails exactly when one of its transfers does, and overruns exactly when a
  request ends inside the header.
- **Driver counters and handles.** Over every run the state and every handle are what the
  operations call for, and lost references are accounted for one by one. **Relocation** adds the
  base exactly once to exactly the named longwords, and goes astray exactly on streams that have no
  end or leave the image.
- **Drag and drop** stays in step over every sequence of offers.

## Conventions

- Slots of a FAT directory are 32 raw bytes; directory positions count slots instead of bytes.
- `int` and `short` arithmetic wraps at 16 bits where the source relies on it (`Wrap16`); tick
  counts, file sizes, patched longwords and products are taken modulo 2^32.
- The outside world enters as parameters: which transfers fail, what the tick counter reads, which
  allocations succeed, which byte lies in front of a new name in memory (in the source the low byte
  of a stack address, pushed at `kernel/dos/xfs_vdos.s:909`).
- An access outside its buffer is an outcome of its own, about whose effects nothing is said:
  `WildAccess` (`FreeSlots`, `Alias.Wild`), `Overrun` (`WavTrack`), `Outside` (`HfsNode`,
  `HfsCatalog`) and `Astray` (`Relocation`).
- Where a comment of the source disagrees with the code, the code is followed. The retry loop over
  pipe names is meant to run through all two-letter endings; it tries only those that begin with A
  and 25 others that are no pair of letters (`DragDrop.EndingsTried`).

## Model

| member | source | states |
|---|---|---|
| `CodePage.Search` | kernel/dos/vfat.c:500-523 | on every strictly sorted table of two or more rows the hand-written search terminates and equals a linear lookup in the table without its first row |
| `CodePage.SearchMissesExactlyRowZero` | kernel/dos/vfat.c:500-523 | the partner of every key from row 1 on is found; row 0 and absent keys give 0xbc |
| `CodePage.TableIsSorted` | kernel/dos/vfat.c:293-467 | the stored Unicode table is strictly ascending, as the search needs |
| `CodePage.RowOfInverts` | kernel/dos/vfat.c:27-467 | every character from 127 on owns the row that leads back to it, so the two tables are inverse |
| `CodePage.Unic2Ibm` | kernel/dos/vfat.c:476-532 | the conversion loop decodes up to the first terminator or filler unit |
| `CodePage.DecodedIsPrintable` | kernel/dos/vfat.c:486-526 | no unit decodes to a control character, so the decoded text has no early end |
| `CodePage.EncodedKeepsGoing` | kernel/dos/vfat.c:27-287 | only the terminator is stored as a unit that ends a name |
| `CodePage.RecodeExact` | kernel/dos/vfat.c:500-562 | a character survives storing and reading if and only if it is at least a space and not 173 |
| `Slots.MakePieceFields` | kernel/inc/vfat_imp.h:25-34 | a piece built from its fields reads back with the same head, checksum and thirteen little-endian units |
| `Slots.ChkSum` | kernel/dos/vfat_s.s:112-119 | the loop that rotates and adds computes the checksum by which pieces and main entry belong together |
| `Slots.ChecksumOfReadme` | kernel/dos/vfat_s.s:112-119 | the checksum of README.TXT is 0x73 |
| `Slots.DosDir.Read` | kernel/dos/vfat_s.s:18-31 | delivers the slot at the position and moves on, or reports the end of the file |
| `Slots.DosDir.Write` | kernel/dos/vfat_s.s:35-46 | replaces the slot at the position and no other |
| `Slots.DosDir.Extend` | kernel/dos/dfs_fat.s:1276-1360 | adds one cluster of zeroed slots behind the existing ones |
| `LongNames.Ibm2Unic` | kernel/dos/vfat.c:543-562 | stores characters up to and including the terminator and leaves the rest of the field alone |
| `LongNames.FillPiece` | kernel/dos/vfat.c:1053-1065 | the three conditional conversions fill one piece as a single run of characters |
| `LongNames.FilledPiece` | kernel/dos/vfat.c:1027-1065 | what the reused buffer holds is the text, a terminator if it fits, and filler |
| `LongNames.WriteChain` | kernel/dos/vfat.c:1047-1070 | writes the numbered pieces, last one first, over consecutive slots and nothing else |
| `LongNames.CrNam` | kernel/dos/vfat.c:1011-1076 | the whole entry replaces consecutive slots from the position on, and succeeds exactly when they exist |
| `Reading.ReadPiece` | kernel/dos/vfat.c:655-662 | the three fields of a piece are decoded one behind the other |
| `Reading.ReadEntry` | kernel/dos/vfat.c:590-749 | the reading loop computes the scan function from the position on and stops behind the reported entry; which entries are reported is `Reading.ListedExactly` |
| `Reading.ListIsRepeatedScan` | kernel/dos/vfat.c:590-749 | the one-pass listing is what repeated calls deliver |
| `Reading.ListedExactly` | kernel/dos/vfat.c:615-719 | unless a scan ends with an error, exactly those slots in front of the end mark are listed that are neither deleted nor pieces and whose attribute bits the mode asks for, bit by bit for all five modes |
| `Reading.ListAscends` | kernel/dos/vfat.c:590-749 | every slot is listed at most once, in the order of the directory |
| `Reading.ReadAll` | kernel/dos/vfat.c:590-749 | reading to the end returns the whole listing, which `Reading.ListedExactly` and `Reading.ListAscends` describe by the bytes of the slots |
| `Searching.StepStaysJustified` | kernel/dos/vfat.c:629-692 | whatever slot comes next, what is pending stays a run of pieces with one checksum, numbered down from its last piece, with exactly their text |
| `Creation.StoredPieceReads` | kernel/dos/vfat.c:1047-1070 | each stored piece is recognised with its number, checksum and text |
| `Creation.ChainReads` | kernel/dos/vfat.c:629-676 | reading a stored chain assembles the whole name backwards, from any earlier state |
| `Creation.NewEntryIsFound` | kernel/dos/vfat.c:590-749 | scanning from the first slot of a written entry reports exactly that entry, with its start |
| `Creation.LongNameRoundTrip` | kernel/dos/vfat.c:1011-1076 | the name comes back unchanged if and only if all its characters survive; lengths that are multiples of 13 included |
| `Creation.TruncatedRunIsAccepted` | kernel/dos/vfat.c:679-685 | a chain that lacks its last pieces is accepted, and the entry is reported under the rest of its name |
| `Creation.ZerosAddNothing` | kernel/dos/vfat.c:618-625 | zeroed slots behind a directory do not change its listing |
| `Creation.GapListsNothing` | kernel/dos/vfat.c:624-627 | a gap of deleted slots up to an end mark contributes nothing |
| `Creation.FillingAddsOne` | kernel/dos/vfat.c:590-749 | in any directory, filling a gap at which nothing is pending adds one entry to the listing and changes nothing else |
| `Creation.OrphanIsAdopted` | kernel/dos/vfat.c:624-692 | a finished run that waits for a main entry does nothing but give its name to its heir, in any directory |
| `Creation.FillingRenames` | kernel/dos/vfat.c:590-749 | filling a gap with a run that has no main entry renames the heir and changes nothing else |
| `Creation.WellFormedIsIdle` | kernel/dos/vfat.c:606-719 | in a well-formed directory nothing is pending at a slot that is not live |
| `Alias.ParseTail` | kernel/dos/vfat.c:1288-1302 | the number behind a tilde, in 16-bit arithmetic, or none |
| `Alias.NoteEntry` | kernel/dos/vfat.c:1267-1317 | one entry occupies at most one number; the table changes at that number only |
| `Alias.PickNumber` | kernel/dos/vfat.c:1327-1339 | the first number that is not used, or exhaustion when all 1600 are |
| `Alias.PatchAlias` | kernel/dos/vfat.c:1340-1366 | the patched name is the shortened base, a tilde, the decimal number and the old rest, for a blank base with the tilde in front; the store leaves the name exactly when a blank lies in front of a blank base |
| `Alias.AliasIsNoted` | kernel/dos/vfat.c:1267-1317 | an entry that bears the alias with number k is recognised as occupying k |
| `Alias.NumberExactly` | kernel/dos/vfat.c:1267-1317 | the converse: number k is occupied exactly by names with the same extension and beginning up to a tilde behind which the digits spell k, and number 0 besides by the very same name |
| `Alias.AliasIsUnique` | kernel/dos/vfat.c:1259-1366 | the chosen alias differs from every counted name, unless it is a numbered base used as it is or a blank base with a number |
| `Alias.AliasIsUniqueExactly` | kernel/dos/vfat.c:1259-1366 | for every number: new in every directory in which it is chosen, if and only if it is an unnumbered base used as it is or a number in a base that is not blank |
| `Alias.BlankMissesItsAlias` | kernel/dos/vfat.c:1276-1284 | the aliases of a blank base begin with a tilde and occupy no number |
| `Alias.BlankBaseCollides` | kernel/dos/vfat.c:1259-1366 | for every number there is a directory in which a blank base is given a name that is already there |
| `Alias.WildExactly` | kernel/dos/vfat.c:1267-1317 | the flag is stored outside its table exactly for a name of the same extension and beginning with a tilde and digits that set the sign bit of a word |
| `Alias.LargeNumberIsWild` | kernel/dos/vfat.c:1286-1307 | A~40000.TXT is such a name for AB.TXT |
| `FreeSlots.MakeRoom` | kernel/dos/vfat.c:1218-1226 | the slots of a gap that reaches the end mark exist afterwards, unless the file would have to grow and cannot; it grows by at most one cluster |
| `FreeSlots.FinishGap` | kernel/dos/vfat.c:1185-1228 | both ways of reaching the end answer with the first fit, and fail exactly when the file has no vacant run and cannot grow |
| `FreeSlots.NoteMain` | kernel/dos/vfat.c:1267-1317 | the table of used numbers reflects all main entries passed so far; wild exactly for a mark outside the table |
| `FreeSlots.GiveAlias` | kernel/dos/vfat.c:1322-1366 | the main entry is renamed to the alias with the first free number; it fails exactly when all numbers are used or the number would be stored in front of the name |
| `FreeSlots.PassOver` | kernel/dos/vfat.c:1172-1320 | gap safety: the run found is vacant, exists, and is the first that is vacant; the pass stops exactly for a wild entry or for want of room |
| `FreeSlots.FFree` | kernel/dos/vfat.c:1107-1373 | the whole search: first fit, growth by one cluster only when needed, alias; each error exactly for its cause, and never more than growth on failure; when a long name is stored is `Opening.LongIsStoredExactly` |
| `FreeSlots.RoomExactly` | kernel/dos/vfat.c:1172-1252 | there is room if and only if the first fit lies in the file or the file can grow |
| `FreeSlots.WildAccessExactly` | kernel/dos/vfat.c:1267-1366 | for the bases of new names, the two conditions under which foreign memory is written, in terms of the name, the directory and the byte in front of the name |
| `Directory.VacantIsGap` | kernel/dos/vfat.c:1164-1252 | in a well-formed directory vacant slots hold nothing that a scan would report |
| `Directory.FillingKeepsShape` | kernel/dos/vfat.c:1011-1076 | writing an entry over a gap keeps the directory well formed |
| `Directory.CreationPreservesListing` | kernel/dos/vfat.c:1011-1373 | the listing after a creation is the old listing with exactly the new entry inserted, and the directory stays well formed |
| `Directory.CreationListing` | kernel/dos/vfat.c:1011-1373 | for every entry: listed if and only if its name does not begin with 0xe5; the listing in both cases |
| `Directory.GivenAliasIsNew` | kernel/dos/vfat.c:1259-1366 | no live main entry outside the renamed one bears the name given, except for a numbered base used as it is and a blank base with a number |
| `Directory.Create` | kernel/dos/xfs_vdos.s:909-977 | search, seek and write together, on any directory: failure for exactly the reasons of the search, otherwise the entry in the first fit and nothing else changed |
| `Directory.CreationKeepsListing` | kernel/dos/xfs_vdos.s:909-977 | what a creation does to the listing and the shape of a well-formed directory, on success and on failure |
| `Directory.CreationGivesNewAlias` | kernel/dos/vfat.c:1259-1366 | the alias that a creation gives is borne by no other main entry, with the same two exceptions |
| `Directory.CreateAll` | kernel/dos/xfs_vdos.s:909-977 | any run of creations, every step of it on any directory |
| `Directory.RunKeepsListing` | kernel/dos/xfs_vdos.s:909-977 | a run that meets neither defect keeps the shape and adds the created entries in turn, and nothing else |
| `Searching.ReportedNameBelongs` | kernel/dos/vfat.c:629-692 | in every directory a reported long name is the text of pieces with the entry's checksum, numbered down without a gap |
| `Searching.DirSearch` | kernel/dos/vfat.c:770-823 | the search answers with the first matching entry of the listing |
| `Searching.HitsExactly` | kernel/dos/vfat.c:793-818 | an entry is found exactly if its long or short name differs from the sought one in case alone, or for `*.EXT` if that stands behind a dot of its short name; a label search takes any |
| `Searching.ExtensionIsFound` | kernel/dos/vfat.c:804-816 | `*.EXT` finds an entry without a long name exactly by the bytes of its extension, whatever their case |
| `Searching.CreatedIsFound` | kernel/dos/vfat.c:770-823 | a name that was not found before its creation is found afterwards at the created entry |
| `Names.UpperIsFinal` | kernel/allg/std.s:428-451 | upper case is reached in one step and no character becomes a blank, a dot or the mark of deleted slots |
| `Names.UpperExactly` | kernel/allg/std.s:428-451 | no small letter is left, small letters become their capital and nothing else changes; two characters become equal exactly if they are equal or one of the 26 plus 14 pairs |
| `Names.SameNameExactly` | kernel/allg/std.s:428-451 | the comparison without regard to case holds exactly for names of one length that differ in nothing but those pairs |
| `Names.Conv83` | kernel/dos/xfs_vdos.s:3986-4112 | for every string, separators and wildcards included: base and extension of the first element, padded; what the bytes are is `Names.StoredChars`, `Names.StoredIsCapital` and `Names.CaseIsNotStored` |
| `Names.StoredChars` | kernel/dos/xfs_vdos.s:3986-4112 | every character of base and extension is stored as it is or as its capital, a blank of the base as an underscore |
| `Names.StoredIsCapital` | kernel/dos/xfs_vdos.s:3986-4112 | no byte of a stored name is one of the 26 plus 14 small letters |
| `Names.CaseIsNotStored` | kernel/dos/xfs_vdos.s:3986-4112 | names that differ in case alone have the same stored form |
| `Names.TstName` | kernel/dos/xfs_vdos.s:3145-3173 | a name is refused exactly if it is empty, too long, begins with a blank, is a dot or begins with two, or holds a wildcard or colon |
| `Names.ShortFormShape` | kernel/dos/xfs_vdos.s:3986-4112 | the base of a dot file is blank and that of every other new name has its blanks at the end; it begins with 0xe5 exactly if the name does |
| `Names.ExpandedIsStoredAgain` | kernel/allg/std.s:839-866 | conversion undoes expansion, so that an 8+3 name in upper case needs no long name |
| `Names.DotFileHasNoBase` | kernel/dos/xfs_vdos.s:3986-4112 | the family of dot files whose base is blank and cannot be used as it is |
| `Opening.LiveAreListed` | kernel/dos/vfat.c:590-749 | a listing that is not broken shows every main entry in front of the end mark that is no label |
| `Opening.AliasIsNewAfterSearch` | kernel/dos/xfs_vdos.s:837-924 | after a search that found nothing no file bears the short name that is given, even if the base is numbered; dot files with a number are the exception |
| `Opening.OpenOrCreate` | kernel/dos/xfs_vdos.s:837-977 | found files are left alone, unacceptable names refused, all others created |
| `Opening.NewFileIsFound` | kernel/dos/xfs_vdos.s:837-977 | same shape, old listing with exactly the new entry, and the next search finds it, dot files included; a new short name except for dot files with a number |
| `Opening.LongIsStoredExactly` | kernel/dos/vfat.c:1137-1159 | on a volume with long names one is stored exactly if the expanded short name is not the name letter by letter |
| `Opening.NameReadsBack` | kernel/dos/vfat.c:1011-1373 | after a creation the directory lists the entry under exactly the name that was asked for, case included, as its long name or as its short name |
| `Opening.NumberIsFirstFree` | kernel/dos/vfat.c:1153-1158 | the number of the alias is 0 exactly if the short name spells the long one but for case and no entry occupies it, otherwise the first from 1 on that is free |
| `Opening.FirstFileFits` | kernel/dos/vfat.c:1107-1373 | no reason to fail in an empty directory that can grow, for every acceptable name, a dot file with a byte other than a blank in front included |
| `DotFiles.DotFileFitsExactly` | kernel/dos/vfat.c:1340-1366 | with room, a free number and no wild entry, a dot file of more than three characters is refused by nothing but a blank in front of its name in memory |
| `Directory.UsedIsOccupied` | kernel/dos/vfat.c:1267-1317 | the numbers that the search finds used are those that the main entries in front of the end mark occupy |
| `DotFiles.OccupiedStays` | kernel/dos/vfat.c:1011-1076 | writing an entry whose short name occupies nothing leaves the occupied numbers of a well-formed directory as they are |
| `DotFiles.DotFilesShareAlias` | kernel/dos/vfat.c:1259-1366 | two dot files with the same extension created one after the other get the same short name, in every well-formed directory |
| `DotFiles.ProfileAndProfanity` | kernel/dos/xfs_vdos.s:3986-4112 | `.profile` and `.profanity` are two such files |
| `DotFiles.ProfileThenProfanity` | kernel/dos/xfs_vdos.s:837-977 | created one after the other in an empty directory, both are stored and bear the same short name |
| `Renaming.FDelete` | kernel/dos/xfs_vdos.s:2765-2790 | the deleting loop marks the slots from the first one to the main entry and no other |
| `Renaming.ListedIsUnit` | kernel/dos/vfat.c:590-749 | every listed entry of a well-formed directory is a whole run or a bare main entry, from its start to its index |
| `Renaming.RemovalKeepsListing` | kernel/dos/xfs_vdos.s:2765-2790 | removing an entry takes exactly that entry from the listing and keeps the directory well formed |
| `Renaming.RemovalUndoesCreation` | kernel/dos/xfs_vdos.s:2765-2790 | creating an entry and removing it again leaves the old listing |
| `Renaming.RemoveOld` | kernel/dos/xfs_vdos.s:1505-1538 | the overlap tests leave exactly the old slots that the new entry does not occupy to be removed |
| `Renaming.Rename` | kernel/dos/xfs_vdos.s:1340-1538 | failure for exactly the reasons of the search with the old entry as special range, otherwise the new entry and the removal of what is left of the old one |
| `Renaming.OverlapIsWhole` | kernel/dos/vfat.c:1163-1170 | where the new entry meets the old one they have the same number of slots |
| `Renaming.SameSizeFits` | kernel/dos/vfat.c:1161-1170 | a listed entry can be renamed to a name that takes as many slots even in a full directory that cannot grow |
| `Renaming.RenamingKeepsListing` | kernel/dos/xfs_vdos.s:1340-1538 | the listing without the old entry and with exactly the new one; every other entry unchanged, and the same shape |
| `HfsExtents.GetFileSeg` | extensio/cd-mxfs/hfs.c:174-191 | a segment exists exactly for the bytes of the file and leads to the byte's place in the concatenated extents |
| `HfsExtents.FileRead` | extensio/cd-mxfs/hfs.c:200-224 | what the read loop delivers for every request: the rest of the extent, repeated |
| `HfsExtents.ReadsRightExactly` | extensio/cd-mxfs/hfs.c:200-224 | the loop is right on every medium if and only if the request stays inside one extent |
| `HfsExtents.NodeReadsAreRight` | extensio/cd-mxfs/hfs.c:227-240 | every 512-byte node read is such a request when 512 divides the allocation block size |
| `HfsNode.ReadNode` | extensio/cd-mxfs/hfs.c:239-242 | a node read delivers the node's bytes from wherever its extent lies |
| `HfsNode.GetRecordFromNode` | extensio/cd-mxfs/hfs.c:233-252 | for any node: the record if the offsets are in order, otherwise at most a stretch of the node, or an access outside it |
| `HfsNode.LayoutReadsBack` | extensio/cd-mxfs/hfs.c:243-251 | every record of a laid-out node is read back byte for byte, refused if it exceeds the buffer, and none is invented |
| `HfsCatalog.NextRecAt` | extensio/cd-mxfs/hfs.c:255-266 | stepping across node boundaries is stepping through one flat sequence of records |
| `HfsCatalog.EnterBelow` | extensio/cd-mxfs/hfs.c:302-314 | from a deciding record the lagging pointer leads to the right node one level down |
| `HfsCatalog.StepDescent` | extensio/cd-mxfs/hfs.c:302-314 | every pass of the loop keeps the invariant of the descent and makes progress, repeated node reads included |
| `HfsCatalog.FindLeafNode` | extensio/cd-mxfs/hfs.c:279-317 | the descent terminates at the leaf given in closed form |
| `HfsCatalog.DescentIsLowerBound` | extensio/cd-mxfs/hfs.c:279-317 | no leaf before the returned one holds a record with a parent ID of at least the one sought |
| `HfsCatalog.SkipBelow` | extensio/cd-mxfs/hfs.c:347-355 | the forward search stops at the first record that reaches the bound and fails only if there is none |
| `HfsCatalog.Locate` | extensio/cd-mxfs/hfs.c:338-355 | descent and forward search find the first such record of the whole catalog, or fail when there is none |
| `HfsCatalog.NextEntry` | extensio/cd-mxfs/hfs.c:429-473 | one call delivers the next visible record of the run and the position behind it, or the end |
| `HfsCatalog.ListFolder` | extensio/cd-mxfs/hfs.c:429-473 | repeated calls deliver the run in leaf order, once each, across node boundaries |
| `HfsCatalog.RunIsFolder` | extensio/cd-mxfs/hfs.c:429-473 | the run at the first record of a folder is the whole folder |
| `HfsCatalog.MembersExactly` | extensio/cd-mxfs/hfs.c:446-458 | the folder is made of its folder and file records and of its thread unless that names folder 1; each as often as in the leaves and in their order |
| `HfsFolder.FindInRun` | extensio/cd-mxfs/hfs.c:361-379 | the first wanted record of a run, or how the run ends |
| `HfsFolder.FindOwn` | extensio/cd-mxfs/hfs.c:364-427 | the folder's own record is found in its parent if and only if the cut parent ID meets no other one |
| `HfsFolder.OpenFolder` | extensio/cd-mxfs/hfs.c:336-427 | for an ID below 65536: a folder without records fails; otherwise the position of its first record, and `.` exactly when its parent is seen |
| `HfsFolder.SmallParentIsSeen` | extensio/cd-mxfs/hfs.c:367-368 | a parent ID below 65536 is always seen |
| `HfsFolder.DotCanBeMissed` | extensio/cd-mxfs/hfs.c:364-427 | folder 4000 in folder 70000: a well-formed catalog of three records in which `.` is missed |
| `HfsFolder.PackedPosition` | extensio/cd-mxfs/hfs.c:356-433 | a position on any chain of nodes survives being packed into a long and is never taken for a folder ID |
| `HfsFolder.GetDirEntry` | extensio/cd-mxfs/hfs.c:320-473 | one call: IDs below 65536 are opened, every other long is a position on some chain of nodes, with the entry or error that follows |
| `HfsFolder.ListById` | extensio/cd-mxfs/hfs.c:320-473 | repeated calls: for an ID below 65536 exactly the folder, file and thread records of the folder, as often as the leaves hold them and in their order, with or without `.`; for any other ID the run or the error that its bits name |
| `HfsFolder.LargeFolderIsMissed` | extensio/cd-mxfs/hfs.c:337-433 | for every ID from 65536 on, a catalog that describes the folder and in which it is not found |
| `HfsFolder.LargeFolderIsMistaken` | extensio/cd-mxfs/hfs.c:337-433 | a catalog in which folder 65537 lists a file of another folder |
| `SectorCache.Cache.constructor` | extensio/cd-mxfs/cfgread.c:137-142 | zeroed entries of a device that does not exist are a valid start |
| `SectorCache.Cache.Metaread` | extensio/cd-mxfs/metados.h:79-79 | the contract of a transfer: whole blocks of the medium, or an error that is never positive |
| `SectorCache.Cache.DCClear` | extensio/cd-mxfs/doscache.c:18-27 | invalidates exactly the entries of one device, which makes the cache truthful again after a media change |
| `SectorCache.Cache.GetFreeBuffer` | extensio/cd-mxfs/doscache.c:30-53 | the first invalid entry, otherwise one touched no later than any other while ages stay below 2^32 |
| `SectorCache.OldestIsFirstTouched` | extensio/cd-mxfs/doscache.c:38-52 | the greatest wrapped age belongs to the entry touched first |
| `SectorCache.Cache.LocateBlock` | extensio/cd-mxfs/doscache.c:56-69 | finds a block exactly when it is cached and changes only its time stamp |
| `SectorCache.Cache.GetBlock` | extensio/cd-mxfs/doscache.c:72-88 | the entry of a block; one transfer if it was not cached, whose failure is the only one; only the victim is overwritten |
| `SectorCache.Cache.ReadChunk` | extensio/cd-mxfs/doscache.c:101-124 | one pass of the loop, bulk or cached, delivers bytes of the device, or the error of its one transfer |
| `SectorCache.Cache.DCRead` | extensio/cd-mxfs/doscache.c:92-129 | exactly the requested bytes, or the error of the first transfer that fails; no transfer at all if the blocks are cached; every tagged entry stays equal to its block |
| `SectorCache.Cache.ChangeMedium` | extensio/cd-mxfs/doskern.c:81-93 | a media change followed by clearing keeps the cache truthful |
| `SectorCache.Cache.Run` | extensio/cd-mxfs/doscache.c:18-129 | over any run every read delivers what its medium held at that time or the error of a transfer, and the media are what the changes leave |
| `WavTrack.SwapStoresLittle` | extensio/cd-mxfs/tocfs.c:63-80 | storing a swapped long leaves its little-endian form, and swapping undoes itself |
| `WavTrack.HeaderIsCanonical` | extensio/cd-mxfs/tocfs.c:101-112 | the header announces sizes that account for the whole file and 16-bit stereo at 44.1 kHz |
| `WavTrack.SizeTellsKind` | extensio/cd-mxfs/tocfs.c:292-328 | the modulus test sends every reported length to the branch of its kind, the unsigned wrap included |
| `WavTrack.ReadSound` | extensio/cd-mxfs/tocfs.c:346-399 | head part, capped bulk reads and tail together deliver a stretch of sound exactly if all their transfers succeed, otherwise the first error |
| `WavTrack.ReadFile` | extensio/cd-mxfs/tocfs.c:306-400 | the branch taken; for sound the slice of the virtual file exactly if all its transfers succeed, otherwise the first error; an overrun exactly for requests that end in the header |
| `WavTrack.ReadInChunks` | extensio/cd-mxfs/tocfs.c:306-400 | consecutive calls make up the slice; they overrun exactly if the first cut falls inside the header |
| `WavTrack.ReadBothWays` | extensio/cd-mxfs/tocfs.c:306-400 | chunks and a single call deliver the same bytes whenever both succeed |
| `Drivers.LiveUpdate` | kernel/vdi/drivers.c:448-486 | how one table slot changes the number of live bitmaps of each driver |
| `Drivers.Manager.LoadDriver` | kernel/vdi/drivers.c:135-167 | the first driver that is or can be loaded and agrees in colours, planes, format and every flag asked for gains a reference; no other changes |
| `Drivers.OpensRight` | kernel/vdi/drivers.c:135-167 | a handle stands for a workstation of the first such driver, and without one there is no handle |
| `Drivers.Manager.UnloadDriver` | kernel/vdi/drivers.c:176-186 | one reference less, and no code after the last |
| `Drivers.Manager.CreateWk` | kernel/vdi/drivers.c:448-469 | the first closed slot from handle 2 on, or failure exactly without slot or memory |
| `Drivers.Manager.DeleteWk` | kernel/vdi/drivers.c:477-486 | closes the slot exactly if the workstation sits in it |
| `Drivers.Manager.CreateBitmap` | kernel/vdi/drivers.c:305-419 | fails exactly without a loadable driver that agrees with the request field by field, a slot, memory for the workstation or for the bitmap; which driver serves it, the state afterwards, and the one case in which a reference is lost |
| `Drivers.Manager.DeleteBitmap` | kernel/vdi/drivers.c:428-439 | releases one reference and one handle and keeps the invariant |
| `Drivers.Manager.OpenAndClose` | kernel/vdi/drivers.c:305-439 | closing undoes opening whenever opening succeeds |
| `Drivers.Manager.Run` | kernel/vdi/drivers.c:135-486 | over any run the state and every handle are those that the operations call for, each opening is served by the first driver that agrees with it field by field, lost references are accounted for, and the invariant holds |
| `Relocation.DecodeInverts` | kernel/vdi/drivers.c:243-266 | decoding inverts the 254-step encoding |
| `Relocation.ProgramIsEncodable` | kernel/vdi/drivers.c:243-266 | increasing even offsets four apart can be encoded and are decoded again |
| `Relocation.RelocationIsExact` | kernel/vdi/drivers.c:243-266 | every named longword grows by the base exactly once and no other byte changes |
| `Relocation.Relocate` | kernel/vdi/drivers.c:243-266 | the loop in place is the patching of the decoded offsets, and goes astray exactly on a stream without end or with an offset outside the image |
| `Relocation.LoadPrg` | kernel/vdi/drivers.c:194-283 | for every file: the loaded image, the failures, the files on which it goes astray, and an allocation that exceeds its contents by exactly the header |
| `Relocation.ProgramLoads` | kernel/vdi/drivers.c:194-283 | a file made of header, text, data, symbols and encoded fix-ups is loadable and yields exactly those fix-ups |
| `DragDrop.Link.SendOffer` | apps/magiccfg/dragdrop.c:107-132 | the bytes of an offer, and that a reply is awaited exactly when the header length fits 16 bits |
| `DragDrop.Link.ReceiveOffer` | apps/magiccfg/dragdrop.c:183-225 | a complete offer is taken off the pipe to its last byte |
| `DragDrop.ParsesMessage` | apps/magiccfg/dragdrop.c:107-225 | format, size and the cut name arrive, and the next message begins where the rest does |
| `DragDrop.Link.Handshake` | apps/magiccfg/dragdrop.c:74-170 | the receiver's formats reach the sender and the pipe is empty |
| `DragDrop.Link.Exchange` | apps/magiccfg/dragdrop.c:107-240 | over any sequence of offers every offer and every reply arrives, and both directions are empty in between |
| `DragDrop.ChooseEnding` | apps/magiccfg/dragdrop.c:37-51 | the retry loop takes the first free name of exactly 51 |
| `DragDrop.EndingsTried` | apps/magiccfg/dragdrop.c:37-51 | of all two-letter endings exactly those that begin with A are ever tried |
| `WideMul.Combine` | lib/mylibs/ll.c:58-66 | the carry is detected exactly, so the two longs are the weighted sum of the partial products |
| `WideMul.UMul` | lib/mylibs/ll.c:43-73 | high and low long together are the exact product |

## Left out

- Read and write errors of the directory device, and the alignment test at the start of `vf_crnam`: errors pass through unchanged, and positions that count slots are always aligned.
- The copying of names into caller buffers with its length checks (`kernel/dos/vfat.c:723-749`), attributes and inode numbers.
- What the source does after a store outside its buffers, because it depends on what lies there.
- Volumes without long names search with the older 8+3 comparison; `Opening` covers volumes with long names only.
- Moving an entry to another directory, with its entry `..`, and the open files that a renaming updates.
- Directories that are not well formed: `Directory.Create` covers what is written into them, and `Creation.FillingAddsOne` the listing where nothing is pending at the gap; the reader accepts a truncated run (`Creation.TruncatedRunIsAccepted`) and would join it to a new short entry with the same checksum.
- Creation.LongNameRoundTrip: names longer than 299 characters are outside the reader's buffer.
- SectorCache.Cache.Metaread: a failed transfer is taken to leave its buffer unchanged, which the driver interface does not promise.
- SectorCache.Cache.DCRead: requests of 32768 blocks or more are excluded, because the block count of a transfer is a signed word.
- HfsExtents.GetFileSeg: the first two extents together have fewer than 65536 blocks, as on every HFS volume, because the running total is a 16-bit word; 32-bit overflow of byte addresses is not modelled.
- HfsCatalog.FindLeafNode: catalogs with node numbers of 65536 and more are not well formed here, because the source cuts node numbers and links to a word.
- HfsFolder.GetDirEntry: a position on nodes whose links lead to an empty or missing node or in a circle is excluded; such a catalog is damaged, and the source may not return.
- The mapping of HFS record bytes to record fields, name conversion and dates; file extents beyond the first three.
- Mounting of volumes, labels and path limits; ISO 9660; the enumeration of audio tracks.
- Drivers.Manager.Run: stops before a driver's 16-bit counter would overflow, which takes more than 32000 lost references.
- Bitmap geometry, the pixel format transformation and the leaked temporary bitmap in `create_bitmap`; scanning for drivers at start-up.
- Time-outs, signals and message passing of drag and drop: the handshake is modelled from the point where the pipe exists.
