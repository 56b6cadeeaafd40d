# Proofs about dump and restore

Dafny models of five parts of the dump/restore programs, with proofs of what they promise.
`dafny verify dfyconfig.toml` checks everything.

1. **Extended attributes** (`restore/xattr.c`). A dumped attribute buffer is 4096 bytes in
   one of two layouts. `EntryChain.dfy` is the chain of entries, the check that bounds it
   and the count that relies on the check. `Acl.dfy` is the conversion of POSIX ACLs from
   the mixed on-disk form to the uniform one. `AttributeWalk.dfy` is the walk with its two
   callbacks, the restore and the comparison, on the file of `FileAttributes.dfy`.
   `Delivering.dfy` has the laws of walks over already decoded entries, `RestoreCompare.dfy`
   what restoring and comparing mean together, `BufferLayout.dfy` the two layouts, a
   serialiser and the way from one file to another, `AttributeBuffers.dfy` files whose
   attributes are dumped in several buffers.
2. **The streaming cipher** (`rmt/cipher.c`). `Cbc.dfy` is cipher block chaining as in
   section 6.2 of NIST SP 800-38A over any invertible block function. `StreamCipher.dfy` is
   the context kept across calls, the growing buffer and the decryption program.
3. **The archive file** (`common/legacy_indexer.c`). `DumpRecord.dfy` has dump records and
   their checksum, `Archive.dfy` the state machine that chooses and rewrites records.
4. **The quick-file-access index**, written by `common/legacy_indexer.c` and read by
   `restore/utilities.c`: `Decimal.dfy`, `QfaText.dfy`, `QfaWriter.dfy`, `QfaReader.dfy`.
5. **The path column** (`common/sqlite_indexer.c`): `EntryTable.dfy`.

`LittleEndian.dfy` has bytes and little-endian words, `Splitting.dfy` a reader of separated
text. Each part has results stated in literal bytes, record words or characters, apart from
the functions the code is written with: `ConversionInBytes`, `VerifyInBytes`,
`MeaningIsExact`, `EncryptBlock`, `OnlyTheseAreTransformed`, `ArchiveContents`,
`EligibleExactly`, `SplitText`, `PathsSplitExactly`. Constants are those of
`restore/restore.h` and `compat/include/protocols/dumprestore.h`.

What the proofs found in the code, each with its exact condition and an instance:

- The comment on `Inode2Tapepos` promises the position of the inode or, unless it has to
  match exactly, of the last smaller one. The first lookup on an open index does that. A
  later one goes on at the line where the one before it stopped, so it misses any line that
  an earlier lookup went past: after lookups that need not match, the answer is right if
  and only if some line lies above all inodes looked up so far and not above the new one,
  or there is nothing to find; an exact lookup that finds nothing uses up the whole index
  (`LaterAnswers`, `LaterNearestAnswers`, `LaterExactAnswers`; instances
  `SecondLookupCanFail`, `ThirdLookupCanFail`, `LookupAfterAMissFails`).
- `xattr_compare` decides equality on every file exactly when the dumped names are
  distinct (`CompareDecidesEquality`). When they are not, a just restored file is reported
  as changed (`RestoreThenCompare`; instance `DuplicatesFailTheComparison`).
- A file with attributes both in its inode and in a block is dumped in two buffers, and
  each is compared against the whole count. After a complete restore all comparisons are
  good exactly when duplicates agree and each buffer has as many entries as the file has
  names (`CompareAfterRestoringAll`); when no name was dumped twice, the comparison with one
  buffer is good exactly when all others are empty (`SeparateBuffersFail`,
  `ExtractThenCompare`), so such a file is always reported as changed (instance
  `InodeAndBlockFail`).
- `xattr_verify` bounds every entry header and name (`VerifyIsSufficient`), but not the
  values that the walk then copies (instance `VerifyDoesNotBoundValues`). The walk is
  defined for every file exactly when all values up to and including that of the first
  entry that does not decode are inside the buffer (`CopiesInsideExactly`).
- The reader of the index deletes the last character of each line, also when it is not a
  newline. In an index cut short by a write error that was latched, the blocks before the
  error are still found; the inodes after it get a wrong position exactly when a digit of
  the position is left in the cut line (`IndexAfterAnError`; instance `CutLineMisleads`).
- The stored paths of the entry table are right for a tree inserted in any order exactly
  when, for every row, the first row with its parent's inode is the parent's name row and
  came earlier (`PathsAreRightExactly`). A directory's `.` row inserted before its name row
  cuts the path short (instance `DotRowFirstCutsThePath`). The test program of the indexers
  passes the inode that `stat` finds as the parent's: the entry's own, unless it is a
  symbolic link or a mount point. Only rows below a `.` row that comes first, and below
  links and mount points that have a path themselves, get a path then
  (`StatInodeAsParent`).

## Model

| member | source | states |
|---|---|---|
| Acl.Ext3AclFromDisk | restore/xattr.c:232-308 | the loop over the value returns what the recursive reading of exactly the computed number of entries gives, in every case including a null pointer |
| Acl.PosixAclToXattr | restore/xattr.c:202-230 | the size, or -1 and an untouched buffer when it does not fit; otherwise the buffer begins with the uniform form and is unchanged after it |
| Acl.CountIsExactForAcceptedShapes | restore/xattr.c:186-200 | the count computed from the size alone is the number of entries just for one to three short entries, or four short ones and any number of long ones |
| Acl.Acceptance | restore/xattr.c:186-308 | a value is accepted as a list exactly when it is the version-1 disk form of that list, the entries are valid and the list has an accepted shape |
| Acl.XattrFormRoundTrip | restore/xattr.c:202-230 | reading the uniform form by offset gives back the list |
| Acl.ConversionPreservesMeaning | restore/xattr.c:497-507 | the converted value reads back as the list on disk and is longer by 4 bytes for each short entry, so by 4 to 16 |
| Acl.ConversionIsInjective | restore/xattr.c:497-507 | different accepted values convert to different ones |
| Acl.ConversionInBytes | restore/xattr.c:186-308 | an ACL value converts to x exactly when their bytes correspond: version 1 becomes 2, owner, owning group, mask and others get the id 0xFFFFFFFF, named users and groups keep theirs, and there are one to three short entries or exactly four |
| EntryChain.XattrVerify | restore/xattr.c:392-430 | GOOD exactly when the magic is known and the chain is terminated inside the buffer |
| EntryChain.XattrCount | restore/xattr.c:432-445 | without bounds checks of its own, counts the entries of a verified buffer |
| EntryChain.VerifyIsExact | restore/xattr.c:89-110 | the buffers accepted, and the offsets visited, are exactly those of a linked list of entries ended by a zero word |
| EntryChain.VerifyInBytes | restore/xattr.c:89-110 | the same in bytes: the two magic numbers, the first entry at 32 or 4, each next one after 16 bytes and the name at a multiple of 4, and four zero bytes |
| EntryChain.VerifyIsSufficient | restore/xattr.c:417-429 | header and name of every entry of a verified buffer are inside it, aligned and disjoint, there are at most (4092 - header) / 16, and after them all the chain ends at an aligned zero word inside the buffer |
| EntryChain.PositionStep | restore/xattr.c:439-440 | after k steps the unchecked loop stands at entry k, and it sees the terminator exactly after the last |
| FileAttributes.CountNames | restore/xattr.c:568-576 | on a list that is empty or ends in a NUL the scan stops at its end and counts the places where a non-empty name begins |
| FileAttributes.StartsOfJoin | restore/xattr.c:549-576 | for the list of some names that count is the number of names |
| FileAttributes.JoinSplits | restore/xattr.c:549-576 | split at its NULs, the list is the names |
| FileAttributes.File.LSetXattr | restore/xattr.c:339 | a setting is accepted or refused depending on the name, the value and what the file already has; an accepted one overrides that name only, a refused one changes nothing |
| FileAttributes.File.LListXattr | restore/xattr.c:549-566 | the length of the list, or the list |
| AttributeWalk.XattrCbSet | restore/xattr.c:324-347 | GOOD exactly when the system accepts the setting, which is then made |
| AttributeWalk.XattrCbCompare | restore/xattr.c:349-390 | GOOD exactly when the file has the attribute with that value |
| AttributeWalk.DecodeEntry | restore/xattr.c:455-507 | the full name and the value, converted if it is an ACL, or none for an unknown index or a bad ACL |
| AttributeWalk.MeaningIsExact | restore/xattr.c:460-507 | the prefix for each of the six name indexes; the value as it is, but converted for access and default ACLs only, and none if that fails; none for any other index |
| AttributeWalk.AclMeaning | restore/xattr.c:497-507 | an access or default ACL is delivered exactly when it is the disk form of a valid list of an accepted shape that fits, and then reads back as that list |
| AttributeWalk.DecodeInBytes | restore/xattr.c:76-120 | at which bytes of the entry its name, the offset of its value and its size are, in either layout |
| AttributeWalk.XattrWalk | restore/xattr.c:447-541 | on a verified buffer, whose entries are thereby inside it: one callback for each entry in order, up to the first that does not decode or whose callback fails; GOOD when there is none |
| AttributeWalk.XattrExtract | restore/xattr.c:601-613 | nothing is set from an unverified buffer; a verified one is walked |
| AttributeWalk.XattrCompare | restore/xattr.c:543-599 | GOOD exactly when the names can be listed, the counts agree and every entry decodes and holds; without a buffer, when the file has no attributes |
| Delivering.RestoreIsAnOrderedPrefix | restore/xattr.c:453-540 | a restore leaves the old attributes overridden by exactly the entries before the first that does not decode or that the system refuses after those before it |
| Delivering.WalkedCompare | restore/xattr.c:536-540 | a comparing walk changes nothing and is good exactly when all entries decode and hold |
| RestoreCompare.CompareAfterRestore | restore/xattr.c:543-613 | over any earlier attributes, a comparison after a restore is good exactly when duplicates agree and the names old and new are as many as the entries |
| RestoreCompare.RestoreThenVerify | restore/xattr.c:543-613 | restoring to a file without attributes and comparing is good exactly when the dumped names are distinct; otherwise the count test fails |
| RestoreCompare.RestoreThenCompare | restore/xattr.c:543-613 | the two operations run one after the other on any buffer: the restore is good exactly when the buffer is verified, every entry decodes and every setting is accepted in turn, the comparison then exactly when duplicates agree and the names old and new are as many as the entries; without old ones, when the names are distinct; with an undecodable entry both fail |
| RestoreCompare.CopiesInsideExactly | restore/xattr.c:453-541 | the walk copies only from inside the buffer, for every file and either callback, exactly when the values up to and including that of the first entry that does not decode are inside |
| RestoreCompare.CompareDecidesEquality | restore/xattr.c:572-598 | count and inclusion are equality with the dumped attributes, on all files, exactly when the dumped names are distinct |
| RestoreCompare.PrefixCode | restore/xattr.c:461-488 | a full name determines the name index and the rest |
| RestoreCompare.FullNamesAreDistinct | restore/xattr.c:461-492 | entries get the same full name exactly when index and name are the same |
| BufferLayout.WalkFindsTheList | restore/xattr.c:104-120 | a buffer that lays out a list, in either layout and with the values anywhere, is verified and decodes to the list |
| BufferLayout.LayoutIndependence | restore/xattr.c:112-120 | two buffers that lay out one list decode to the same entries |
| BufferLayout.SerialiseRoundTrip | restore/xattr.c:64-84 | serialising any list that fits, in either layout, and walking gives back the list |
| BufferLayout.DumpedAttributeMeans | restore/xattr.c:447-507 | each attribute dumped, in either layout, is delivered under its full name, ACLs in the uniform form |
| BufferLayout.DumpRestoreVerify | restore/xattr.c:447-613 | serialised, restored and compared, a list becomes the attributes of the file, and the comparison is good exactly when it had no duplicates |
| BufferLayout.DuplicatesFailTheComparison | restore/xattr.c:572-598 | a list with one attribute twice, which restores in full and then compares as changed |
| BufferLayout.VerifyDoesNotBoundValues | restore/xattr.c:409-430 | a buffer that the check accepts although its first value is not inside it |
| AttributeBuffers.CompareAfterRestoringAll | restore/xattr.c:543-613 | after a complete restore of several buffers every comparison is good exactly when duplicates agree and each buffer has as many entries as there are names, old and new |
| AttributeBuffers.SeparateBuffersFail | restore/xattr.c:572-598 | when no name was dumped twice, the comparison with one of several restored buffers is good exactly when all others are empty |
| AttributeBuffers.InodeAndBlockFail | restore/xattr.c:572-598 | one attribute serialised as from the inode and one as from a block, restored in full and then failing both comparisons |
| Cbc.EncryptConcat | rmt/cipher.c:98 | encryption in two parts, chained by the last ciphertext block, is encryption of the whole |
| Cbc.DecryptConcat | rmt/cipher.c:98 | the same for decryption |
| Cbc.DecryptEncrypt | rmt/cipher.c:98 | decryption inverts encryption |
| Cbc.EncryptBlock | rmt/cipher.c:98 | ciphertext block k is the image of plaintext block k xor ciphertext block k - 1, byte by byte |
| Cbc.DecryptBlock | rmt/cipher.c:98 | plaintext block k is the inverse image of ciphertext block k, xor ciphertext block k - 1 |
| StreamCipher.Cipher.Apply | rmt/cipher.c:23-110 | one call: null exactly without a key, in the other direction, for a part of a block or when the update fails; the direction latched, the buffer grown to twice the data and a block, the transformed data in it and the chaining value kept |
| StreamCipher.DecryptProgram | rmt/cipher.c:112-135 | an input of whole blocks is decrypted entirely with status 0; of any other, the whole 8 KiB chunks with status 1; a failing update stops it, a read or flush error shows in the status |
| StreamCipher.FaultsOnlyCut | rmt/cipher.c:112-135 | whatever fails, the output is a beginning of the full decryption, and status 0 means it is all of it |
| StreamCipher.DecryptedExactly | rmt/cipher.c:112-135 | how many bytes are decrypted, each block of them, and that the status is 0 exactly for whole blocks without a fault |
| StreamCipher.DirectionIsLatched | rmt/cipher.c:32-88 | over any run the first call that can read the key decides key and direction, even if it is then refused; before it nothing is accepted |
| StreamCipher.OnlyTheseAreTransformed | rmt/cipher.c:84-109 | over any run a call returns data exactly when it comes at or after the first with a key, has that one's direction and whole blocks, and the library does not fail; any other changes neither stream nor output |
| StreamCipher.InputIsTheirData | rmt/cipher.c:84-109 | what a run transforms is the data of those calls, in order |
| StreamCipher.StreamIsOneShot | rmt/cipher.c:84-109 | for any calls, refused and failed ones among them, the joined output is one-shot CBC of the joined accepted data |
| StreamCipher.StreamRoundTrip | rmt/cipher.c:23-135 | the decryption program turns the output of any encrypting run back into its input |
| StreamCipher.RefusedCallsAreInvisible | rmt/cipher.c:84-93 | once the direction is latched, leaving out the calls in the other direction or with a part of a block changes neither output nor state |
| StreamCipher.BufferIsBounded | rmt/cipher.c:94-97 | after k reallocations the buffer has at least 2^k blocks and at most twice what the longest data needs that got to the library |
| DumpRecord.MkChecksum | common/indexer_test.c:87-103 | the loop over four words at a time sets the checksum word, and no other, to CHECKSUM minus the wrapping sum of the rest |
| DumpRecord.TotalOfParts | common/indexer_test.c:95-101 | in the sum every word counts once, wherever the words are split |
| DumpRecord.ChecksumIsTheOnlyOne | common/indexer_test.c:102 | no other checksum word would be accepted |
| DumpRecord.ChecksumIsAccepted | common/indexer_test.c:92-102 | a record with its checksum set is accepted, and setting it again changes nothing |
| DumpRecord.OneWordChangeIsDetected | common/indexer_test.c:92-102 | an accepted record with one word changed is not accepted |
| Archive.LegacyIndexer.WriteRec | common/legacy_indexer.c:120-145 | one record: the active flag, and what is appended, if anything; a short write appends the first bytes of the record and is otherwise ignored |
| Archive.ArchiveIsTheKeptItems | common/legacy_indexer.c:123-143 | at every point of every run the archive is the items, in order and as far as they were written, under a header without attributes and not between a header that ends the archive's part of the tape and the next end-of-volume header |
| Archive.ArchiveContents | common/legacy_indexer.c:131-143 | a data record is archived word for word; a header with bit 0x80 of word 222 clear, word 7 such that all words sum to 84446, and nothing else changed; as far as it was written |
| Archive.ArchivedHeadersAreClean | common/legacy_indexer.c:131-138 | an archived header is marked uncompressed, passes the reader's test and is otherwise as written |
| Archive.ArchiveIgnoresCompression | common/legacy_indexer.c:134-138 | runs that differ in compression marks and header checksums only give identical archives |
| Decimal.AtolPrint | common/legacy_indexer.c:338-341 | a printed number reads back as itself |
| Decimal.PrintLength | common/legacy_indexer.c:338-341 | how long the numbers of each width can get |
| QfaText.ParseFormat | common/legacy_indexer.c:338-341 | a printed line decodes to the very three numbers it was printed from |
| QfaText.FormatFits | common/legacy_indexer.c:338-343 | a printed line has at most 43 characters, fits its 255-byte buffer and its numbers the reader's 32-byte ones |
| QfaText.LinesOfText | common/legacy_indexer.c:338-343 | the text of an index splits back into its lines |
| QfaText.FieldsOfFormat | common/legacy_indexer.c:338-341 | split at its tabs, a line is the numerals of inode, tape and position |
| QfaText.SplitText | common/legacy_indexer.c:338-343 | split at its newlines, the text of an index is its lines |
| QfaText.TextIsInjective | common/legacy_indexer.c:338-343 | a text is that of one index only |
| QfaWriter.EligibleTypes | common/legacy_indexer.c:268 | the bit test passes over block devices and sockets as well as directories, and no other file type |
| QfaWriter.EligibleExactly | common/legacy_indexer.c:265-270 | a header is listed exactly when word 6 is 60012, word 0 is 2, word 1 is the date of the dump, its mode is of a file type 0 to 3 or 8 to 11, and bit 0x8000 of word 222 is clear |
| QfaWriter.ListedInWords | common/legacy_indexer.c:262-288 | a block adds a line exactly when some record is such a header, with word 5 of the first |
| QfaWriter.Writer.UpdateQfa | common/legacy_indexer.c:251-290 | one tape block: the line of the first record to be listed, in characters, or the error latched; nothing without such a record or after an error |
| QfaWriter.Writer.MkTapeString | common/legacy_indexer.c:329-348 | one whole line, or a proper beginning of it and the value of errno |
| QfaWriter.TextIsListed | common/legacy_indexer.c:258-288 | an error-free run writes one line for each block with an eligible header |
| QfaWriter.ErrorsStopTheIndex | common/legacy_indexer.c:274-283 | after the first error number other than 0 nothing more is written |
| QfaWriter.LineOfBlock | common/legacy_indexer.c:262-288 | the line of a block is the last one not above any eligible inode in it |
| QfaReader.LookupFindsTheBlock | common/legacy_indexer.c:252-348 | what was written, read back: looking up any eligible inode gives the tape and position of the very block that holds its header, as the first lookup, and after any others exactly when they went past no line up to that block's (or its tape and position are 0) |
| QfaReader.IndexAfterAnError | common/legacy_indexer.c:268-348 | in the index of a dump that latched an error, the blocks before it are found; an inode after it gets the last line before the error or position 0, unless a digit of the position is left in the cut line, when it gets a position that is not 0 and not the block's |
| EntryTable.Table.AddDirEntry | common/sqlite_indexer.c:318-375 | the refusals, the failures with and without the row stored, and the row inserted otherwise |
| EntryTable.Table.InsertRow | common/sqlite_indexer.c:197-200 | the insertion and the trigger's update of the new row |
| EntryTable.PathColumn | common/sqlite_indexer.c:197-200 | after any run each row's path is `.`, or the path of the first earlier row of its parent and its own name |
| EntryTable.PathsAreRightExactly | common/sqlite_indexer.c:197-200 | the stored paths are the paths from the root exactly when every row's parent came first |
| EntryTable.PathsSplitExactly | common/sqlite_indexer.c:197-200 | the stored paths, split at slashes, are a dot and the names from the root down, exactly when every row's parent came first |
| EntryTable.OrderedInsertionsAreRight | common/sqlite_indexer.c:318-375 | every stored path is right if each directory's name row comes before its `.` row and before the rows of what is in it, and the root's `.` row before those in the root |
| EntryTable.OrderedPathsSplit | common/sqlite_indexer.c:197-200 | in that order they do, and two chains are stored under one path exactly when their names are the same |
| EntryTable.RowsKeepEntries | common/sqlite_indexer.c:335-338 | the other columns of each row are those of the entry inserted |
| EntryTable.ChainTo | common/sqlite_indexer.c:197-200 | in that order every row that is not a `.` row hangs from the root, so has a path |
| EntryTable.DotRowFirstCutsThePath | common/sqlite_indexer.c:197-200 | four rows of a tree in an order that stores a file's path without its directory |
| EntryTable.StatInodeAsParent | common/indexer_test.c:158-177 | whatever is passed as the parent: no path without an earlier row of that inode, `./name` below a `.` row, none below a row that is its own parent, and below any other, a link or mount point, that row's path and the name |

## Readers and callers

The other side of two of the formats, and the caller of the archive, are modelled too:

| member | source | states |
|---|---|---|
| DumpRecord.Checksum | restore/tape.c:2960-2985 | the reader's loop accepts exactly the records whose wrapping sum is CHECKSUM |
| Archive.LegacyIndexer.WriteHeader | dump/traverse.c:1341-1349 | a header becomes the current one and is recorded |
| QfaReader.Reader.Inode2Tapepos | restore/utilities.c:551-612 | one lookup: its answer, and where the next one goes on |
| QfaReader.ReadNumber | restore/utilities.c:575-579 | copies a field to a 32-byte buffer and converts it |
| QfaReader.ScanNearest | restore/utilities.c:603-609 | a lookup that is not exact answers with the line before the first one above the inode |
| QfaReader.ScanExact | restore/utilities.c:597-602 | an exact lookup finds the next line about the inode, or answers zeros and uses the index up |
| AttributeBuffers.ExtractAttr | restore/tape.c:1060-1095 | every buffer of a file is restored, one after another, whether or not those before it failed |
| AttributeBuffers.CompareAttr | restore/tape.c:1693-1731 | good exactly when the file agrees with every buffer or, without one, has no attributes |
| AttributeBuffers.ExtractThenCompare | restore/tape.c:1060-1731 | both loops on a file without attributes, no name dumped twice: good exactly when there is at most one buffer, or nothing in any |
| AttributeBuffers.RestoredAllIsOneRestore | restore/tape.c:1081-1086 | restores of several buffers are all good exactly when one restore of all the entries is, and then come to the same |
| QfaText.ParseCut | restore/utilities.c:569-594 | a line cut short is unreadable without its two tabs, and otherwise reads as its inode, its tape and what is left of the position |
| Decimal.AtolCut | restore/utilities.c:594 | a numeral cut short reads as the number without the missing digits: another one unless it is 0, and 0 just when no digit is left |
| QfaReader.CutLineMisleads | restore/utilities.c:566-569 | 50 is read for position 500 when only the newline is missing |
| QfaText.LinesAreSplit | restore/utilities.c:566-569 | the lines read are the pieces between newlines, and what follows the last without its last character |
| QfaText.FieldsAreSplit | restore/utilities.c:570-594 | the numbers read are those of the first three pieces between tabs, if there are three |
| QfaReader.UnsignedWraps | restore/utilities.c:578 | an inode is read as the same 64 bits without a sign |
| AttributeBuffers.UnverifiedIsSkipped | restore/tape.c:1081-1086 | a buffer that delivers nothing does not stop the restoring of the others |
| QfaReader.RightFrom | restore/utilities.c:539-612 | begun at any line, a lookup gives the documented answer exactly when the documented line is not before the start, or there is none, or it holds zeros |
| QfaReader.PositionIsUndisturbed | restore/utilities.c:562-569 | a run of lookups of both kinds stops at or before a line exactly when each exact one found its line and none went past that line or one that a later exact lookup found |
| QfaReader.LaterAnswers | restore/utilities.c:539-569 | the answer after any run of lookups of both kinds is the documented one exactly when the run left the documented line undisturbed, or there is none, or it holds zeros |
| QfaReader.LaterNearestAnswers | restore/restore.c:951-960 | the lookups of an extraction: after any number of them the answer is right exactly when some line lies above all inodes looked up and not above the new one, or none is to be found, or it holds zeros |
| QfaReader.LaterExactAnswers | restore/restore.c:93-96 | the lookups of a listing: the answer is right exactly when the inode is not listed, or all those before it were and came in order, or its line holds zeros |
| QfaReader.SecondLookupCanFail | restore/utilities.c:544-549 | two lookups in one tape block, the second answered with zeros |
| QfaReader.ThirdLookupCanFail | restore/utilities.c:544-549 | three lookups with a line between the last two inodes, the third answered wrongly |
| QfaReader.LookupAfterAMissFails | restore/utilities.c:541-543 | an exact lookup that misses, and the listed inode after it answered with zeros |

## Left out

- AttributeWalk.XattrWalk: requires that each value it copies, of an entry actually reached, lies inside the buffer; `xattr_verify` does not establish that, and the C copy is undefined without it (`CopiesInsideExactly`). XattrExtract and XattrCompare require it of the walk they start.
- AttributeWalk.XattrCompare: running out of memory is not modelled, nor a file that changes between the two listing calls.
- FileAttributes.File.LSetXattr: a value is stored as given; a system that rewrites ACLs is not modelled.
- StreamCipher.Cipher.Apply: a failing reallocation is not modelled; a failing update is taken to leave the library's context unchanged; data must be short enough for the buffer size to be an int.
- StreamCipher.DecryptProgram: the output is what is handed to the standard output stream; a write error that a later flush does not report is not modelled.
- QfaReader.IndexAfterAnError: a short write that finds errno 0 is not latched, and later lines follow the cut one; what a reader makes of that is not stated.
- AttributeBuffers.ExtractAttr: the buffers are those read from the tape; one larger than 4096 bytes, which is skipped, and other kinds of inode extension are not modelled.
- QfaWriter.Writer.MkTapeString: the five lines that head the file are not modelled.
- QfaReader.Reader.Inode2Tapepos: the file is the sequence of lines that `fgets` returns, all short enough for the buffers; failing seeks are not modelled.
- EntryTable.Table.AddDirEntry: inode numbers are those bound to the statement, as 32-bit ints; larger ones are not modelled.
- EntryTable.Table.InsertRow: the scalar subquery takes the row with the lowest rowid, as a table scan does; the other columns of the schema and the other tables are not modelled.
- Big-endian conversions, SELinux contexts, the `-d` listing and `-N` of restore.
- Reading the key file and deriving the key: their outcome is a parameter of each call.
- Signed 32-bit overflow in the checksum loop, undefined in C, is taken to wrap around; `long` is taken to have 64 bits.
- The other transformations, the slaves that write the tape, the no-op indexer hooks and the inode and backup tables: thin wrappers or nothing to prove.
