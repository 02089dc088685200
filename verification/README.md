# A verified model of the archive library and of the event and RPC stack

The project models two parts of the repository in Dafny and proves what they
promise, and a small third one.

**Archives** (`3rdparty/minizip`, `modules/core/src/zip_input.cpp`): the writer that
stores entries, back-patches local headers, grows the directory in blocks and appends
to existing archives; the reader that finds the end record from behind, walks the
directory, checks local headers and streams entries; the repairer; and the access layer
that lets many readers share one mapped file. The formats are those of the PKWARE .ZIP
File Format Specification (APPNOTE.TXT, sections 4.3.7, 4.3.12, 4.3.14 to 4.3.16, 4.5.3
and 6.1). A file is a byte string with a position. `unsigned long` is 32 bits wide, so
that the zip64 sentinels mean what the tests in the reader expect; `ZPOS64_T` is 64
bits. Writer and reader are proved against the same encodings, but are modelled
separately, each from its own code.

**Events and RPC** (`modules/core`, `modules/event`, `modules/socket`, `modules/rpc`):
the bucket queue, the watched connection, packet framing, timed events, the hand-over of
events between threads, the watch bookkeeping and its reconciliation with the main loop.
Objects are classes; what spans several threads or both ends of a connection is a state
machine whose runs are all interleavings.

**Whitespace normalisation** of configuration strings (`modules/widget_dao`).

Each file holds one module. `Bytes`, `Checksum`, `Cipher`, `Format`, `Stream`, `Entry` and
`DataBlocks` are the base of the archive part; `EndSearch`, `EndRecord`, `HeaderIo`,
`CentralIo` and `ZipWriter` follow the writer, `Records`, `Catalog` and `ZipReader` the
reader, and `Archive`, `CommentField`, `RoundTrip`, `Leading`, `Repair`, `RepairWritten`,
`ZipInput` and `ExtraBlocks` join them. `ChecksumLaws`, `CipherLaws`, `Headers`, `Damage` and
`Conditions` say in independent terms what the arithmetic, the headers, the checks and the
conditions of the main results come to.
`BinaryQueue`, `QueuePool`, `WaitModes`, `ExecutionContext`, `RpcConnection`, `RpcRun`,
`TimedEvents`, `WakeUp`, `WatchSupport`, `WatchReload` and `Normalize` are the rest. Methods follow the
code step by step; the functions in their contracts say what the steps amount to, and
the lemmas say what holds of these functions.

`dafny verify dfyconfig.toml` checks everything.

## What the code does otherwise than its comments or callers expect

Each of these is a lemma with the exact condition, or a stated contract.

- A zip64 directory field is appended behind the entry comment, where a reader does not
  look: sizes and position come back exactly if there is no comment or none of them is
  above 0xffffffff (`CommentField.ComesBackIff`). Behind a comment of two bytes the walk
  over the extra field ends up inside the zip64 field; there the same holds when one
  number needs the field (`CommentField.TwoBytesOneNumberIff`) or when bits 8 to 23 of
  the first number reach beyond it (`CommentField.TwoBytesIff`), and otherwise the bytes
  of two numbers and of the next record can happen to look like the right field
  (`CommentField.TwoBytesByChance`).
- The position in a zip64 directory field is not corrected for leading bytes, although
  the reader adds them (`Archive.ReportedIff`).
- The reader does not skip what is left of a zip64 record once it has the numbers that are
  missing in the header, and loses its place in the extra field (`Archive.Zip64SkippedIff`).
- Adding to an archive with an ordinary end record and more than 0xffff entries, so that
  the directory moves to 4 GB or further, records a wrong number of entries
  (`RoundTrip.AppendArchive`, `Archive.EndPartCount`).
- The walk over 0xffff or more entries listed in an ordinary end record ends in an error
  instead of the end of the list (`RoundTrip.ReadArchive`).
- An entry that reaches 0xffffffff bytes without the zip64 flag fails the header check
  (`Archive.CheckEntryIff`).
- The position in the zip64 locator is not corrected for leading bytes either: an archive
  whose directory starts 4 GB or more behind its beginning is found through its zip64
  records exactly if nothing stands in front of it (`Archive.LocateZip64`). Otherwise the
  reader accepts the ordinary end record and looks for the directory 76 bytes too far on
  (`Archive.LocateMisplaced`). Adding entries can make such an archive
  (`RoundTrip.AppendArchive`).
- Adding to an archive that ends in zip64 records drops its comment, and when the new
  entries take less room than the comment took, the end of it stays behind the new end
  record (`RoundTrip.AppendZip64`).
- `ZipInput` cannot open an archive with a global comment, and lists no more than 65535
  entries of one with an ordinary end record (`ZipInput.ZipArchive.Open`,
  `ZipInput.OrdinaryCount`).
- An archive whose end record is at position 0, that is, without entries, is opened by
  the appending writer only (`EndRecord.LocateDirectory`, `Archive.EndFoundIff`).
- Re-opening a connection that has unsent output leaves it unwatched
  (`ExecutionContext.ReopenStrands`).
- A payload of 65536 bytes or more is not read back (`RpcConnection.FramedIff`).
- A due time that wraps around 32 bits releases the event at once
  (`TimedEvents.NeverEarlyIff`).
- An event that is due but not yet drained when the 32-bit clock wraps is overlooked until
  the clock reads its due time again, and the event loop waits up to 49.7 days
  (`TimedEvents.OverlookedIff`, `TimedEvents.WaitInTimeIff`,
  `TimedEvents.OverlookedExample`).
- A full pipe deadlocks an event loop with its pushers, because a pusher signals while it
  holds the mutex. A `Thread`, which reads its byte inside the critical section, is lost
  as soon as a pusher has the mutex and no room; the main dispatcher, which reads before it
  locks, only if the pipe was filled again between the two (`WakeUp.SettlesIff`,
  `WakeUp.BlockedReached`).
- A listener removed during a dispatch is still called (`WatchSupport.RemovedStillCalled`).
- `BinaryQueue::Write` ignores its size argument (`BinaryQueue.Queue.Write`).
- Letters such as U+00E0 count as white space, and U+201F does by a missing break
  (`Normalize.IsSpaceIff`).

## Model

| member | source | states |
|---|---|---|
| RoundTrip.WriteArchive | 3rdparty/minizip/zip.c:849-918 | creating an archive, storing any list of plain entries, each cut into any pieces, and closing it: the file consists of exactly these entries, their directory and an end part, so it is an archive of them, with their names, joined contents, sizes and checksums, in order; a comment without zeros is the comment of the archive, any other ends at its first zero; if the archive ends plainly (some entries, all below 4 GB, no later end signature, no zip64 locator) it meets all that reading back asks for |
| RoundTrip.PlainReadable | 3rdparty/minizip/unzip.c:584-762 | an archive that ends plainly, of entries below 4 GB with arguments in range, meets everything that reading back needs |
| RoundTrip.PlainReadableIff | 3rdparty/minizip/unzip.c:584-762 | below 4 GB it can be read back only if it ends plainly |
| Conditions.OrdinaryJob | 3rdparty/minizip/zip.c:1055-1262 | any name, date, level, comment and extra field that fit, with contents below 4 GB, make a job that is written and read back as these results say; below 2 GB with short names also one that can be repaired |
| Conditions.WellFormedIff | 3rdparty/minizip/unzip.c:1012-1078 | an extra field made of whole records is well-formed exactly if none of them is a zip64 one |
| Conditions.OrdinaryIff | 3rdparty/minizip/unzip.c:413-467 | a file below 4 GB counts as having an ordinary end exactly if the backward scan finds that end record and no zip64 record is used |
| RoundTrip.ReadArchive | 3rdparty/minizip/unzip.c:1178-1221 | opening a readable archive, walking it and reading every entry in reads of any positive length: names, recorded sizes, checksums, positions, every other argument the entry was written with, and contents come back in order, every header check and every checksum test passes, and the walk ends at the last entry: with the end of the list, or with an error when the number of entries is recorded as 0xffff |
| RoundTrip.LargeReadable | 3rdparty/minizip/unzip.c:623-682 | an archive whose directory starts 4 GB or more behind its beginning, with entries of any size, meets everything that reading back needs exactly if nothing stands in front of it |
| Conditions.LargeEntry | 3rdparty/minizip/zip.c:1055-1262 | an entry of any 64-bit size opened with the zip64 flag and no comment can be made out and opened |
| Conditions.Zip64TailIff | 3rdparty/minizip/unzip.c:473-577 | the zip64 records at the end of a large archive are those used exactly if the scan finds no later locator |
| RoundTrip.AppendArchive | 3rdparty/minizip/zip.c:640-842 | re-opening an archive behind any leading bytes in add mode, adding entries and closing with a NULL comment gives an archive of the old entries followed by the new ones with the same comment, unless there were more than 0xffff entries and the new directory starts at 4 GB or later, when it does not; every byte in front of the old directory is unchanged; ending plainly again, the result can be read back; ending in zip64 records, exactly if nothing stands in front of it |
| RoundTrip.AppendZip64 | 3rdparty/minizip/zip.c:713-715 | the same for an archive that ends in zip64 records: the file is the old entries, the new ones, both directories and an end part without comment, followed by what the new end does not cover of the old comment; it is an archive exactly when that is nothing |
| Leading.Prefixed | 3rdparty/minizip/zip.c:805-838 | any bytes put in front of an archive leave an archive of the same entries, that many bytes further on, as long as no entry gets to 4 GB |
| Leading.DirMoved | 3rdparty/minizip/zip.c:1163-1166 | the directory of an archive does not depend on the bytes in front of it |
| Leading.WriteAddRead | 3rdparty/minizip/zip.c:640-842 | entries are zipped, any bytes are put in front, more entries are added and the archive is read: if both files are below 4 GB with an end record that the scan finds, all names and contents come back in order behind the unchanged leading bytes |
| Archive.EndPartCount | 3rdparty/minizip/zip.c:1813-1841 | a number of entries capped at 0xffff on loading gives the same end part exactly when it was not capped or no zip64 record is needed |
| RoundTrip.WriteJobs | 3rdparty/minizip/zip.c:1055-1262 | any number of entries written one after the other are recorded in order behind those already there |
| RoundTrip.ReadEntry | 3rdparty/minizip/unzip.c:1684-1793 | reading in any positive chunk length until nothing comes returns exactly the entry, and leaves the checksum of its bytes |
| RoundTrip.EntryReadable | 3rdparty/minizip/unzip.c:1385-1466 | in a readable archive every entry decodes to its own information, passes the local-header check and has its payload to deliver |
| Archive.ClosedArchive | 3rdparty/minizip/zip.c:1879-1946 | what the writer leaves in the file when it closes is an archive: directory, end part and every local header with its payload where the entries say |
| Archive.NoStaleTail | 3rdparty/minizip/zip.c:1902-1934 | after an append the file has no bytes of the old end part behind the new one |
| Archive.ArchiveStands | 3rdparty/minizip/unzip.c:879-1119 | the directory of an archive is, to the reader, a sequence of decodable records, and what follows it is not one |
| Archive.OpenDelivers | 3rdparty/minizip/unzip.c:1472-1639 | opening any entry the header check admits makes exactly its payload readable, whether raw or not, with the recorded sizes and checksum; an entry compressed by bzip2 is always read raw |
| EndSearch.SearchSignature | 3rdparty/minizip/unzip.c:413-467 | the backward scan in overlapping chunks finds the greatest position in the last 0xffff bytes where the signature stands, or 0; no signature across two chunks is missed, and the scan ends |
| Archive.EndFoundIff | 3rdparty/minizip/zip.c:480-534 | the end record is the one the scan finds exactly when the file is not empty in front of it, the comment is short enough, and no later signature exists |
| EndRecord.LocateDirectory | 3rdparty/minizip/unzip.c:618-750 | finding the directory through the zip64 or the ordinary end record with the consistency checks, as a function of the bytes, for the reader (strict) and the appending writer (tolerant) |
| EndRecord.LocateBounds | 3rdparty/minizip/zip.c:790-820 | a located directory lies inside the file in front of its end record |
| Damage.LocateOrdinaryIff | 3rdparty/minizip/unzip.c:684-750 | a directory is found through an ordinary end record exactly if the record is complete, all its disk numbers are zero, both counts are equal, and the directory fits in front of it |
| Damage.LocateZip64Iff | 3rdparty/minizip/unzip.c:623-682 | the same through a zip64 end record |
| Damage.Zip64EndPosIff | 3rdparty/minizip/unzip.c:537-577 | the zip64 end record used is the one named by a complete last locator of a one-part archive that leads to such a record |
| Archive.LocatePlain | 3rdparty/minizip/unzip.c:684-750 | the directory of an archive with an ordinary end is found at its place, with the number of leading bytes recomputed |
| Archive.LocatePlainIff | 3rdparty/minizip/unzip.c:413-467 | it is found there exactly when the scan finds the end record: a comment short enough, no later signature and no zip64 locator |
| Archive.LocateZip64 | 3rdparty/minizip/unzip.c:473-577 | the zip64 end record, and with it the directory, is found at its place exactly when nothing stands in front of the archive |
| Archive.LocateMisplaced | 3rdparty/minizip/unzip.c:684-750 | behind other bytes, unless the locator hits another zip64 end record by chance, the ordinary end record is taken, the directory is looked for 76 bytes behind its start, and the first file exists exactly if a record stands there |
| HeaderIo.WriteEnd | 3rdparty/minizip/zip.c:1813-1877 | the end record and the comment are appended with saturated count, size and offset |
| HeaderIo.WriteZip64End | 3rdparty/minizip/zip.c:1752-1811 | the zip64 record and its locator are appended, the locator naming the record |
| Bytes.GetPut | 3rdparty/minizip/zip.c:287-308 | a number stored in n bytes is read back as itself, or as all ones when it does not fit |
| Bytes.PutGet | 3rdparty/minizip/unzip.c:239-259 | every n-byte field is what storing its number gives |
| Stream.PutValueInMemory | 3rdparty/minizip/zip.c:311-327 | the loop of both store functions writes the saturated little-endian bytes |
| Stream.File.GetValue | 3rdparty/minizip/unzip.c:234-340 | reading byte by byte gives the little-endian number, or zero and an error exactly when the file ends first |
| Format.CentralRoundTrip | 3rdparty/minizip/unzip.c:905-966 | a central header that is in range, wherever it stands, decodes to itself |
| Format.LocalRoundTrip | 3rdparty/minizip/unzip.c:1385-1466 | the same for a local header |
| Format.EndRoundTrip | 3rdparty/minizip/unzip.c:695-736 | the same for the end record |
| Format.Zip64EndRoundTrip | 3rdparty/minizip/unzip.c:635-680 | the same for the zip64 end record |
| Format.LocatorRoundTrip | 3rdparty/minizip/unzip.c:537-572 | the same for the zip64 locator |
| Archive.ParseEntry | 3rdparty/minizip/unzip.c:1012-1078 | for any 64-bit sizes and position the fields the writer adds to a record are exactly those the reader takes, the extra-field loop ends aligned, and sizes and position are recovered (with what the base does to the position) |
| Archive.ReportedIff | 3rdparty/minizip/zip.c:1679-1683 | the recovered position is right exactly when it is below 4 GB or no bytes precede the archive, because the zip64 field is not corrected for them |
| CommentField.ComesBackIff | 3rdparty/minizip/zip.c:1659-1665 | for an entry with any comment but one of two bytes, and any well-formed extra field, the reader gets sizes and position right exactly when there is no comment or none of them exceeds 0xffffffff |
| CommentField.CommentEndsWalk | 3rdparty/minizip/unzip.c:1012-1078 | with such a comment in front of the zip64 field the walk over the extra field ends at its first step and leaves the sentinels |
| CommentField.SecondRecord | 3rdparty/minizip/unzip.c:1020-1076 | with a comment of two bytes the walk takes two steps into the zip64 field and goes on by bits 8 to 23 of its first number |
| CommentField.TwoBytesIff | 3rdparty/minizip/zip.c:1659-1665 | two bytes, and that number of bytes leads beyond the field: the same condition |
| CommentField.TwoBytesOneNumberIff | 3rdparty/minizip/zip.c:1659-1665 | two bytes, one number in the field, and another record behind: the same condition, whatever the walk hits upon |
| CommentField.TwoBytesThirdIff | 3rdparty/minizip/unzip.c:1012-1078 | two bytes, and a third step of the walk that reaches to the end: the numbers come back exactly if that step sees a zip64 record with their very bytes |
| CommentField.TwoBytesByChance | 3rdparty/minizip/unzip.c:1028-1073 | two bytes and two numbers, with the next record chosen so that the walk reads the right numbers from the wrong place |
| Archive.CheckEntryIff | 3rdparty/minizip/unzip.c:1440-1448 | the local-header check admits an entry exactly when its size is below 0xffffffff, or it was opened with the zip64 flag, or bit 3 is set |
| Archive.Zip64SkippedIff | 3rdparty/minizip/unzip.c:1028-1076 | behind a zip64 record the walk stands at the next one exactly when the record held the numbers missing in the header and nothing more |
| CentralIo.BuildCentral | 3rdparty/minizip/zip.c:1132-1182 | the central header built in memory when an entry is opened |
| Headers.FlagBits | 3rdparty/minizip/zip.c:1114-1122 | bit 0 of the flags is set for an encrypted entry, bits 1 and 2 by the level, and every bit that the caller set stays |
| Headers.InfoTells | 3rdparty/minizip/zip.c:1132-1182 | the record of an entry has its arguments, its checksum, the real sizes and position, and a version that can read it |
| Headers.LocalTells | 3rdparty/minizip/zip.c:958-1045 | the local header of a closed entry has its arguments and checksum, its sizes or the sentinels with the sizes in the zip64 field, contents first, and name and extra field behind it |
| Headers.EndTells | 3rdparty/minizip/zip.c:1813-1877 | the end record as the reader decodes it: no more than 65535 entries, the low 32 bits of the size of the directory, its place, and the comment |
| Headers.SignatureBytes | 3rdparty/minizip/zip.c:103-107 | the signatures are the bytes of the format |
| CentralIo.CompleteCentral | 3rdparty/minizip/zip.c:1610-1694 | closing an entry turns it into the final record with the conditional zip64 field; the 32 reserved bytes suffice |
| CentralIo.StoreZip64 | 3rdparty/minizip/zip.c:1649-1694 | the zip64 field holds exactly the numbers whose 32-bit fields are sentinels, in order, and its length |
| HeaderIo.WriteLocalHeader | 3rdparty/minizip/zip.c:958-1045 | the local header written for an open entry, and where its zip64 field stands |
| HeaderIo.UpdateLocalHeader | 3rdparty/minizip/zip.c:1701-1739 | back-patching changes checksum and sizes (or the zip64 field) of that header and no other byte of the file |
| ZipWriter.Writer.Write | 3rdparty/minizip/zip.c:1401-1506 | between calls, bytes flushed plus the pending part of the buffer are everything passed in, room and position add up to the buffer size, totals and pending parts equal the input length, and the checksum covers the input |
| ZipWriter.Writer.StoreAll | 3rdparty/minizip/zip.c:1452-1502 | the copying loop of the store branch keeps that pipeline |
| ZipWriter.Writer.Flush | 3rdparty/minizip/zip.c:1362-1399 | a flush sends the pending bytes, encrypted with keys that continue the stream when there is a password |
| ZipWriter.Writer.OpenNewFile | 3rdparty/minizip/zip.c:1055-1262 | opening an entry closes the one before, writes the local header and the encryption head, and starts from nothing; deflated entries are refused here |
| ZipWriter.Writer.CloseFileRaw | 3rdparty/minizip/zip.c:1513-1745 | closing an entry appends its finished record, and the file holds the entry with patched header |
| ZipWriter.Writer.RecordDirectory | 3rdparty/minizip/zip.c:1696-1697 | the finished record joins the directory under construction |
| ZipWriter.Writer.RecordLocal | 3rdparty/minizip/zip.c:1701-1744 | the header in the file becomes the one of the closed entry |
| ZipWriter.Writer.Close | 3rdparty/minizip/zip.c:1879-1946 | an open entry is closed, then the directory and the end part follow the entries; a comment without zeros counts as it is, any other up to its first zero, and NULL keeps the loaded one |
| ZipWriter.CStringIs | 3rdparty/minizip/zip.c:1859-1876 | of a C string exactly what stands in front of its first zero counts, and all of it exactly if it has none |
| ZipWriter.FinishedTells | 3rdparty/minizip/zip.c:1600-1745 | closing records the arguments, the position and the input: as it was passed in, or with a password so that it decodes to that behind twelve bytes; checksum and size are those of the input, or those given for a raw entry |
| ZipWriter.Writer.WriteDirectory | 3rdparty/minizip/zip.c:1904-1918 | the blocks of the directory are written one after the other and their sizes summed |
| ZipWriter.Writer.Load | 3rdparty/minizip/zip.c:640-842 | loading takes over directory, count, comment and leading bytes of an existing archive and changes no byte |
| ZipWriter.Writer.constructor | 3rdparty/minizip/zip.c:849-918 | opening to create or to create behind existing bytes |
| DataBlocks.BlockList.AddData | 3rdparty/minizip/zip.c:225-274 | adding data to the chain of fixed-size blocks appends it to the bytes stored, and only the last block has room |
| Cipher.EncryptAppend | 3rdparty/minizip/zip.c:1366-1374 | cutting the input into pieces does not change the ciphertext, so the flushed bytes equal encrypting the whole at once |
| Cipher.Lockstep | 3rdparty/minizip/crypt.h:76-80 | decoding what was encoded returns it and leaves both sides with equal keys |
| Cipher.LockstepBack | 3rdparty/minizip/crypt.h:76-80 | every string is the encoding of its decoding |
| Cipher.EntryDecrypts | 3rdparty/minizip/crypt.h:61-129 | an encrypted entry, head and body, decodes under the password to the decoded head followed by the input |
| Cipher.CryptHead | 3rdparty/minizip/crypt.h:90-129 | the head leaves the keys that follow its decoding, which ends in the two high bytes of the checksum; the twelve bytes are the coded random ones and the coded check bytes |
| Cipher.EncodeAll | 3rdparty/minizip/zip.c:1366-1374 | the byte loop of flush and head is the specified encryption |
| Cipher.WidthIndependent | 3rdparty/minizip/crypt.h:48-58 | with a 64-bit unsigned long the middle key is wider but stays congruent, and the cipher gives the same bytes as with 32 bits |
| CipherLaws.MaskBits | 3rdparty/minizip/crypt.h:76-80 | every bit of a coded byte is that of the plain byte, inverted exactly where the key-stream byte has a one |
| CipherLaws.ClearIff | 3rdparty/minizip/crypt.h:76-80 | a byte stays in the clear exactly when the key-stream byte is zero, and key-stream bytes that differ give different codes |
| CipherLaws.KeyStream | 3rdparty/minizip/crypt.h:35-43 | the key-stream byte is bits 8 to 15 of t times t xor 1, where t has the low 16 bits of the last key with bit 1 set |
| CipherLaws.KnownStream | 3rdparty/minizip/crypt.h:35-73 | known values: the empty password starts with the byte 0xab and, after the byte 0x78, goes on with 0x0a |
| CipherLaws.KnownCipher | 3rdparty/minizip/crypt.h:35-80 | known values: with the empty password the byte 0x41 is coded as 0xea, and 0x78 0x41 as 0xd3 0x4b |
| CipherLaws.UpdateInjective | 3rdparty/minizip/crypt.h:48-58 | a step from different keys by one byte, or from the same keys by different bytes, never leads to the same keys |
| CipherLaws.KeysKeepApart | 3rdparty/minizip/crypt.h:48-58 | keys that differ keep differing, whatever is coded from then on |
| CipherLaws.PasswordsApart | 3rdparty/minizip/crypt.h:61-73 | passwords that differ in one byte give different keys |
| Checksum.CrcAppend | 3rdparty/minizip/zip.c:1413 | the checksum of two pieces is that of the second continued from the first |
| ChecksumLaws.XorBitwise | 3rdparty/minizip/crypt.h:30 | the exclusive or of checksum and cipher, bit by bit |
| ChecksumLaws.StepIsShift | 3rdparty/minizip/crypt.h:30 | one step by the table is eight divisions by the generator polynomial |
| ChecksumLaws.ChangeDetected | 3rdparty/minizip/zip.c:1413 | changing one byte anywhere in the contents changes the checksum |
| ChecksumLaws.KnownChecksums | 3rdparty/minizip/zip.c:1413 | known values of the checksum for four and five bytes |
| ZipReader.UnzFile.Open | 3rdparty/minizip/unzip.c:584-762 | opening succeeds exactly when a directory is located and then stands at the first entry |
| ZipReader.UnzFile.ReadExtra | 3rdparty/minizip/unzip.c:1012-1078 | the loop over the extra field is the specified walk, errors included |
| ZipReader.UnzFile.GetInfo | 3rdparty/minizip/unzip.c:879-1010 | reading a record is decoding it, errors included |
| ZipReader.UnzFile.GetFullInfo | 3rdparty/minizip/unzip.c:967-1115 | the same with name and comment |
| ZipReader.UnzFile.GoToFirstFile | 3rdparty/minizip/unzip.c:1178-1192 | the first record becomes the current one |
| ZipReader.UnzFile.GoToNextFile | 3rdparty/minizip/unzip.c:1199-1221 | the next record becomes the current one, or the list ends; 0xffff entries mean an unknown number |
| ZipReader.UnzFile.GoToFilePos | 3rdparty/minizip/unzip.c:1338-1358 | the record at a handle becomes the current one |
| ZipReader.UnzFile.CheckHeader | 3rdparty/minizip/unzip.c:1385-1466 | the comparison of the local header with the record |
| Damage.HeaderAdmittedIff | 3rdparty/minizip/unzip.c:1385-1466 | whatever local header stands where the record says, the check admits it exactly if method, name length and, unless bit 3 is set, checksum and sizes agree with the record, a size also if it is the sentinel, and the method is one of the three known ones |
| Damage.NoHeaderRefused | 3rdparty/minizip/unzip.c:1399-1407 | without a local signature there, or with less than a header, it is refused |
| Damage.DamageIff | 3rdparty/minizip/unzip.c:1385-1466 | overwriting one of the compared fields in the local header of an entry leaves an archive that still opens the entry exactly if the new number is the old one, or a sentinel size, or bit 3 says that checksum and sizes are not there |
| Damage.RecordNeeds | 3rdparty/minizip/unzip.c:893-1110 | a directory record is accepted only with its signature, all fixed fields and the start of its extra field, and delivered with name and comment exactly if the file holds them |
| ZipReader.UnzFile.OpenCurrentFile | 3rdparty/minizip/unzip.c:1472-1639 | opening succeeds exactly when the check passes, for which Damage.HeaderAdmittedIff has the condition, and reading starts behind the header with the recorded sizes |
| ZipReader.UnzFile.ReadCurrentFile | 3rdparty/minizip/unzip.c:1684-1793 | a read returns the next min(length, remaining) bytes of the entry, whatever the buffer refills, and unless it is raw never more than its recorded size, and what is left, the checksum and the counters follow |
| ZipReader.UnzFile.CloseCurrentFile | 3rdparty/minizip/unzip.c:2004-2043 | a checksum error is reported exactly when everything was read and the checksum differs |
| Catalog.WalkReaches | 3rdparty/minizip/unzip.c:1199-1221 | the i-th step of the walk reaches the i-th record, for directories of any length |
| Catalog.ReloadAt | 3rdparty/minizip/unzip.c:1338-1358 | going to a recorded position gives the same state as walking to the entry |
| Catalog.LastStep | 3rdparty/minizip/unzip.c:1208-1212 | at the last record the walk ends, or fails when the count was unknown |
| Repair.UnzRepair | 3rdparty/minizip/mztools.c:30-259 | the repair loop and the merge compute the specified recovery, with the low 32 bits of offsets, sizes and byte count; nothing but the copied part is written when a read fails |
| Repair.CopyEntry | 3rdparty/minizip/mztools.c:53-214 | one turn copies header, name, extra field and data and adds the directory record, or stops where a read failed |
| Repair.OneOkIff | 3rdparty/minizip/mztools.c:53-140 | an entry is recovered exactly if it has a name and is there to its end, and repair goes on behind it; otherwise it gives up, having copied no more than was there |
| Repair.DataLength | 3rdparty/minizip/mztools.c:117-135 | the length of the data is the compressed size, or the other one if that is zero, and none from 2 GB on |
| Headers.RepairTells | 3rdparty/minizip/mztools.c:141-160 | a rebuilt record has everything of the local header and the low 32 bits of its place |
| Headers.RepairEndTells | 3rdparty/minizip/mztools.c:222-240 | the end record has at most 65535 entries and the low 32 bits of size and place of the directory |
| Repair.RepairRebuilds | 3rdparty/minizip/mztools.c:30-259 | from local entries with consistent lengths and any extra fields, followed by anything that is no entry, the output is those bytes, a directory of them and an end record |
| Repair.RepairThenOpen | 3rdparty/minizip/unzip.c:684-750 | the reader finds the directory of that output, which is a sequence of decodable records for exactly those entries, also of those whose extra field ends in a zip64 record, and what follows it is no record |
| Conditions.FindableIff | 3rdparty/minizip/unzip.c:684-750 | below 2 GB a repaired file is in order exactly if the reader finds its directory |
| Conditions.SearchableIff | 3rdparty/minizip/unzip.c:413-467 | and any file without comment exactly if the backward scan finds its end record and no zip64 record is used |
| Repair.RepairedHeader | 3rdparty/minizip/mztools.c:154-158 | every offset in it hits the header it was made from, which the reader admits exactly if it knows the method of compression |
| Repair.ListAll | 3rdparty/minizip/unzip.c:1178-1221 | walking over any standing directory lists every name and record in order, opens exactly the files whose header check passes, reads the stored ones and tests their checksums, and ends as the count says |
| Repair.RepairAndList | 3rdparty/minizip/mztools.c:30-259 | repairing a file, opening the result and walking over it lists exactly the recovered entries in order with all that their local headers record, opens those of a known method, returns the data of the stored ones with a checksum error exactly where it differs, and reports the end of the list (an error from 0xffff entries on) |
| Repair.WalkLocal | 3rdparty/minizip/unzip.c:1012-1078 | an extra field taken over from a local header, with a zip64 record at its end or without, is walked to the sizes of the header or of that record |
| RepairWritten.AsLocalGood | 3rdparty/minizip/zip.c:1023-1041 | a closed entry, with the zip64 flag or without, is such a local entry |
| RepairWritten.LocalsAreBody | 3rdparty/minizip/zip.c:958-1045 | the entries of an archive as written are local entries one after the other |
| RepairWritten.WrittenRecovers | 3rdparty/minizip/mztools.c:30-259 | from an intact archive repair recovers every entry, each at its place, and stops at the directory |
| RepairWritten.WriteThenRepair | 3rdparty/minizip/mztools.c:30-259 | writing any jobs, repairing that archive and reading the result: below 2 GB, with an end record that the scan finds, every entry is there with name, sizes, checksum and contents |
| Repair.RecoverLocals | 3rdparty/minizip/mztools.c:49-220 | the recovery of such entries takes exactly these, by induction over their number |
| ExtraBlocks.RemoveExtraInfoBlock | 3rdparty/minizip/zip.c:1948-2004 | in place: with a record of that identifier the field becomes the other records in order followed by zeros and the length is theirs; without one, or below 4 bytes, nothing changes and an error is returned |
| ExtraBlocks.Filtered | 3rdparty/minizip/zip.c:1965-1982 | the copying loop keeps exactly the other records |
| ExtraBlocks.WithoutShorter | 3rdparty/minizip/zip.c:1984-1999 | the result is shorter exactly when a record was removed, and otherwise the same |
| ExtraBlocks.WithoutTwice | 3rdparty/minizip/zip.c:1948-2004 | a second removal finds nothing |
| ExtraBlocks.FieldUnique | 3rdparty/minizip/zip.c:1965-1982 | a field is made of records in one way only |
| ZipInput.ZipArchive.Open | modules/core/src/zip_input.cpp:296-344 | a readable archive is opened exactly when its comment is empty, and lists its first entries, under their names, as many as the end record counts: with an ordinary one at most 0xffff |
| ZipInput.OrdinaryCount | modules/core/src/zip_input.cpp:356-372 | with an ordinary end record every entry is counted, and so listed, exactly if there are no more than 0xffff |
| ZipInput.ZipArchive.ReadInfos | modules/core/src/zip_input.cpp:395-474 | the entries counted are remembered in order with their handles, their strings, as they are if they have no zero and otherwise up to the first one, and their sizes |
| ZipInput.ListedNames | modules/core/src/zip_input.cpp:454-455 | names and comments without zeros are remembered as they are |
| ZipInput.ZipArchive.OpenFile | modules/core/src/zip_input.cpp:501-513 | the first file of the name among those listed is opened, so that every listed entry with a name without zeros can be opened by it, by a reader that shares nothing, at the state walking to the entry gives |
| ZipInput.ZipArchive.OpenHandle | modules/core/src/zip_input.cpp:515-573 | opening by a handle reaches the entry it was recorded for, ready to deliver its contents |
| ZipInput.HandleReaches | modules/core/src/zip_input.cpp:543-557 | the handle recorded for an entry leads a fresh reader to it |
| ZipInput.ZipFile.Read | modules/core/src/zip_input.cpp:586-628 | a read gives the next slice, of at most 4096 bytes |
| ZipInput.Interleave | modules/core/src/zip_input.cpp:189-293 | reads of any sizes on any number of files in any order: each file gives what it would give read alone |
| ZipInput.AloneJoins | modules/core/src/zip_input.cpp:586-628 | those pieces are consecutive slices of the contents |
| ZipInput.ReadsEnd | modules/core/src/zip_input.cpp:586-628 | a read of something gives something until nothing is left, so that as many reads as there are bytes give the whole file |
| ZipInput.Device.OpenStream | modules/core/src/zip_input.cpp:179-187 | each reader of the device has an offset of its own |
| BinaryQueue.Queue.AppendUnmanaged | modules/core/src/binary_queue.cpp:134-148 | a buffer becomes the queue's own and its bytes the end of the stream; an empty one is deleted at once |
| BinaryQueue.Queue.AppendCopy | modules/core/src/binary_queue.cpp:109-132 | a copy is appended in a buffer of its own |
| BinaryQueue.Queue.AppendCopyFrom | modules/core/src/binary_queue.cpp:60-79 | the other queue's bytes are appended, also when it is the same queue |
| BinaryQueue.Queue.AppendMoveFrom | modules/core/src/binary_queue.cpp:81-90 | bytes and buffers change queue, none is copied or deleted |
| BinaryQueue.Queue.Clear | modules/core/src/binary_queue.cpp:102-107 | every buffer held is deleted once |
| BinaryQueue.Queue.Consume | modules/core/src/binary_queue.cpp:160-185 | exactly n bytes leave the front, used-up buffers are deleted once, too many is an error that changes nothing; the loop never runs off the list |
| BinaryQueue.Queue.Flatten | modules/core/src/binary_queue.cpp:187-217 | the first n bytes are copied out, too many is an error |
| BinaryQueue.Queue.FlattenConsume | modules/core/src/binary_queue.cpp:219-224 | both together |
| BinaryQueue.Queue.Read | modules/core/src/binary_queue.cpp:284-302 | at most n bytes move into a queue of their own |
| BinaryQueue.Queue.Write | modules/core/src/binary_queue.cpp:304-309 | the whole other queue is appended whatever size is given, and that size is returned |
| BinaryQueue.Queue.Assign | modules/core/src/binary_queue.cpp:49-58 | what was held is deleted once and replaced by a copy; assigning a queue to itself does nothing |
| BinaryQueue.AdvancedDrops | modules/core/src/binary_queue.cpp:170-184 | using bytes of the first bucket drops them from the stream and leaves no empty bucket |
| QueuePool.Pool.Do | modules/core/src/binary_queue.cpp:49-302 | over any appends, moves, drops, reads, clears and assignments on any number of queues the streams change as byte sequences do, every buffer has one owner while alive, and its deleter runs exactly once when it has none |
| QueuePool.AppliedKeeps | modules/core/src/binary_queue.cpp:49-302 | what a call does to the streams, in terms of what goes where: other queues stay, moved and read bytes leave one queue and are in another in order, copied ones stay, dropped ones were in front |
| QueuePool.Pool.Destroy | modules/core/src/binary_queue.cpp:43-47 | after the destructors the deleter of every buffer ever attached has run exactly once |
| ExecutionContext.Support.Open | modules/socket/src/waitable_input_output_execution_context_support.cpp:52-72 | a closed support gets its read watch, whose assertion cannot fail; an open one refuses |
| ExecutionContext.Support.Close | modules/socket/src/waitable_input_output_execution_context_support.cpp:74-88 | both watches go |
| ExecutionContext.Support.FeedOutput | modules/socket/src/waitable_input_output_execution_context_support.cpp:234-285 | what the device takes leaves the output, a write watch is added when something is left, a broken connection closes; no watch assertion can fail |
| ExecutionContext.Support.ReadInput | modules/socket/src/waitable_input_output_execution_context_support.cpp:174-232 | bytes join the input, an empty read or a broken connection closes the support with one event; no watch assertion can fail |
| ExecutionContext.Support.OnWriteReady | modules/socket/src/waitable_input_output_execution_context_support.cpp:152-166 | a write event feeds and drops the watch when nothing is left; its assertion cannot fail |
| ExecutionContext.FedKeeps | modules/socket/src/waitable_input_output_execution_context_support.cpp:234-285 | feeding restores: open exactly with a read watch, a write watch only when open, unsent output never without a write watch; bytes written plus output stay equal to the bytes appended |
| ExecutionContext.WriteReadyKeeps | modules/socket/src/waitable_input_output_execution_context_support.cpp:152-166 | a write event keeps all this |
| ExecutionContext.ReadInKeeps | modules/socket/src/waitable_input_output_execution_context_support.cpp:174-232 | so does a read event, which adds to the input exactly what arrived |
| ExecutionContext.ReadInCloses | modules/socket/src/waitable_input_output_execution_context_support.cpp:174-232 | a read event closes exactly on an empty read or a broken connection; then both watches go and exactly one event says which of the two it was, and otherwise none is sent |
| ExecutionContext.FedCloses | modules/socket/src/waitable_input_output_execution_context_support.cpp:234-285 | feeding closes exactly if there is something to write and the connection is broken, with one event; otherwise the device gets as much as it takes, and a write watch stays exactly for a rest |
| ExecutionContext.WriteReadyCloses | modules/socket/src/waitable_input_output_execution_context_support.cpp:152-166 | after a write event the write watch is there exactly as long as the support is open and has something to write |
| ExecutionContext.ReopenStrands | modules/socket/src/waitable_input_output_execution_context_support.cpp:52-72 | opening again after a close leaves output unwatched exactly when there is some |
| ExecutionContext.ReopenExample | modules/socket/src/waitable_input_output_execution_context_support.cpp:52-72 | a concrete run in which one byte is stranded |
| RpcConnection.Connection.AsyncCall | modules/rpc/src/generic_rpc_connection.cpp:74-99 | a call appends header and payload, moving the payload, and tries to send; the failure of a closed connection leaves the packet in the output |
| RpcConnection.Connection.Ping | modules/rpc/src/generic_rpc_connection.cpp:101-122 | the same for a ping |
| RpcConnection.Connection.OnInputStreamRead | modules/rpc/src/generic_rpc_connection.cpp:124-201 | all whole packets are taken in order, calls emitted, pings answered, others dropped, until the rest is no whole packet or a ping fails |
| RpcConnection.Connection.Dispatch | modules/rpc/src/generic_rpc_connection.cpp:151-188 | one packet by type |
| RpcConnection.Connection.OnReadReady | modules/socket/src/waitable_input_output_execution_context_support.cpp:143-150 | a read event reads and then interprets |
| RpcConnection.FramedIff | modules/rpc/src/generic_rpc_connection.cpp:81-87 | a call is read back as sent, whatever follows, exactly when its payload is shorter than 65536 bytes |
| RpcConnection.FrameBytes | modules/rpc/src/generic_rpc_connection.cpp:36-54 | the bytes of a call and of a ping on the wire |
| RpcConnection.FramesUnique | modules/rpc/src/generic_rpc_connection.cpp:132-148 | a stream of frames decodes in one way: packets read from its front begin the packets sent |
| RpcConnection.InterpretKeeps | modules/rpc/src/generic_rpc_connection.cpp:124-201 | interpreting consumes the bytes of the packets it takes and answers each ping with one ping |
| RpcConnection.FirstEncodes | modules/rpc/src/generic_rpc_connection.cpp:134-148 | the bytes consumed for a packet are its encoding |
| RpcRun.Delivery | modules/rpc/src/generic_rpc_connection.cpp:74-201 | over every run of two connections with arbitrary partial reads and writes, breaks and closes: delivered calls are a prefix of those made, pings under way are as many as Ping calls, and no output is stranded |
| RpcRun.Undelivered | modules/rpc/src/generic_rpc_connection.cpp:124-201 | the packets sent and not taken are exactly those whose bytes are in output, channel and input |
| RpcRun.Drained | modules/rpc/src/generic_rpc_connection.cpp:124-201 | when nothing is left to write or to read on the way, every call has been delivered and nothing is left to interpret, as long as the receiving side is open; if it closed, when its input is empty |
| RpcRun.ReadDelivers | modules/rpc/src/generic_rpc_connection.cpp:124-201 | what is on the way can always be read at once by an open side, and when the other has nothing left to write, all its calls have then been delivered if the reader is still open |
| RpcRun.CallArrives | modules/rpc/src/generic_rpc_connection.cpp:74-201 | from any state of any run between open sides, a call for which the device takes the frame, followed by a read, is delivered behind all calls before it |
| RpcRun.WritesOut | modules/socket/src/waitable_input_output_execution_context_support.cpp:152-166 | a write event puts out what the device takes, or ends the side with one event |
| RpcRun.EndsSide | modules/socket/src/waitable_input_output_execution_context_support.cpp:174-232 | an empty read, a broken connection or a close ends a side: no watch is left, nothing more is taken in, and the event is that of the cause |
| RpcRun.StaysShut | modules/socket/src/waitable_input_output_execution_context_support.cpp:137-285 | a side that was ended stays so in every run: it reads, writes and takes nothing more and sends no event |
| RpcRun.ActKeeps | modules/socket/src/waitable_input_output_execution_context_support.cpp:137-285 | each event or call on one side keeps what holds there |
| TimedEvents.Thread.PushTimedEvent | modules/core/src/thread.cpp:487-511 | the event joins the heap, none is lost, and the invoker gets one byte |
| TimedEvents.Thread.ProcessTimedEvents | modules/core/src/thread.cpp:185-217 | a drain moves exactly the ripe events to the immediate list in order of due time; those it leaves are not due yet, or the clock wrapped since they were and reads less than their due time; those it moves are due unless their due time wraps; over any calls none is lost or doubled |
| TimedEvents.Thread.MinimumWaitTime | modules/core/src/thread.cpp:259-281 | the wait on the clock is that for the earliest due time; in real time it ends no later than any event is due for which the clock has not wrapped since |
| TimedEvents.OverlookedIff | modules/core/src/thread.cpp:199-200 | an event that is due is not ripe exactly when the clock has wrapped since its due time and reads less than it |
| TimedEvents.NeverOverlookedIff | modules/core/src/thread.cpp:199-200 | the only events that no moment of draining overlooks are those due when the clock reads zero |
| TimedEvents.WaitInTimeIff | modules/core/src/thread.cpp:268-278 | the wait for an event ends in time exactly when the clock has not wrapped since its due time, or reads at least that time again |
| TimedEvents.OverlookedExample | modules/core/src/thread.cpp:268-278 | an event due one millisecond before the wrap and looked at six milliseconds later waits 49.7 days |
| TimedEvents.FrontIsEarliest | modules/core/src/thread.cpp:197-200 | the front of the heap is due no later than any element |
| TimedEvents.NeverEarlyIff | modules/core/src/thread.cpp:199-200 | an event is never released before its time exactly when register time plus due time does not wrap around 32 bits (or it is due at once) |
| TimedEvents.RipeIsDue | modules/core/src/thread.cpp:199-200 | a released event whose due time did not wrap is due |
| WakeUp.NoLostWakeUp | modules/event/src/main_event_dispatcher.cpp:219-290 | in every interleaving of any number of pushers with the receiver, for both variants: no Reset fails, pipe bytes (plus one between read and steal) cover the queued events, a queue with events is signalled or being stolen, and events are taken once each in push order |
| WakeUp.RunKeeps | modules/core/src/thread.cpp:158-183 | the invariant behind it, kept by every step of every run |
| WakeUp.SettlesIff | modules/core/src/thread.cpp:158-183 | from a state of the invariant a run exists that takes every event pushed and leaves everybody outside, if and only if the state is not blocked: no pusher has the mutex before a full pipe while the receiver cannot read a byte without the mutex |
| WakeUp.ReachableSettlesIff | modules/event/src/main_event_dispatcher.cpp:219-290 | the same for every state reached from the start by any run, for both variants |
| WakeUp.GetsOn | modules/event/src/main_event_dispatcher.cpp:219-246 | that run, step by step; it brings home exactly the events pushed and that of the pusher inside, in order |
| WakeUp.BlockedForever | modules/core/src/thread.cpp:473-485 | a blocked state stays blocked in every run, with the same pusher inside, and nothing is pushed any more |
| WakeUp.BlockedReached | modules/event/src/main_event_dispatcher.cpp:226-231 | for any size of the pipe both variants have a run into a blocked state, the main dispatcher by filling the pipe again between its read and its lock |
| WatchSupport.Support.AddWaitableHandleWatch | modules/core/src/waitable_handle_watch_support.cpp:205-252 | the pair is registered, nothing else changes, and counters still tell the listeners |
| WatchSupport.Support.RemoveWaitableHandleWatch | modules/core/src/waitable_handle_watch_support.cpp:254-310 | the pair is gone, nothing else changes, counters fit, and no empty list stays |
| WatchSupport.Support.WaitableWatcherHandles | modules/core/src/waitable_handle_watch_support.cpp:68-92 | the list has each handle in each mode somebody listens in, once, in ascending order |
| WatchSupport.Support.HandleWatcher | modules/core/src/waitable_handle_watch_support.cpp:105-203 | a dispatch calls the listeners of a snapshot until nobody watches the handle |
| WatchSupport.CalledIff | modules/core/src/waitable_handle_watch_support.cpp:149-192 | a listener of the snapshot is called exactly while somebody watches the handle |
| WatchSupport.RemovedStillCalled | modules/core/src/waitable_handle_watch_support.cpp:162-182 | a listener removed during the dispatch is still called, against the comment in the code |
| WatchSupport.Support.NobodyListens | modules/core/src/waitable_handle_watch_support.cpp:35-61 | when every pair was removed the map is empty, as the destructor asserts |
| WatchReload.Main.ReloadWatchList | modules/core/src/main.cpp:188-324 | afterwards the registered descriptors of each mode are exactly the watched handles, each once, and handlers still wanted were kept |
| WatchReload.Main.Prune | modules/core/src/main.cpp:195-229 | the first loop unregisters exactly the handlers not wanted |
| WatchReload.Main.CoverAll | modules/core/src/main.cpp:266-321 | the last loop registers exactly the missing ones |
| WatchReload.Main.Add | modules/core/src/waitable_handle_watch_support.cpp:205-252 | a watch added from the main thread is committed at once |
| WatchReload.Main.Remove | modules/core/src/waitable_handle_watch_support.cpp:254-310 | so is a removed one |
| Normalize.NormalizeString | modules/widget_dao/dao/config_parser_data.cpp:149-194 | the buffer sized from the trimmed input receives the normal form, in which no control character is left and the byte 0x20 stands only singly between other bytes, the write cursor staying inside |
| Normalize.WordsUnique | modules/widget_dao/dao/config_parser_data.cpp:171-189 | however words are separated by spaces, exactly these words are found, so the normal form is the maximal runs joined by single spaces |
| Normalize.Idempotent | modules/widget_dao/dao/config_parser_data.cpp:149-194 | normalising twice equals normalising once and keeps the words |
| Normalize.EmittedNormal | modules/widget_dao/dao/config_parser_data.cpp:169-189 | the copying loop emits the normal form |
| Normalize.NormalBlanks | modules/widget_dao/dao/config_parser_data.cpp:171-189 | every space of the result is the byte 0x20 with a character that is none on either side |
| Normalize.FlatTidy | modules/widget_dao/dao/config_parser_data.cpp:171-189 | the same as bytes |
| Normalize.IsSpaceIff | modules/widget_dao/dao/config_parser_data.cpp:29-115 | exactly which code points count as spaces: white space, every two-byte character ending like U+0085 or U+00A0, and U+201F |
| Normalize.LetterTakenForSpace | modules/widget_dao/dao/config_parser_data.cpp:48-56 | U+00E0 counts as a space |
| Normalize.CopyChar | modules/widget_dao/dao/config_parser_data.cpp:117-139 | the fall-through copy moves exactly one character |

## Left out

- ZipWriter.Writer.OpenNewFile: does not model entries that the library deflates itself; deflate and bzip2 are zlib's and libbz2's, which are not part of this repository. Raw entries of any method are modelled.
- ZipReader.UnzFile.ReadCurrentFile: does not model inflating, nor the decoding of encrypted entries, which this build leaves out (NOUNCRYPT); for an entry that reaches beyond the end of the file nothing is said.
- ZipWriter.Writer.Load: says nothing of archives whose directory position and size add up to 2^64 or more, where the arithmetic wraps.
- ZipInput.ZipArchive.Open: says exactly when it succeeds only for readable archives; for others it may fail or succeed as the reader does.
- ZipInput.ZipArchive.ReadInfos: lists every entry for directories whose positions fit 32 bits, as the recorded handles do.
- Repair.UnzRepair: copies names over 256 and extra fields over 1024 bytes as it does others; the original writes beyond its buffers there, and its int offsets overflow from 2^31 bytes on, which is taken as wrapping. A failing allocation is not modelled.
- Repair.CopyEntry: the same.
- Repair.RepairAndList: takes names of 1 to 256 and extra fields of at most 1024 bytes, as the buffers of the original do, and an output below 2^31 bytes. An extra field must consist of whole records, of which only the last is a zip64 one and holds the sizes that are missing in the header; with a zip64 record elsewhere the reader loses its place in the field (Archive.Zip64SkippedIff).
- Repair.RepairThenOpen: the same.
- Repair.RepairedHeader: the same.
- Repair.RecoverLocals: takes names of 1 to 256 and extra fields of at most 1024 bytes.
- Repair.RepairRebuilds: the same.
- CommentField.TwoBytesIff: for a comment of exactly two bytes with two or three numbers in the zip64 field, of which the first has fewer than 11 or 19 in its bits 8 to 23, CommentField.TwoBytesThirdIff says when the numbers come back if the third step of the walk is its last; no condition is stated for walks of more steps.
- Names and entry comments are given as the bytes in front of the terminating zero of the C strings passed in.
- ExtraBlocks.RemoveExtraInfoBlock: takes a field made of whole records with data sizes below 32768; on others the original reads outside the field.
- BinaryQueue.Queue.Consume: buckets are values in the list, so that pointers to buckets are not modelled; buffers are objects.
- DataBlocks.BlockList.AddData: the chain of blocks is a sequence; its pointers are not modelled.
- WatchSupport.Support.HandleWatcher: what a called listener does is given as the map it leaves.
- WatchSupport.Support.AddWaitableHandleWatch: assertions of the code are preconditions; the commit from other threads, which waits while holding the mutex, is not modelled.
- TimedEvents.Thread.ProcessTimedEvents: make_heap and pop_heap are known by their contracts only; the implementations here are stand-ins.
- RpcConnection.Connection.AsyncCall: the payload is the serialised call; serialisation and the event system are not part of this model. Header integers are little-endian.
- ExecutionContext.Support.ReadInput: read failures other than a broken connection propagate as exceptions and are not modelled; the answers of the device to reads and writes are inputs.
- Normalize.NormalizeString: starts from the characters of a string that passed the UTF-8 check and has no zero byte; the xml library's character functions are taken at their documented meaning, and the conversions of DPL::String are not modelled.
- WakeUp.NoLostWakeUp: covers the hand-over from other threads; events pushed on the main thread go straight to the toolkit, and what the dispatcher does with a stolen event (repushing it to the toolkit, timed or not) is the same step as taking it.
- Failing writes, seeks and allocations, apart from those a property speaks of.
- The conversion of calendar dates to DOS dates, the text flag of deflated data, and the comparison and location of file names.
- The table behind the checksum: a step is computed from the polynomial instead (`ChecksumLaws.StepIsShift`).
- Reasons of failure of the reader are told apart only where a caller sees them.
- VisitBuckets, the dumps and logs, thread start and end, glib workarounds, and everything that only passes calls on (DAO, ORM, D-Bus, settings, popups, mime types, paths).
