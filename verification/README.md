# A verified model of the file filters

An application reads, writes and seeks in what looks like one flat file of bytes. Below it a pipeline of
filters stores that file differently: in whole blocks (`Buffered`), in segment files (`FileSplit`), in
encrypted records behind a header (`AeadFilter`), or in compressed records with an index on the side
(`Lz4Compress`). This project models those filters as classes over the files they are stored in, and proves
that the flat file and the stored files never come apart.

The storage at the bottom (`Files.FileSystemBottom`) is nondeterministic: a read or a write may transfer
any positive number of bytes up to the number asked for. Every result holds for all such transfers.

## The modules

| module | what it is about |
|---|---|
| `Sizes`, `FlatFiles` | rounding and division; the flat file and a write into it |
| `Buffering` | the state of a block cache as a value, its invariant, and what each step does to the flat file |
| `Segments`, `Truncation` | a group of segment files and its concatenation; deleting segments |
| `Nonces`, `Packing`, `Framing` | big-endian numbers and nonces; packing with overflow; integers and sized blocks on a stream |
| `Records`, `Headers` | encrypted records as a value; the header, and opening an encrypted file |
| `CompressedRecords`, `Lz4Files`, `CompressedRuns` | compressed records and their index as a value; the compression filter; any run on it |
| `Files`, `Requests` | open files; what one stage asks of the next |
| `Pipelines` | the filters themselves, the dispatch between them, and the loops that drive them |
| `Stacks` | any run of requests through `Buffered` on a file, a group of segments or an encrypted file |
| `Lifecycles` | files from creation, through any run and close, to opening them again and reading them back |
| `Filters` | linking filters, with a cached link to the next handler of every event |
| `Limits`, `CompressedLimits` | where the filters fall short of what they are for, and exactly when |

The arithmetic of each filter is done on values (`BufState`, `FilterState`, the stored bytes of a plaintext);
the classes take the same steps in place and tie their new state to the value.

## The main results

- **One flat file, over every run.** `Stacks.Run`: through `Buffered` on a file, on a group of segments or on an
  encrypted file, the bytes, counts, positions and ends of file that any legal run of reads, writes, seeks and syncs
  gets are those of one flat file: a read yields for each byte what was last written there
  (`Stacks.ReadsLastWritten`), and what was written before a sync is stored. On a file or a group every run that stays
  inside the file is legal (`Stacks.LegalOnBytes`). Over encryption two things are excluded, because there the filter
  fails: a seek to the end of a file whose stored size the guard misjudges (`Records.EndFound`,
  `Pipelines.AeadFilter.SeekEnd`), and whole blocks written straight behind a last record that a read has met
  (`Limits.StaleAppendExact`).
- **What is stored at the end.** After close the file, or the concatenation of the segments, is that flat file
  (`Stacks.RunAndClose`). An encrypted file is its header, the full records, and exactly one short record if the run
  ends well; and only then, if the empty record that belongs there differs from those with smaller numbers
  (`Stacks.RunAndCloseEncrypted`, `Records.ApartIn`). Whether a run ends well is told by the requests and the block
  size alone (`Stacks.EndsWell`). Runs that only read and seek leave every stored file as it was (`Stacks.RunReadOnly`).
- **Round trips through all stages.** Over any number of sessions, each of which opens the file, makes a run, and
  closes it, a group of segments or an encrypted file answers as one flat file, and opening it once more and
  reading to its end yields that file (`Lifecycles.SplitLife`, `Lifecycles.EncryptedLife`). A compressed file answers
  as a list of blocks, which is read back from any record boundary (`Lifecycles.CompressedLife`); each answer is told in
  terms of the file that the blocks make up (`CompressedRuns.ReadAnswer`, `AppendAnswer`, `SeekAnswer`).
- **Whole blocks only.** The next stage notes what it is asked for (`Pipelines.Lower.Read`, `Write`, `Seek`,
  `SeekEnd`). Every request in that log starts on a block, and asks for whole blocks unless it writes the last block
  of the file, or else asks for what is left of such a request that was cut short. This is part of `Buffered.Valid`,
  which every operation keeps. The seeks in the log are counted in the contracts of the operations.
- **No lost turn.** A buffered read may yield nothing without an error, but never twice in a row, so the
  transfer loop ends, and reports the end of the file only if there was nothing left (`Pipelines.ReadAll`).

## Where the code differs from its own description

- The comment in `src/file/buffered.c:16-18` says where the next stage stands if the buffer is "partial or
  dirty", and if it is full and clean. In the code a clean buffer that is not empty, full or partial, leaves
  the next stage behind the bytes the buffer holds, and an empty one leaves it at the start of the block:
  `Buffering.Placed`. The same comment's goal, that sequential transfers need no seek, is met by reads and by
  direct writes, but every write into a clean buffer makes one seek, and only such a write does:
  `Buffered.Write` counts the seeks that the next stage is asked for.
- `bufferedOpen` computes `readable` after it has changed write-only access to read-write, so that flag always holds.
- The encryption filter looks for its last record behind a guard that compares the stored size with the size
  of a plaintext record. The seek to the end is right exactly if the former is not a multiple of the latter:
  `Pipelines.AeadFilter.SeekEnd`, `Limits.SeekEndExact`, `Limits.SeekEndMisses`. Where moreover there is less than a
  full record, the subtraction wraps, and the seek goes to a place in front of the records, or further on than files
  reach (`Records.LastRecordWraps`); with 1024-byte records and 16-byte tags a file of 1008 bytes is one
  (`Limits.SeekEndFails`). With no data at all, not even an empty record, it is an error.
- The last record is sealed at close under the current block number. The file is well formed exactly if that
  is the number of full records (`Records.TerminatorTells`, `Pipelines.AeadFilter.Close`). Through `Buffered` that is
  so exactly if the last record was there before, or the buffer reaches to the end of the file (`Buffered.Close`).
  A seek away from a last block that is full is enough for it to fail (`Limits.CloseFails`,
  `Limits.SeekAwayEndsBadly`), and so is a seek to the end, if the buffer's block is more than one record
  (`Limits.SeekToEndEndsBadly`).
- After a read has met the end of an encrypted file, whole blocks that are written without a seek between go behind
  the last, short record if there is one: what is then stored is an encrypted file exactly if there was none
  (`Limits.StaleAppendExact`, `Limits.StaleAppendFails`). Through `Buffered` this takes a file that ends on a block of
  the buffer; a seek to where the buffer stands does not help.
- `FileSplit` stands at the end of the last segment after its seek to the end, but its position says the beginning. A
  write made at once keeps the group well formed exactly if it leaves room in the last segment, or is a whole segment
  and the last one is empty (`Limits.UnpositionedExact`, `Limits.WriteAfterSeekEnd`). `Buffered` always seeks again
  first, so that stacks of the two are not affected.
- Nothing cuts off what is left of a compressed record that is rewritten by a smaller one: the data are right exactly
  if the new record is not smaller (`CompressedLimits.RewriteExact`).
- A block appended to a compressed file after a read has met its end, without a seek between, puts an entry too many
  into the index, unless the file was empty (`CompressedLimits.AppendExact`, `CompressedLimits.AppendFails`).
- Deleting segments passes over missing ones, but stops at the tenth: a truncated group is empty exactly if no
  segment has ten missing ones before it (`Truncation.TruncateGroup`).

## Model

| member | source | states |
|---|---|---|
| Sizes.RoundDown | src/common/filter.h:116 | the multiple of the factor that is at most the size and less than one factor below it |
| Sizes.RoundUp | src/common/filter.h:117 | the multiple of the factor that is at least the size and less than one factor above it |
| Requests.TransferKeeps | src/file/buffered.c:13-18 | a transfer that asks for whole blocks leaves every request aligned, or asking for what is left of one that was cut short, and adds no seek |
| Requests.AskMore | src/common/passThrough.c:26-61 | the next round of a transfer loop asks for exactly what is left |
| Requests.LogIsAligned | src/file/buffered.c:13-15 | in an aligned log every seek goes to a block, and every read or write is what is left of one, itself perhaps, that starts on a block and moves whole blocks, or writes the last block of the file |
| Requests.SeeksCounted | src/file/buffered.c:20-20 | the seeks that are counted are the requests to a position or to the end |
| Buffering.FlushKeeps | src/file/buffered.c:373-386 | writing the dirty buffer keeps the cache invariant and the flat file, and is a whole block or the last block of the file |
| Buffering.AdvanceKeeps | src/file/buffered.c:182-195 | dropping a used-up clean block for an empty one keeps the invariant and the flat file, with the next stage in place |
| Buffering.FillKeeps | src/file/buffered.c:391-407 | filling the empty buffer from the file keeps the invariant and the flat file |
| Buffering.CopyOutReads | src/file/buffered.c:430-438 | what the buffer gives at the position is what the flat file has there; nothing exactly at its end |
| Buffering.CopyInWrites | src/file/buffered.c:141-149 | copying into the buffer is a write to the flat file, provided the buffer holds what the file has of the block and the next stage waits at it |
| Buffering.WriteDirectKeeps | src/file/buffered.c:159-170 | writing whole blocks past the empty buffer is that write to the flat file |
| Buffering.DirectStaysAligned | src/file/buffered.c:159-170 | such a write is aligned for the next stage too, and ends on a block |
| Buffering.ReadDirectKeeps | src/file/buffered.c:215-236 | reading past the buffer and keeping the partial block keeps the invariant; what the caller gets is what the flat file has |
| Buffering.MoveKeeps | src/file/buffered.c:260-272 | a seek to another block re-establishes the invariant for the new block |
| Buffering.StayKeeps | src/file/buffered.c:260-277 | a seek inside the buffer's block keeps the invariant and the flat file |
| Buffering.OpensEmpty | src/file/buffered.c:72-104 | an empty buffer at the start of a file keeps the invariant |
| Buffering.OverlayWrite | src/file/buffered.c:411-426 | a write into a buffer laid over the file is a write into the two together |
| Segments.Locate | src/fileSplit/fileSplit.c:122-152 | every position of the concatenation falls into one segment, at the remainder; it ends its segment only at the end of the group |
| Segments.FlattenSlice | src/fileSplit/fileSplit.c:114-132 | reading inside a segment reads the concatenation at the segment's start plus the offset |
| Segments.FlattenWrite | src/fileSplit/fileSplit.c:185-203 | writing inside a segment, or past the end of the last, writes the concatenation |
| Segments.ReadStep | src/fileSplit/fileSplit.c:114-132 | a read that is cut at its segment reads the concatenation, is empty exactly at the end, and leaves the handle where the position falls |
| Segments.WriteStep | src/fileSplit/fileSplit.c:185-203 | a write that is cut at its segment writes the concatenation and keeps all segments full but the last, which never is |
| Segments.OpensAtStart | src/fileSplit/fileSplit.c:67-109 | a new group is one empty segment; an existing one is opened at its start |
| Nonces.XorInjective | src/encrypt/libcrypto/aead.c:722-723 | the XOR with a fixed byte loses nothing |
| Nonces.XorBit | src/encrypt/libcrypto/aead.c:722-723 | each of the eight bits is set if and only if it is set in one of the operands and not in the other |
| Nonces.XorLaws | src/encrypt/libcrypto/aead.c:722-723 | zero changes nothing, a byte undoes itself, order and grouping do not matter, 255 inverts |
| Nonces.BigEndianAt | src/encrypt/libcrypto/aead.c:725-726 | the byte at each place is the base-256 digit of the number there, most significant first |
| Nonces.BigEndianRoundTrip | src/encrypt/libcrypto/aead.c:712-728 | big-endian bytes denote the number, if it fits them |
| Nonces.GenerateNonce | src/encrypt/libcrypto/aead.c:712-728 | byte by byte, the nonce is the initialization vector XOR the base-256 digit of the sequence number at that place, aligned at the last byte (section 5.3 of RFC 8446) |
| Nonces.NonceInjective | src/encrypt/libcrypto/aead.c:712-728 | for one initialization vector, sequence numbers below 256^size never share a nonce |
| Nonces.NonceUndone | src/encrypt/libcrypto/aead.c:712-728 | taking the vector out of a nonce again gives the number; with a zero vector the nonce is the number |
| Nonces.HeaderNonceIsReserved | src/encrypt/libcrypto/aead.c:43-43 | with at least eight bytes of vector no record with a number below 2^64 - 1 has the header's nonce |
| Nonces.HeaderNonceInverts | src/encrypt/libcrypto/aead.c:376-376 | the header's nonce is the vector with its last eight bytes inverted |
| Records.PaddedToNext | src/encrypt/libcrypto/aead.c:558-563 | a padded record takes the least multiple of the cipher's block size above its size, and its tag; without padding its size and its tag |
| Records.ShortRecordIsShorter | src/encrypt/libcrypto/aead.c:558-563 | every short record is stored in fewer bytes than a full one if and only if the cipher does not pad or its block size divides the record size |
| Records.NumberedIsSound | src/encrypt/libcrypto/aead.c:331-331 | an invertible cipher of known output length gives the filter all it relies on if and only if that holds |
| Records.NumberedTells | src/encrypt/libcrypto/aead.c:594-598 | a record is sealed, and opened, under the vector XOR its number |
| Records.NumberedOpensOnly | src/encrypt/libcrypto/aead.c:659-660 | where the cipher tells nonces apart, a record opens to what was sealed under its own number and under no other that fits the vector |
| Records.StoredLength | src/encrypt/libcrypto/aead.c:234-240 | the stored size is the full records and the short one |
| Records.StoredSizeIs | src/encrypt/libcrypto/aead.c:234-240 | the stored size is told by the size of the plaintext and by whether the last record is there |
| Records.EndedTold | src/encrypt/libcrypto/aead.c:188-202 | whether the last record is there after a record is written is told by the sizes before and after |
| Records.StoredFrom | src/encrypt/libcrypto/aead.c:308-313 | from record i on the stored data are those of the plaintext from block i on |
| Records.StoredWriteFull | src/encrypt/libcrypto/aead.c:181-211 | sealing a full block at record i changes the plaintext at block i only, and removes a short record that it goes over |
| Records.StoredWriteShort | src/encrypt/libcrypto/aead.c:181-211 | sealing a short block as the last record puts it at the end of the plaintext and ends the file |
| Records.StoredInjective | src/encrypt/libcrypto/aead.c:221-245 | the stored data determine the plaintext, and whether the last record is there |
| Records.RecordStands | src/encrypt/libcrypto/aead.c:388-389 | at i times the size of a full record stands block i sealed under number i, from 0 on; behind the full ones stands the last, short one, or nothing |
| Records.ReadRecord | src/encrypt/libcrypto/aead.c:125-172 | at record i stands block i, or the short last block, or nothing exactly at the end of a file without its last record |
| Records.LastRecordFound | src/encrypt/libcrypto/aead.c:282-290 | the seek to the end looks at the last record if the guard does not divide, and one record too early if it does and there is a record to subtract |
| Records.LastRecordWraps | src/encrypt/libcrypto/aead.c:283-286 | if there is not, what is sought wraps at 64 bits to a place in front of the records, or further on than files reach |
| Records.EndFoundExactly | src/encrypt/libcrypto/aead.c:282-286 | what a legal seek to the end asks for is that the stored size is not a multiple of the plaintext record size, and that sizes fit 64 bits |
| Records.ExpectedSize | src/encrypt/libcrypto/aead.c:236-240 | at close the stored size exceeds the expected size if and only if the last record is there |
| Records.EndedByTerminator | src/encrypt/libcrypto/aead.c:242-244 | a file of full records, and an empty record with their number, is the closed file |
| Records.TerminatorTells | src/encrypt/libcrypto/aead.c:242-244 | an empty record with a number up to that of the full ones, put behind them, makes the closed file if and only if it carries just that number, where the empty record with it differs from those with smaller ones |
| Packing.BigEndianSplit | src/common/packed.h:48-74 | the bytes of a number are those of its upper part followed by those of its lower part |
| Packing.Packer.OverflowIsSticky | src/common/packed.h:29-35 | the position is past the end if and only if more was asked for than fits; nothing behind the end is ever changed |
| Packing.Packer.Pack1 | src/common/packed.h:29-35 | adds one byte to what was asked for, stored if it fits |
| Packing.Packer.Pack2 | src/common/packed.h:48-52 | adds the number's two big-endian bytes |
| Packing.Packer.Pack4 | src/common/packed.h:59-63 | adds the number's four big-endian bytes |
| Packing.Packer.Pack8 | src/common/packed.h:70-74 | adds the number's eight big-endian bytes |
| Packing.Packer.PackBytes | src/common/packed.h:109-113 | adds all the bytes |
| Packing.Unpacker.Unpack1 | src/common/packed.h:38-46 | the byte at the position, or zero past the end; the position stops one past the end |
| Packing.Unpacker.Unpack2 | src/common/packed.h:54-57 | the number denoted by the next two bytes, zeros standing for those past the end |
| Packing.Unpacker.Unpack4 | src/common/packed.h:65-68 | the number denoted by the next four bytes |
| Packing.Unpacker.Unpack8 | src/common/packed.h:76-79 | the number denoted by the next eight bytes |
| Packing.Unpacker.UnpackBytes | src/common/packed.h:102-106 | the next bytes, zeros standing for those past the end |
| Packing.PackRoundTrip | src/common/packed.h:29-79 | a number that fits its width is unpacked as it was packed, wherever it stands |
| Packing.FromBigEndianRoundTrip | src/common/packed.h:29-79 | bytes that are unpacked to a number are what that number is packed to |
| Framing.FilePut | src/file/ioStack.c:137-162 | puts the big-endian bytes of a 4- or 8-byte integer into the file at its position |
| Framing.FileGet | src/file/ioStack.c:145-172 | gets the integer that stands at the position; tells the end of the file from a file that ends inside the integer |
| Framing.WriteSized | src/common/passThrough.c:90-100 | puts the block into the file behind four bytes that hold its size; nothing if there is an error already |
| Framing.ReadSized | src/common/passThrough.c:74-88 | gets the block whose size stands in front of it, refuses one that is too large, reports the end of the file |
| Framing.FramedSize | src/common/passThrough.c:74-100 | a framed block is taken apart into its size and itself |
| Files.FileSystemBottom.Read | src/file/fileSystemBottom.c:71-81 | some of the bytes at the position, at least one unless the file ends there |
| Files.FileSystemBottom.Write | src/file/fileSystemBottom.c:56-64 | some of the bytes, at least one, go into the file at the position; no other file changes |
| Files.FileSystemBottom.Seek | src/file/fileSystemBottom.c:131-134 | sets the position |
| Files.FileSystemBottom.SeekEnd | src/file/fileSystemBottom.c:131-134 | stands at the end and gives the length |
| Pipelines.ReadBelow | src/file/ioStack.c:61-64 | reads all that was asked for, up to the end of the file, whatever the transfers |
| Pipelines.WriteBelow | src/file/ioStack.c:52-55 | writes all of the data, whatever the transfers; no other file changes |
| Pipelines.FileSplit.Open | src/fileSplit/fileSplit.c:67-109 | a group, new or existing, at its start; segments are a multiple of the block size, at least the suggested size |
| Pipelines.FileSplit.OpenCurrentSegment | src/fileSplit/fileSplit.c:237-249 | the handle is on the segment of the position, which is created if it was not there |
| Pipelines.FileSplit.Read | src/fileSplit/fileSplit.c:114-132 | reads the concatenation at the position, nothing exactly at its end; handle and position agree afterwards |
| Pipelines.FileSplit.Write | src/fileSplit/fileSplit.c:185-203 | writes the concatenation at the position, keeps the group well formed, handle and position agree afterwards |
| Pipelines.FileSplit.PutSegment | src/fileSplit/fileSplit.c:185-203 | what is written where the handle stands, wherever that is, and when the next segment is opened |
| Pipelines.FileSplit.Seek | src/fileSplit/fileSplit.c:134-153 | handle and position agree at the new position; no file changes |
| Pipelines.FileSplit.SeekEnd | src/fileSplit/fileSplit.c:158-180 | ends, gives the length of the concatenation, and creates no segment |
| Pipelines.AeadFilter.Open | src/encrypt/libcrypto/aead.c:88-119 | at record 0 of a file whose header is behind it |
| Pipelines.AeadFilter.Read | src/encrypt/libcrypto/aead.c:125-172 | yields the block of the plaintext at the record, or its short last block, or the end; leaves the files unchanged and notes how far it read and where the file ends |
| Pipelines.AeadFilter.Fetch | src/encrypt/libcrypto/aead.c:129-142 | the block of the plaintext that the record at hand opens to |
| Pipelines.AeadFilter.Advance | src/encrypt/libcrypto/aead.c:144-171 | moves over a block to the next record, or behind the last one; notes how far it read and where the file ends; it is an error if and only if the block is short and something stands behind it |
| Pipelines.AeadFilter.RecordAtHand | src/encrypt/libcrypto/aead.c:129-142 | what stands at the record's place opens, under its number, to the plaintext at the position |
| Pipelines.AeadFilter.PutRecord | src/encrypt/libcrypto/aead.c:181-211 | up to one block is sealed under the current number and written where the file below stands |
| Pipelines.AeadFilter.RecordWritten | src/encrypt/libcrypto/aead.c:188-202 | the sealed block, written at the record's place, is the block written into the plaintext |
| Pipelines.AeadFilter.EndedTells | src/encrypt/libcrypto/aead.c:188-202 | the sizes tell whether a record written here leaves the last record in place |
| Pipelines.AeadFilter.Write | src/encrypt/libcrypto/aead.c:181-211 | a full block over any record, or a short one at the end, goes into the plaintext at the position; says whether the file is ended |
| Pipelines.AeadFilter.Seek | src/encrypt/libcrypto/aead.c:304-316 | succeeds if and only if the position is a block boundary, and stands at that block's record |
| Pipelines.AeadFilter.SeekEnd | src/encrypt/libcrypto/aead.c:268-317 | gives the plaintext's length if and only if the guard does not divide, and in any case stands at the last record's place |
| Pipelines.AeadFilter.SeekLast | src/encrypt/libcrypto/aead.c:282-290 | stands at the last record, or at the one before it if the guard divides |
| Pipelines.AeadFilter.LastAtHand | src/encrypt/libcrypto/aead.c:282-290 | that place is a record boundary inside the file, in the stored data and in the plaintext |
| Pipelines.AeadFilter.EndInside | src/encrypt/libcrypto/aead.c:282-290 | where the guard takes the right branch, there is enough to be subtracted |
| Pipelines.AeadFilter.StandsInside | src/encrypt/libcrypto/aead.c:125-211 | wherever the filter can be read its number is not beyond the last record |
| Pipelines.AeadFilter.CloseCounts | src/encrypt/libcrypto/aead.c:221-240 | the file is larger than expected if and only if its last record is there |
| Pipelines.AeadFilter.Terminate | src/encrypt/libcrypto/aead.c:242-244 | adds an empty record; the file is then closed if, and for a number up to that of the full records only if, it carries that number |
| Pipelines.AeadFilter.Close | src/encrypt/libcrypto/aead.c:217-260 | adds an empty record exactly if there is no last one; the file is then header, full records and one short record if, and for a number up to that of the full records only if, the number is right |
| Pipelines.Lower.Read | src/common/passThrough.c:55-55 | whatever filter is below, reads the flat file it presents, and notes the request |
| Pipelines.Lower.Write | src/common/passThrough.c:29-29 | whatever filter is below, writes the flat file it presents, notes the request, and says whether its last record is there |
| Pipelines.Lower.SeekEnd | src/file/ioStack.c:71-74 | whatever filter is below, gives the flat file's length and changes no file |
| Pipelines.Lower.StoredBelow | README.md:30-52 | what the stored files have to do with the flat file: they are it, or its segments one after the other, or its header and records |
| Pipelines.Lower.ClosesAtEnd | src/encrypt/libcrypto/aead.c:221-245 | the number of the last record is at hand if and only if that record is there or the filter stands at the end |
| Pipelines.Lower.NotEndedCanWrite | src/encrypt/libcrypto/aead.c:125-211 | only behind a last record that was read is there no room for another record |
| Pipelines.Buffered.Open | src/file/buffered.c:72-104 | presents the file below from its start |
| Pipelines.Buffered.FlushBuffer | src/file/buffered.c:373-386 | the file below becomes the flat file; the buffer and the position stay |
| Pipelines.Buffered.WriteBuffer | src/file/buffered.c:378-379 | what the buffer holds goes below, in one aligned transfer that does not seek |
| Pipelines.Buffered.Fetch | src/common/passThrough.c:44-68 | whole blocks of the file below, as far as it goes, in one aligned transfer that does not seek |
| Pipelines.Buffered.FillBuffer | src/file/buffered.c:391-407 | the buffer holds what the file has of its block; the flat file stays |
| Pipelines.Buffered.CopyIn | src/file/buffered.c:411-426 | as much as fits goes into the buffer at the position |
| Pipelines.Buffered.CopyOut | src/file/buffered.c:430-438 | the bytes of the flat file at the position, up to the end of the buffer |
| Pipelines.Buffered.ClawBack | src/file/buffered.c:222-230 | moves over the whole blocks that were read and keeps the rest in the buffer |
| Pipelines.Buffered.DirectRead | src/file/buffered.c:215-236 | the whole blocks of the flat file at the position; the next read finds the rest in the buffer |
| Pipelines.Buffered.DirectWrite | src/file/buffered.c:159-170 | the whole blocks of the data go into the flat file, with no seek and nothing held back |
| Pipelines.Buffered.PutInBuffer | src/file/buffered.c:141-152 | as much as fits goes into the flat file at the position; the next stage is asked for one seek if the buffer was clean, and for none if not |
| Pipelines.Buffered.Read | src/file/buffered.c:176-212 | yields the flat file at the position: whole blocks past an empty buffer, or what there is up to the end of its block or of the file; asks the next stage for no seek, writes nothing unless a dirty block is left, reports the end only there, and yields nothing before it only once in a row |
| Pipelines.Buffered.Write | src/file/buffered.c:110-153 | whole blocks that start where the buffer is empty go past it; otherwise what fits into the buffer goes there, and no further, with a seek of the next stage exactly if the buffer was clean or has moved on |
| Pipelines.Buffered.Seek | src/file/buffered.c:242-278 | stands at the position, or at the flat file's length; the flat file stays; says where the buffer is then and how many seeks the next stage is asked for |
| Pipelines.Buffered.Sync | src/file/buffered.c:302-309 | the file below is the flat file |
| Pipelines.Buffered.Close | src/file/buffered.c:283-296 | the file below is left as the flat file; an encrypted one with its last record if, and given `Records.ApartIn` only if, that was there or the buffer reaches to the end of the file |
| Pipelines.ReadAll | src/common/passThrough.c:44-68 | ends; yields min(size, what is left) bytes in one transfer; reports the end of the file only if that is none |
| Pipelines.WriteAll | src/common/passThrough.c:17-38 | ends; all of the data goes into the flat file at the position in one transfer |
| Stacks.LegalOnBytes | src/file/buffered.c:242-278 | on a file or a group, a run is legal if and only if it stays inside the file |
| Stacks.InBoundsOn | src/file/buffered.c:242-278 | a run that stays inside the file goes on with anything but a seek past its end or an empty write |
| Stacks.WritesStayLegal | src/encrypt/libcrypto/aead.c:125-211 | over encryption too any write is legal behind a write, behind a seek that leaves the end, and behind a read that did not meet it; and so is anywhere one that is shorter than a block or does not start on one |
| Stacks.AnswerAt | src/file/buffered.c:110-309 | in any run, what each request makes of the file before it, and its answer |
| Stacks.ReadsLastWritten | src/file/buffered.c:110-236 | in any run a read yields for each byte what the last write over that byte put there |
| Stacks.ReadsUnwritten | src/file/buffered.c:110-236 | and where nothing was written, what was there before the run |
| Stacks.WritesReach | src/file/buffered.c:110-170 | after all of the data is written the buffer holds its last bytes, or waits behind them |
| Stacks.ReadsStay | src/file/buffered.c:176-236 | after all is read that there is, the position is in the buffer's block or at its end |
| Stacks.WholeTold | src/encrypt/libcrypto/aead.c:181-245 | over any run the sizes alone tell whether the last record is there: the file ends inside a record, or had its last record and did not grow |
| Stacks.WritingAtEndEndsWell | src/encrypt/libcrypto/aead.c:221-245 | any run that ends by writing at the end of the file ends well |
| Stacks.FileRead | src/file/ioStack.c:61-64 | through `Buffered`: min(size, what is left) bytes of the flat file, the end only if that is none |
| Stacks.FileWrite | src/file/ioStack.c:52-55 | through `Buffered`: all of the data goes into the flat file |
| Stacks.Submit | src/file/buffered.c:110-309 | one legal request is answered as by the flat file: what each kind of request yields and leaves; a sync leaves nothing to be stored |
| Stacks.Run | src/file/buffered.c:110-309 | any legal run of requests gives the answers and the contents of one flat file; what was written before the last sync is stored |
| Stacks.RunAndClose | src/file/buffered.c:110-309 | after any run inside the file and close, the file or the concatenation of the segments is the flat file |
| Stacks.RunAndCloseEncrypted | src/encrypt/libcrypto/aead.c:217-260 | after any legal run and close the file is header, full records, and exactly one short record if, and given `Records.ApartIn` only if, the run ends well: the last record is there, or the buffer reaches to the end |
| Stacks.RunReadOnly | src/encrypt/libcrypto/aead.c:221-245 | reading and seeking, then closing, leaves every stored file unchanged |
| Lifecycles.ReadToEnd | src/common/passThrough.c:44-68 | reading until the end of the file yields the file |
| Lifecycles.OpenSplit | src/fileSplit/fileSplit.c:67-109 | a group, new or existing, is opened at the start of what it stands for |
| Lifecycles.RunSplit | src/fileSplit/fileSplit.c:67-203 | any run on a new or an existing group leaves a well-formed group that stands for the flat file |
| Lifecycles.ReadSplit | src/fileSplit/fileSplit.c:67-153 | opening and reading a group yields its concatenation |
| Lifecycles.SplitLife | src/fileSplit/fileSplit.c:67-203 | over any number of sessions, each opening, running and closing, a group of segments answers as one flat file, and that file is read back from it |
| Lifecycles.RunEncrypted | src/encrypt/libcrypto/aead.c:88-260 | any legal run on a new or a closed file leaves the framed header, the full records of the flat file and one short record if, and given `Records.ApartIn` only if, it is complete |
| Lifecycles.ReadEncrypted | src/encrypt/libcrypto/aead.c:88-172 | opening a closed file, whatever settings are suggested, and reading it yields its plaintext |
| Lifecycles.EncryptedLife | src/encrypt/libcrypto/aead.c:88-260 | over any number of sessions of complete runs, an encrypted file answers as one flat file, and that file is read back from it, whatever settings it is opened with later |
| Lifecycles.WriteOnceIsComplete | src/encrypt/libcrypto/aead.c:181-260 | writing any data in one request is a complete run on a new file |
| Lifecycles.NothingIsComplete | src/encrypt/libcrypto/aead.c:217-260 | making an empty file, and seeking to the end of it later, are complete runs |
| Lifecycles.OpenCompressed | src/compress/lz4/lz4.c:42-66 | a compressed file, new or existing, is opened at its first record |
| Lifecycles.RunCompressed | src/compress/lz4/lz4.c:42-207 | a session of any legal run is answered as by the list of blocks, and leaves the two files standing for it |
| Lifecycles.ReadCompressed | src/compress/lz4/lz4.c:118-207 | opening the two files and reading from record i yields the blocks from i on |
| Lifecycles.CompressedLife | src/compress/lz4/lz4.c:42-207 | over any number of sessions a compressed file answers as a list of blocks, and that list is read back from any record boundary |
| CompressedRecords.RecordAt | src/compress/lz4/lz4.c:102-109 | record i stands at its offset and ends at the next one |
| CompressedRecords.EntryAt | src/compress/lz4/lz4.c:111-113 | entry i of the index is the offset of record i |
| CompressedRecords.RecordFound | src/compress/lz4/lz4.c:102-109 | at the offset of record i stands the size of the compressed block in four bytes, and behind it that block |
| CompressedRecords.BlockAt | src/compress/lz4/lz4.c:185-191 | block i is what the file has at i times the block size |
| CompressedRecords.JoinedLength | src/compress/lz4/lz4.c:151-178 | the length of the file is that of the full blocks and of the short one |
| CompressedRecords.AppendRecord | src/compress/lz4/lz4.c:102-109 | a record over the last one, or behind it, makes the data of the new list of blocks |
| CompressedRecords.AppendEntry | src/compress/lz4/lz4.c:111-113 | the index of the new list has one more entry exactly if the new block is full |
| CompressedRecords.ReadFindsIndex | src/compress/lz4/lz4.c:127-130 | a lagging index has the entry of the record, unless nothing was ever written |
| CompressedRecords.ReadFindsData | src/compress/lz4/lz4.c:132-141 | at the position stands the framed record of the current block |
| CompressedRecords.ReadKeeps | src/compress/lz4/lz4.c:118-144 | reading a full record keeps index and data in step; reading the last, short one leaves both at their end |
| CompressedRecords.ReadEnds | src/compress/lz4/lz4.c:127-135 | a read that finds no record leaves both files at their end |
| CompressedRecords.IndexSynchronized | src/compress/lz4/lz4.c:97-100 | before a record is written the index has all entries up to that record |
| CompressedRecords.WriteKeeps | src/compress/lz4/lz4.c:90-116 | writing a record at the end keeps index and data in step; a short one leaves both at their end |
| CompressedRecords.SeekKeeps | src/compress/lz4/lz4.c:180-204 | the index has the record's offset, and a seek puts both files in step there |
| CompressedRecords.IndexCounts | src/compress/lz4/lz4.c:153-163 | the size of the index tells the number of full records |
| Lz4Files.Lz4Compress.Open | src/compress/lz4/lz4.c:42-66 | new files, or files that agree, at record 0 |
| Lz4Files.Lz4Compress.Read | src/compress/lz4/lz4.c:118-144 | yields the current block, or the end of the file; says when the filter can go on and when only a seek leads on |
| Lz4Files.Lz4Compress.FetchRecord | src/compress/lz4/lz4.c:127-135 | the stored record of the current block, with the index brought along |
| Lz4Files.Lz4Compress.PutIndexEntry | src/compress/lz4/lz4.c:97-100 | the index has the entry of the record to be written, and stands behind it |
| Lz4Files.Lz4Compress.Write | src/compress/lz4/lz4.c:90-116 | the block replaces or follows the last one; after a short block only a seek leads on |
| Lz4Files.Lz4Compress.Seek | src/compress/lz4/lz4.c:146-207 | succeeds if and only if the position is a record boundary; to the end it gives full records times block size plus the partial one, and stands at the partial one |
| Lz4Files.Lz4Compress.SeekRecord | src/compress/lz4/lz4.c:185-204 | both files stand at the record |
| Lz4Files.Lz4Compress.SeekLast | src/compress/lz4/lz4.c:151-178 | gives the length of the file and is ready to rewrite the last, partial record |
| Lz4Files.Lz4Compress.CountRecords | src/compress/lz4/lz4.c:153-159 | the number of full records plus one, or none in a new file |
| Lz4Files.WriteBlocks | src/compress/lz4/lz4.c:90-116 | writing any list of blocks in sequence makes that list |
| Lz4Files.ReadFrom | src/compress/lz4/lz4.c:118-207 | seeking to record i and reading on until the end yields the blocks from i on |
| CompressedRuns.SubmitBlock | src/compress/lz4/lz4.c:90-207 | one read, append or seek is answered as by the list of blocks: a read by the current block, an append by how much of the data went into one block, a seek to the end by the length of the file |
| CompressedRuns.ReadAnswer | src/compress/lz4/lz4.c:118-144 | in any run a read yields what the file has from the current block on: a full block, or a shorter one at its end, after which only the end comes |
| CompressedRuns.AppendAnswer | src/compress/lz4/lz4.c:90-116 | in any run an append takes as much as one block holds, and puts it where the full blocks end |
| CompressedRuns.SeekAnswer | src/compress/lz4/lz4.c:146-207 | in any run a seek goes to the start of a block, or to the last one that is not full and gives the length of the file |
| CompressedRuns.RunBlocks | src/compress/lz4/lz4.c:90-207 | any legal run of reads, seeks to blocks and to the end, and appends gives the answers of the list of blocks |
| Headers.LayOut | src/encrypt/libcrypto/aead.c:477-514 | the header's layout, if and only if that is at most 1024 bytes |
| Headers.ParseField | src/encrypt/libcrypto/aead.c:420-445 | the field behind its size, if and only if the size is within the limit |
| Headers.ParsesHere | src/encrypt/libcrypto/aead.c:411-449 | the stages of parsing succeed with these fields if and only if their layout begins the header |
| Headers.LayoutIs | src/encrypt/libcrypto/aead.c:477-514 | the layout, byte by byte: the record size, then each field behind its size |
| Headers.LayoutInjective | src/encrypt/libcrypto/aead.c:395-449 | no two headers whose sizes can be told have layouts that begin the same bytes |
| Headers.Parse | src/encrypt/libcrypto/aead.c:395-449 | accepts a header if and only if it begins with the layout of acceptable fields, at most 16 MB, 63, 16, 32 and 64 bytes, and yields those fields |
| Headers.OpenEncrypted | src/encrypt/libcrypto/aead.c:373-521 | a closed file is opened at the plaintext that was closed; an empty one gets its header, if it is writable |
| Filters.Filter.Init | src/common/filter.c:15-36 | each of the nine cached links is what a scan for its event finds |
| Filters.Filter.GetNext | src/common/filter.c:9-12 | what a scan from this filter on finds |
| Filters.ScanIsFirst | src/common/filter.c:9-36 | a scan finds the first handler, or nothing exactly if there is none |
| Filters.Build | src/common/filter.c:15-36 | in every pipeline built from the bottom up, each of the nine cached links of each filter is what a scan of the filters behind it finds |
| Truncation.DeleteSegment | src/fileSplit/fileSplit.c:295-302 | removes one segment; says if it was not there |
| Truncation.ReachedExactly | src/fileSplit/fileSplit.c:308-308 | deleting gets over nine missing segments, and not over ten |
| Truncation.DeleteHigherSegments | src/fileSplit/fileSplit.c:305-319 | ends; of the segments from the start on leaves exactly those with at least ten missing ones between |
| Truncation.TruncateGroup | src/fileSplit/fileSplit.c:89-96 | leaves one empty segment, and of the others those behind ten missing ones: nothing if and only if no segment is out of reach |
| Truncation.TruncateFails | src/fileSplit/fileSplit.c:305-319 | a segment behind exactly nine missing ones goes when its group is truncated, and one behind exactly ten stays |
| Truncation.OpenTruncated | src/fileSplit/fileSplit.c:67-109 | if deleting reaches all segments, an empty group at its start |
| Limits.SeekEndExact | src/encrypt/libcrypto/aead.c:282-286 | the last record is looked for where it is if and only if the stored size is not a multiple of the plaintext record size |
| Limits.ToyIsApart | src/encrypt/libcrypto/aead.c:242-244 | there is a sound sealing that tells the empty records of a small file apart |
| Limits.NumberingIsApart | src/encrypt/libcrypto/aead.c:242-244 | and one that does so for all the numbers that a file can have |
| Limits.MarkingTellsNonces | src/encrypt/libcrypto/aead.c:659-660 | there is a sound cipher that tells its nonces apart |
| Limits.UnpaddedSize | src/encrypt/libcrypto/aead.c:331-331 | without padding the stored size is the plaintext's and a tag for each record |
| Limits.SeekEndFails | src/encrypt/libcrypto/aead.c:282-286 | in records of 1024 with tags of 16 the end is found of an empty closed file and of one of a megabyte, but not of one of 1008 bytes: the place is the last 16 bytes of the header |
| Limits.SeekEndMisses | src/encrypt/libcrypto/aead.c:268-317 | the filter looks for the end of a file of one block, and gives another length |
| Limits.CloseFails | src/encrypt/libcrypto/aead.c:242-244 | the filter writes one block, seeks to the start and closes: no plaintext has the file it leaves |
| Limits.SeekAwayEndsBadly | src/encrypt/libcrypto/aead.c:221-245 | a legal run, a block written and a seek away from it, that does not end well |
| Limits.SeekToEndEndsBadly | src/file/buffered.c:248-272 | another, a record written and a seek to the end, in a buffer whose block is two records |
| Limits.StaleAppendExact | src/encrypt/libcrypto/aead.c:125-211 | any number of full blocks appended where a read met the end make an encrypted file if and only if the last record was not there, where that record and what follows do not begin with a full record |
| Limits.StoredConcat | src/encrypt/libcrypto/aead.c:181-211 | the stored data of full blocks are followed by those of what follows them |
| Limits.SealBlocks | src/common/passThrough.c:26-37 | sealing whole blocks one after the other writes their stored data from the current number on |
| Limits.AppendAfterEnd | src/encrypt/libcrypto/aead.c:125-211 | the filter reads the last record, or finds none, and seals any number of full blocks: the same |
| Limits.ToyTellsEnd | src/encrypt/libcrypto/aead.c:125-211 | there is a sound sealing, a file and a block that this applies to |
| Limits.StaleAppendFails | src/encrypt/libcrypto/aead.c:125-211 | the filter reads a closed file to its end and appends a block: no plaintext has the file it leaves |
| CompressedLimits.RewriteExact | src/compress/lz4/lz4.c:102-109 | rewriting the last record makes the data of the new blocks if and only if the new record is not smaller than the old one |
| CompressedLimits.RewriteFails | src/compress/lz4/lz4.c:102-109 | two bytes rewritten by two zeros, which a sound compressor stores in less |
| CompressedLimits.DataInjective | src/compress/lz4/lz4.c:90-144 | the data tell the list of blocks |
| CompressedLimits.AppendExact | src/compress/lz4/lz4.c:90-144 | a block appended where a read met the end puts a second entry for its place into the index: data and index stand for a list of blocks if and only if nothing was stored before |
| CompressedLimits.WriteSteps | src/compress/lz4/lz4.c:90-144 | what the steps of a write leave in the two files where they stand at their end |
| CompressedLimits.AppendAfterEnd | src/compress/lz4/lz4.c:90-144 | the filter reads the last record, or finds none, and takes those steps: the same |
| CompressedLimits.AppendFails | src/compress/lz4/lz4.c:90-144 | the filter writes one full block, reads to the end and appends: the two files it leaves stand for no list of blocks |
| Limits.UnpositionedExact | src/fileSplit/fileSplit.c:158-203 | a write right after the seek to the end, with the opening of the next segment, keeps the group well formed if and only if it leaves room in the last segment, or is a whole segment and the last one is empty |
| Limits.WriteAfterSeekEnd | src/fileSplit/fileSplit.c:158-203 | the filter seeks to the end and writes: the same, and what the group then stands for |
| Limits.TerminateOnSplit | src/fileSplit/fileSplit.c:158-203 | the last record that closing an encrypted file writes right after the seek to the end of a group keeps it well formed if and only if it fits behind the last segment |
| Limits.UnpositionedFails | src/fileSplit/fileSplit.c:158-203 | two bytes behind a half-full segment of two leave no group |

## Left out

- Stacks.Run: covers `Buffered` on a file, on a group of segments and on an encrypted file that is stored in
  one plain file. Encryption on top of `FileSplit` is left out, since closing it writes right after a seek to
  the end, where the last segment may have no room (`Limits.TerminateOnSplit`); so is `Buffered` on top of
  compression, whose random writes the repository's README.md, lines 23 and 24, declares unsupported.
- Stacks.RunAndCloseEncrypted: that a run which does not end well leaves another file is stated where the empty record
  with the number of full records differs from those with smaller numbers (`Records.ApartIn`); `Limits.NumberingIsApart`
  has a sealing for which that is so.
- Limits.StaleAppendExact: is stated where the last record and what is appended do not happen to begin with a full
  record of that number (`Limits.TellsEnd`).
- Files.FileSystemBottom.Seek: positions are at most the length of the file; holes made by seeking past the end are
  not modelled.
- Pipelines.FileSplit.Seek: positions are at most the length of the group, for the same reason.
- Pipelines.AeadFilter.Seek: positions are at most the length of the plaintext, for the same reason.
- Pipelines.AeadFilter.SeekEnd: asks that there is a full record to subtract where the guard subtracts one. Where there
  is not, the filter opens bytes that are no record (`Records.LastRecordWraps`), of which a sealing says nothing.
- Pipelines.AeadFilter.Write: a short record is written at the end of the file only, as `Buffered` does.
- Records.StoredWriteShort: a short record goes over the last one, if that is not longer, or behind the full ones.
- Pipelines.Buffered.Seek: over encryption, to the end only where the end is found.
- Pipelines.Buffered.Write: over encryption, no whole block straight behind a last record that a read has met; what that
  would leave is `Limits.StaleAppendExact`.
- Pipelines.Buffered.DirectWrite: the same.
- Pipelines.Buffered.DirectRead: returns its bytes; that the rest of the caller's array is overwritten too is not modelled.
- Pipelines.Buffered.Sync: what the sync asks of the stages and the operating system below is not modelled.
- Pipelines.AeadFilter.Open: a new file, or one with its last record. The initialization vector, the key and the cipher
  enter as an abstract sealing of numbered records, and block numbers do not wrap at 64 bits.
- Headers.OpenEncrypted: a new file, or one that was closed with its last record. The empty block and the tag of the
  header are opaque bytes; what they authenticate is not modelled.
- Lz4Files.Lz4Compress.Write: writes at the end only, and asks that a rewritten last record is not stored in fewer
  bytes than the one it replaces; `CompressedLimits.RewriteExact` shows that it must not be, and
  `CompressedLimits.AppendExact` what a write without a seek leaves after the end was met.
- CompressedRecords.WriteKeeps: asks the same.
- Lz4Files.Lz4Compress.Seek: to the boundaries of the records that are there.
- Lz4Files.Lz4Compress.Open: the two files are byte streams that share nothing: plain files, or `Buffered` streams that
  do not stand directly on encryption.
- Truncation.OpenTruncated: a group whose segments deleting reaches; opens the first segment twice, once to empty it.
- Pipelines.FileSplit.Open: the index of the first segment is 0. The code divides by a segment size that is not yet
  negotiated.
- Framing.FileGet: 4 and 8 bytes. The 2-byte form decodes its bytes with the 4-byte unpacking and does not undo the
  2-byte put.
- Failures of input and output below, and the error that is passed in and out of every call: the filters are called
  without an error; the transfer loops, the integers and the sized blocks are modelled with one.
- The counters `fileSize` and `sizeConfirmed` of `Buffered`, which decide nothing.
- Tags, authentication and tampering; the insides of ciphers and of LZ4. An encrypted record opens under its own number
  to what was sealed, and a compressed block is not empty, fits its bound, and is decompressed to itself.
- Append mode, permissions, the choice of path names, formatted printing, memory release.
- Closing and opening operating-system handles: a handle is replaced by a new one where the code closes and opens.
