# enctempfile — a verified model of the encrypted temporary file

enctempfile offers a seekable file whose contents never reach a backing
store in clear text. The file is cut into blocks of `block_size` bytes (16 MiB
by default). Each block has its own key. It keeps its bytes either in a
plaintext buffer while it is being accessed, or as one encrypted token after a
flush. The file keeps a sparse dictionary from block number to block, together
with an absolute position. Writes are split at block boundaries, and every
block a write spills past is flushed. Reads are stitched together across blocks, and
a missing block below the largest one reads as zero bytes. Seeking to the end
works out the file size from the largest block without moving that block's
cursor. Truncation drops every block above the position's block and cuts that
block at the position.

The model follows the two classes of `lib/enctempfile/impl.py`:

- `bytes_io.dfy` (module `BytesIO`) defines the in-memory buffer a block uses,
  Python's `io.BytesIO`, as a value: its bytes and its cursor. It has write,
  read, seek and truncate, each with the edge cases the buffer has: zero
  padding past the end, reads past the end, and negative arguments.
- `fernet.dfy` (module `Fernet`) is a stand-in for the authenticated cipher.
  Decrypting with the key that encrypted gives back the plaintext, and any
  other key is rejected with InvalidToken. Both facts are proved, not assumed.
- `block.dfy` (module `Blocks`) holds the class `Block`. It has the fields
  `key`, `buffer` and `fp`, which the methods update in place, as in the
  source. Its ghost `Contents` is the plaintext the next access sees.
- `layout.dfy` (module `Layout`) works on values. It covers address
  translation, the largest block number, and the file's *image*: a map from
  block number to plaintext. `WriteSpec`, `ReadSpec`, `TruncateSpec` and
  `SeekSpec` state what each file operation does to the image, following the
  source's control flow.
- `temporary_file.dfy` (module `EncTempFile`) holds the class `TemporaryFile`.
  It has the fields `blocks`, `position`, `closed` and a key counter. The
  ghost `Image` and `Repr` track the block objects it owns. Every method is
  proved against the `Layout` functions. `Write` recurses as the source does, through `WriteSpill` for a write that spills over its block.
  `Read` is the source's `while True` loop with invariants. The scans over the
  dictionary are loops over its key set.
- `contents.dfy` (module `Contents`) links the image to the file's logical
  contents, a byte string `c`. It proves the following:
  - a write at or before the end of `c` overwrites and extends `c`;
  - a read returns the next bytes of `c`, whatever the chunking;
  - seek-to-end lands on `|c|`;
  - truncation cuts `c`.
- `scenarios.dfy` (module `Scenarios`) replays the test suite's three tests
  on the model as verified methods.
- `findings.dfy` (module `Findings`) models the read loop and truncate's
  deletion loop as written. It gives the concrete inputs on which they go
  wrong, beside the corrected behaviour that the rest of the model uses.

The model follows the code, with two kinds of departure. Where the code
evidently misbehaves, the class models the corrected behaviour, and the
behaviour as written is modelled beside it under Findings:

- The end-of-read test compares for equality; the corrected model tests "at or
  above the largest block".
- The read size is decremented even when it is -1, meaning "to the end".
- `truncate(size)` reads an attribute the file does not have. The model keeps
  that failure, and adds truncation at an absolute size.
- truncate deletes from the block dictionary while iterating it.

Where the source accepts an argument that it cannot handle, the model's types
or preconditions rule that argument out. Examples are a negative seek target,
a zero block size, a read size below -1 and a flush after close. Each case is
listed under Left out.

## Model

| member | source | states |
|---|---|---|
| BytesIO.Write | lib/enctempfile/impl.py:36 | The cursor moves by the length written. The written bytes sit at the old cursor, bytes outside them are kept, a gap before the cursor is zero-filled, and the length is the larger of the old end and the write's end. An empty write changes nothing. |
| BytesIO.Read | lib/enctempfile/impl.py:61 | A read yields min(size, available) bytes, or all available bytes for a negative size. They are the bytes at the cursor, and the cursor moves past them. |
| BytesIO.Seek | lib/enctempfile/impl.py:55 | A negative SET target and an unknown whence are ValueError. Otherwise SET goes to the offset, and CUR and END clamp at 0. The bytes are unchanged. |
| BytesIO.Truncate | lib/enctempfile/impl.py:95 | The bytes are cut at the size, or at the cursor when none is given. It never extends the bytes and never moves the cursor. A negative size is ValueError. |
| BytesIO.WriteThenRead | lib/enctempfile/impl.py:36-61 | Bytes written at a cursor read back from that cursor. |
| Fernet.Encrypt | lib/enctempfile/impl.py:74-75 | A token is bound to its key and is as long as the plaintext. |
| Fernet.Decrypt | lib/enctempfile/impl.py:25-26 | Decryption succeeds exactly under the token's key. Otherwise it fails with InvalidToken. |
| Fernet.DecryptEncrypt | lib/enctempfile/impl.py:16-29 | Decrypting what was encrypted under the same key gives back the plaintext. |
| Fernet.DecryptWrongKey | lib/enctempfile/impl.py:25-26 | A token made under another key is rejected. |
| Fernet.TokenLength | lib/enctempfile/impl.py:89 | The length flush returns is a multiple of 4 and exceeds the plaintext length. |
| Blocks.Block.constructor | lib/enctempfile/impl.py:10-14 | A new block has a key, no buffer and no backing store. Its next access sees an empty buffer. |
| Blocks.Block.LoadBufferFromFp | lib/enctempfile/impl.py:16-29 | With a backing store, the buffer becomes the decrypted plaintext with the cursor at 0. Without one, the buffer is left as it was. |
| Blocks.Block.Materialise | lib/enctempfile/impl.py:32-34 | A missing buffer is created from the backing store. Afterwards the buffer is what the next access would see. |
| Blocks.Block.Write | lib/enctempfile/impl.py:31-49 | The write lands at the cursor. The call fails exactly when the buffer would end past block_size, and then the cursor is left at the buffer's end. Otherwise the cursor is just after the written bytes. |
| Blocks.Block.Seek | lib/enctempfile/impl.py:51-55 | The buffer is materialised and then sought as BytesIO seeks. A failed seek leaves it materialised and unmoved. |
| Blocks.Block.Read | lib/enctempfile/impl.py:57-61 | It returns what the materialised buffer reads, and the buffer's cursor moves on. |
| Blocks.Block.Tell | lib/enctempfile/impl.py:63-67 | It returns the cursor of the materialised buffer, which is otherwise unchanged. |
| Blocks.Block.Truncate | lib/enctempfile/impl.py:91-95 | The materialised buffer is cut as BytesIO cuts it. |
| Blocks.Block.Flush | lib/enctempfile/impl.py:69-89 | With no buffer it returns 0 and keeps the backing store. Otherwise it stores Encrypt(buffer bytes) and drops the buffer. Either way the next access sees the same plaintext with the cursor at 0. |
| Blocks.Block.Close | lib/enctempfile/impl.py:97-103 | The key, buffer and backing store are all gone. |
| Layout.BlockOffset | lib/enctempfile/impl.py:153-162 | The local offset is below block_size. |
| Layout.BlockNumber | lib/enctempfile/impl.py:126-127 | The block holding a position: the number of whole blocks before it, which BlockBounds proves is position // block_size. |
| Layout.LocalPosition | lib/enctempfile/impl.py:153-162 | position - n * block_size, as the source computes it. For the position's own block it equals BlockOffset (BlockBounds). |
| Layout.BlockBounds | lib/enctempfile/impl.py:126-127 | The block number is position div block_size. The offset is position mod block_size and equals the local position `position - number * block_size`. |
| Layout.BlockSplit | lib/enctempfile/impl.py:153-162 | number * block_size + offset == position. |
| Layout.SameBlock | lib/enctempfile/impl.py:190-192 | Moving within a block keeps its number and shifts the offset. |
| Layout.NextBlock | lib/enctempfile/impl.py:179-189 | The end of a block is offset 0 of the next block. |
| Layout.MaxKey | lib/enctempfile/impl.py:145-151 | The result is None exactly when there are no blocks. Otherwise it is a block number that is at least every other. |
| Layout.WriteInBlockBuffer | lib/enctempfile/impl.py:175-191 | A block's new plaintext is what its buffer's write at the local offset produces. |
| Layout.WriteSpec | lib/enctempfile/impl.py:164-192 | What write does to the image, following the source's recursion. The part that fits goes into the position's block, created empty if missing, and the rest is written from the next block's start. WriteSpecKeys, WriteSpecUnchanged and WriteSpecWellSized state its properties. |
| Layout.WriteSpecKeys | lib/enctempfile/impl.py:164-192 | A write keeps every block and always leaves the position's block present. It creates blocks only between the position's block and the last block it touches. |
| Layout.WriteSpecUnchanged | lib/enctempfile/impl.py:164-192 | A write changes no block outside the range of blocks it touches. |
| Layout.WriteSpecWellSized | lib/enctempfile/impl.py:178-192 | No block ever grows past block_size, so the check in Block.write never fires. |
| Layout.WriteSpecSplit | lib/enctempfile/impl.py:178-189 | Proof step for WriteSpec. A write that spills over is its first block_size - offset bytes into the position's block, then the rest from the next block's start. |
| Layout.WriteSpecChain | lib/enctempfile/impl.py:184-189 | Proof step for Write. After the first part of a split write, the whole write equals the write of the rest. |
| Layout.WriteSpecFits | lib/enctempfile/impl.py:190-192 | Proof step for Write. A write that fits changes only the position's block. |
| Layout.ReadInBlockBuffer | lib/enctempfile/impl.py:288-290 | A block read at an offset returns what its buffer's read from that cursor returns. |
| Layout.ReadSpec | lib/enctempfile/impl.py:249-299 | The new position is the old one plus the length returned. Given a size, no more than size bytes come back. |
| Layout.ReadSpecEnd | lib/enctempfile/impl.py:255-269 | Proof step for ReadSpecRound. A read returns nothing and stays put in four cases: a zero size, no blocks, a missing block at or above the largest one, or an exhausted block. |
| Layout.ReadSpecHole | lib/enctempfile/impl.py:271-284 | Proof step for ReadSpecRound. A missing block below the largest one yields zero bytes, up to the block's end or the size. Then the read goes on. |
| Layout.ReadSpecBlock | lib/enctempfile/impl.py:286-299 | Proof step for ReadSpecRound. An existing block yields its bytes from the offset, at most size of them. Then the read goes on. |
| Layout.ReadSpecRound | lib/enctempfile/impl.py:253-299 | Proof step for Read. A read is its first round followed by the read of what is still wanted. A round that ends the read yields nothing. |
| Layout.ReadRound | lib/enctempfile/impl.py:253-299 | One turn of the read loop. A turn that ends the read yields nothing, and no turn yields more than the size still wanted. |
| Layout.CutBlock | lib/enctempfile/impl.py:321-323 | A block cut at an offset keeps its bytes up to that offset. It is never extended. |
| Layout.TruncateSpec | lib/enctempfile/impl.py:304-326 | Exactly the blocks at or below the position's block remain. Those below it are unchanged, and that block is cut at the position's offset. |
| Layout.KeptStep | lib/enctempfile/impl.py:313-316 | Proof step for DropBlocksAbove. Visiting a block number drops it exactly when it is above the position's block. |
| Layout.SeekSpec | lib/enctempfile/impl.py:218-247 | Seeking fails, with ValueError, exactly for a whence other than SET, CUR or END. |
| Layout.EndOfFile | lib/enctempfile/impl.py:223-241 | The size seek-to-end computes: the largest block's number times block_size plus its length. It is None exactly when there are no blocks. |
| Contents.EmptyDense | lib/enctempfile/impl.py:111-115 | A new file, with no blocks, holds the empty byte string. |
| Contents.MissingBlock | lib/enctempfile/impl.py:260-269 | In a file built by writes, a missing block at or before the end of the contents lies exactly at the end. |
| Contents.OverwriteSplit | lib/enctempfile/impl.py:178-189 | Writing a prefix and then the rest right after it is writing the whole. |
| Contents.ReadDense | lib/enctempfile/impl.py:249-299 | A read from a position within the contents c returns the next size bytes of c, or everything up to c's end. The position ends right after them. |
| Contents.ReadDenseBlock | lib/enctempfile/impl.py:286-299 | The same holds when the read starts in an existing block that still has bytes. |
| Contents.ReadDenseStep | lib/enctempfile/impl.py:295-299 | A block's chunk followed by the rest of the read is the slice of c from the position. |
| Contents.ReadDenseEnd | lib/enctempfile/impl.py:255-269 | Where the read stops at once, nothing of c is left to read there. |
| Contents.WriteBlockDense | lib/enctempfile/impl.py:190-192 | Writing a chunk that fits in its block keeps the image equal to the overwritten contents. |
| Contents.WriteDense | lib/enctempfile/impl.py:164-192 | A write at a position within c leaves the file holding c overwritten and extended by the bytes written. |
| Contents.AppendDense | lib/enctempfile/impl.py:164-192 | A write at the end of c leaves the file holding c followed by the bytes written. |
| Contents.WriteThenReadDense | lib/enctempfile/impl.py:164-299 | What a write put down reads back from where it was written. |
| Contents.ReadAllDense | tests/test_enctempfile.py:15-19 | Reading everything from the start returns the whole contents and ends at their end. |
| Contents.ReadInChunksDense | tests/test_enctempfile.py:65-76 | A read of any size followed by a read of the rest returns the contents from the position, with nothing lost or repeated. |
| Contents.ReadPastEndDense | lib/enctempfile/impl.py:263-269 | A read at or past the end of the contents returns nothing and does not move. |
| Contents.EndOfFileDense | lib/enctempfile/impl.py:221-243 | Seek-to-end computes the length of the contents. A non-empty file always has a block. |
| Contents.TruncateDense | lib/enctempfile/impl.py:304-326 | Truncating at a position within c leaves the file holding c up to that position. |
| EncTempFile.TemporaryFile.ImageWellSized | lib/enctempfile/impl.py:42-47 | No block of a valid file holds more than block_size bytes. |
| EncTempFile.TemporaryFile.constructor | lib/enctempfile/impl.py:111-115 | A new file is valid, open, empty and at position 0. |
| EncTempFile.TemporaryFile.GetMaxBlockNumber | lib/enctempfile/impl.py:145-151 | The scan over all keys returns the largest block number, or None when there are no blocks. |
| EncTempFile.TemporaryFile.CreateBlock | lib/enctempfile/impl.py:132-143 | It succeeds exactly for a number not in use. It then adds a fresh, empty block under that number, and a number in use changes nothing. |
| EncTempFile.TemporaryFile.GetOrCreateBlock | lib/enctempfile/impl.py:166-170 | It returns the block under n, and the block map changes at most in entry n. An existing block is returned as it is, with the image unchanged. A missing one is created fresh and empty, so the failure in CreateBlock is never reached. |
| EncTempFile.TemporaryFile.WriteAt | lib/enctempfile/impl.py:175-191 | A block's seek then write leaves exactly the chunk written over its plaintext. It never exceeds block_size. |
| EncTempFile.TemporaryFile.WriteIntoBlock | lib/enctempfile/impl.py:184-191 | The file's image changes in block n only, by the chunk written at the offset. When the block is to be flushed, it has no plaintext buffer afterwards. |
| EncTempFile.TemporaryFile.FlushBlock | lib/enctempfile/impl.py:185 | The filled block is flushed and keeps no plaintext buffer. |
| EncTempFile.TemporaryFile.WriteChunk | lib/enctempfile/impl.py:166-191 | The chunk lands in block n, created if needed, and the image changes in block n only. The block map changes at most by adding block n, and only block n's object may change. When the block is to be flushed, it has no plaintext buffer afterwards. |
| EncTempFile.TemporaryFile.Write | lib/enctempfile/impl.py:164-192 | The position advances by exactly len(b). The file stays valid, with every block at most block_size, and the image becomes WriteSpec. No block is dropped or replaced, and only blocks from the position's block on may change. Every block the write runs past the end of is flushed (SpilledFlushed). |
| EncTempFile.TemporaryFile.WriteWithin | lib/enctempfile/impl.py:190-192 | A write that fits in the position's block changes the image as WriteSpec says and moves the position by len(b). It keeps every block, and only that block's object may change. |
| EncTempFile.TemporaryFile.WriteSpill | lib/enctempfile/impl.py:178-189 | A write that spills over the position's block does everything Write states. The position's block and each later block the write runs past are flushed. |
| EncTempFile.TemporaryFile.FillBlock | lib/enctempfile/impl.py:178-187 | The first block_size - offset bytes fill the position's block, which is then flushed. The position moves to the next block's start. Writing the rest from there gives the same image as the whole write. |
| EncTempFile.TemporaryFile.WriteAfterFlushed | lib/enctempfile/impl.py:187-189 | Proof step for WriteSpill. Writing the rest of a split write keeps the filled block in place and flushed, besides everything Write states. |
| EncTempFile.TemporaryFile.SpilledFlushedRange | lib/enctempfile/impl.py:178-189 | SpilledFlushed read as a range. Every block from the write's first block up to, not including, its last block exists and is flushed. |
| EncTempFile.TemporaryFile.ReadFromBlock | lib/enctempfile/impl.py:288-290 | Reading block n from the offset returns that block's bytes from there. |
| EncTempFile.TemporaryFile.ReadRoundAt | lib/enctempfile/impl.py:255-299 | One pass of the read loop yields ReadRound's chunk and moves the position past it. |
| EncTempFile.TemporaryFile.ReadStep | lib/enctempfile/impl.py:253-299 | One pass of the read loop either ends the read, where ReadSpec returns nothing, or yields a non-empty chunk. In the second case the read equals that chunk followed by the read of the rest. |
| EncTempFile.TemporaryFile.Read | lib/enctempfile/impl.py:249-299 | The loop returns ReadSpec's bytes and leaves the position where ReadSpec says. The image is unchanged. |
| EncTempFile.TemporaryFile.BlockLength | lib/enctempfile/impl.py:227-233 | The largest block's length comes from seeking its buffer to the end. Its cursor and plaintext are put back as they were. |
| EncTempFile.TemporaryFile.EndOfFileSize | lib/enctempfile/impl.py:223-241 | The file size is the largest block's number times block_size plus its length, or None without blocks. No block changes as a later access sees it. |
| EncTempFile.TemporaryFile.Seek | lib/enctempfile/impl.py:218-247 | SET assigns the offset and CUR adds it. END subtracts it from the file size, and is a no-op without blocks. Any other whence is ValueError with the position unchanged. Every block's cursor and plaintext are left as a later access sees them. |
| EncTempFile.TemporaryFile.Flush | lib/enctempfile/impl.py:211-213 | Afterwards no block keeps a plaintext buffer. |
| EncTempFile.TemporaryFile.Close | lib/enctempfile/impl.py:203-209 | Every block loses its key and backing store, the file is empty and closed, and it stays valid, so closing again is harmless. |
| EncTempFile.TemporaryFile.DropBlock | lib/enctempfile/impl.py:315-316 | The block is closed and removed, and only it. |
| EncTempFile.TemporaryFile.DropIfAbove | lib/enctempfile/impl.py:314-316 | A block number above n is dropped, and that block is closed first: its key and its backing store are gone. Any other is kept. |
| EncTempFile.TemporaryFile.DropBlocksAbove | lib/enctempfile/impl.py:313-316 | Exactly the blocks at or below n remain, unchanged. Every block dropped is closed: its key and its backing store are gone. |
| EncTempFile.TemporaryFile.VisitBlock | lib/enctempfile/impl.py:313-316 | Proof step for DropBlocksAbove. One turn of the loop drops block k when it is above n, and the blocks dropped before stay closed. |
| EncTempFile.TemporaryFile.CutAt | lib/enctempfile/impl.py:321-324 | A block sought, truncated and flushed keeps its plaintext up to the offset, with no buffer left. |
| EncTempFile.TemporaryFile.CutBlockAt | lib/enctempfile/impl.py:319-324 | Only block n changes, and it is cut at the offset and flushed. |
| EncTempFile.TemporaryFile.TruncateBlocks | lib/enctempfile/impl.py:310-324 | The image becomes TruncateSpec at the position. The position's block, when present, is flushed. Every block above it is dropped and closed. |
| EncTempFile.TemporaryFile.Truncate | lib/enctempfile/impl.py:304-326 | With no size, the file is truncated at the position, the position's block, when present, is flushed, every block above it is dropped and closed, and the position is restored. With a size, the call fails with AttributeError and nothing changes. |
| EncTempFile.TemporaryFile.TruncateTo | lib/enctempfile/impl.py:304-326 | The corrected truncate(size) truncates at the absolute position size and restores the position. The block holding size, when present, is flushed. Every block above it is dropped and closed. |
| EncTempFile.TemporaryFile.Tell | lib/enctempfile/impl.py:215-216 | It returns the position. |
| Scenarios.Basic | tests/test_enctempfile.py:8-35 | "hello" written, flushed and read back whole gives "hello". Six one-byte reads then give h, e, l, l, o and then nothing. |
| Scenarios.HelloDense | tests/test_enctempfile.py:12 | After writing "hello" to a new file it holds "hello". |
| Scenarios.ReadSingles | tests/test_enctempfile.py:21-35 | Six one-byte reads from the start of "hello" give h, e, l, l, o and then nothing. |
| Scenarios.ReadOne | tests/test_enctempfile.py:23-28 | A one-byte read at i returns byte i of "hello", or nothing past its end. |
| Scenarios.Empty | tests/test_enctempfile.py:84-89 | Reading everything from an untouched file returns nothing. |
| Scenarios.WriteAll | tests/test_enctempfile.py:48-57 | Chunks written one after the other from the start leave the file holding them end to end. |
| Scenarios.ReadChunks | tests/test_enctempfile.py:65-71 | Reads of any sizes from the start return a prefix of the contents, in order. |
| Scenarios.ReadRemainder | tests/test_enctempfile.py:73 | Reading the rest returns the contents from the position on. |
| Scenarios.WriteThenReadInChunks | tests/test_enctempfile.py:38-79 | For any block size, any split of the writes and any chunk sizes, the chunks read followed by the remainder equal what was written. |
| Findings.ReadPastLastBlockAsWritten | lib/enctempfile/impl.py:264-284 | As written, read(10) of a full last block returns its five bytes and then five zero bytes. |
| Findings.ReadPastLastBlockCorrected | lib/enctempfile/impl.py:264-269 | Corrected, the same read returns just the five bytes. |
| Findings.ReadAtEndAsWritten | lib/enctempfile/impl.py:264-284 | As written, read() at the end of a full last block never returns, however many turns the loop gets. |
| Findings.ReadAtEndCorrected | lib/enctempfile/impl.py:264-269 | Corrected, the same read returns nothing at once. |
| Findings.ReadAcrossHoleAsWritten | lib/enctempfile/impl.py:276-295 | As written, read() across a hole returns only the first block and moves the position back to -1. |
| Findings.ReadAcrossHoleCorrected | lib/enctempfile/impl.py:271-299 | Corrected, the same read returns the first block, five zero bytes for the hole, then the last block. |
| Findings.ReadLoop | lib/enctempfile/impl.py:249-299 | read as written, for up to fuel turns, with None meaning still looping. The size is an int whose -1 means to the end, the end test compares for equality, and a negative zero fill moves the position back. |
| Findings.DeleteAboveFails | lib/enctempfile/impl.py:313-316 | The deletion loop as written raises exactly when some block is above the boundary. Otherwise it deletes nothing. |
| Findings.DeleteAboveFirst | lib/enctempfile/impl.py:313-316 | When it raises, the loop as written has deleted the first block above the boundary and no other. |
| Findings.DeleteAboveAsWritten | lib/enctempfile/impl.py:313-316 | truncate's deletion loop as written, giving the keys left in the dict and the error raised. The first key above n is deleted and then RuntimeError is raised (DeleteAboveFirst). With none, every key is kept (DeleteAboveFails). |
| Findings.TruncateTwoBlocksAsWritten | lib/enctempfile/impl.py:313-316 | As written, truncating at block 0 a file with blocks 0 and 1 deletes block 1 and then raises RuntimeError. |
| Findings.ShortBlockHidesLater | lib/enctempfile/impl.py:249-299 | With blocks of five bytes, writing "ab" at 0 and then "x" at 10 leaves blocks {0: "ab", 2: "x"}, and read() from the start returns only "ab", ending at position 2. |

## Left out

- The cipher is a stand-in with the same contract: a round trip under the right key, and rejection under any other. It is not the real Fernet construction, with AES-CBC, HMAC, timestamps and base64. Key generation is a counter of issued keys. `Fernet.TokenLength` gives the real token's length formula.
- Each block's backing `tempfile.TemporaryFile` is modelled as the stored token value. Opening, rewinding, truncating and closing that OS file are left out.
- `__enter__`, `__exit__` and `__del__` are left out. Leaving a `with` block or collecting the object reduces to `Close`.
- `fileno`, `isatty`, `readable`, `seekable` and `writable` are left out. They return constants or raise, with no logic.
- EncTempFile.TemporaryFile.Seek: the position is a natural number, so Seek requires that the target is not negative. The source accepts a negative target and then computes negative block numbers.
- EncTempFile.TemporaryFile.Read: the model takes the size as "some n" or "to the end". It stops at a missing block at or above the largest one. This is the corrected loop. A size below -1, such as read(-5), cannot be passed to it. The source reads the rest of a block for such a size, and at a hole it moves the position back. The loop as written, with an int size, is `Findings.ReadLoop`; see Findings.
- EncTempFile.TemporaryFile.constructor requires a positive block size. With block_size 0 the source fails with ZeroDivisionError on the first block-number computation (lib/enctempfile/impl.py:127).
- Blocks.Block.Flush requires a key whenever the block has a buffer. After close the source has key None, and flushing a buffer created since would fail inside Fernet (lib/enctempfile/impl.py:74). TemporaryFile never flushes a closed block.
- Findings.ReadLoop is bounded by a fuel count, so "never returns" is stated as "no result for any fuel".
- EncTempFile.TemporaryFile.DropBlocksAbove visits a snapshot of the block numbers. The loop as written raises on its first deletion; see Findings.
- The Contents lemmas cover files built by writes at or before the end of the contents. A write past the end, or a short write into a hole, leaves a short block. A later read stops there and hides the blocks after it (Findings.ShortBlockHidesLater). The model keeps this as the source does, and states it through `ReadSpec`, but does not describe it as a byte string.
- Flush and Close visit the blocks in an unspecified order. Blocks are independent, so the order does not matter to the result.

## Findings

| source | as written | input that shows it | evidently intended | confidence | as-written member | corrected member |
|---|---|---|---|---|---|---|
| lib/enctempfile/impl.py:268 | A missing block ends the read only when its number equals the largest block number | block_size 5, "hello" written, seek(0), read(10): returns "hello" and five zero bytes, position 10 | stop at the end of the last block: "hello", position 5 | not executed | Findings.ReadPastLastBlockAsWritten | Findings.ReadPastLastBlockCorrected |
| lib/enctempfile/impl.py:268 | Same test; past the largest block every missing block is taken for a hole | block_size 5, "hello" written, read() at position 5: the loop fills zero bytes forever | return b"" at once | not executed | Findings.ReadAtEndAsWritten | Findings.ReadAtEndCorrected |
| lib/enctempfile/impl.py:276-280, 295 | size is decremented after a block read even when it is -1, so a later hole gets a negative fill count | block_size 5, blocks {0: "hello", 2: "x"}, position 0, read(): returns "hello" with the position moved to -1 | "hello", five zero bytes, "x"; position 11 | not executed | Findings.ReadAcrossHoleAsWritten | Findings.ReadAcrossHoleCorrected |
| lib/enctempfile/impl.py:308 | `self.size` is read, and the file has no such attribute | truncate(0) on any file: AttributeError, nothing truncated | truncate at the absolute position size, restoring the position | not executed | EncTempFile.TemporaryFile.Truncate | EncTempFile.TemporaryFile.TruncateTo |
| lib/enctempfile/impl.py:313-316 | Blocks are deleted from the dict while its items are being iterated | blocks {0, 1}, position 0, truncate(): RuntimeError after block 1 is deleted | drop every block above the position's block | not executed | Findings.TruncateTwoBlocksAsWritten | EncTempFile.TemporaryFile.DropBlocksAbove |
