# CoffeeChat desktop: verified models of the chat kit's core

The project models four parts of the desktop client's chat kit and proves what they promise, or
the exact condition under which they keep the promise.

* **Streaming MD5** (`Rfc1321`, `Streaming`, `Md5`, `DigestRuns`, `Md5Runs`, `KnownAnswer`, `Hex`). `Rfc1321` is the
  one-shot definition of sections 3.1 to 3.5 of RFC 1321: padding, length field, a table-driven
  64-step compression. `Md5.MD5` is the incremental object with its registers, two-word bit
  counter, carry buffer and unrolled transform. Its ghost field `absorbed` is the message the
  context stands for, and `Valid` ties every real field to it. `DigestRuns` says what that means
  for every sequence of update, digest and reset calls, and `Md5Runs` performs such sequences on an
  object. The bit functions of `Rfc1321` have laws of their own, and `KnownAnswer` works out the
  digest that section A.5 of RFC 1321 prints for the letters a to z, which fixes every table entry,
  amount, constant and byte order in numbers.
* **The growable buffer** (`BufferModel`, `Buffers`, `TypedValues`, `BufferRuns`, `Memory`, `ByteOrder`).
  `Buffers.Buffer` is the array with its indices; every method moves its `View` exactly as a
  function of `BufferModel` says. There, every run of operations refines a double-ended queue of
  bytes, conserves the stream, and stays within memory and copying bounds; `BufferRuns` performs the
  runs on an object, whose ghost field `copied` counts what its reallocations copy.
* **The frame codec** (`Frames`, `Reassembly`, `Clients`, `ClientRuns`). `Clients.Client`
  prints frames and drains the receive buffer; `Frames` characterises the splitting loop for every
  chunk and every body handler, `Reassembly` every run of chunks, and `ClientRuns` performs runs on
  objects.
* **The path splitter** (`PathModel`, `Paths`) and **slice comparison** (`Slices`).

## Assumptions

* Words of the MD5 context are 32 bits wide. `mac/chatkit/cim/crypt/md5.h:8` types them as
  `unsigned long`; the 16- and 8-byte copies in `md5.cpp:195-196` mean 32 bits, and so does the rotation.
* The host is little-endian, so `htonl` and its relatives, and the macro `evppbswap_64`, swap bytes.
* Buffer sizes are natural numbers. `size_t` is 64 bits where the receive loop subtracts.
* An assertion on a caller's argument is a precondition. The assertion after a body handler
  (`client.cpp:197`) is a recorded comparison, `Frames.Resynced`: the model goes on as a build
  without assertions does, and the lemmas say exactly when the comparison holds.
* A body handler touches the receive buffer only through `Skip`, as all three branches of
  `onHandleData` do, so a handler is how far it asks to skip. Message bodies are opaque bytes and
  the protobuf parser is a function from all the unread bytes to a failure or to the size that the
  parsed message serialises to (`ByteSizeLong`), which is what the handler then skips.

## Where the code and its comments disagree

* `cim_def.h:52` calls the header field `len` the length of the data part; the code fills it with,
  and reads it as, header and body together, and so does the model.
* `buffer.h:249` says that reading a byte from an empty buffer returns zero; the assertion in front
  of that branch excludes the case, so a byte must be available.
* `buffer.h:260-261` says that UnreadBytes takes back the bytes of the last read. After a read that
  drained the buffer it takes back whatever lies in front of the reserve instead, and its assertion rejects it when the read started at index 0
  (`BufferModel.TakeBackIff`, `BufferModel.TakeBackFails`).

## Results that are not what one would hope

* Asking for a digest with 56 to 63 bytes buffered changes what the context stands for
  (`Streaming.DigestTransparentIff`, `Md5Runs.DigestThenUpdate`,
  `DigestRuns.SecondDigestOfLetters`).
* `update` runs past its input for some lengths above 2^32 - 64, and does not stop for lengths of
  2^32 and more (`Streaming.UpdateSafeIff`).
* Messages are lost whenever the network cuts inside a frame, or delivers a header-only frame alone
  (`Reassembly.DeliveredIffCutAtFrames`, `Frames.RoundTripIff`).
* The client's own handlers do not keep the contract of the loop's assertion
  (`Frames.ClientHandlerBreaksContract`, `Frames.UnknownStreamIff`, `Frames.MessageDataIff`).
* The path scanner steps past the terminator unless the path is empty or ends in a separator
  (`Paths.ParsePathComponents`).

## Model

| member | source | states |
|---|---|---|
| Md5.MD5.Update | mac/chatkit/cim/crypt/md5.cpp:148-182 | the context stands for the message followed by the input: registers fold all whole blocks, counter and tail fit; the whole carry buffer is determined |
| Md5.MD5.TransformBlocks | mac/chatkit/cim/crypt/md5.cpp:171-172 | the block loop stops at the last block boundary with the registers folded up to it, although its counter is 32 bits wide |
| Md5.MD5.CountBits | mac/chatkit/cim/crypt/md5.cpp:157-161 | if the two words count the bits so far modulo 2^64, they count those of length more bytes as well afterwards |
| Md5.MD5.Final | mac/chatkit/cim/crypt/md5.cpp:187-215 | the digest is that of RFC 1321 for the absorbed message; state and count are as before; the buffer and the message stood for are exactly those after the two padding updates |
| Md5.MD5.Digest | mac/chatkit/cim/crypt/md5.cpp:92-99 | always the digest of everything absorbed, never a stale one; with fewer than 56 bytes buffered the tail is untouched |
| Md5.MD5.Reset | mac/chatkit/cim/crypt/md5.cpp:102-112 | the context stands for the empty message |
| Md5.MD5.FromBytes | mac/chatkit/cim/crypt/md5.cpp:74-83 | a context built from bytes stands for them |
| Md5.MD5.Transform | mac/chatkit/cim/crypt/md5.cpp:218-300 | the unrolled transform is the table-driven 64-step compression, for every state and block |
| Md5.TurnFF | mac/chatkit/cim/crypt/md5.cpp:38-42 | one FF step with its rotated registers is step i of the table-driven loop |
| Md5.TurnGG | mac/chatkit/cim/crypt/md5.cpp:43-47 | one GG step is step i of the table-driven loop |
| Md5.TurnHH | mac/chatkit/cim/crypt/md5.cpp:48-52 | one HH step is step i of the table-driven loop |
| Md5.TurnII | mac/chatkit/cim/crypt/md5.cpp:53-57 | one II step is step i of the table-driven loop |
| Md5.Round1 | mac/chatkit/cim/crypt/md5.cpp:225-240 | the sixteen FF statements are steps 0 to 15 |
| Md5.Round2 | mac/chatkit/cim/crypt/md5.cpp:243-258 | the sixteen GG statements are steps 16 to 31 |
| Md5.Round3 | mac/chatkit/cim/crypt/md5.cpp:261-276 | the sixteen HH statements are steps 32 to 47 |
| Md5.Round4 | mac/chatkit/cim/crypt/md5.cpp:279-294 | the sixteen II statements are steps 48 to 63 |
| Md5.Encode | mac/chatkit/cim/crypt/md5.cpp:305-313 | writes the words low-order byte first and nothing else |
| Md5.Decode | mac/chatkit/cim/crypt/md5.cpp:318-324 | assembles the little-endian words and writes nothing else |
| Md5.MD5.ToString | mac/chatkit/cim/crypt/md5.cpp:343-345 | 32 hex digits of the digest of everything absorbed |
| Rfc1321.FSelects | mac/chatkit/cim/crypt/md5.cpp:26 | F takes the bit of y where x has a 1 and that of z elsewhere, for all words |
| Rfc1321.GSelects | mac/chatkit/cim/crypt/md5.cpp:27 | G takes the bit of x where z has a 1 and that of y elsewhere |
| Rfc1321.HIsParity | mac/chatkit/cim/crypt/md5.cpp:28 | two arguments taken off H leave the third |
| Rfc1321.IFlips | mac/chatkit/cim/crypt/md5.cpp:29 | I flips the bit of y where z has a 0, and elsewhere where x has a 1 |
| Rfc1321.Rotates4 | mac/chatkit/cim/crypt/md5.cpp:33 | rotating by 4 moves the 28 low bits to the top and the 4 high bits to the bottom |
| Rfc1321.Rotates5 | mac/chatkit/cim/crypt/md5.cpp:33 | rotating by 5 moves the 27 low bits to the top and the 5 high bits to the bottom |
| Rfc1321.Rotates6 | mac/chatkit/cim/crypt/md5.cpp:33 | rotating by 6 moves the 26 low bits to the top and the 6 high bits to the bottom |
| Rfc1321.Rotates7 | mac/chatkit/cim/crypt/md5.cpp:33 | rotating by 7 moves the 25 low bits to the top and the 7 high bits to the bottom |
| Rfc1321.Rotates9 | mac/chatkit/cim/crypt/md5.cpp:33 | rotating by 9 moves the 23 low bits to the top and the 9 high bits to the bottom |
| Rfc1321.Rotates10 | mac/chatkit/cim/crypt/md5.cpp:33 | rotating by 10 moves the 22 low bits to the top and the 10 high bits to the bottom |
| Rfc1321.Rotates11 | mac/chatkit/cim/crypt/md5.cpp:33 | rotating by 11 moves the 21 low bits to the top and the 11 high bits to the bottom |
| Rfc1321.Rotates12 | mac/chatkit/cim/crypt/md5.cpp:33 | rotating by 12 moves the 20 low bits to the top and the 12 high bits to the bottom |
| Rfc1321.Rotates14 | mac/chatkit/cim/crypt/md5.cpp:33 | rotating by 14 moves the 18 low bits to the top and the 14 high bits to the bottom |
| Rfc1321.Rotates15 | mac/chatkit/cim/crypt/md5.cpp:33 | rotating by 15 moves the 17 low bits to the top and the 15 high bits to the bottom |
| Rfc1321.Rotates16 | mac/chatkit/cim/crypt/md5.cpp:33 | rotating by 16 moves the 16 low bits to the top and the 16 high bits to the bottom |
| Rfc1321.Rotates17 | mac/chatkit/cim/crypt/md5.cpp:33 | rotating by 17 moves the 15 low bits to the top and the 17 high bits to the bottom |
| Rfc1321.Rotates20 | mac/chatkit/cim/crypt/md5.cpp:33 | rotating by 20 moves the 12 low bits to the top and the 20 high bits to the bottom |
| Rfc1321.Rotates21 | mac/chatkit/cim/crypt/md5.cpp:33 | rotating by 21 moves the 11 low bits to the top and the 21 high bits to the bottom |
| Rfc1321.Rotates22 | mac/chatkit/cim/crypt/md5.cpp:33 | rotating by 22 moves the 10 low bits to the top and the 22 high bits to the bottom |
| Rfc1321.Rotates23 | mac/chatkit/cim/crypt/md5.cpp:33 | rotating by 23 moves the 9 low bits to the top and the 23 high bits to the bottom |
| KnownAnswer.WordAt | mac/chatkit/cim/crypt/md5.cpp:318-324 | word k of a block is made of bytes 4k to 4k + 3, low-order byte first |
| KnownAnswer.DigestOfAlphabet | mac/chatkit/cim/crypt/md5.cpp:187-300 | the sixteen bytes of the digest of the letters a to z, in numbers, from the definitions of padding, compression and output |
| KnownAnswer.TextOfAlphabet | mac/chatkit/cim/crypt/md5.cpp:327-345 | its text is c3fcd3d76192e4007dfb496cca67e13b |
| KnownAnswer.HashAlphabet | mac/chatkit/cim/crypt/test.cpp:20-30 | on the object: the letters in four pieces with digests in between end in that text |
| KnownAnswer.UpdateAndShow | mac/chatkit/cim/crypt/md5.cpp:92-182 | while fewer than 56 bytes are absorbed, update and then toString shows the digest of the whole message and changes nothing else |
| Rfc1321.WordsOfBytes | mac/chatkit/cim/crypt/md5.cpp:305-324 | decoding what was encoded gives the words back, for every word string |
| Rfc1321.BytesOfWords | mac/chatkit/cim/crypt/md5.cpp:305-324 | encoding what was decoded gives the bytes back, for every whole number of words |
| Rfc1321.PadZerosFewest | mac/chatkit/cim/crypt/md5.cpp:201-204 | the padding is the shortest that reaches 56 modulo 64 |
| Streaming.CounterExact | mac/chatkit/cim/crypt/md5.cpp:157-161 | carry test and lost high bits together are exact: the two words count bits modulo 2^64 |
| Streaming.CounterIndex | mac/chatkit/cim/crypt/md5.cpp:155 | bits 3 to 8 of the low word are the number of bytes buffered |
| Streaming.CounterEncodes | mac/chatkit/cim/crypt/md5.cpp:199 | the encoded counter is the length field of RFC 1321 |
| Streaming.LengthInRangeExact | mac/chatkit/cim/crypt/md5.cpp:171 | testing the last visit is the same as testing every visit of the block loop |
| Streaming.SafeForEveryFill | mac/chatkit/cim/crypt/md5.cpp:148-173 | a length is safe whatever is buffered iff it is at most 2^32 - 64 |
| Streaming.UpdateSafeIff | mac/chatkit/cim/crypt/md5.cpp:165-173 | the block loop stops and transforms only blocks inside the input exactly for the lengths in range, for every fill and every length |
| Streaming.OverrunReached | mac/chatkit/cim/crypt/md5.cpp:171-172 | below 2^32, out of range, the loop does reach a block that runs past the input |
| Streaming.TestNeverFails | mac/chatkit/cim/crypt/md5.cpp:171 | for lengths of 2^32 and more the 32-bit loop test never fails |
| Streaming.PaddingIsRfc | mac/chatkit/cim/crypt/md5.cpp:201-207 | both padding cases give the one-shot padded message |
| Streaming.BufferHoldsTail | mac/chatkit/cim/crypt/md5.cpp:163-181 | after update the front of the carry buffer is the new tail |
| Streaming.BufferAfterFinalHoldsTail | mac/chatkit/cim/crypt/md5.cpp:187-215 | what the restored fill finds in the buffer is the tail of the message after the digest |
| Streaming.DigestTransparentIff | mac/chatkit/cim/crypt/md5.cpp:187-215 | a digest leaves the message unchanged iff fewer than 56 bytes are buffered or the tail is already the scrubbed one |
| Streaming.AfterDigestTwice | mac/chatkit/cim/crypt/md5.cpp:187-215 | a second digest in a row changes nothing more |
| Md5Runs.PerformOne | mac/chatkit/cim/crypt/md5.cpp:92-215 | one call on the object returns and leaves what the run functions say |
| Md5Runs.Perform | mac/chatkit/cim/crypt/md5.cpp:92-215 | any run of calls on the object, its update lengths in range, answers and passes through the states that the run functions give |
| Md5Runs.PerformAgainstIdeal | mac/chatkit/cim/crypt/md5.cpp:92-215 | the object passes through the states of one with side-effect-free digests iff every digest is transparent, and answers like it if each finds fewer than 56 bytes buffered |
| Md5Runs.HashChunks | mac/chatkit/cim/crypt/md5.cpp:102-215 | after reset the object returns the RFC 1321 digest of the whole message, cut into any chunks of at most 2^32 - 64 bytes |
| Md5Runs.DigestThenUpdate | mac/chatkit/cim/crypt/md5.cpp:187-215 | after a digest and more updates the object stands for the whole message exactly in the two transparent cases |
| DigestRuns.SecondDigestOfLetters | mac/chatkit/cim/crypt/md5.cpp:187-215 | after 56 equal letters the second digest is that of 56 zero bytes |
| Hex.BytesToHexString | mac/chatkit/cim/crypt/md5.cpp:327-340 | text of twice the length from which a hex parser recovers the bytes |
| Hex.HexTextAt | mac/chatkit/cim/crypt/md5.cpp:331-337 | byte k is written at 2k, high digit first |
| Hex.ParseHexText | mac/chatkit/cim/crypt/md5.cpp:327-340 | the parser inverts the text, for every byte string |
| Hex.HexTextInjective | mac/chatkit/cim/crypt/md5.cpp:327-340 | equal texts come from equal bytes |
| Buffers.Buffer.constructor | mac/chatkit/cim/base/buffer.h:21-30 | empty; capacity is reserve plus initial size, both indices and the remembered reserve are the one asked for |
| Buffers.Buffer.Swap | mac/chatkit/cim/base/buffer.h:38-44 | the two buffers exchange everything |
| Buffers.Buffer.Skip | mac/chatkit/cim/base/buffer.h:47-53 | drops the first bytes, or empties the buffer back to its reserve |
| Buffers.Buffer.Retrieve | mac/chatkit/cim/base/buffer.h:57 | the same as Skip |
| Buffers.Buffer.Truncate | mac/chatkit/cim/base/buffer.h:62-69 | keeps the first n bytes; zero resets both indices |
| Buffers.Buffer.Reset | mac/chatkit/cim/base/buffer.h:74 | empties the buffer back to its reserve |
| Buffers.Buffer.Reserve | mac/chatkit/cim/base/buffer.h:79-86 | contents unchanged, capacity as the growth rule gives |
| Buffers.Buffer.EnsureWritableBytes | mac/chatkit/cim/base/buffer.h:89-95 | contents unchanged and room for len bytes, so its assertion holds |
| Buffers.Buffer.Grow | mac/chatkit/cim/base/buffer.h:362-384 | both branches keep the contents and make room, the assertions inside hold, and the bytes a reallocation copies are counted |
| Buffers.Buffer.Reallocate | mac/chatkit/cim/base/buffer.h:364-373 | new storage of the given size with the contents behind the reserve; exactly they are counted as copied |
| Buffers.Buffer.Compact | mac/chatkit/cim/base/buffer.h:375-381 | the contents move behind the reserve within the same storage |
| Buffers.Buffer.Write | mac/chatkit/cim/base/buffer.h:112-117 | appends the bytes, whatever it takes to make room |
| Buffers.Buffer.Prepend | mac/chatkit/cim/base/buffer.h:162-167 | puts the bytes in front |
| Buffers.Buffer.UnwriteBytes | mac/chatkit/cim/base/buffer.h:169-172 | drops the last n bytes |
| Buffers.Buffer.WriteBytes | mac/chatkit/cim/base/buffer.h:174-177 | takes in the n bytes lying behind the contents |
| Buffers.Buffer.ToText | mac/chatkit/cim/base/buffer.h:99-102 | contents unchanged, with a zero byte stored just behind them |
| Buffers.Buffer.Shrink | mac/chatkit/cim/base/buffer.h:210-214 | contents unchanged in new storage with eight prependable bytes and exactly the writable bytes asked for |
| Buffers.Buffer.Next | mac/chatkit/cim/base/buffer.h:220-236 | returns exactly the prefix it removes, which stays behind the read index unless the buffer is drained |
| Buffers.Buffer.NextAll | mac/chatkit/cim/base/buffer.h:232-236 | returns everything and empties the buffer |
| Buffers.Buffer.ReadByte | mac/chatkit/cim/base/buffer.h:250-258 | returns and removes the first byte without resetting a drained buffer |
| Buffers.Buffer.UnreadBytes | mac/chatkit/cim/base/buffer.h:262-265 | puts the n bytes behind the read index back in front |
| Buffers.Buffer.AppendInt64 | mac/chatkit/cim/base/buffer.h:126-129 | appends eight bytes in network order |
| Buffers.Buffer.AppendInt32 | mac/chatkit/cim/base/buffer.h:131-134 | appends four bytes in network order |
| Buffers.Buffer.AppendInt16 | mac/chatkit/cim/base/buffer.h:136-139 | appends two bytes in network order |
| Buffers.Buffer.AppendInt8 | mac/chatkit/cim/base/buffer.h:141 | appends one byte |
| Buffers.Buffer.PrependInt64 | mac/chatkit/cim/base/buffer.h:144-147 | puts eight bytes in network order in front |
| Buffers.Buffer.PrependInt32 | mac/chatkit/cim/base/buffer.h:149-152 | puts four bytes in network order in front |
| Buffers.Buffer.PrependInt16 | mac/chatkit/cim/base/buffer.h:154-157 | puts two bytes in network order in front |
| Buffers.Buffer.PrependInt8 | mac/chatkit/cim/base/buffer.h:159 | puts one byte in front |
| Buffers.Buffer.ReadInt64 | mac/chatkit/cim/base/buffer.h:182-186 | reads and removes a signed 64-bit value in network order |
| Buffers.Buffer.ReadInt32 | mac/chatkit/cim/base/buffer.h:188-192 | reads and removes a signed 32-bit value in network order |
| Buffers.Buffer.ReadInt16 | mac/chatkit/cim/base/buffer.h:194-198 | reads and removes a signed 16-bit value in network order |
| Buffers.Buffer.ReadInt8 | mac/chatkit/cim/base/buffer.h:200-204 | reads and removes a signed byte |
| Buffers.Buffer.PeekInt64 | mac/chatkit/cim/base/buffer.h:271-276 | the signed 64-bit value at the front |
| Buffers.Buffer.PeekInt32 | mac/chatkit/cim/base/buffer.h:278-283 | the signed 32-bit value at the front |
| Buffers.Buffer.PeekInt16 | mac/chatkit/cim/base/buffer.h:285-290 | the signed 16-bit value at the front |
| Buffers.Buffer.PeekInt8 | mac/chatkit/cim/base/buffer.h:292-296 | the signed byte at the front |
| Buffers.Buffer.FindCRLF | mac/chatkit/cim/base/buffer.h:333-343 | the first CR LF from an offset on, or none |
| Buffers.Buffer.FindEOL | mac/chatkit/cim/base/buffer.h:345-355 | the first LF from an offset on, or none |
| BufferModel.EnsureMakesRoom | mac/chatkit/cim/base/buffer.h:89-95 | growing keeps the contents and makes room; compaction is entered only past the reserve |
| BufferModel.ReserveReallocates | mac/chatkit/cim/base/buffer.h:79-86 | Reserve never compacts and leaves room for len bytes |
| BufferModel.ApplyRefinesQueue | mac/chatkit/cim/base/buffer.h:47-265 | one operation of any kind, with UnreadBytes and WriteBytes among them, refines the byte queue and keeps the indices in order |
| BufferModel.RunRefinesQueue | mac/chatkit/cim/base/buffer.h:47-265 | every legal run of those operations refines the byte queue |
| BufferRuns.PerformMove | mac/chatkit/cim/base/buffer.h:47-265 | on the object, an operation on the indices gives the next state and the bytes taken |
| BufferRuns.PerformStoring | mac/chatkit/cim/base/buffer.h:79-214 | on the object, a storing operation gives the next state and the bytes that reallocation copied |
| BufferRuns.PerformOp | mac/chatkit/cim/base/buffer.h:47-265 | any operation on the object: next state, bytes taken, bytes copied |
| BufferRuns.PerformAll | mac/chatkit/cim/base/buffer.h:47-265 | the object performs every run up to the first failing assertion as the run functions say; a legal run is performed to the end |
| BufferRuns.Live | mac/chatkit/cim/base/buffer.h:21-265 | an object's life from construction: queue contents, bounds on capacity and on bytes really copied, conservation of the stream, the reserve remembered and free in front after a drain |
| BufferModel.TakeBackIff | mac/chatkit/cim/base/buffer.h:220-265 | exactly when UnreadBytes may take back the last Next and restores the contents |
| BufferModel.TakeBackFails | mac/chatkit/cim/base/buffer.h:260-265 | without a reserve, the first read of 3 of 5 bytes cannot be taken back |
| BufferRuns.TakeBack | mac/chatkit/cim/base/buffer.h:220-265 | on the object, Next and then UnreadBytes restores the contents exactly in those cases |
| BufferModel.DrainRestoresReserve | mac/chatkit/cim/base/buffer.h:47-66 | after any ordinary run that ends in a drain the whole reserve is free in front and everything else behind |
| BufferModel.PeakIsLongest | mac/chatkit/cim/base/buffer.h:47-265 | the peak in the bounds below is the longest content the queue ever has, where nothing asks for room ahead |
| BufferModel.StreamConservation | mac/chatkit/cim/base/buffer.h:112-236 | over every run of stream operations, bytes taken and bytes left are bytes there and bytes written, in order |
| BufferModel.MemoryBound | mac/chatkit/cim/base/buffer.h:362-384 | over every run, capacity is at most the initial one or three times the peak and two reserves |
| BufferModel.CopyBound | mac/chatkit/cim/base/buffer.h:362-373 | over every run, the bytes copied by reallocation, which the object counts, are at most the capacity added |
| BufferModel.LifeOfBuffer | mac/chatkit/cim/base/buffer.h:21-117 | from construction on: queue contents, memory bound and copying bound together |
| TypedValues.TypedRunIsDeque | mac/chatkit/cim/base/buffer.h:126-204 | typed appends, prepends and reads in any legal interleaving hand out the values as a double-ended queue does |
| BufferRuns.PerformTyped | mac/chatkit/cim/base/buffer.h:126-204 | one typed method on the object is the typed operation of the model |
| BufferRuns.PerformTypedAll | mac/chatkit/cim/base/buffer.h:126-204 | a legal run of typed methods on the object reads what a double-ended queue of values would hand out |
| ByteOrder.NetworkRoundTrip | mac/chatkit/cim/base/buffer.h:126-159 | network order loses no signed value of any width |
| ByteOrder.NetworkByte | mac/chatkit/cim/base/buffer.h:141 | the byte of a signed 8-bit value |
| ByteOrder.NetworkTwoBytes | mac/chatkit/cim/base/buffer.h:136-139 | the two bytes of a signed 16-bit value on the wire, in numbers |
| ByteOrder.NetworkFourBytes | mac/chatkit/cim/base/buffer.h:131-134 | the four bytes of a signed 32-bit value on the wire |
| ByteOrder.NetworkEightBytes | mac/chatkit/cim/base/buffer.h:126-129 | the eight bytes of a signed 64-bit value on the wire |
| ByteOrder.Swap64IsSwapped | mac/chatkit/cim/base/buffer.h:105-108 | the macro, term by term, is the byte swap |
| ByteOrder.Swap64Twice | mac/chatkit/cim/base/buffer.h:105-108 | the macro is its own inverse on 64-bit values |
| ByteOrder.SwappedInMemory | mac/chatkit/cim/base/buffer.h:131-139 | a swapped value lies in little-endian memory in network order |
| Clients.Client.GetSeq | mac/chatkit/cim/core/client.cpp:264-267 | the next sequence number, wrapping at 16 bits |
| Clients.Client.Send | mac/chatkit/cim/core/client.cpp:106-135 | the bytes sent, one by one: length, version 1, zeros, command, next sequence number, zeros, body; without a connection nothing is sent |
| Clients.Client.AppendHeader | mac/chatkit/cim/core/client.cpp:115-122 | the typed appends print the header and leave room for exactly the body |
| Clients.Client.OnMessage | mac/chatkit/cim/core/client.cpp:166-215 | dispatches exactly what the chunk alone holds; before and after, the receive buffer is empty with eight bytes free in front |
| Clients.Client.OneFrame | mac/chatkit/cim/core/client.cpp:177-211 | one turn of the loop: every typed read has the bytes it needs, and the turn dispatches or stops as specified |
| Clients.Client.ReadHeader | mac/chatkit/cim/core/client.cpp:188-193 | the six reads give the header that is parsed from the frame |
| Clients.Client.Serialize | mac/chatkit/cim/core/client.cpp:125-126 | the body written into the free space becomes the end of the contents |
| Clients.Client.OnHandleData | mac/chatkit/cim/core/client.cpp:217-234 | the switch on the command: the buffer advances by what that command's handler skips, and by nothing else |
| Clients.Client.OnHandleAuthRsp | mac/chatkit/cim/core/client.cpp:269-274 | a parsed login response advances the buffer by its serialised size, a failed one not at all |
| Frames.ParseOfPrinted | mac/chatkit/cim/core/client.cpp:115-122 | a printed header is read back field by field, whatever follows |
| Frames.HeaderOnWire | mac/chatkit/cim/core/client.cpp:115-122 | the sixteen bytes of every header, in numbers |
| Frames.FrameBytes | mac/chatkit/cim/core/client.cpp:106-126 | the bytes of every frame: its header in numbers, then the body |
| Frames.RoundTripIff | mac/chatkit/cim/core/client.cpp:166-215 | frames with bodies of at most 10223 bytes, back to back with any incomplete tail, are delivered exactly and in order, iff it is not a lone header-only frame |
| Frames.TakenIffSendable | mac/chatkit/cim/core/client.cpp:187-211 | a whole frame is dispatched iff header and body are shorter than 10 * 1024 bytes; a longer one drops the chunk |
| Reassembly.DeliveredIffCutAtFrames | mac/chatkit/cim/core/client.cpp:166-215 | a stream of frames cut into any chunks is delivered exactly iff every cut is at a frame boundary and no chunk is a bare header |
| Reassembly.ReceivedDeliversWithin | mac/chatkit/cim/core/client.cpp:166-215 | over any chunks, headers and bodies delivered never exceed the bytes received |
| Reassembly.CutFrameIff | mac/chatkit/cim/core/client.cpp:166-215 | one frame in two pieces is delivered iff it has a body and one piece is empty |
| ClientRuns.ReceiveAll | mac/chatkit/cim/core/client.cpp:166-215 | a run of onMessage calls on the object dispatches chunk by chunk |
| ClientRuns.ReceiveStream | mac/chatkit/cim/core/client.cpp:166-215 | on the object, a stream of frames is delivered iff it is cut at frames |
| ClientRuns.SendAll | mac/chatkit/cim/core/client.cpp:106-135 | sending a list of bodies puts the stream of their frames on the wire, numbered consecutively modulo 2^16 |
| ClientRuns.Exchange | mac/chatkit/cim/core/client.cpp:106-215 | what one client sends in one piece another delivers, iff it is not a lone header-only frame |
| Frames.PrefixNotDispatched | mac/chatkit/cim/core/client.cpp:179-185 | a strict prefix of a frame is never dispatched |
| Frames.BadPacketIff | mac/chatkit/cim/core/client.cpp:182-185 | the wrapping length test rejects exactly lengths below 4 and beyond the data |
| Frames.AtMostOnePerHeader | mac/chatkit/cim/core/client.cpp:177-212 | at most one dispatch per 16 bytes, for every chunk and handler |
| Frames.ResyncedIff | mac/chatkit/cim/core/client.cpp:180-197 | the assertion holds iff the length covers the header and the handler skips exactly the body |
| Frames.UnknownCommandIff | mac/chatkit/cim/core/client.cpp:229-232 | a command other than 264 and 769 resynchronises iff its frame ends the chunk; what is left is given in both cases |
| Frames.UnknownSwallowsHeader | mac/chatkit/cim/core/client.cpp:229-232 | behind an unknown command's frame the next 16 bytes are swallowed |
| Frames.UnknownStreamIff | mac/chatkit/cim/core/client.cpp:177-232 | a chunk of unknown commands passes every assertion iff it has at most one frame |
| Frames.MessageDataIff | mac/chatkit/cim/core/client.cpp:225-227 | message data (command 769) leaves its body unread and resynchronises iff the body is empty |
| Frames.LoginResponseIff | mac/chatkit/cim/core/client.cpp:269-274 | a login response (command 264), parsed from all unread bytes, resynchronises iff what was parsed serialises to the size of the body |
| Frames.ClientHandlerBreaksContract | mac/chatkit/cim/core/client.cpp:217-234 | whatever the parser, the client's handlers do not always skip exactly the body |
| Paths.ParsePathComponents | mac/chatkit/cim/base/file/file_util.cpp:69-97 | stays inside the string iff the path is empty or ends in a separator, and then returns its components |
| Paths.FindName | mac/chatkit/cim/base/file/file_util.cpp:80-85 | finds the end of the name |
| Paths.SkipSeparators | mac/chatkit/cim/base/file/file_util.cpp:89-94 | stops behind the duplicated separators and never passes the terminator |
| Paths.AccumulatePrefixes | mac/chatkit/cim/base/file/file_util.cpp:48-53 | the first entry stays and every other becomes the new entry before it and its old self, so entry k is the first k + 1 components put together |
| Paths.FileSystem.CreateAll | mac/chatkit/cim/base/file/file_util.cpp:55-66 | succeeds iff all the directories are there at the end, even when other processes create some meanwhile |
| Paths.CreateDirectory | mac/chatkit/cim/base/file/file_util.cpp:41-67 | from the path alone: succeeds iff it is not empty and, with slash runs collapsed, the text up to each of its slashes is a directory at the end; nothing else is made |
| PathModel.ComponentsAreWellShaped | mac/chatkit/cim/base/file/file_util.cpp:69-97 | each component has one separator character, at its end; only the first may be bare |
| PathModel.ComponentsCollapse | mac/chatkit/cim/base/file/file_util.cpp:69-97 | put together, the components are the path with separator runs collapsed |
| PathModel.PrefixGrows | mac/chatkit/cim/base/file/file_util.cpp:48-53 | each prefix is the one before it and the next component |
| PathModel.PrefixesIff | mac/chatkit/cim/base/file/file_util.cpp:41-67 | all prefixes of the components are in a set iff the collapsed text up to every separator is |
| PathModel.CollapsedIsNormalForm | mac/chatkit/cim/base/file/file_util.cpp:87-94 | collapsing gives a normal form: normal, the same for a path with a separator doubled or respelt, and a normal path is its own |
| PathModel.SplitConcat | mac/chatkit/cim/base/file/file_util.cpp:69-97 | a well-shaped list is recovered from its text |
| PathModel.ResplitIsStable | mac/chatkit/cim/base/file/file_util.cpp:69-97 | splitting the collapsed path gives the same components |
| PathModel.SameComponentsIff | mac/chatkit/cim/base/file/file_util.cpp:69-97 | two paths split alike iff they collapse alike |
| Slices.CompareDecides | mac/chatkit/cim/base/slice.h:98-111 | the sign of compare is the lexicographic order, and zero is equality |
| Slices.EqualDecides | mac/chatkit/cim/base/slice.h:90-92 | operator== is equality of the bytes and agrees with compare |
| Slices.Antisymmetric | mac/chatkit/cim/base/slice.h:96-111 | compare is antisymmetric |
| Slices.FirstDifferenceDecides | mac/chatkit/cim/base/slice.h:98-111 | the first differing byte decides as an unsigned value, whatever precedes equally and follows |
| Slices.Transitive | mac/chatkit/cim/base/slice.h:96-111 | operator< is transitive |
| Slices.PrefixFirst | mac/chatkit/cim/base/slice.h:102-108 | a proper prefix sorts first |
| Slices.Slice.RemovePrefix | mac/chatkit/cim/base/slice.h:66-70 | exactly the first n bytes leave the view |
| Slices.Slice.Clear | mac/chatkit/cim/base/slice.h:60-63 | the view becomes empty |
| Slices.Slice.CompareWith | mac/chatkit/cim/base/slice.h:79 | the sign of the result is the lexicographic order of the two views |

## Left out

- `MD5::update(ifstream&)` and `FileDigest`: file input; they reduce to the chunked update.
- A word size other than 32 bits for the MD5 context: neither the rotation nor the save and restore means the same there.
- Slices returned by the buffer are copies of the bytes; that they alias the storage until the next change, and the lifetime of deleted storage, are not modelled.
- Overflow of `size_t` when a capacity is doubled.
- Logging, the connection itself, timers, login state and callbacks of the client; sending is reduced to the bytes handed over.
- Protobuf parsing and serialisation: bodies are opaque, and a parser is a function giving the serialised size of what it parsed.
- What a directory name means to the operating system: names are compared as strings, and whether `mkdir` is allowed is a parameter of the file system.
- FilePathIsExist for plain files, UTF conversion, exceptions, the SQLite store, the HTTP user manager and the dialogs: wrappers over libraries that are not modelled.
