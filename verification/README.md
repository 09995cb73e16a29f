# shadPS4 kernels in Dafny

A verification project for the parts of the emulator where a fast or in-place form has to agree with a simple
mathematical one. Each area is a model of the code, the property it is for, and the proof that connects the two:

* **Guest address space** (`RegionMap`, `RegionEdits`, `HostMemory`, `AddressSpace`, `AddressSpaceRuns`): the region
  map of the Windows build, split, mapped, unmapped and coalesced in place, with the placeholders and views that the
  operating system holds behind it as ghost state. Assertions of the source that can fail are results of the methods,
  and each is characterised by an if-and-only-if. (`IntervalSet`, `PosixSpace`): the POSIX build's gap reservation and
  free set.
* **Inflate and PNG** (`Bits`, `BitReverse`, `HuffmanCode`, `HuffmanTables`, `Inflate`, `PngFilter`, `PngMeaning`,
  `Adam7`, `Interlaced`): canonical Huffman codes with fast table and slow path, row reconstruction in two alternating
  buffers, de-interlacing, and the decoding of a whole interlaced image.
* **Concurrency** (`SpscQueue`, `SpscSafety`, `SpscRuns`, `SpscCalls`, `RangeLock`): the bounded queue as interleaved
  steps with ghost histories, and range locking against arbitrary interference.
* **Ciphers and digests** (`AesTables`, `AesSbox`, `GaloisMix`, `AesBlock`, `RoundCipher`, `AesCipher`, `Aes`,
  `AesModes`, `AesKeys`, `AesSchedule`, `Fips197`, `AesFips`, `CipherModes`, `Cbc`, `Counter`, `CounterMode`, `Gcm`,
  `Sp80038d`, `PolyRing`, `Ghash`, `BlockBits`, `AesGcm`, `AesRoundTrips`, `Sha1Stream`, `Sha1Block`, `WordNumbers`,
  `Fips180`, `Sha1`). Modes are proved over any sound block cipher; `AesModes.AesSound` and `AesGcm.SuiteUsable` show
  that AES and GHASH qualify, and `AesRoundTrips` goes from key bytes to text and back. `Fips197`, `Fips180` and
  `Sp80038d` are the standards, written on their own; `AesFips` and `Sha1` show that the code computes them.
* **Containers** (`LruList`, `LruSpec`, `LruCache`, `Word64`, `BitRuns`, `BitWords`, `BitArray`, `SlotVector`,
  `Serdes`): intrusive list, packed bit array, slot allocator, serializer, each against a plain view.
* **Clock** (`FixedPoint`): 128-bit arithmetic and the fixed-point clock with its error bound.

`Ids` and `Options` hold what several of these share.

Some properties turned out to hold only under a condition, which is stated exactly, with an input at which they fail:
SHA-1 padding follows FIPS 180-4 for messages shorter than 2^29 bytes and no others (`Sha1Stream.PaddedIffShort`,
`LongMessageDiffers`), the clock is right for units below the frequency and no others
(`FixedPoint.CloseIffUnitBelowFrequency`, `CutFactorLoses`), MultiplyAndDivide64 is exact modulo 2^64 for remainders
whose product fits 64 bits and no others (`MultiplyAndDivideExactIff`, `CutOccurs`), an LRU touch keeps the list sorted
exactly when no other item is later (`LruSpec.TouchSorted`, `TouchCanUnsort`), and CBC decryption accepts exactly
padded messages and texts that end in a zero byte (`Cbc.AcceptedPadding`, `ZeroPaddingAccepted`). Where a comment and
the code differ, the code is followed: the free set of the POSIX build takes the reserved area's base from the managed
area (`src/core/address_space.cpp:741`), and `PosixSpace.Space.constructor` states the resulting set.

Bytes of the modes, digests and archives are numbers below 256, and 64-bit words of the bit array are numbers below
2^64 with bit operations defined on their binary digits; the block cipher and the SHA-1 rounds use bit vectors. Time,
randomness, file and operating-system calls are parameters or ghost state.

`dafny verify dfyconfig.toml` checks the whole project.

## Model

| member | source | states |
|---|---|---|
| `RegionMap.Determined` | src/core/address_space.cpp:319-470 | Two well-formed, fully coalesced region maps with the same translation at every address and the same cuts between mapped regions are equal: nothing else about past splits and merges survives |
| `RegionMap.FreeRangeHasOneRegion` | src/core/address_space.cpp:323-326 | When no two free regions touch, a range is wholly free exactly when the one region under its start is free and holds all of it, so the one-placeholder assertion fails for no free range |
| `RegionEdits.SplitAtPreserves` | src/core/address_space.cpp:330-402 | Cutting a region keeps the map well formed and every address's backing: the tail of a mapping gets its offset advanced |
| `RegionEdits.CarvePreserves` | src/core/address_space.cpp:330-402 | Cutting a range out of one region, on either side or both, keeps every address's translation and leaves a region of exactly that extent |
| `RegionEdits.JoinPreserves` | src/core/address_space.cpp:434-461 | Joining two touching free regions changes no address's translation and removes exactly one key |
| `RegionEdits.MapMeets` | src/core/address_space.cpp:405-426 | Carving and overwriting meets the specification of Map: new backing on the range only, coalesced again, and known cuts between mappings |
| `RegionEdits.UnmapMeets` | src/core/address_space.cpp:474-513 | Clearing pieces and merging meets the specification of Unmap: free on the range, unchanged elsewhere, and coalesced again |
| `HostMemory.ReleaseMatches` | src/core/address_space.cpp:240-317 | UnmapRegion's choice between releasing a view and freeing pages agrees with what MapRegion asked for exactly for the releasable regions |
| `HostMemory.MirrorServes` | src/core/address_space.cpp:240-298 | What Windows serves at an address, from its views and pages alone, is what the region map translates it to |
| `AddressSpace.Impl.constructor` | src/core/address_space.cpp:154-193 | A map of free, separate regions with one placeholder each starts out valid |
| `AddressSpace.Impl.MapRegion` | src/core/address_space.cpp:240-298 | Called only where a placeholder of exactly the extent is; leaves memory that serves each address from its own offset, by a view exactly when there is an offset and the memory is not a read-only copy of a file |
| `AddressSpace.Impl.HostAgrees` | src/core/address_space.cpp:240-298 | In every consistent state Windows serves every address as the region map translates it |
| `AddressSpace.Impl.UnmapRegion` | src/core/address_space.cpp:300-317 | Succeeds exactly when the region is releasable, its memory being of the kind that is called for; then leaves a placeholder of the same extent |
| `AddressSpace.Impl.SplitRegion` | src/core/address_space.cpp:319-403 | Succeeds exactly when the region under the start holds the range and is not a mapping without backing; the result is the carved map, still mirrored by the host |
| `AddressSpace.Impl.Map` | src/core/address_space.cpp:405-426 | Succeeds exactly when every address of the range is free; then translation changes on that range only, no two free regions touch, and Windows has the memory asked for: each address from its own offset, of the right kind |
| `AddressSpace.Impl.CoalesceFreeRegions` | src/core/address_space.cpp:428-471 | Both merging loops: translation unchanged, the region around the address can no longer be extended, and the host's placeholders are merged to match |
| `AddressSpace.Impl.Unmap` | src/core/address_space.cpp:474-513 | Loop over all regions of the range: succeeds exactly when the whole range is reserved and can be released and neither end cuts a mapping without backing; then the range is free, all else translates as before, and no two free regions touch |
| `AddressSpaceRuns.RunTranslates` | src/core/address_space.cpp:405-513 | In every run of Map and Unmap the map stays well formed and coalesced, the reserved addresses stay the same, and each address translates as the last request to cover it says |
| `AddressSpaceRuns.RunDeterministic` | src/core/address_space.cpp:405-513 | Runs of the same requests from the same map go through the same maps |
| `AddressSpaceRuns.UnmapInPieces` | src/core/address_space.cpp:474-513 | Unmapping two adjacent pieces one after the other leaves the same map as unmapping them at once |
| `AddressSpaceRuns.PiecesSucceedIff` | src/core/address_space.cpp:474-513 | Both pieces can be unmapped in turn exactly when the whole can and the place where they meet divides no mapping without backing |
| `AddressSpaceRuns.BackedPiecesSucceedIff` | src/core/address_space.cpp:474-513 | Where backed memory lies at that place, both pieces can be unmapped exactly when the whole can |
| `AddressSpaceRuns.PiecesReversedSucceedIff` | src/core/address_space.cpp:474-513 | With the upper piece first, the two succeed under the same condition |
| `AddressSpaceRuns.UnmapPiecesCommute` | src/core/address_space.cpp:474-513 | The order in which two adjacent pieces are unmapped does not show in the map |
| `AddressSpaceRuns.UnmapUndoesMap` | src/core/address_space.cpp:405-513 | Map followed by Unmap of the same range restores the very same region map |
| `AddressSpaceRuns.MappedUnmappable` | src/core/address_space.cpp:405-513 | What was just mapped can be unmapped again exactly when it is not a foreign file without an offset that may be written |
| `AddressSpaceRuns.PerformOne` | src/core/address_space.cpp:405-513 | One request on the address space succeeds exactly when it is possible, and its success is a step |
| `AddressSpaceRuns.Perform` | src/core/address_space.cpp:405-513 | Any list of requests on an address space makes a run up to the first request that is not possible, so the results about runs hold of it |
| `PosixSpace.ReserveGaps` | src/core/address_space.cpp:665-687 | For every ascending list of host mappings the reservations are disjoint, avoid every mapping, and with the mappings cover the whole span |
| `PosixSpace.Space.constructor` | src/core/address_space.cpp:665-753 | After construction no free address is in use; states exactly which addresses are free, including that the reserved area's entry starts at the managed base |
| `PosixSpace.Space.MapMemory` | src/core/address_space.cpp:796-812 | Takes exactly the range out of the free set and lays the requested memory over it, changing nothing else |
| `PosixSpace.Space.UnmapMemory` | src/core/address_space.cpp:814-833 | Adds exactly the range to the free set and releases it; the widening by the first free range found changes free memory only |
| `PosixSpace.WidenedOnlyFree` | src/core/address_space.cpp:818-825 | An address taken in by the widening but not requested was free already |
| `PosixSpace.ApplyKeeps` | src/core/address_space.cpp:796-833 | Map and Unmap keep free addresses out of use, change the free set on the request only, and change host memory on the request or at addresses that were free |
| `PosixSpace.RunKeeps` | src/core/address_space.cpp:796-833 | In every run no free address is in use, and memory in use, the process's own included, keeps its page until a request covers it |
| `PosixSpace.RunTranslates` | src/core/address_space.cpp:796-833 | After a run an address holds what the last request to cover it mapped there, d bytes into the mapping being d bytes beyond its physical address or file offset, and is not free; if that request was an unmapping, it holds released memory and is free |
| `IntervalSet.InsertCanonical` | src/core/address_space.cpp:827-827 | Insertion keeps the ranges ascending and apart |
| `IntervalSet.InsertIn` | src/core/address_space.cpp:827-827 | Insertion adds exactly the addresses of the new range |
| `IntervalSet.SubtractIn` | src/core/address_space.cpp:798-798 | Subtraction removes exactly the addresses of the range |
| `IntervalSet.CanonicalUnique` | src/core/address_space.cpp:860-860 | A set of addresses has one list of separate ranges only, so the free set has no hidden state |
| `BitReverse.Reverse16` | externals/stb/stb_image.h:4107-4114 | The four swap-and-mask steps reverse the sixteen binary digits of every 16-bit number |
| `BitReverse.Reverse` | externals/stb/stb_image.h:4116-4122 | Reversal and shift give the digits of an n-bit number in reverse |
| `HuffmanCode.AcceptedIffKraft` | externals/stb/stb_image.h:4133-4150 | The builder's size checks accept a length list exactly when its Kraft sum is at most one |
| `HuffmanCode.PrefixFree` | externals/stb/stb_image.h:4137-4150 | No assigned code is a prefix of another symbol's code |
| `HuffmanCode.MatchUnique` | externals/stb/stb_image.h:4137-4150 | At most one symbol's code stands at the front of any bit stream |
| `HuffmanCode.NoMatchIffBeyond` | externals/stb/stb_image.h:4224-4236 | Some code stands at the front exactly when the reversed bits are below the last bound |
| `HuffmanTables.FirstCodes` | externals/stb/stb_image.h:4133-4151 | Succeeds exactly for accepted lists, and fills firstcode, maxcode and firstsymbol with the first code, upper bound and first symbol of each length |
| `HuffmanTables.EnterFast` | externals/stb/stb_image.h:4158-4164 | Writes the entry at exactly those fast-table indices whose low bits are the reversed code |
| `HuffmanTables.Build` | externals/stb/stb_image.h:4124-4169 | Succeeds exactly when the Kraft sum is at most one; then all tables describe the canonical code of section 3.2.2 of RFC 1951 |
| `Inflate.ZBuf.FillBits` | externals/stb/stb_image.h:4202-4212 | Loads whole bytes above the buffered bits without changing the bit stream, until more than 24 bits are buffered, and the buffer fits a 32-bit word |
| `Inflate.BufferFitsWord` | externals/stb/stb_image.h:4202-4212 | Up to 32 buffered bits are a 32-bit number |
| `Inflate.ZBuf.Receive` | externals/stb/stb_image.h:4214-4222 | Returns the next n bits of the stream and drops exactly those |
| `Inflate.LookUp` | externals/stb/stb_image.h:4263-4270 | Fast table and slow path together find the symbol whose code stands at the front of the buffer, or none |
| `Inflate.LookUpSlow` | externals/stb/stb_image.h:4224-4241 | Beyond the fast table, the scan over maxcode finds the symbol and its length, or none |
| `Inflate.ZBuf.Decode` | externals/stb/stb_image.h:4243-4271 | Returns the symbol whose code begins the remaining stream and consumes exactly its bits; fails, consuming nothing, when no code does or the padding is used up |
| `Inflate.DecodedUnique` | externals/stb/stb_image.h:4243-4271 | The outcome and the remaining stream are determined by the stream before |
| `Inflate.FastHit` | externals/stb/stb_image.h:4263-4268 | A non-zero fast entry names the symbol whose code leads the buffer and its length |
| `Inflate.FastMiss` | externals/stb/stb_image.h:4263-4270 | A zero fast entry means the leading code, if any, is longer than nine bits |
| `PngFilter.PaethIsPredictor` | externals/stb/stb_image.h:4656-4668 | The branch-free form is the Paeth predictor of section 9.4 of the PNG Specification, for all integers |
| `PngFilter.KernelIsFilter` | externals/stb/stb_image.h:4647-4654 | The first row's substitute filters predict what the real ones predict below a row of zeros, whatever the other buffer holds |
| `PngMeaning.NoneMeans` | externals/stb/stb_image.h:4756-4758 | Filter 0: the row is the bytes as they are |
| `PngMeaning.SubMeans` | externals/stb/stb_image.h:4759-4763 | Filter 1: each byte is the sum modulo 256 of the filtered bytes in its place up to it |
| `PngMeaning.UpMeans` | externals/stb/stb_image.h:4764-4767 | Filter 2: the byte above is added |
| `PngMeaning.AverageMeans` | externals/stb/stb_image.h:4768-4773 | Filter 3: half the sum of left and above is added |
| `PngMeaning.PaethMeans` | externals/stb/stb_image.h:4774-4779 | Filter 4: the neighbour nearest to left plus above less upper left is added, in that order on a tie |
| `PngMeaning.OffsetMeans` | externals/stb/stb_image.h:4737-4750 | Row j of the data begins at j times one more than the bytes of a row |
| `PngFilter.RunKernel` | externals/stb/stb_image.h:4755-4785 | Each in-place filter loop makes every byte from its filtered byte and the three neighbours its rule names |
| `PngFilter.Unfilter` | externals/stb/stb_image.h:4737-4787 | Succeeds exactly when data suffice and all filter bytes are at most 4; then every row is the reconstruction of section 9.2 below the row before |
| `PngFilter.ReconstructionUnique` | externals/stb/stb_image.h:4755-4785 | A filtered row has one reconstruction only |
| `PngFilter.ImageUnique` | externals/stb/stb_image.h:4737-4787 | Filtered data have one reconstruction as an image |
| `PngFilter.FilteredReconstructs` | externals/stb/stb_image.h:4755-4785 | Reconstruction undoes filtering of a row, for every filter and pixel width |
| `PngFilter.ImageRoundTrip` | externals/stb/stb_image.h:4737-4787 | Unfiltering undoes filtering of an image, for every choice of a filter per row, with any trailing data |
| `Adam7.PassIsGrid` | externals/stb/stb_image.h:4873-4879 | The 8 by 8 pattern of section 8.2 of the PNG Specification assigns a pixel to a pass exactly when it lies on that pass's grid |
| `Adam7.PatternStarts` | externals/stb/stb_image.h:4873-4876 | Where each pass of the pattern has its first pixel |
| `Adam7.EachPixelOnce` | externals/stb/stb_image.h:4873-4898 | Place (i, j) of pass p lands on pixel (x, y) exactly when p is the pattern's pass there and i, j are the grid quotients: every pixel is written once |
| `Adam7.Deinterlace` | externals/stb/stb_image.h:4873-4907 | The three nested loops leave the image that the seven passes stand for |
| `Adam7.AssembledPlace` | externals/stb/stb_image.h:4892-4898 | The image holds at each place of a pass what the pass holds there |
| `Adam7.AssembledOfPasses` | externals/stb/stb_image.h:4873-4907 | De-interlacing the seven passes taken from an image gives the image back |
| `Interlaced.SliceUnique` | externals/stb/stb_image.h:4873-4901 | The slice of the data that belongs to a pass determines its rows |
| `Interlaced.DecodePass` | externals/stb/stb_image.h:4883-4901 | Unfilters the slice of one pass and cuts it into pixels; succeeds exactly when the slice is long enough and its filter bytes are known |
| `Interlaced.PassPixelMeans` | externals/stb/stb_image.h:4892-4898 | Byte t of place (i, j) of a pass is byte fb * i + t of its row j |
| `Interlaced.Decode` | externals/stb/stb_image.h:4861-4907 | Decodes the seven slices, each img_len behind the one before, and puts them together; succeeds exactly when every slice is in order |
| `Interlaced.EncodedHolds` | externals/stb/stb_image.h:4873-4901 | In the filtered data of an interlaced image every slice is in order and holds its pass, whatever follows |
| `Interlaced.FoundIsImage` | externals/stb/stb_image.h:4861-4907 | Whatever those data are decoded to, it is the image, for every choice of a filter for each row of each pass |
| `Interlaced.EncodeDecode` | externals/stb/stb_image.h:4861-4907 | Interlacing, filtering and decoding gives the image back, for every size, pixel width and filter choice |
| `SpscQueue.WrapsToSameSlot` | src/common/bounded_threadsafe_queue.h:92-136 | A wrapped 64-bit index and the count it stands for name the same slot for all counts exactly when the capacity divides 2^64 |
| `SpscSafety.StepInv` | src/common/bounded_threadsafe_queue.h:72-149 | Every step of producer or consumer, including spurious wake-ups, keeps the queue's invariant |
| `SpscSafety.WriteSparesUnread` | src/common/bounded_threadsafe_queue.h:92-95 | The slot about to be written holds no unread element |
| `SpscRuns.RunInv` | src/common/bounded_threadsafe_queue.h:72-149 | The invariant holds in every state of every interleaving |
| `SpscRuns.FirstInFirstOut` | src/common/bounded_threadsafe_queue.h:72-149 | Popped values are a prefix of pushed values and occupancy is within 0 and the capacity, also after the indices wrap |
| `SpscRuns.UnreadSurvives` | src/common/bounded_threadsafe_queue.h:72-149 | A pushed element stays in its slot, unchanged, until it is popped |
| `SpscRuns.NoSlotRace` | src/common/bounded_threadsafe_queue.h:95-139 | Producer and consumer are never about to access the same slot |
| `SpscRuns.NoLostWakeup` | src/common/bounded_threadsafe_queue.h:81-146 | A thread asleep while its condition holds has a notification coming from the other side |
| `SpscRuns.NoDeadlock` | src/common/bounded_threadsafe_queue.h:81-146 | When both threads are inside a call, one of them can take a step |
| `SpscRuns.RefusalsAreExact` | src/common/bounded_threadsafe_queue.h:76-115 | A try-mode call is refused exactly when the queue is full, or empty, at that step |
| `SpscCalls.EmplaceWaitPushes` | src/common/bounded_threadsafe_queue.h:71-105 | When a waiting push is over, its own element and no other has been added, in every interleaving |
| `SpscCalls.EmplaceTryExact` | src/common/bounded_threadsafe_queue.h:71-105 | A push that does not wait is decided by its first step: a full queue ends it there with nothing added, otherwise its own element and no other has been added when it is over |
| `SpscCalls.PopWaitTakes` | src/common/bounded_threadsafe_queue.h:107-149 | When a waiting pop is over, the oldest element and no other has been taken |
| `SpscCalls.PopTryExact` | src/common/bounded_threadsafe_queue.h:107-149 | A pop that does not wait is decided by its first step: an empty queue ends it there with nothing taken, otherwise the oldest element and no other has been taken when it is over |
| `RangeLock.Locks.TryLockRange` | src/common/range_lock.h:33-52 | Takes all locks of the range or none; its calls are exactly successful attempts up to the position returned and, when that is before the end, one failed attempt there and the releases |
| `RangeLock.TryLogSays` | src/common/range_lock.h:33-52 | Among those calls every position before the one returned was tried with success, and the one returned without |
| `RangeLock.Locks.LockRange` | src/common/range_lock.h:54-99 | Returns only with every lock of the range held, blocks only while holding none of them, and recurses on shorter suffixes only |
| `RangeLock.Locks.UnlockRange` | src/common/range_lock.h:26-30 | Releases exactly the locks of the range |
| `RangeLock.WaiterHoldsNothing` | src/common/range_lock.h:54-99 | In a system of threads that lock this way, a thread waiting for a lock holds none |
| `RangeLock.NoCircularWait` | src/common/range_lock.h:54-99 | Such threads are never waiting for each other in a circle |
| `AesTables.TablesInverse` | src/common/aes.h:42-86 | The inverse substitution table undoes the substitution table at every byte |
| `AesSbox.SboxIsAffineInverse` | src/common/aes.h:42-58 | Each entry of the substitution table is the affine image of the inverse of its index in GF(2^8), as section 5.1.1 of FIPS 197 says |
| `AesSbox.InverseUnique` | src/common/aes.h:122-129 | With doubling as written, a byte has one inverse only |
| `Aes.Mul2Linear` | src/common/aes.h:122-129 | Doubling in GF(2^8) respects exclusive or |
| `GaloisMix.InverseIsCube` | src/common/aes.h:167-179 | The 14, 11, 13, 9 row is what three mixings make of a column |
| `GaloisMix.InverseRow` | src/common/aes.h:145-179 | A row of the inverse mixing, applied to a mixed column, gives back that row's byte |
| `AesBlock.MixColumnsInverse` | src/common/aes.h:145-179 | inv_mix_columns undoes mix_columns |
| `AesBlock.ShiftRowsInverse` | src/common/aes.h:100-120 | inv_shift_rows undoes shift_rows |
| `AesBlock.SubBytesInverse` | src/common/aes.h:78-98 | inv_sub_bytes undoes sub_bytes |
| `RoundCipher.DecryptUndoesEncrypt` | src/common/aes.h:270-310 | A cipher of invertible rounds is undone by the inverse rounds in reverse, for any number of round keys from two on |
| `AesCipher.EncryptState` | src/common/aes.h:270-289 | The loop over round keys computes the rounds that `AesFips.EncryptIsCipher` shows to be those of the standard |
| `AesCipher.DecryptState` | src/common/aes.h:291-310 | The backward loop computes the inverse rounds, which undo that cipher (`AesFips.DecryptUndoesCipher`) |
| `AesCipher.DecryptInvertsEncrypt` | src/common/aes.h:270-310 | Decryption undoes encryption for every block and every list of at least two round keys |
| `AesFips.AddRoundKeyIs` | src/common/aes.h:36-40 | Byte i of the state after key addition is the exclusive or of bytes i of state and key |
| `AesFips.SubBytesIs` | src/common/aes.h:78-92 | Every byte of the state is replaced by its entry in the table |
| `AesFips.ShiftRowsIs` | src/common/aes.h:100-110 | Byte 4c + r after the shift comes from column c + r modulo 4 |
| `AesFips.MixColumnsIs` | src/common/aes.h:145-165 | Each mixed byte is twice itself, three times the next and the other two, in GF(2^8) |
| `AesFips.EncryptIsCipher` | src/common/aes.h:270-289 | Encryption under AES is the cipher of section 5.1 of FIPS 197, written on bytes, for every block and list of round keys |
| `AesFips.DecryptUndoesCipher` | src/common/aes.h:291-310 | Decryption under AES undoes that cipher |
| `AesFips.EncryptUnderKey` | src/common/aes.h:206-289 | A block encrypted under the bytes of a key is the cipher of FIPS 197 under that key's expansion |
| `Fips197.LastKeyShows` | src/common/aes.h:270-289 | Two lists of round keys that differ in the last only encrypt every block differently |
| `AesModes.AesSound` | src/common/aes.h:270-310 | AES under every such key list is a cipher for which the CBC, CTR and GCM results hold |
| `AesRoundTrips.CipherOf` | src/common/aes.h:206-310 | A key of 16, 24 or 32 bytes, through its schedule, makes a cipher for which the mode results hold |
| `AesRoundTrips.ModeCipherIs` | src/common/aes.h:270-289 | The cipher that the modes use is that of FIPS 197 |
| `AesRoundTrips.CbcRoundTrip` | src/common/aes.h:206-1027 | From key bytes: encryption with padding and decryption in CBC mode report exactly a wrong key size or a buffer too small, and otherwise give a message of any length back with its pad count |
| `AesRoundTrips.GcmRoundTrip` | src/common/aes.h:206-1121 | From key bytes of any number: encryption and decryption in GCM mode with the tag made report exactly the parameter errors and otherwise give the text back |
| `Cbc.EncryptCbc` | src/common/aes.h:908-960 | Reports exactly the size errors; otherwise each block is the encryption of the padded message's block chained to the one before |
| `Cbc.EncryptsMeans` | src/common/aes.h:908-960 | Each ciphertext block is the encryption of its bytes, each added to the byte 16 places before |
| `Cbc.PadMeans` | src/common/aes.h:908-960 | The padding: as few bytes as make whole blocks, at least one, each their number |
| `Cbc.CheckPadding` | src/common/aes.h:750-762 | Accepts exactly paddings of at most 16 bytes that all hold their number |
| `Cbc.AcceptedPadding` | src/common/aes.h:750-762 | A decrypted text is accepted exactly when it is the padded form of some message or its last byte is 0 |
| `Cbc.ZeroPaddingAccepted` | src/common/aes.h:750-762 | A text accepted for its last byte 0 that is the padded form of no message |
| `Cbc.DecryptCbc` | src/common/aes.h:976-1027 | Reports size, padding and buffer errors in the order of the code, with the pad count stored even when the padding is then refused; otherwise delivers the chained decryption without its padding |
| `Cbc.DecryptsMeans` | src/common/aes.h:976-1027 | Each byte is one of the decryption of its block, added to the ciphertext byte 16 places before |
| `Cbc.CbcRestores` | src/common/aes.h:908-1027 | A padded message of any length is decrypted whole, with the pad count it was given, into a buffer exactly if that holds it |
| `Cbc.CbcRestoresUnpadded` | src/common/aes.h:908-1027 | Without padding, data of a multiple of 16 bytes come back |
| `Cbc.PadEncryptDecrypt` | src/common/aes.h:908-1027 | Encrypting with padding and decrypting again through any two buffers reports exactly a wrong key size or a buffer too small, and otherwise gives message and pad count back, for any sound cipher |
| `Cbc.DecryptsUnique` | src/common/aes.h:976-1027 | Ciphertext and vector determine the decryption |
| `Counter.IncrCounter` | src/common/aes.h:259-268 | The byte-wise carry loop adds one to the 128-bit big-endian number, modulo 2^128 |
| `CounterMode.CryptCtr` | src/common/aes.h:1169-1191 | Masks block i in place with the encryption of nonce + i modulo 2^128 |
| `CounterMode.CtrMeans` | src/common/aes.h:1169-1191 | Byte p is masked by byte p % 16 of the encryption of the nonce advanced by p / 16 modulo 2^128 |
| `CounterMode.CtrTwice` | src/common/aes.h:1169-1191 | CTR mode is its own inverse |
| `CounterMode.MaskedByte` | src/common/aes.h:1181-1188 | Byte k of block m is masked by byte k of the encryption of counter block m |
| `Gcm.AdvancedNext` | src/common/aes.h:459-471 | inc32 steps from counter block i to i + 1: the low 32 bits modulo 2^32, the rest kept |
| `Gcm.RunGctr` | src/common/aes.h:531-565 | The block loop, with its short last block, masks the data by the counter blocks of section 6.5 of SP 800-38D |
| `Gcm.OpensExactlySealed` | src/common/aes.h:1046-1121 | Decryption accepts a ciphertext and tag and yields a text exactly when encryption of that text yields them |
| `Sp80038d.SealMeans` | src/common/aes.h:585-650 | Every byte of ciphertext and tag is the one section 7.1 of SP 800-38D describes, from the start of the counter and the bytes authenticated, both given position by position |
| `Sp80038d.CounterExists` | src/common/aes.h:459-471 | Every advance of the start has a counter block, so that description leaves no byte open |
| `Sp80038d.AuthInputTells` | src/common/aes.h:606-630 | Different additional data or ciphertexts give different bytes to authenticate |
| `Gcm.EncryptGcm` | src/common/aes.h:1046-1063 | Reports exactly the parameter errors; otherwise leaves the ciphertext in the buffer and returns its tag cut to size |
| `Gcm.DecryptGcm` | src/common/aes.h:1099-1121 | Leaves the buffer alone on any error; reports a wrong tag exactly when it differs; otherwise restores the text in place |
| `Gcm.EncryptDecrypt` | src/common/aes.h:1046-1121 | The two operations in turn on one buffer report exactly the parameter errors and otherwise restore the text, for any suite |
| `Ghash.MulBlocks` | src/common/aes.h:479-503 | The bit loop computes the product of section 6.3 of SP 800-38D: the sum of the shifted and reduced factors |
| `Ghash.StepBit` | src/common/aes.h:479-500 | A step moves each bit one place on and brings the one that falls out back at places 0, 1, 2 and 7 |
| `Ghash.StepIsTimesX` | src/common/aes.h:479-500 | The step is the product with x |
| `Ghash.MulCommutes` | src/common/aes.h:479-503 | The block product is commutative, though the two factors play different parts in the loop |
| `Ghash.MulAssociates` | src/common/aes.h:479-503 | The block product is associative |
| `Ghash.MulDistributes` | src/common/aes.h:479-503 | The block product distributes over exclusive or |
| `Ghash.HornerStep` | src/common/aes.h:508-518 | One turn of the loop is a step of Horner's rule on the polynomial of section 6.4 of SP 800-38D |
| `PolyRing.TimesCommute` | src/common/aes.h:479-503 | In any field of this kind two shift-and-add products applied one after the other may change places |
| `BlockBits.BlockBytes` | src/common/aes.h:387-427 | A block turned into bits and back is the same bytes |
| `BlockBits.BlockBit` | src/common/aes.h:383-391 | The bits of a block are those of its bytes in order, each from its highest to its lowest |
| `BlockBits.ByteDigits` | src/common/aes.h:383-391 | A byte as a bit vector has the binary digits of its number |
| `BlockBits.BytesBlock` | src/common/aes.h:383-421 | Bits turned into a block of bytes and back are the same bits |
| `BlockBits.BlockXor` | src/common/aes.h:393-399 | Exclusive or byte by byte is exclusive or bit by bit |
| `AesGcm.RunHash` | src/common/aes.h:508-518 | The loop, which keeps its sum as bytes and multiplies on bits, computes X1 H^m + X2 H^(m-1) + ... + Xm H, as section 6.4 of SP 800-38D says |
| `AesGcm.SuiteUsable` | src/common/aes.h:585-650 | AES under every key list with GHASH meets the conditions of the GCM results |
| `AesKeys.ExpandKey` | src/common/aes.h:206-237 | The loop makes the schedule of section 5.2 of FIPS 197, grouped into one round key more than there are rounds |
| `AesKeys.WindowIffKey` | src/common/aes.h:206-237 | Two schedules share a stretch of a key's length, anywhere, exactly when the keys are equal |
| `AesSchedule.StretchIffKey` | src/common/aes.h:206-237 | So it is for the word operations of AES: a stretch of the schedule as long as the key determines the key |
| `AesFips.RconIs` | src/common/aes.h:211-211 | The round constants are the powers of 2 in GF(2^8) |
| `AesFips.ExpansionIs` | src/common/aes.h:181-237 | The words made from a key are those of section 5.2 of FIPS 197, byte by byte |
| `AesSchedule.RoundKeys` | src/common/aes.h:181-237 | For a key of 16, 24 or 32 bytes the round keys are the key's schedule and suffice for the cipher |
| `LruList.BypassedLinked` | src/common/lru_cache.h:108-127 | Linking an item's neighbours to each other takes it out of the list and leaves the rest linked in order |
| `LruList.AppendedLinked` | src/common/lru_cache.h:94-106 | Linking an item behind the last one puts it at the end |
| `LruCache.Cache.Insert` | src/common/lru_cache.h:26-33 | Returns an id not in use, the one freed longest ago or a new one, and appends the item; the links spell out exactly the live items |
| `LruCache.Cache.Touch` | src/common/lru_cache.h:35-46 | A later tick moves the item to the end with that tick, an earlier or equal one changes nothing |
| `LruCache.Cache.Free` | src/common/lru_cache.h:48-54 | Removes exactly that item and puts its id behind the other free ones |
| `LruCache.Cache.Detach` | src/common/lru_cache.h:108-127 | In-place pointer updates take exactly one item out of the list |
| `LruCache.Cache.Attach` | src/common/lru_cache.h:94-106 | In-place pointer updates put the item at the end |
| `LruCache.Cache.Build` | src/common/lru_cache.h:78-92 | Takes the oldest free id, or a new one, without disturbing the list |
| `LruCache.Cache.ForEachItemBelow` | src/common/lru_cache.h:56-75 | Visits items from the oldest up to the first later than the bound, also when the callback frees the item it is given |
| `LruCache.WalkExact` | src/common/lru_cache.h:56-75 | In a sorted list that is exactly the items at or below the bound, and the ones left are exactly those above it or spared |
| `LruSpec.InsertSorted` | src/common/lru_cache.h:26-33 | An insertion keeps the list sorted exactly when no tick is later |
| `LruSpec.TouchSorted` | src/common/lru_cache.h:35-46 | A touch keeps the list sorted exactly when it is no news or no other item is later |
| `LruSpec.TouchMeans` | src/common/lru_cache.h:35-46 | A touch with a later tick takes the entry out of its place and puts it at the end with that tick; any other changes nothing |
| `LruSpec.TouchCanUnsort` | src/common/lru_cache.h:35-46 | A sorted list of two that a touch with a tick between the two leaves unsorted |
| `LruSpec.RunSorted` | src/common/lru_cache.h:26-54 | In every run on live ids with non-decreasing ticks the list is sorted and every item carries the tick of its last use |
| `Word64.DigitAnd` | src/common/bit_array.h:118-123 | Bit i of a conjunction is the conjunction of the bits |
| `Word64.BitComplement` | src/common/bit_array.h:118-120 | Bit i of a complement is the other bit |
| `Word64.BitLowMask` | src/common/bit_array.h:134-135 | (1 << k) - 1 has exactly the bits below k |
| `BitWords.ViewPainted` | src/common/bit_array.h:126-180 | Words painted one by one through masks are the plain view painted on the range |
| `BitArray.Bitmap.Set` | src/common/bit_array.h:114-116 | Sets exactly that flag of the plain view |
| `BitArray.Bitmap.Unset` | src/common/bit_array.h:118-120 | Clears exactly that flag |
| `BitArray.Bitmap.Get` | src/common/bit_array.h:122-124 | Reads that flag |
| `BitArray.Bitmap.SetRange` | src/common/bit_array.h:126-152 | Sets exactly the flags of the range; does nothing for an empty or overlong one |
| `BitArray.Bitmap.UnsetRange` | src/common/bit_array.h:154-180 | Clears exactly the flags of the range; does nothing for an empty or overlong one |
| `BitArray.Bitmap.Slice` | src/common/bit_array.h:75-102 | The sub-range of another array: its flags on the range and clear ones elsewhere; all clear for an empty or overlong range |
| `BitArray.Bitmap.FirstRangeFrom` | src/common/bit_array.h:210-267 | The word scan finds the first run of set flags at or after the start, or {N, N} |
| `BitArray.Bitmap.LastRangeFrom` | src/common/bit_array.h:273-333 | The word scan finds the last run of set flags below the bound, or {0, 0} |
| `BitArray.Bitmap.Iterate` | src/common/bit_array.h:29-59 | Iteration visits exactly the maximal runs, in increasing order with gaps, and ends |
| `BitRuns.RunsExact` | src/common/bit_array.h:35-38 | A range is visited exactly when it is a maximal run |
| `BitRuns.RunsAscend` | src/common/bit_array.h:35-38 | Each run visited ends before the next begins, with a clear flag between |
| `Sha1Stream.Hasher.ProcessByte` | src/common/sha1.h:42-50 | Digest and block always stand for everything fed so far |
| `Sha1Stream.Hasher.ProcessBytes` | src/common/sha1.h:51-64 | However bytes are cut into calls, the state depends on their concatenation only |
| `Sha1Stream.Hasher.GetDigest` | src/common/sha1.h:65-91 | Feeds 0x80, zeros, four zero bytes and the low 32 bits of the bit count; the block index ends at 0 and the digest is the fold over the padded message |
| `Sha1Stream.PaddedIffShort` | src/common/sha1.h:65-91 | That padding is the one of section 5.1.1 of FIPS 180-4 exactly for messages shorter than 2^29 bytes |
| `Sha1Stream.LongMessageDiffers` | src/common/sha1.h:65-91 | A message of 2^29 bytes whose padding is not the one of FIPS 180-4 |
| `Sha1Block.ProcessBlock` | src/common/sha1.h:124-172 | The schedule and the 80 in-place rounds compute the block function |
| `Sha1.CompressIs` | src/common/sha1.h:124-172 | The block function is that of section 6.1.2 of FIPS 180-4, written out on its own |
| `Sha1.PaddedIs` | src/common/sha1.h:65-91 | The padding built is the only one that section 5.1.1 describes |
| `Fips180.ConstantsAreRoots` | src/common/sha1.h:146-158 | The constants of the rounds are the square roots of 2, 3, 5 and 10, times 2^30 |
| `Fips180.InitialBytes` | src/common/sha1.h:33-37 | The initial value is the bytes 01 23 45 67 89 ab cd ef fe dc ba 98 76 54 32 10 f0 e1 d2 c3 |
| `Fips180.ChBit` | src/common/sha1.h:146-147 | Choice: the bit of the second word where the first is set, elsewhere that of the third |
| `Fips180.ParityBit` | src/common/sha1.h:149-150 | Parity: set where an odd number of the three words is |
| `Fips180.MajBit` | src/common/sha1.h:152-153 | Majority: set where at least two of the three words are |
| `Fips180.RotlBit` | src/common/sha1.h:15-17 | Rotations by 1, 5 and 30 move bit i to bit i + n modulo 32 |
| `Fips180.MixedBit` | src/common/sha1.h:132-134 | A schedule word is set, one place on, where an odd number of the four words is |
| `Fips180.SumIsModular` | src/common/sha1.h:167-171 | Words are added as numbers modulo 2^32 |
| `Fips180.TotalNum` | src/common/sha1.h:159-159 | The sum of a round is the sum of five numbers modulo 2^32 |
| `WordNumbers.PackedNum` | src/common/sha1.h:126-131 | Four bytes packed into a word have the number of the bytes, first byte highest |
| `Sha1.Digest` | src/common/sha1.h:42-91 | For a message shorter than 2^29 bytes, however cut, the digest is the one FIPS 180-4 defines, `Fips180` being that definition written on its own |
| `SlotVector.MoveValues` | src/common/slot_vector.h:230-244 | The two loops over the bitset move every value in use |
| `SlotVector.Slots.Reserve` | src/common/slot_vector.h:230-257 | Growth keeps every live value at its id and makes exactly the new ids free |
| `SlotVector.Slots.Insert` | src/common/slot_vector.h:122-129 | Returns an id that was not live and adds the value there, changing no other: the id freed last, or the first one of storage twice as large |
| `SlotVector.Slots.Erase` | src/common/slot_vector.h:131-135 | Removes exactly that id and makes it the next to be used |
| `SlotVector.Slots.Size` | src/common/slot_vector.h:137-139 | Capacity less free ids is the number of live values |
| `SlotVector.Slots.Iterate` | src/common/slot_vector.h:76-80 | Visits exactly the live ids, in order |
| `SlotVector.Census` | src/common/slot_vector.h:137-139 | Free ids and live ids together are all ids below the capacity |
| `Serdes.DecodeEncode` | src/common/serdes.h:70-141 | Reading what was written gives the value back and stops exactly behind it, for every nesting of scalars, strings and containers |
| `Serdes.SizeByte` | src/common/serdes.h:87-88 | Byte i of a stored size is its i-th digit to the base 256 |
| `Serdes.TextMeans` | src/common/serdes.h:94-97 | A string is stored as its size in eight bytes and its characters |
| `Serdes.ListMeans` | src/common/serdes.h:87-92 | A container is stored as its size in eight bytes and its elements, each directly behind the one before |
| `Serdes.DecodeAllEncodeAll` | src/common/serdes.h:70-141 | Values written one after another come back in order |
| `Serdes.Archive.WriteBytes` | src/common/serdes.h:71-78 | For any position in the archive: the new length, and at each position whether the written, the old or a zero byte stands there |
| `Serdes.Archive.WriteDatum` | src/common/serdes.h:80-97 | At the end of the archive, appends exactly the encoding |
| `Serdes.Archive.ReadDatum` | src/common/serdes.h:106-135 | Reads as the decoding function says, comes to the end of the bytes exactly where it does, and overflows its int counter exactly where it does |
| `Serdes.WriteThenRead` | src/common/serdes.h:22-141 | A value written to a fresh archive and read back from its bytes is restored, with the offset behind it |
| `Serdes.Archive.WriteAll` | src/common/serdes.h:80-97 | Several values are appended one after another |
| `Serdes.Archive.ReadAll` | src/common/serdes.h:106-135 | Several values are read as the decoding function says, up to the first that cannot be read |
| `Serdes.WriteAllThenReadAll` | src/common/serdes.h:22-141 | Any list of values written to a fresh archive and read back from its bytes is restored in order |
| `FixedPoint.MultiplyHighLimbs` | src/common/uint128.h:68-92 | The limb fallback gives the high word of the whole 128-bit product; no step wraps |
| `FixedPoint.Divide128Exact` | src/common/uint128.h:97-113 | Returns the true remainder and the quotient modulo 2^64 |
| `FixedPoint.MultiplyAndDivideExactIff` | src/common/uint128.h:33-38 | The portable form gives the quotient of the whole product modulo 2^64 exactly when the product of the two remainders is below 2^64 |
| `FixedPoint.CutOccurs` | src/common/uint128.h:33-38 | An input, 2^32 times 2^32 over 2^33, at which it gives 0 and not 2^31 |
| `FixedPoint.ClockIsClose` | src/common/native_clock.cpp:10-26 | For a frequency above the unit, the clock shows floor(ticks * unit / frequency) or one less |
| `FixedPoint.CloseIffUnitBelowFrequency` | src/common/uint128.h:54-57 | That holds for every tick count exactly when the unit is below the frequency |
| `FixedPoint.CutFactorLoses` | src/common/uint128.h:54-57 | At or above the frequency the cut factor makes the clock lose at least one unit per tick |
| `FixedPoint.ClockMonotone` | src/common/native_clock.cpp:16-26 | More ticks never show less time |
| `FixedPoint.OneLessOccurs` | src/common/native_clock.cpp:16-26 | An input where the clock shows one less than the true time |

## Left out

- AddressSpace.Impl.Map: requires a size above 0, a region at or below the address and no 64-bit address overflow, as the source's lookup does.
- AddressSpace.Impl.MapRegion: the reading of a read-only file into committed pages and the protection calls are one value of ghost host memory.
- AddressSpace.Impl.Unmap: requires a size above 0 and a region at or below the address; the regions after a failed Unmap are not described; where the source would ask the operating system to split nothing off, at an address just behind a region, the model reports failure.
- AddressSpace.Impl.constructor: takes the free ranges found at start-up as given; querying them from the operating system is not modelled.
- Windows Protect, GetUsableRegions and the real calls to Windows and POSIX: operating-system calls are taken to succeed, as ghost host state.
- PosixSpace.Space.MapMemory: the Apple special case for executable memory, page protections and address 0 are not modelled; parsing of the process map is not modelled.
- PosixSpace.Space.UnmapMemory: at address 0 the search for a neighbour starts at 0, where the source computes an address below it with wrap-around.
- IntervalSet stands for the boost interval container, which is not part of the repository.
- HuffmanTables.Build: code lengths are at most 15 and symbols at most 288, as the callers supply; the block loop of inflate (lengths, distances, window) is not modelled.
- PngFilter.Unfilter: returns the reconstructed rows; expansion of 1, 2 and 4 bit samples, 16 bit byte order, alpha insertion and allocation limits are not modelled.
- Adam7.Deinterlace: copies pixels as units, given the seven decoded passes.
- Interlaced.Decode: samples of 8 bits without alpha insertion; unfilters all passes before it copies the first, where the source takes them in turn.
- SpscRuns.RunInv: sequentially consistent interleaving of the steps; weak memory order, stop tokens, and the multi-producer wrappers are not modelled.
- RangeLock.Locks.LockRange: has a bound on failed attempts after which the model gives up, since against arbitrary interference the source need not return; every statement holds for every bound.
- AesCipher.EncryptState: the round keys are any list of at least two, of which the schedules of `AesSchedule.RoundKeys` are some; loops over the four columns of a state are written out.
- Gcm.EncryptGcm: stated for any cipher and hash that qualify; the buffer is not empty, as the source indexes it.
- Cbc.DecryptCbc: requires data and a buffer of at least one block, since the source decrypts the first block into the buffer; null pointers and ECB mode are not modelled.
- LruCache.Cache.Touch: ids are live, as the source demands of its callers; ticks are below 2^63 in the walk.
- LruCache.Cache.ForEachItemBelow: the early exit by a boolean result is not modelled, since the source's test for it is never true; the callback may free the item it is given and no other.
- BitArray.Bitmap.SetRange: scalar paths only; the vector paths and the bitwise operators between arrays are not modelled.
- Sha1Stream.Hasher.ProcessByte: the byte count is unbounded; the source's wraps at 2^64, which cannot show in the 32 bits that are used.
- SlotVector.Slots.Insert: ids are unbounded, the source's are 32 bits wide; object lifetimes (placement new, destructors) are values here.
- Serdes.Archive.WriteDatum: archives stay below 2^32 bytes, as the source's offset requires; the host stores sizes lowest byte first; what follows the overflow of the reader's int counter is undefined and ends the model's reading.
- FixedPoint.ClockIsClose: the tick count is a parameter; compilers without 128-bit integers, for which the factor goes through MultiplyAndDivide64, are not modelled.
- Start-up, window, settings, file helpers, shader and GPU code: input and output plumbing or outside these kernels.
