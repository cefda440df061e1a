# Verification of gralloc_gbm_mesa

A Dafny 4.11 model of the parts of gralloc_gbm_mesa that hold state, byte formats or
arithmetic, with proofs about every input and every run. `dafny verify dfyconfig.toml`
checks the whole project.

| file | models |
|---|---|
| `Bytes.dfy`, `Parsing.dfy` | integers in memory; parsers and the counted reading loop, with laws proved once for all element types |
| `MetadataFormat.dfy`, `MetadataCodec.dfy`, `MetadataWire.dfy` | the metadata wire format and its theorems: round trip, canonical decoding, prefix code, loop bounds, sizes; and where every field lies |
| `MetadataWriter.dfy`, `MetadataReader.dfy` | the writer and reader classes, proved against the format |
| `StandardMetadata.dfy` | the table of metadata types and the dispatch over it |
| `Formats.dfy`, `Geometry.dfy` | formats and flags, the bit-mask ALIGN, the sizes asked of GBM |
| `YCbCr.dfy`, `PlanarYV12.dfy`, `SemiPlanarNV21.dfy` | the plane pointers, and for each layout where its samples lie |
| `LockMachine.dfy` | the record behind lock and unlock, refined to a three-state machine |
| `LockedBuffers.dfy` | runs that mix locking with allocation, import and release |
| `BufferObjects.dfy`, `Gralloc.dfy`, `Allocator.dfy` | the handle map, allocation, import, release, and batch allocation with rollback |
| `Mapper.dfy` | importBuffer, freeBuffer and the store of settable metadata |
| `NativeHandles.dfy`, `AidlTypes.dfy` | native handles, their AIDL form and the interface's types |
| `Parcels.dfy`, `ParcelLaws.dfy`, `ParcelIO.dfy`, `Parcelables.dfy` | parcels, version skew at any depth, the in-place cursor code, the four parcelables |
| `Rpc.dfy`, `ParcelWire.dfy` | proxy and skeleton of IAllocator; what the parcelables and calls look like in a parcel |
| `StrideAgreement.dfy` | one stride from the allocator's answer to the mapper's metadata |

How the surroundings are treated. GBM, the kernel and the native-handle library are methods
that choose their answer freely within a contract: a new BO, handle or descriptor, or a
failure; what they were asked and answered is kept in a ghost log, so that contracts can say
exactly when an operation fails; `gbm_bo_map` gives a non-null address and map data or leaves
the map data null. Misuse
of them (destroying a BO that is not live, closing a descriptor that is not open, an
`emplace` that drops its BO) is counted in a ghost field `faults` that every method keeps at
zero. `_gbm_dev` is the flag `deviceOpen`; where opening fails the source reads an
uninitialised pointer, and the model returns the error code. Errno is any positive number after a
GBM call that failed; where freeing an unknown handle returns an errno that no call has set, it
may be zero as well.
The values of `GRALLOC_USAGE_*` and `HAL_PIXEL_FORMAT_*` come from Android's headers, which
are not part of this model. Floats travel as their four bytes.

Where the code and its documentation differ, the model follows the code:

- `lock_ycbcr` takes the lock before it looks at the format: `RefusedYCbCrLock`,
  `YCbCrLeavesLock`.
- The importer pads cursor sizes for every format, the allocator only for one:
  `ImportRebuildsAllocation`, `CursorOfOtherFormat`.
- The conversion to GBM formats reverses the order in which an Android format's name lists the
  channels (src/gralloc_gbm_mesa.cpp:76-77). For RGB_565, which the PixelFormat interface defines
  from the most significant bit, that exchanges red and blue: `ConversionKeepsChannels`.
- The YV12 planes overlap for some odd sizes, and for any size whose luma plane wraps its
  32-bit offset, which the request to GBM may survive: `YV12SamplesDistinct` says for which,
  `YV12LargeAliases` gives one.
- The metadata setter takes the bare struct, never a stream with a header:
  `EncodedStreamRefused`, `StructIsPayload`.

## Model

| member | source | states |
|---|---|---|
| MetadataCodec.RoundTrip | include/stable-c-v34/implutils/include/android/hardware/graphics/mapper/utils/IMapperMetadataTypes.h:248-523 | for every header value, value type and value that fits int32, decoding the encoding followed by anything gives the value and consumes exactly the encoding; an absent optional is the empty input |
| MetadataCodec.CanonicalDecoding | include/stable-c-v34/implutils/include/android/hardware/graphics/mapper/utils/IMapperMetadataTypes.h:140-246 | for every input that decodes, re-encoding the value gives exactly the consumed bytes |
| MetadataCodec.AcceptsExactlyEncodings | include/stable-c-v34/implutils/include/android/hardware/graphics/mapper/utils/IMapperMetadataTypes.h:261-522 | an input of at most INT32_MAX bytes decodes to a value if and only if it starts with the value's encoding, or is empty for an absent optional |
| MetadataCodec.NegativeCountFails | include/stable-c-v34/implutils/include/android/hardware/graphics/mapper/utils/IMapperMetadataTypes.h:357-362 | a negative number of planes, components or rectangles, at which `reserve` throws, gives no value |
| MetadataCodec.DecodingIsInjective | include/stable-c-v34/implutils/include/android/hardware/graphics/mapper/utils/IMapperMetadataTypes.h:353-413 | no two inputs consumed to the end decode to the same value |
| MetadataCodec.TruncationFails | include/stable-c-v34/implutils/include/android/hardware/graphics/mapper/utils/IMapperMetadataTypes.h:140-149 | no strict prefix of an encoding decodes, apart from the empty input of an optional type |
| MetadataCodec.WrongTypeFails | include/stable-c-v34/implutils/include/android/hardware/graphics/mapper/utils/IMapperMetadataTypes.h:158-168 | a stream with one header value is refused by the decoders of all others |
| MetadataCodec.DecodeLoopsBounded | include/stable-c-v34/implutils/include/android/hardware/graphics/mapper/utils/IMapperMetadataTypes.h:357-378 | whatever count a stream claims, the loops over planes, components and rectangles turn at most bytes/72, /32 and /16 times, plus one |
| MetadataCodec.EncodedSize | include/stable-c-v34/implutils/include/android/hardware/graphics/mapper/utils/IMapperMetadataTypes.h:326-396 | the number of bytes of every encoding, by an independent count |
| MetadataWire.PlaneOnWire | include/stable-c-v34/implutils/include/android/hardware/graphics/mapper/utils/IMapperMetadataTypes.h:332-348 | where in a plane's bytes the component count and each of the eight fields lie |
| MetadataWire.HeaderOnWire | include/stable-c-v34/implutils/include/android/hardware/graphics/mapper/utils/IMapperMetadataTypes.h:87-90 | a header is the length 53, the name character by character, and the type's number |
| MetadataWire.EncodingOnWire | include/stable-c-v34/implutils/include/android/hardware/graphics/mapper/utils/IMapperMetadataTypes.h:248-523 | an encoding is its header and then its payload; an absent optional is nothing |
| MetadataWire.RectOnWire | include/stable-c-v34/implutils/include/android/hardware/graphics/mapper/utils/IMapperMetadataTypes.h:390-393 | left, top, right and bottom lie at bytes 0, 4, 8 and 12 |
| MetadataWire.RectsOnWire | include/stable-c-v34/implutils/include/android/hardware/graphics/mapper/utils/IMapperMetadataTypes.h:384-396 | the number of rectangles, and then each at its place |
| MetadataWire.PlanesOnWire | include/stable-c-v34/implutils/include/android/hardware/graphics/mapper/utils/IMapperMetadataTypes.h:332-348 | the number of planes, and each behind those before it |
| MetadataWire.ComponentInPlane | include/stable-c-v34/implutils/include/android/hardware/graphics/mapper/utils/IMapperMetadataTypes.h:334-339 | the components of a plane lie in their order between the count and the words |
| MetadataWire.ComponentOnWire | include/stable-c-v34/implutils/include/android/hardware/graphics/mapper/utils/IMapperMetadataTypes.h:336-338 | a component is its type, then its offset and its size in bits |
| MetadataWire.ExtendableOnWire | include/stable-c-v34/implutils/include/android/hardware/graphics/mapper/utils/IMapperMetadataTypes.h:127-129 | an extendable type is the length of its name, the name and the value |
| MetadataWire.BlobOnWire | include/stable-c-v34/implutils/include/android/hardware/graphics/mapper/utils/IMapperMetadataTypes.h:109-125 | a string or byte vector is its length and its bytes |
| MetadataWire.ScalarOnWire | include/stable-c-v34/implutils/include/android/hardware/graphics/mapper/utils/IMapperMetadataTypes.h:250-325 | integers in their own width, strings, extendable types and byte vectors are their own payload |
| MetadataWire.Smpte2086OnWire | include/stable-c-v34/implutils/include/android/hardware/graphics/mapper/utils/IMapperMetadataTypes.h:417-432 | which of the ten floats lies where |
| MetadataWire.Cta8613OnWire | include/stable-c-v34/implutils/include/android/hardware/graphics/mapper/utils/IMapperMetadataTypes.h:461-472 | which of the two floats lies where |
| Bytes.WordOf | include/stable-c-v34/implutils/include/android/hardware/graphics/mapper/utils/IMapperMetadataTypes.h:92-99 | four bytes as an unsigned and as a signed integer, least significant first |
| Bytes.DoubleWordOf | include/stable-c-v34/implutils/include/android/hardware/graphics/mapper/utils/IMapperMetadataTypes.h:92-99 | eight bytes likewise |
| MetadataFormat.PlaneInverts | include/stable-c-v34/implutils/include/android/hardware/graphics/mapper/utils/IMapperMetadataTypes.h:333-377 | one plane with any components reads back from its bytes, whatever follows |
| MetadataWriter.WriterRefinement | include/stable-c-v34/implutils/include/android/hardware/graphics/mapper/utils/IMapperMetadataTypes.h:53-79 | after any writes into any buffer the stored bytes are the longest run of whole writes within the buffer and int32, and the desired size is the full length or the error |
| MetadataWriter.LongestRunIsLongest | include/stable-c-v34/implutils/include/android/hardware/graphics/mapper/utils/IMapperMetadataTypes.h:70-78 | a run of writes from the start fits if and only if it is no longer than the stored one |
| MetadataWriter.DesiredSizeIgnoresBuffer | include/stable-c-v34/implutils/include/android/hardware/graphics/mapper/utils/IMapperMetadataTypes.h:64-68 | the desired size is the same for every buffer size |
| MetadataWriter.Writer.Reserve | include/stable-c-v34/implutils/include/android/hardware/graphics/mapper/utils/IMapperMetadataTypes.h:59-79 | the exact new counters, and where the write goes if there is room |
| MetadataWriter.Writer.WritePlanes | include/stable-c-v34/implutils/include/android/hardware/graphics/mapper/utils/IMapperMetadataTypes.h:332-348 | the nested loops put out exactly the format's bytes |
| MetadataWriter.EncodeInto | include/stable-c-v34/implutils/include/android/hardware/graphics/mapper/utils/IMapperMetadataTypes.h:328-506 | the returned size or error, the stored prefix, all of it if it fits, and every other byte of the buffer untouched |
| MetadataReader.Reader.Advance | include/stable-c-v34/implutils/include/android/hardware/graphics/mapper/utils/IMapperMetadataTypes.h:140-149 | takes the bytes, or fails for good |
| MetadataReader.Reader.CheckHeader | include/stable-c-v34/implutils/include/android/hardware/graphics/mapper/utils/IMapperMetadataTypes.h:158-168 | the sticky flag and the position after the header check are those of the format's parser |
| MetadataReader.Reader.ReadPlanes | include/stable-c-v34/implutils/include/android/hardware/graphics/mapper/utils/IMapperMetadataTypes.h:353-379 | the plane loop with its sticky flag reads what the format says, with an int counter that cannot overflow, in at most remaining/72 + 1 turns |
| MetadataReader.Reader.ReadRects | include/stable-c-v34/implutils/include/android/hardware/graphics/mapper/utils/IMapperMetadataTypes.h:399-413 | the same for rectangles, in at most remaining/16 + 1 turns |
| MetadataReader.DecodeFrom | include/stable-c-v34/implutils/include/android/hardware/graphics/mapper/utils/IMapperMetadataTypes.h:261-522 | the decoders in place return what the format's parser returns |
| StandardMetadata.TableIsDense | include/stable-c-v34/implutils/include/android/hardware/graphics/mapper/utils/IMapperMetadataTypes.h:544-589 | the jump table has an entry exactly for the types from BUFFER_ID to STRIDE |
| StandardMetadata.TableEntries | include/stable-c-v34/implutils/include/android/hardware/graphics/mapper/utils/IMapperMetadataTypes.h:544-566 | by number, which values each type has: width and sign of the integers, or which element type, and which are optional |
| StandardMetadata.ProvideStandardMetadata | include/stable-c-v34/implutils/include/android/hardware/graphics/mapper/utils/IMapperMetadataTypes.h:593-606 | unknown types are unsupported and leave the buffer alone; a provided value arrives in the buffer; other answers are passed on |
| StandardMetadata.ApplyStandardMetadata | include/stable-c-v34/implutils/include/android/hardware/graphics/mapper/utils/IMapperMetadataTypes.h:610-624 | unsupported, bad value, or the callback's answer for the decoded value |
| StandardMetadata.ProvidedIsApplied | include/stable-c-v34/implutils/include/android/hardware/graphics/mapper/utils/IMapperMetadataTypes.h:591-624 | what one side provides the other side applies, for every type of the table; truncated or foreign streams are bad values |
| Formats.PixelStrideCovers | src/gralloc_gbm_mesa.cpp:262-276 | the pixel stride covers the byte stride if and only if the rounding does not overflow 32 bits, and no smaller number of whole pixels covers it |
| Formats.ConversionKeepsChannels | src/gralloc_gbm_mesa.cpp:72-141 | for every packed format the GBM format lists, from the most significant bit, the channels of the Android name reversed; in memory these are the channels asked for if and only if the format is not RGB_565 |
| Formats.ConversionOfOthers | src/gralloc_gbm_mesa.cpp:94-136 | Y8, BLOB, RAW16, Y16 and YV12 by the width of their samples, the planar formats by number; exactly the unlisted formats have none |
| Formats.PixelBytes | src/gralloc_gbm_mesa.cpp:181-270 | a pixel of a packed format is its channels' bits in whole bytes; two bytes for 16-bit samples, YV12 and the 12- and 16-bit YUV formats; four for all else |
| Formats.CursorFlag | src/gralloc_gbm_mesa.cpp:144-160 | the cursor flag is set exactly for cursor usage with BGRA_8888 |
| Formats.UsageFlags | src/gralloc_gbm_mesa.cpp:144-179 | exactly which usage bits set each other flag |
| Geometry.AlignIsLeastMultiple | src/include/gralloc_gbm_mesa.h:20-20 | for every power of two and every sum that does not overflow, the bit trick gives the least multiple not below its argument |
| Geometry.AlignOverflows | src/include/gralloc_gbm_mesa.h:20-20 | when the sum overflows 32 bits the result is zero |
| Geometry.ChromaRowFits | src/gralloc_gbm_mesa.cpp:379-379 | ALIGN(w/2, 16) is at most ALIGN(w, 32)/2 if and only if aligning w does not overflow |
| Geometry.AllocationSize | src/gralloc_gbm_mesa.cpp:363-372 | allocation asks for the size itself, or for a cursor the least multiples of 16 covering the size and 64 |
| Geometry.YV12AllocationSize | src/gralloc_gbm_mesa.cpp:374-381 | in YV12 allocation asks for pixels of two bytes, half of the least multiple of 32 covering the width, and half as many rows again |
| Geometry.ImportSize | src/gralloc_gbm_mesa.cpp:660-668 | import asks for the size itself, or for a cursor of any format the least multiples of 16 covering the size and 64 |
| Geometry.RequestKeepsChannels | src/gralloc_gbm_mesa.cpp:358-386 | the requested GBM format has the Android format's channels in memory order, but for RGB_565 |
| Geometry.ImportRebuildsAllocation | src/gralloc_gbm_mesa.cpp:654-674 | import asks GBM for what allocation asked if and only if CURSOR is not requested, or the format is BGRA_8888 or YV12, or both dimensions are cursor-sized already |
| Geometry.CursorOfOtherFormat | src/gralloc_gbm_mesa.cpp:665-668 | a size and format for which the two requests differ |
| PlanarYV12.YV12SamplesDistinct | src/gralloc_gbm_mesa.cpp:567-576 | for every size, no two of the Y, Cr and Cb samples that lock_ycbcr hands out share a byte if and only if the luma plane fits its 32-bit offset and the chroma planes lie apart at the distance left after wrap-around; for a width that is negative as an `int`, if and only if there is one row and a chroma stride |
| PlanarYV12.YV12DistinctIsTiles | src/gralloc_gbm_mesa.cpp:568-572 | while the chroma planes fit 32 bits, that condition is: a chroma row fits its stride (half of it for an odd height), and the luma plane fits 32 bits |
| PlanarYV12.YV12FittingDistinct | src/gralloc_gbm_mesa.cpp:378-386 | for every size whose request fits 32 bits, the samples handed out are distinct if and only if a chroma row fits |
| PlanarYV12.YV12LargeAliases | src/gralloc_gbm_mesa.cpp:571-571 | at 65536x65536 the chroma rows fit and the request reaches GBM unwrapped, but the first Cr sample is the first Y sample |
| PlanarYV12.YV12PlanesInOrder | src/gralloc_gbm_mesa.cpp:567-576 | the addresses and strides handed out, by number: Y, then Cr, then Cb |
| PlanarYV12.EvenSizesTile | src/gralloc_gbm_mesa.cpp:568-572 | in even sizes a chroma row always fits |
| PlanarYV12.YV12InBounds | src/gralloc_gbm_mesa.cpp:378-386 | for every size whose request fits 32 bits, odd ones and overlapping planes included, every sample offset handed out by lock_ycbcr is below stride times the height that allocation requested |
| PlanarYV12.YV12NoOverflow | src/gralloc_gbm_mesa.cpp:567-576 | the wrapped 32-bit plane offsets are the intended ones while the requested size fits 32 bits |
| SemiPlanarNV21.SemiPlanarSamples | src/gralloc_gbm_mesa.cpp:558-566 | for every size, the interleaved Cr and Cb samples and the luma samples are pairwise distinct if and only if the luma plane fits 32 bits |
| SemiPlanarNV21.SemiPlanarPlanesInOrder | src/gralloc_gbm_mesa.cpp:558-566 | the addresses and strides handed out, by number: Cr before Cb in every pair |
| YCbCr.LockableFormats | src/gralloc_gbm_mesa.cpp:557-580 | exactly the formats 0x11 and 0x32315659 have planes |
| SemiPlanarNV21.SemiPlanarInBounds | src/gralloc_gbm_mesa.cpp:558-566 | for every size, all samples lie within the luma rows and half as many again, even where the chroma offset wraps, if and only if the stride is not negative as an `int` or there is one row |
| LockMachine.BufferObject.Lock | src/gralloc_gbm_mesa.cpp:460-513 | record, return code, mapping and address after a lock, in every branch |
| LockMachine.BufferObject.Unlock | src/gralloc_gbm_mesa.cpp:515-539 | record and mapping after an unlock |
| LockMachine.BufferObject.LockYCbCr | src/gralloc_gbm_mesa.cpp:541-583 | the lock, then the planes or the error of an unknown format |
| LockMachine.RunRefinesMachine | src/gralloc_gbm_mesa.cpp:428-539 | every run of lock and unlock behaves like the machine Unlocked / CpuLocked(usage) / HwLocked(usage, n); map data is non-null exactly under a software lock, and then the count is one |
| LockMachine.MappingsBalanced | src/gralloc_gbm_mesa.cpp:428-458 | on every run a mapping is never taken twice or released twice, and is open exactly while CPU-locked |
| LockMachine.LockAccounting | src/gralloc_gbm_mesa.cpp:491-512 | on every run the count is the grants minus the releases a caller saw; locked_for is the usage of the grant that left zero and contains every later one |
| LockMachine.RefusedLock | src/gralloc_gbm_mesa.cpp:471-504 | a refused lock changes nothing but may create an all-zero record |
| LockMachine.LockGuards | src/gralloc_gbm_mesa.cpp:471-512 | a lock is refused exactly under the guards a caller can check: usage not admitted, locked for the CPU, held usage not covering it, or a refused map; the state and the mapping after a granted one |
| LockMachine.LockCases | src/gralloc_gbm_mesa.cpp:471-512 | every lock by its tests: -22, -12 or granted, and the record and mapping of a granted one |
| LockMachine.FirstLockInBits | src/gralloc_gbm_mesa.cpp:471-512 | from unlocked, in bits: admitted if the usage is contained or the buffer's has a bit of 0x1103; mapped if and only if the usage has a bit of 0xFF, for writing if it has one of 0xF0 |
| LockMachine.AdmittedInBits | src/gralloc_gbm_mesa.cpp:474-484 | which bits admit a lock |
| LockMachine.SoftwareInBits | src/gralloc_gbm_mesa.cpp:497-500 | which bits stand for the CPU, and which of them write |
| LockMachine.HeldUsageInBits | src/gralloc_gbm_mesa.cpp:491-495 | a held usage conflicts unless it contains the new one; a granted lock leaves both together |
| LockMachine.UnlockInBits | src/gralloc_gbm_mesa.cpp:521-538 | an unlock releases the mapping if and only if the held usage has a bit of 0xFF; the last one clears it |
| LockMachine.RefusedYCbCrLock | src/gralloc_gbm_mesa.cpp:551-580 | lock_ycbcr succeeds if and only if the format is one of two and no guard refuses; one that errs leaves the lock state as it was if and only if the format is one of the two or a guard refuses, and otherwise leaves the granted lock behind |
| LockMachine.YCbCrLeavesLock | src/gralloc_gbm_mesa.cpp:577-579 | an instance: on an unlocked buffer made for software reads, any other format gives the error and leaves the buffer locked and mapped |
| LockedBuffers.HandlesBehaveAlone | src/gralloc_gbm_mesa.cpp:416-539 | in every run of allocations, imports, locks, unlocks and frees, the lock state behind a bound handle is that of the machine after this handle's own events since it was bound, whatever happened to others and even if the BO's or the handle's number was used before |
| LockedBuffers.MappingsHeld | src/gralloc_gbm_mesa.cpp:428-458 | on every such run the mappings taken and not released are, one by one, those of the live CPU-locked BOs and those whose BO was destroyed under them |
| LockedBuffers.FreeLeavesMapping | src/gralloc_gbm_mesa.cpp:709-742 | freeing drops the lock record and unmaps nothing: a buffer locked for the CPU leaves its mapping behind, any other none |
| LockedBuffers.MappingLeftForever | src/gralloc_gbm_mesa.cpp:421-426 | the mapping that a freed, CPU-locked buffer held is still open at every later point of the run, beside any that a record holds |
| BufferObjects.RunKeepsInv | src/gralloc_gbm_mesa.cpp:325-413 | at every point of every run the live BOs are exactly the values of the handle map, each under one key, keys are live handles, and descriptors are open and owned once |
| BufferObjects.NextKeepsInv | src/gralloc_gbm_mesa.cpp:709-742 | each of the transitions (bind, unbind, close, free, give out, take back) keeps that |
| Gralloc.Process.GrallocAllocate | src/gralloc_gbm_mesa.cpp:325-413 | fails exactly if the device is closed, there is no handle or GBM gives no BO; GBM is asked once, for the request and flags of the description; success binds a new handle with the requested fields, and the BO's own stride, modifier and descriptor, to that BO; failure leaves nothing |
| Gralloc.Process.GrallocImport | src/gralloc_gbm_mesa.cpp:620-707 | -EINVAL without asking GBM if the handle is bound, the device closed, the descriptor negative or the format unknown; otherwise GBM is asked once with the handle's geometry, descriptor, stride and modifier, and success is GBM's alone; it binds the handle to the new BO, and every refusal leaves everything as it was |
| Gralloc.Process.GrallocFree | src/gralloc_gbm_mesa.cpp:709-742 | removes the key and destroys its BO once; an unknown handle changes nothing |
| Allocator.GbmMesaAllocator.DoAllocate | src/aidl/Allocator.cpp:85-124 | all or nothing for every count and every point of failure: OK if and only if the service is initialized, the device open (for a count above zero) and no handle or BO was refused; GBM is asked only for what was requested; on failure the world is as before, on success it differs by exactly the descriptors in the results, none shared |
| Allocator.GbmMesaAllocator.Allocate2 | src/aidl/Allocator.cpp:177-193 | the same behind descriptor conversion: the records have the descriptor's width, height, format and usage modulo 2^32; BAD_DESCRIPTOR exactly for a zero width or height, UNSUPPORTED exactly for more than one layer otherwise, NO_RESOURCES for the rest |
| Allocator.GbmMesaAllocator.Allocate | src/aidl/Allocator.cpp:142-175 | the same for an encoded descriptor: BAD_DESCRIPTOR exactly if it does not decode, UNSUPPORTED exactly for what allocate2 refuses by conversion |
| Allocator.GbmMesaAllocator.IsSupported | src/aidl/Allocator.cpp:195-212 | supported if and only if every option is the dataspace |
| Allocator.BatchIsStep | src/aidl/Allocator.cpp:111-121 | a successful batch is one step of a run and keeps its invariant |
| Mapper.GbmMesaMapper.ImportBuffer | src/mapper_stablec/Mapper.cpp:169-197 | NO_RESOURCES or BAD_BUFFER by which guard or which of the answers (descriptor, handle, device and format, GBM) refuses; success exactly if none does: a new handle with its own descriptor and the same words is bound and starts from defaults; a failure leaves nothing |
| Mapper.GbmMesaMapper.FreeBuffer | src/mapper_stablec/Mapper.cpp:199-216 | for any live handle: with a BO, that BO, the descriptor, the handle and its metadata all go; without one, the call fails and changes nothing, or closes the handle |
| Mapper.GbmMesaMapper.SetStandardMetadata | src/mapper_stablec/Mapper.cpp:431-497 | the error number of every call, by type number and size, and that an accepted one is the last value set on that handle |
| Mapper.GbmMesaMapper.GetStoredMetadata | src/mapper_stablec/Mapper.cpp:398-409 | what is read is the stream of the value last set on this handle since its import, or of the default |
| Mapper.FreshHandleReads | src/mapper_stablec/Mapper.cpp:70-86 | a handle just imported reads dataspace 0, blend mode 1 and zero in every float |
| Mapper.ImportAgrees | src/mapper_stablec/Mapper.cpp:70-86 | a reused descriptor number starts from defaults and other handles are not disturbed |
| Mapper.FreeAgrees | src/mapper_stablec/Mapper.cpp:203-207 | freeing any handle, imported or not, leaves what is read of the others |
| Mapper.SetAgrees | src/mapper_stablec/Mapper.cpp:454-480 | setting one field of one handle changes what is read of that field of that handle only |
| Mapper.StructIsPayload | src/mapper_stablec/Mapper.cpp:455-480 | the setter's struct is the encoder's payload without header |
| Mapper.EncodedStreamRefused | src/mapper_stablec/Mapper.cpp:456-476 | what an encoder produces for any value of any type is refused by the setter of every type; a settable value's stream has exactly the header's 69 bytes too many |
| Mapper.GbmMesaMapper.GetStride | src/mapper_stablec/Mapper.cpp:410-414 | the STRIDE stream of the handle's pixel stride |
| Mapper.StrideValueIs | src/mapper_stablec/Mapper.cpp:410-414 | the STRIDE value is the pixel stride, whatever its top bit |
| NativeHandles.WordsInOrder | src/include/drm/gralloc_handle.h:34-70 | which word of a native handle is which field of the gralloc handle |
| NativeHandles.ToAidl | src/aidl/aidlcommonsupport/NativeHandle.cpp:51-63 | the loop fills the descriptors, duplicated or not, and keeps the integers |
| NativeHandles.FromAidl | src/aidl/aidlcommonsupport/NativeHandle.cpp:32-42 | the loops fill the handle's words from both vectors |
| NativeHandles.FormsByWord | src/aidl/aidlcommonsupport/NativeHandle.cpp:32-63 | word by word in both directions: the descriptors, duplicated or not, and then the integers |
| NativeHandles.TransportKeepsHandle | src/aidl/aidlcommonsupport/NativeHandle.cpp:32-63 | there and back keeps the shape and every integer, and without duplication the handle itself |
| ParcelLaws.ReadsBack | src/aidl/BufferDescriptorInfo.cpp:12-115 | any value of any parcel type written by any version reads back at any position as the fields both versions know, at any depth, the others unchanged, with the cursor right behind it |
| ParcelLaws.OlderWriter | src/aidl/AllocationResult.cpp:12-37 | a writer with only the first k fields: those are read, the others stay |
| ParcelLaws.NewerWriter | src/aidl/NativeHandle.cpp:12-36 | a writer with more fields: all of the reader's are read, the rest is skipped |
| ParcelLaws.CursorAtEnd | src/aidl/ExtendableType.cpp:19-36 | on any bytes, a successful read leaves the cursor at the start plus the claimed size |
| ParcelLaws.BackToBack | src/aidl/ExtendableType.cpp:12-55 | parcelables of any two versions behind one another are read in sequence |
| ParcelIO.Parcel.WriteToParcel | src/aidl/BufferDescriptorInfo.cpp:80-115 | the zero placeholder, the fields and the patched size end up as the size-prefixed body |
| ParcelIO.Parcel.ReadFromParcel | src/aidl/BufferDescriptorInfo.cpp:12-79 | size checks, early exits and the final cursor are those of the reading function |
| Parcelables.InfoFromOlderWriter | src/aidl/BufferDescriptorInfo.cpp:12-79 | for every k from 0 to 8 the first k named fields of the descriptor are read and the others kept |
| Parcelables.InfoFromNewerWriter | src/aidl/BufferDescriptorInfo.cpp:74-78 | all eight fields are read from a parcel with any further fields |
| Parcelables.InfoInverse | src/aidl/BufferDescriptorInfo.cpp:80-108 | a descriptor is determined by its parcel values |
| Parcelables.ResultInverse | src/aidl/AllocationResult.cpp:38-48 | so is an allocation result with its handles |
| ParcelWire.InfoOnWire | src/aidl/BufferDescriptorInfo.cpp:80-115 | the bytes of a descriptor, field by field: name, width, height, layer count, format, usage, reserved size, options |
| ParcelWire.OptionOnWire | src/aidl/ExtendableType.cpp:37-55 | an option: name, then value |
| ParcelWire.ResultOnWire | src/aidl/AllocationResult.cpp:38-55 | the bytes of a result: the stride, then the buffers |
| ParcelWire.HandleOnWire | src/aidl/NativeHandle.cpp:37-54 | the bytes of a handle: the descriptors, then the integers |
| ParcelWire.BadSizesRefused | src/aidl/BufferDescriptorInfo.cpp:12-22 | sizes below four or ending beyond 2^31-1 are bad values, missing bytes missing data |
| ParcelWire.ArgumentsOnWire | src/aidl/IAllocator.cpp:134-259 | the arguments of calls 1, 2 and 3 |
| ParcelWire.RepliesOnWire | src/aidl/IAllocator.cpp:21-81 | the replies to calls 1, 2 and 3: the status of the implementation asked for these arguments, and if OK its result |
| Rpc.OnTransact | src/aidl/IAllocator.cpp:14-81 | unknown call, broken arguments, or the reply of the implementation |
| Rpc.Call | src/aidl/IAllocator.cpp:134-176 | one call through both parcels gives the implementation's status and value |
| Rpc.BpAllocate | src/aidl/IAllocator.cpp:134-176 | proxy and implementation agree on status and result, whatever the result variable held; a missing call goes to the default implementation |
| Rpc.BpAllocate2 | src/aidl/IAllocator.cpp:177-219 | the same for allocate2 |
| Rpc.BpIsSupported | src/aidl/IAllocator.cpp:220-259 | the same for isSupported |
| StrideAgreement.SameStride | src/mapper_stablec/Mapper.cpp:410-414 | the imported buffer's STRIDE value is the allocator's stride, read as unsigned |
| StrideAgreement.CarriedRecord | src/aidl/aidlcommonsupport/NativeHandle.cpp:32-63 | the carried gralloc handle differs from the made one only in its descriptor |
| StrideAgreement.StrideEndToEnd | src/aidl/Allocator.cpp:70-80 | allocate, carry over in a parcel, import and decode the STRIDE metadata: it is the stride of the AllocationResult |

## Left out

- MetadataReader.DecodeFrom: for planes and rectangles, requires the input to be below about 32 GiB, because beyond that the source's `int` loop counter could overflow; the other types and the theorems about the format have no such bound.
- StandardMetadata.ApplyStandardMetadata: the same bound for the same two value types.
- MetadataCodec.NegativeCountFails: a `reserve` that throws is modelled as a decoder that returns no value, so the exception itself is not; counts beyond `max_size()`, or beyond the memory there is, make it throw as well, and there the model's decoder fails for want of bytes.
- LockedBuffers.HandlesBehaveAlone: a relation between states; its steps are those that the methods of `Gralloc.Process` and `LockMachine.BufferObject` are proved against, but no one method contains both.
- MetadataWriter.EncodeInto: a null destination is an empty array; a null pointer with a non-zero size is not modelled.
- LockMachine.RunRefinesMachine: `lock_count` is unbounded, so an overflow after 2^31 locks is not modelled; unlocking a buffer that no lock ever reached dereferences null in the source and is excluded by `Legal`.
- Mapper.GbmMesaMapper.ImportBuffer: requires a handle with one descriptor and at least twelve integers, or no descriptor, because the source casts the words to `gralloc_handle_t` without looking at the counts.
- Mapper.GbmMesaMapper.FreeBuffer: requires a handle that was not deleted; using a deleted one is undefined in the source.
- Mapper.GbmMesaMapper.GetStoredMetadata: only the four settable types; the getters of other types, apart from STRIDE, are plain field reads.
- Allocator.GbmMesaAllocator.DoAllocate: requires a count of zero or more; a negative one aborts in `std::vector::resize`.
- Allocator.GbmMesaAllocator.Allocate: the decoding of the old descriptor format belongs to libgralloctypes and is a parameter.
- Rpc.Call: requires arguments and reply to fit the 2^31-1 bytes a parcel position can express, and a status that its header can carry.
- Parcel framing of primitives, strings and vectors is binder's; a count followed by the contents stands for it, without padding, and a descriptor is carried as a number.
- The getInterfaceVersion, getInterfaceHash and getIMapperLibrarySuffix calls have the same shape as the three modelled ones.
- Each parcelable's unrolled reading code is one loop over its list of field types.
- Formats.ConversionKeepsChannels: the meaning of the Android formats is that of the PixelFormat interface, which is not part of the repository.
- The bits-per-pixel table covers the GBM formats that the conversion from Android formats can produce.
- Allocation failure of `std::vector` and `new`.
- Opening the device, properties, logging, fences, thread interleavings, dump and reserved-region functions, and the static plane-layout table.
