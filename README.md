# ec-slimloader descriptors in Dafny

A model of the descriptor library of the ec-slimloader bootloader. It covers the two packed, CRC-protected records that describe a bootable flash region:
- the region header (`BootableRegionDescriptorHeader`, 32 bytes);
- the per-slot app image descriptor (`AppImageDescriptor`, 44 bytes).

The model also covers:
- the validating parsers that read these records from raw memory;
- the builders that produce CRC-sealed records;
- the manager (`BootableRegionDescriptors`). Its loader `FromAddress` returns a manager only when the header and every slot it declares have validated. It then ensures `Valid(mem)`, the precondition of `GetActiveSlot`.

Modules, in dependency order:

- `ByteLayout`:
  - 8- and 32-bit unsigned integers;
  - the little-endian packing of a record's words into bytes and back;
  - memory as a total map from address to byte, with reads and writes.
- `Crc32Cksum`:
  - the CRC-32/CKSUM checksum (polynomial 0x04C11DB7, initial value 0, no reflection, final XOR 0xFFFFFFFF), computed bit by bit;
  - the copy-then-checksum loop both records use to skip their trailing CRC field.
- `DescriptorVersion`: the `0xMM_mmmm_pp` packing of the descriptor version and its field extraction.
- `ParseErrors`: `ParseError` and a `Result` type whose `:-` mirrors Rust's `?`.
- `AppImage`: the app image descriptor, its byte image, CRC, parsers and the two builders.
- `RegionHeader`: the region header, its byte image, CRC, the short-circuiting parser and the builder.
- `RegionManager`: the manager, its construction loop over the slots, and its two queries.

The Rust `unsafe` reinterpretation of memory as a record is modelled as decoding the 32 or 44 bytes read at that address. Both queries of the manager re-read memory, as the source does. The manager's precondition `Valid(mem)` stands for "memory still holds what construction validated".

The error names are those of the Rust `ParseError` enum (src/lib.rs:127-154).

## Model

| member | source | states |
|---|---|---|
| `ByteLayout.LeWordOfLeBytes` | src/lib.rs:63-84 | Reading back the four little-endian bytes of a word gives the word. |
| `ByteLayout.LeBytesOfLeWord` | src/lib.rs:63-84 | Any four bytes are the little-endian image of the word they decode to, so the field encoding is a bijection. |
| `ByteLayout.DecodeEncode` | src/lib.rs:245-248 | Decoding a packed image of words gives back the words it was made from. |
| `ByteLayout.EncodeDecode` | src/lib.rs:245-248 | Re-encoding the words read from an image gives the image back, byte for byte. |
| `ByteLayout.EncodeAppend` | src/lib.rs:245-248 | The packed image of consecutive fields is the concatenation of their images (no padding). |
| `ByteLayout.EncodeAt` | src/lib.rs:59-61 | Field k of a packed record occupies exactly bytes 4k to 4k+4. |
| `ByteLayout.Read` | src/lib.rs:205 | The unsafe load behind both parsers: the n bytes from an address on, byte i being the memory at address + i. |
| `ByteLayout.Write` | src/lib.rs:245-248 | The store the provisioning side performs with a record's `as_bytes` image, which the library itself never does. After storing bytes at an address, reading there returns those bytes, and every other address keeps its byte. The stored-record round trips rest on this. |
| `ByteLayout.ReadPastWrite` | src/lib.rs:182-189 | A read that does not overlap a store of a record image sees the old memory contents. This is how a store elsewhere leaves the region that `get_active_slot` re-reads unchanged. |
| `Crc32Cksum.UpdateConcat` | src/lib.rs:23 | Feeding a message in two pieces gives the same register as feeding it whole (the streaming `Digest` the crate re-exports). |
| `Crc32Cksum.CheckValue` | src/lib.rs:23 | The checksum of the ASCII string "123456789" is 0x765E7680, the catalogue check value of CRC-32/CKSUM. |
| `Crc32Cksum.Crc32` | src/lib.rs:263 | The `Crc::<u32>::new(&CRC_32_CKSUM).checksum` call both `compute_crc`s make. The empty message has checksum 0xFFFFFFFF (initial register 0, final XOR all ones). `CheckValue` pins the rest of the definition to the catalogue. |
| `Crc32Cksum.ChecksumWithoutTrailingCrc` | src/lib.rs:252-263 | The loop copies every byte of the record image except the last four into a local buffer. The result is the CRC of exactly those bytes. |
| `DescriptorVersion.Pack` | build.rs:15 | Packing major, minor and patch into `0xMM_mmmm_pp` lets each field be extracted again unchanged. |
| `DescriptorVersion.Major` | src/lib.rs:32 | The major field is bits 24-31, a value of at most 0xFF. |
| `DescriptorVersion.Minor` | src/lib.rs:35 | The minor field is bits 8-23, a value of at most 0xFFFF. |
| `DescriptorVersion.Patch` | src/lib.rs:38 | The patch field is bits 0-7, a value of at most 0xFF. |
| `DescriptorVersion.UnpackPack` | src/lib.rs:31-38 | The three fields cover the whole word: repacking a version's fields gives the version back. |
| `AppImage.AppImageDescriptor.AsBytes` | src/lib.rs:359-362 | The image is 44 bytes: the ten covered fields packed in declaration order, then the CRC in the last four bytes. |
| `AppImage.AppImageDescriptor.ComputeCrc` | src/lib.rs:365-378 | Returns the CRC of the first 40 bytes of the descriptor's image. |
| `AppImage.AppImageDescriptor.FromBytes` | src/lib.rs:346 | Reinterpreting 44 bytes as a descriptor yields the descriptor whose image is exactly those bytes. |
| `AppImage.AppImageDescriptor.FromAddress` | src/lib.rs:345-357 | Ok exactly when the stored CRC of the 44 bytes at the address matches their first 40, and then the value's image is those bytes. Otherwise InvalidAppCrc carrying that address, the stored CRC as found and the computed CRC as expected, which differ. |
| `AppImage.AppImageDescriptor.FromRegion` | src/lib.rs:274-282 | Reads slot i at base + i*44 with no bounds check. Ok iff that descriptor's CRC is valid, and then the value's image is the bytes there. Otherwise InvalidAppCrc with that address, the stored CRC as found and the computed CRC as expected, which differ. |
| `AppImage.AppImageDescriptor.NewExecuteInPlaceImage` | src/lib.rs:285-311 | Every field is as passed, with the current descriptor version. Execution starts at the stored address with nothing copied, and the CRC is valid. |
| `AppImage.AppImageDescriptor.NewRamImage` | src/lib.rs:315-342 | The copy flag is set and every other flag bit is as passed, as `flags` OR-ed with the copy flag. Stored, execution and copy size come from the flash address, RAM address and image size. The CRC is valid. |
| `AppImage.FromBytesAsBytes` | src/lib.rs:359-362 | Decoding a descriptor's image gives the descriptor back. |
| `AppImage.CrcIgnoresCrcField` | src/lib.rs:365-383 | The CRC does not depend on the CRC field, so storing the computed CRC makes a descriptor valid, and storing any other value makes it invalid. |
| `AppImage.CrcValidOnImage` | src/lib.rs:380-383 | `is_crc_valid` holds exactly when the last four bytes of the descriptor's image hold, little-endian, the CRC of the forty bytes before them. |
| `AppImage.ExecutionFieldOffsets` | src/lib.rs:114-122 | `execution_copy_size_bytes` occupies bytes 32-36 and `execution_address` bytes 36-40, in declaration order, whatever order the builders list them in. The CRC occupies bytes 40-44. |
| `AppImage.StoredDescriptorParses` | src/lib.rs:345-362 | A CRC-valid descriptor written to memory parses back as itself. |
| `RegionHeader.BootableRegionDescriptorHeader.AsBytes` | src/lib.rs:245-248 | The image is 32 bytes: the seven covered fields packed in declaration order, then the CRC in the last four bytes. |
| `RegionHeader.BootableRegionDescriptorHeader.ComputeCrc` | src/lib.rs:251-264 | Returns the CRC of the first 28 bytes of the header's image. |
| `RegionHeader.BootableRegionDescriptorHeader.FromBytes` | src/lib.rs:205 | Reinterpreting 32 bytes as a header yields the header whose image is exactly those bytes. |
| `RegionHeader.BootableRegionDescriptorHeader.FromAddress` | src/lib.rs:204-221 | Ok exactly when all four checks pass, and then the value's image is the bytes read. Bytes 0-4 other than the signature give InvalidSignature whatever follows. An InvalidHeaderCrc reports the stored CRC and the CRC of the first 28 bytes, which differ. |
| `RegionHeader.BootableRegionDescriptorHeader.New` | src/lib.rs:224-243 | The header has the signature, the current version, sizes 32 and 44, and the given base address, slot count and active slot. Its CRC is valid. |
| `RegionHeader.FromBytesAsBytes` | src/lib.rs:245-248 | Decoding a header's image gives the header back. |
| `RegionHeader.CrcIgnoresCrcField` | src/lib.rs:251-269 | The CRC does not depend on the CRC field, so storing the computed CRC makes a header valid, and storing any other value makes it invalid. |
| `RegionHeader.CrcValidOnImage` | src/lib.rs:266-269 | `is_crc_valid` holds exactly when the last four bytes of the header's image hold, little-endian, the CRC of the 28 bytes before them. |
| `RegionHeader.FirstFailureWins` | src/lib.rs:207-219 | Each error is returned exactly when every earlier check passed and its own check failed: signature, then CRC, then slot count, then active slot. Ok returns the decoded header unchanged. |
| `RegionHeader.StoredHeaderParses` | src/lib.rs:204-221 | A CRC-valid header with the signature, once stored, parses to InvalidSlotCount, to InvalidAppSlot, or to itself, as its slot fields decide. |
| `RegionHeader.ProvisionAndLoad` | src/lib.rs:224-243 | `built` carries the signature, a valid CRC and the given slot count, active slot and base address. `loaded` is the parse of memory after `built`'s image is stored at p. That parse returns `built` whenever 1 <= n and a < n, InvalidSlotCount for n = 0, and InvalidAppSlot for a >= n >= 1. |
| `RegionManager.BootableRegionDescriptors.FromAddress` | src/lib.rs:164-179 | A header error is returned as is. Otherwise the result is Ok iff every declared slot is CRC-valid, and then it holds the header and address and is Valid. Otherwise the error is that of the lowest-numbered failing slot. |
| `RegionManager.ValidateSlots` | src/lib.rs:171-175 | The slot loop: Ok (the header unchanged) iff every declared slot is CRC-valid. Otherwise it stops at the lowest failing slot, all slots below it being valid, and returns that slot's error. |
| `RegionManager.BootableRegionDescriptors.GetActiveSlot` | src/lib.rs:182-189 | While memory is as validated, the read of the active slot cannot fail. It returns the CRC-valid descriptor stored there. |
| `RegionManager.BootableRegionDescriptors.GetAppAtSlot` | src/lib.rs:192-199 | InvalidAppSlot exactly for slots at or beyond the slot count. Otherwise it re-reads the slot, in whatever state memory now is. The result is Ok iff the descriptor there is CRC-valid, and then equals the bytes there. Otherwise InvalidAppCrc with that slot's address, the stored CRC and the computed CRC. |
| `RegionManager.DeclaredSlotsFetch` | src/lib.rs:192-199 | While memory is as validated, fetching a slot succeeds iff the slot is below the slot count. |
| `RegionManager.ActiveSlotIsDeclared` | src/lib.rs:181-189 | The active slot is a declared slot, and fetching it by number gives the descriptor `get_active_slot` returns. |
| `RegionManager.SlotPastWrite` | src/lib.rs:172-175 | A write outside the slot array leaves a validated slot valid. |
| `RegionManager.ValidPastWrite` | src/lib.rs:181-189 | A write that touches neither the header nor the declared slot array keeps a validated region valid, so `get_active_slot` still cannot fail. |

## Left out

- Memory is a total map from unbounded natural addresses to bytes. The raw pointers, and the undefined behaviour of a pointer offset `base + slot * 44` that overflows the address space, are not modelled: addresses never wrap.
- Concurrent or external modification of memory is not modelled. `get_active_slot`'s `unwrap` is justified under the precondition `Valid(mem)`, meaning memory still holds what construction validated. `ValidPastWrite` states which writes preserve it.
- The CRC is the crate's CRC-32/CKSUM, given here by a bit-serial definition rather than the crate's table-driven one. No property of the records, parsers or manager depends on its internals. Only the lemmas about the CRC itself do (`UpdateConcat`, `CheckValue`).
- Detection of an arbitrary single-byte change in a record is not stated. It depends on the CRC algorithm and is not something the library asserts. What is proved is that any change of the stored CRC field alone is detected.
- The build script's reading of the package version from the environment and its writing of a generated file are I/O. `DESCRIPTOR_VERSION` is taken as the packing of version 0.1.0, and no property depends on that choice.
- The `Copy`, `Clone`, `Debug`, `Pod` and `Zeroable` derives, and the const-evaluation context of the builders, are language machinery with no behaviour to model.
- The three empty unit-test stubs have no content. The RAM-image test's two assertions are part of `NewRamImage`'s contract.
- The bootloader's own sequence (image CRC check, copy, vector table and branch) lies outside the library.
- The library never checks `app_slot_number` against the slot position, and the model does not either.
