# Sol2Sol mailbox: codecs and slot allocator

This project models the on-chain core of the Sol2Sol mailbox program, a
Solana program written in Rust. It covers four parts:

- **The `SolBox` record**: a mailbox of 746 bytes. It holds an owner, the
  next and previous boxes of a chain, a slot count that must be 20, an
  in-use count, an initialized flag, and 20 message slots of 32 bytes each.
  A reserved sentinel key marks an empty slot.
- **The slot allocator**: `add_message_to_sol_box` puts a message key into
  the first empty slot.
- **The message record**: a 69-byte header followed by the UTF-8 text.
- **The instruction codec and dispatcher**: `InitializeSolBox`,
  `WriteMessage` and `DeleteMessage`, each a tag byte followed by fields.
  Then there is `process_instruction` and its three handlers, and the
  program's error enum.

Modules, one per source file, plus two shared ones:

- `Bytes` (`bytes.dfy`): bytes, `u32`, 32-byte public keys, and
  little-endian `u32` encoding.
- `Utf8` (`utf8.dfy`): well-formed UTF-8 as `String::from_utf8` accepts it,
  following the byte grammar of section 4 of RFC 3629.
- `Errors` (`error.dfy`): `src/error.rs`, plus the `Result` type that every
  codec returns.
- `State` (`state.dfy`): `src/state.rs`.
- `Instruction` (`instruction.dfy`): `src/instruction.rs`.
- `Processor` (`processor.dfy`): `src/processor.rs`.

Code that reads and writes in place is modelled imperatively. The key
packing loop, the allocator scan over the slot array, the field writes into
the caller's buffer, the slot-filling loop of `unpack_from_slice`, the byte
loop of `unpack_msg`, and the `Vec` building of `pack` are all methods. Each
method is proved equal to a specification function (`Encode`, `Flatten`,
`Decode`, `AddMessage`, `EncodeMessage`, `DecodeMsg`, `Instruction.Encode`),
and the properties are proved about those functions.

Behaviour of the code worth knowing:

- Both stored records start with a tag byte: 0 for a box and 1 for a
  message.
- A box whose tag byte is wrong is refused with the program's own
  `InvalidAccountData` (custom code 4). A wrong slot count or a flag byte
  other than 0 or 1 is refused with the runtime's built-in
  `InvalidAccountData`.
- `unpack_message_from` takes every byte after the header as the text and
  never compares it with the stored size. Text that is not valid UTF-8 is
  a panic (`unwrap`), not an error result.
- A stored record shorter than its fixed width is a panic.
- The dispatcher checks no owner, signer or rent condition. The init handler
  builds a box value and drops it, and the write and delete handlers are
  empty. Nothing is written to any account, and `num_in_use` is never
  changed. There is no routine that frees a slot.
- `unpack(pack(i)) == i` holds for a `WriteMessage` only when its stated
  size equals the byte length of its text. A stated size larger than the
  text is refused with `InvalidInstructionData` (`OversizedTextRefused`). A
  smaller one is not refused: the packed bytes unpack to the same fields
  with the text cut to the stated size, which is a different instruction,
  or to `InvalidAccountData` when the cut splits a multi-byte character
  (`UndersizedTextCut`).

A Rust panic (`split_at`, `array_ref!`, `copy_from_slice`, `unwrap`) is a
precondition. Every error the code returns is modelled as an error result.

## Model

| member | source | states |
|---|---|---|
| Bytes.LeBytes | src/state.rs:155-156 | `u32::to_le_bytes` gives 4 bytes that `from_le_bytes` reads back as the same value |
| Bytes.FromLe | src/state.rs:96-101 | `u32::from_le_bytes` reads the first byte as the least significant and the last as the most significant |
| Bytes.LeBytesFromLe | src/instruction.rs:119-120 | reading 4 bytes as a little-endian u32 and writing it back gives the same 4 bytes, so the encoding is a bijection |
| Utf8.ValidUtf8 | src/instruction.rs:133 | the bytes `String::from_utf8` accepts never contain the octets C0, C1 or F5 to FF |
| Utf8.AsciiIsValid | src/instruction.rs:133 | every ASCII byte string is accepted by `String::from_utf8` |
| Errors.Discriminant | src/error.rs:8-39 | each variant's code is below 10, and the derived `from_u32` maps the code back to the same variant |
| Errors.FromPrimitive | src/error.rs:6 | the derived `from_u32` names a variant exactly for the codes below 10 |
| Errors.FromPrimitiveInverse | src/error.rs:6-39 | every code below 10 is the discriminant of the variant it names |
| Errors.ToProgramError | src/error.rs:40-44 | every program error becomes a `Custom` code below 10 |
| Errors.ToProgramErrorInjective | src/error.rs:27-43 | two program errors convert to the same `ProgramError` exactly when they are the same variant, including the three that share the message "Payer must be owner" |
| Errors.KnownCodes | src/error.rs:13-42 | `InvalidInstructionData` is 1, `InvalidAccountData` 4, `SolBoxNoSpaceLeft` 5, and the three owner mismatches 6, 7 and 8 |
| Errors.NeverBuiltin | src/error.rs:42 | no program error converts to the built-in `InvalidAccountData`, so the custom code 4 and the built-in error stay distinct |
| State.IsInitialized | src/state.rs:76-80 | a box is initialized exactly when byte 105 of its packed header is 1 |
| State.EmptyMessageSlots | src/state.rs:41-44 | `get_empty_message_slots` gives 20 slots that all hold the sentinel |
| State.Chunks | src/state.rs:112-116 | splitting the slot bytes into 32-byte chunks gives keys whose concatenation is exactly those bytes |
| State.FlattenAt | src/state.rs:49-54 | key `i` of the table occupies bytes `32i .. 32i+32` of the packed table |
| State.ChunksFlatten | src/state.rs:112-116 | chunking the packed table gives back the keys |
| State.BoolByte | src/state.rs:157 | `is_initialized as u8` is 1 for true and 0 for false |
| State.Header | src/state.rs:150-157 | the header is 106 bytes: tag 0, the owner, the next and previous boxes, the slot count and in-use count read back as little-endian, and the flag byte |
| State.Encode | src/state.rs:82 | a packed box is `LEN` = 746 bytes long |
| State.Decode | src/state.rs:84-127 | decoding succeeds exactly when the tag is 0, the slot count is 20 and the flag byte is 0 or 1, and a decoded box re-packs to the first 746 bytes of the input |
| State.EncodeLayout | src/state.rs:129-160 | the tag 0 is at byte 0, then owner at 1, next box at 33, previous box at 65, slot count at 97, in-use count at 101, flag at 105, and slot `i` at `106+32i` |
| State.DecodeEncode | src/state.rs:216-249 | a packed box decodes to itself exactly when its slot count is 20; any other count is refused with the built-in `InvalidAccountData` |
| State.DecodeErrors | src/state.rs:88-107 | the three refusals in the order they are checked: a wrong tag gives custom code 4, a count other than 20 gives the built-in error, and then a flag byte above 1 gives the built-in error |
| State.DecodeIgnoresTail | src/state.rs:85 | bytes after the first 746 are never read |
| State.ManualSolBoxDeserialize | src/state.rs:205-213 | the hand-written record (a 20-slot count, flag 1, all slots holding the sentinel) decodes, and the owner read back is the one written |
| State.CopyFromSlice | src/state.rs:151-154 | `copy_from_slice` into a sub-slice overwrites exactly that sub-slice and leaves the rest of the buffer as it was |
| State.PackKeysIntoRef | src/state.rs:46-56 | the keys, laid out byte by byte in a zeroed scratch array, end up in `dst[106..746]` in slot order; no other byte changes |
| State.PackKeysHeaderInto | src/state.rs:150-154 | the tag and the three keys fill bytes 0 to 96, and the rest of the buffer is unchanged |
| State.PackCountsInto | src/state.rs:155-157 | the two counts and the flag byte fill bytes 97 to 105, and the rest of the buffer is unchanged |
| State.PackHeaderInto | src/state.rs:129-157 | the first 106 bytes receive the header, and the rest of the buffer is unchanged |
| State.PackIntoSlice | src/state.rs:129-160 | `pack_into_slice` writes the packed box into `dst[0..746]` and leaves every later byte unchanged |
| State.UnpackSlots | src/state.rs:109-116 | the loop that fills a sentinel-initialised array one chunk at a time yields the chunked slot bytes |
| State.UnpackFromSlice | src/state.rs:84-127 | `unpack_from_slice` returns exactly what `Decode` specifies, errors included |
| State.FirstNull | src/state.rs:64-70 | the index found is the lowest slot holding the sentinel, or the table length if none does |
| State.AddMessage | src/state.rs:63-73 | an add succeeds exactly when some slot holds the sentinel, and then only the lowest such slot changes, to the new key; otherwise the error is `SolBoxNoSpaceLeft` |
| State.AddMessageToSolBox | src/state.rs:63-73 | the in-place scan leaves the slot array as `AddMessage` specifies, and leaves it unchanged on failure |
| State.AddAfterUsed | src/state.rs:63-70 | when the used slots are a prefix of the table, the next add goes into the first slot after them |
| State.AddAllFillsInOrder | src/state.rs:63-73 | in such a table, successive non-sentinel keys go into consecutive slots in index order |
| State.TwentyAddsFill | src/state.rs:41-73 | starting from the empty table, twenty non-sentinel keys fill slots 0 to 19 in order |
| State.FullTableRefuses | src/state.rs:65-72 | a table with no sentinel refuses the next add with custom code 5 |
| State.AddAllAppend | src/state.rs:63-73 | a run of adds split in two is the first run, then the second applied to its result, unless the first fails |
| State.TwentyAddsThenFull | src/state.rs:41-73 | from the empty table, twenty non-sentinel keys are accepted and the next key is refused with `SolBoxNoSpaceLeft` (code 5) |
| State.EncodeMessage | src/state.rs:164-178 | a message record is the 69-byte header plus the text |
| State.PackMessageInto | src/state.rs:167-178 | into a buffer of exactly header-plus-text length, the writes produce tag 1, the recipient, the sender, the size in little-endian order, then the text |
| State.UnpackMessageFrom | src/state.rs:180-197 | decoding succeeds exactly when the tag is 1, and otherwise fails with custom code 4; a decoded record re-packs to the whole input |
| State.MessageRoundTrip | src/state.rs:252-265 | a packed message record decodes to the same recipient, sender, stored size and text, whatever the stored size |
| Instruction.Encode | src/instruction.rs:149-190 | the packed bytes start with the variant's tag: 0, 1 or 2 |
| Instruction.EncodedLength | src/instruction.rs:149-196 | packed lengths are 101 for `InitializeSolBox`, 101 plus the text for `WriteMessage`, and 97 for `DeleteMessage` |
| Instruction.UnpackPubkey | src/instruction.rs:106-114 | reading a key succeeds exactly when 32 bytes remain, and the key followed by the rest is the input; otherwise the error is `InvalidInstructionData` |
| Instruction.UnpackSize | src/instruction.rs:116-125 | reading a size succeeds exactly when 4 bytes remain, and the size's little-endian bytes followed by the rest are the input; otherwise the error is `InvalidInstructionData` |
| Instruction.DecodeMsg | src/instruction.rs:127-146 | reading the text succeeds exactly when `msg_size` bytes remain and are UTF-8, and consumes exactly those bytes; too few bytes gives `InvalidInstructionData` (checked first), and bytes that are not UTF-8 give `InvalidAccountData` |
| Instruction.UnpackMsg | src/instruction.rs:127-146 | the byte-pushing loop returns exactly what `DecodeMsg` specifies |
| Instruction.Unpack | src/instruction.rs:63-104 | a tag above 2 gives `InvalidInstructionData`, and a decoded instruction carries a known tag |
| Instruction.UnpackPubkeyAt | src/instruction.rs:106-114 | at an offset with room for a key, the key is the next 32 bytes |
| Instruction.UnpackSizeAt | src/instruction.rs:116-125 | at an offset with room for a size, the size is the next 4 bytes read as little-endian |
| Instruction.UnpackInitAt | src/instruction.rs:66-77 | tag 0 reads the owner at 1, the slot count at 33, the next box at 37 and the previous box at 69, and ignores what follows byte 101 |
| Instruction.UnpackWriteAt | src/instruction.rs:78-91 | tag 1 reads the sender at 1, the recipient at 33, the box at 65 and the size at 97, and the text or its error then comes from `unpack_msg` on the bytes after 101 |
| Instruction.UnpackDeleteAt | src/instruction.rs:92-101 | tag 2 reads the owner at 1, the message at 33 and the box at 65, and ignores what follows byte 97 |
| Instruction.UnpackShort | src/instruction.rs:63-104 | a known tag whose fixed fields do not fit gives `InvalidInstructionData` |
| Instruction.UnpackAccepts | src/instruction.rs:63-146 | `unpack` succeeds exactly on the inputs that `Accepts` describes by byte offsets; every refusal is code 1 except a complete `WriteMessage` whose text is not UTF-8, which is code 4 |
| Instruction.InitIsPrefix | src/instruction.rs:66-77 | a decoded `InitializeSolBox` re-packs to the first 101 input bytes |
| Instruction.WriteIsPrefix | src/instruction.rs:78-91 | a decoded `WriteMessage` states its text's length and re-packs to the first `101 + size` input bytes |
| Instruction.DeleteIsPrefix | src/instruction.rs:92-101 | a decoded `DeleteMessage` re-packs to the first 97 input bytes |
| Instruction.UnpackIsPrefix | src/instruction.rs:63-104 | whatever `unpack` returns states a text length equal to its text, and re-packs to a prefix of the input, because `pack` writes the fields in the order and widths that `unpack` reads them |
| Instruction.InitRoundTrip | src/instruction.rs:152-163 | a packed `InitializeSolBox` followed by any bytes unpacks to itself |
| Instruction.WriteRoundTrip | src/instruction.rs:164-177 | a packed `WriteMessage` whose size is its text length, followed by any bytes, unpacks to itself |
| Instruction.DeleteRoundTrip | src/instruction.rs:178-187 | a packed `DeleteMessage` followed by any bytes unpacks to itself |
| Instruction.UnpackEncode | src/instruction.rs:259-279 | every well-sized instruction, followed by any bytes, unpacks to itself |
| Instruction.UnpackEncodeExact | src/instruction.rs:278-279 | every well-sized instruction unpacks from exactly its packed bytes |
| Instruction.OversizedTextRefused | src/instruction.rs:128 | a `WriteMessage` that states more bytes than its text holds is refused on its own packed bytes with `InvalidInstructionData` |
| Instruction.UndersizedTextCut | src/instruction.rs:127-146 | a `WriteMessage` that states fewer bytes than its text holds unpacks to a different instruction whose text is cut to the stated size, or to `InvalidAccountData` when the cut text is not UTF-8 |
| Instruction.PackMsg | src/instruction.rs:192-196 | the text's bytes are appended to the buffer |
| Instruction.Pack | src/instruction.rs:149-190 | the pushes and appends build exactly the packed instruction |
| Instruction.HelloWorldIsUtf8 | src/instruction.rs:260 | "hello world!" is valid UTF-8 |
| Instruction.HelloWorldParsing | src/instruction.rs:259-279 | the "hello world!" `WriteMessage` with size 12 packs to 113 bytes and unpacks to itself |
| Instruction.InitSolBox | src/instruction.rs:201-211 | the data of the init instruction is 101 bytes long and unpacks to an `InitializeSolBox` naming the payer as owner, 20 slots, and the box itself as both neighbours |
| Processor.NewSolBox | src/processor.rs:98-107 | the box built by the init handler has the given owner, neighbours and count, every slot empty, nothing in use, and the initialized flag set |
| Processor.ProcessInitSolBox | src/processor.rs:90-109 | the init handler always succeeds, since it builds the box and never writes it |
| Processor.ProcessWriteMessage | src/processor.rs:111-121 | the write handler always succeeds |
| Processor.ProcessDeleteMessage | src/processor.rs:123-131 | the delete handler always succeeds |
| Processor.ProcessInstruction | src/processor.rs:35-88 | processing succeeds exactly when the instruction decodes, and otherwise returns the decoding error unchanged |
| Processor.ProcessAccepts | src/processor.rs:40-87 | the program accepts exactly the bytes `Accepts` describes, and refuses the rest with code 1, or with code 4 for message text that is not UTF-8 |
| Processor.ProcessPacked | src/processor.rs:41-87 | every packed, well-sized instruction, followed by any bytes, is processed with `Ok(())` |
| Processor.NewSolBoxRoundTrip | src/processor.rs:98-107 | the box the init handler builds survives packing and unpacking when its count is 20, and is refused with the built-in `InvalidAccountData` otherwise |
| Processor.FirstAddIntoNewBox | src/processor.rs:98-107 | the first message added to a newly built box goes into slot 0, and slots 1 to 19 stay empty |

## Left out

- Solana runtime plumbing is left out: `AccountInfo`, the program id, the
  `AccountMeta` list and the `Instruction` value built by `init_sol_box`
  (only its data is modelled), the rent sysvar, `msg!` logging, the
  `Sealed`, `IsInitialized` and `Pack` trait machinery beyond `LEN`, and
  `DecodeError::type_of`. These have no behaviour visible in this code.
- Base58 parsing of the sentinel string (`Pubkey::from_str`) is a call into
  a library. The sentinel is the constant `NULL_KEY`, holding the raw bytes
  the hand-written test record stores in each slot. That test's owner
  check also goes through base58, so `ManualSolBoxDeserialize` compares
  against the raw owner bytes from the record instead.
- `ProgramError` has only the two variants this program produces: `Custom`,
  and the built-in `InvalidAccountData`. The built-in one is called
  `BuiltinInvalidAccountData` here so that it cannot be confused with the
  program's own `InvalidAccountData`.
- Panics are preconditions:
  - `Decode`, `UnpackFromSlice` and `PackIntoSlice` need at least 746 bytes.
  - `Unpack` needs a non-empty input.
  - `UnpackMessageFrom` needs at least 69 bytes, and UTF-8 text when the
    tag is 1.
  - `PackMessageInto` needs a buffer of exactly header-plus-text length.
- `usize::try_from(num_spots).unwrap()` and `msg_size as usize` cannot fail
  or truncate on targets of 32 bits or more. They are plain integer
  conversions here.
- The header writes of `pack_into_slice` are proved in two halves,
  `PackKeysHeaderInto` and `PackCountsInto`. Each field is still written
  into its own sub-slice, in the source's order. The array assignments of
  the two counts are modelled as `copy_from_slice`, which has the same
  effect.
- The `&mut Vec` that `pack_msg` appends to is a `seq` that `PackMsg`
  returns. The capacity hint of `Vec::with_capacity` has no visible effect.
- The async integration test in `tests/client.rs` is not part of this model.
  It needs I/O and a simulated bank.
- Nothing here guards ownership, signers or rent, rejects
  re-initialisation, counts slots in use, frees a slot, or deletes a
  message, because the code does none of these.
