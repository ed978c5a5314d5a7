/** The two stored records: the fixed-layout `SolBox` mailbox with its
    20-slot table and first-fit allocator, and the message record
    (fixed header followed by the text). */
module State {
  import opened Bytes
  import opened Utf8
  import opened Errors

  /** Slots in every box; the record format supports no other count. */
  const SOL_BOX_NUM_SPOTS: nat := 20

  /** Packed size of a box: tag, three keys, two u32s, a flag byte, the slots. */
  const LEN: nat := 746

  /** Header of a message record: tag, recipient, sender, size. */
  const FIXED_MSG_SIZE: nat := 69

  /** The key that marks an empty slot (the key named by the base58 text
      "TokenkegQfeZyiNwAJbNbGKPFXCWuBvf9Ss623VQ5DA"), as raw bytes. */
  const NULL_KEY: Pubkey := [
    0x06, 0xdd, 0xf6, 0xe1, 0xd7, 0x65, 0xa1, 0x93, 0xd9, 0xcb, 0xe1, 0x46, 0xce, 0xeb, 0x79, 0xac,
    0x1c, 0xb4, 0x85, 0xed, 0x5f, 0x5b, 0x37, 0x91, 0x3a, 0x8c, 0xf5, 0x85, 0x7e, 0xff, 0x00, 0xa9]

  /** `[Pubkey; SOL_BOX_NUM_SPOTS]`. */
  type SlotTable = s: seq<Pubkey> | |s| == SOL_BOX_NUM_SPOTS witness seq<Pubkey>(20, _ => NULL_KEY)

  datatype SolBox = SolBox(
    owner: Pubkey,
    nextBox: Pubkey,
    prevBox: Pubkey,
    numSpots: U32,
    numInUse: U32,
    isInitialized: bool,
    messageSlots: SlotTable)

  /** `IsInitialized::is_initialized`: the flag that the packed record keeps
      as its byte 105. */
  predicate IsInitialized(b: SolBox)
    ensures IsInitialized(b) <==> Header(b)[105] == 1
  {
    b.isInitialized
  }

  /** `SolBox::get_empty_message_slots`: every slot holds the sentinel. */
  function EmptyMessageSlots(): (s: SlotTable)
    ensures forall i :: 0 <= i < |s| ==> s[i] == NULL_KEY
  {
    Nulls(SOL_BOX_NUM_SPOTS)
  }

  /** `n` copies of the sentinel. */
  function Nulls(n: nat): (r: seq<Pubkey>)
    ensures |r| == n && forall i :: 0 <= i < n ==> r[i] == NULL_KEY
  {
    seq<Pubkey>(n, _ => NULL_KEY)
  }

  // ---------------------------------------------------------------------
  // Slot table <-> bytes

  /** The keys laid end to end, 32 bytes each. */
  function Flatten(keys: seq<Pubkey>): (r: seq<Byte>)
    ensures |r| == PUBKEY_LEN * |keys|
  {
    if keys == [] then [] else keys[0] + Flatten(keys[1..])
  }

  /** `chunks(32)` on a byte string whose length is a multiple of 32. */
  function Chunks(b: seq<Byte>): (keys: seq<Pubkey>)
    requires |b| % PUBKEY_LEN == 0
    ensures PUBKEY_LEN * |keys| == |b|
    ensures Flatten(keys) == b
    decreases |b|
  {
    if b == [] then [] else [b[..PUBKEY_LEN]] + Chunks(b[PUBKEY_LEN..])
  }

  /** Key `i` occupies bytes `32i .. 32i+32` of the flattened table. */
  lemma {:induction false} FlattenAt(keys: seq<Pubkey>, i: nat)
    requires i < |keys|
    ensures Flatten(keys)[PUBKEY_LEN * i .. PUBKEY_LEN * i + PUBKEY_LEN] == keys[i]
  {
    if i > 0 {
      FlattenAt(keys[1..], i - 1);
      assert Flatten(keys) == keys[0] + Flatten(keys[1..]);
    }
  }

  /** Chunking undoes flattening. */
  lemma {:induction false} ChunksFlatten(keys: seq<Pubkey>)
    ensures Chunks(Flatten(keys)) == keys
  {
    if keys != [] {
      var b := Flatten(keys);
      assert b[..PUBKEY_LEN] == keys[0] && b[PUBKEY_LEN..] == Flatten(keys[1..]);
      ChunksFlatten(keys[1..]);
    }
  }

  /** Appending one key appends its bytes. */
  lemma {:induction false} FlattenSnoc(keys: seq<Pubkey>, k: Pubkey)
    ensures Flatten(keys + [k]) == Flatten(keys) + k
  {
    if keys == [] {
      assert [k][1..] == [];
    } else {
      assert (keys + [k])[1..] == keys[1..] + [k];
      FlattenSnoc(keys[1..], k);
    }
  }

  // ---------------------------------------------------------------------
  // SolBox codec (Pack for SolBox)

  /** `is_initialized as u8`. */
  function BoolByte(b: bool): (r: Byte)
    ensures r <= 1 && (r == 1 <==> b)
  {
    if b then 1 else 0
  }

  /** The bytes `pack_into_slice` writes into `dst[0..LEN]`. */
  function Encode(b: SolBox): (r: seq<Byte>)
    ensures |r| == LEN
  {
    Header(b) + Flatten(b.messageSlots)
  }

  /** A 746-byte string is its fields laid end to end. */
  lemma SplitRecord(s: seq<Byte>)
    requires |s| == LEN
    ensures s == [s[0]] + s[1..33] + s[33..65] + s[65..97] + s[97..101] + s[101..105]
                 + [s[105]] + s[106..]
  {
    assert s == s[..1] + s[1..33] + s[33..65] + s[65..97] + s[97..101] + s[101..105]
                + s[105..106] + s[106..];
  }

  /** `unpack_from_slice`: the tag, then the slot count, then the flag byte
      are checked, in that order. Only the first `LEN` bytes are read, and a
      successful decode is exactly undone by `Encode`. */
  function Decode(src: seq<Byte>): (r: Result<SolBox>)
    requires |src| >= LEN
    ensures r.Ok? <==> src[0] == 0 && FromLe(src[97..101]) == SOL_BOX_NUM_SPOTS && src[105] <= 1
    ensures r.Ok? ==> Encode(r.value) == src[..LEN]
  {
    if src[0] != 0 then Err(ToProgramError(Sol2SolError.InvalidAccountData))
    else if FromLe(src[97..101]) != SOL_BOX_NUM_SPOTS then Err(BuiltinInvalidAccountData)
    else if src[105] > 1 then Err(BuiltinInvalidAccountData)
    else
      var s := src[..LEN];
      var b := SolBox(s[1..33], s[33..65], s[65..97], FromLe(s[97..101]), FromLe(s[101..105]),
                      s[105] == 1, Chunks(s[106..]));
      assert Encode(b) == s by {
        LeBytesFromLe(s[97..101]);
        LeBytesFromLe(s[101..105]);
        SplitRecord(s);
      }
      Ok(b)
  }

  /** The packed layout, field by field; slot `i` sits at `106 + 32i`. */
  lemma EncodeLayout(b: SolBox)
    ensures Encode(b)[0] == 0
    ensures Encode(b)[1..33] == b.owner
    ensures Encode(b)[33..65] == b.nextBox
    ensures Encode(b)[65..97] == b.prevBox
    ensures FromLe(Encode(b)[97..101]) == b.numSpots
    ensures FromLe(Encode(b)[101..105]) == b.numInUse
    ensures Encode(b)[105] == BoolByte(b.isInitialized)
    ensures forall i :: 0 <= i < SOL_BOX_NUM_SPOTS ==>
              Encode(b)[106 + 32 * i .. 138 + 32 * i] == b.messageSlots[i]
  {
    var e := Encode(b);
    assert e[97..101] == LeBytes(b.numSpots);
    assert e[101..105] == LeBytes(b.numInUse);
    assert e[106..] == Flatten(b.messageSlots);
    forall i | 0 <= i < SOL_BOX_NUM_SPOTS
      ensures e[106 + 32 * i .. 138 + 32 * i] == b.messageSlots[i]
    {
      FlattenAt(b.messageSlots, i);
      assert e[106 + 32 * i .. 138 + 32 * i] == e[106..][32 * i .. 32 * i + 32];
    }
  }

  /** Round trip: a packed box decodes to itself exactly when its slot count is
      20; any other count is refused with the built-in `InvalidAccountData`. */
  lemma DecodeEncode(b: SolBox)
    ensures Decode(Encode(b)) == if b.numSpots == SOL_BOX_NUM_SPOTS then Ok(b)
                                 else Err(BuiltinInvalidAccountData)
  {
    EncodeLayout(b);
    var e := Encode(b);
    if b.numSpots == SOL_BOX_NUM_SPOTS {
      var d := Decode(e).value;
      assert Encode(d) == e;
      EncodeLayout(d);
      assert d.messageSlots == b.messageSlots by {
        assert Flatten(d.messageSlots) == e[106..] == Flatten(b.messageSlots);
        ChunksFlatten(d.messageSlots);
        ChunksFlatten(b.messageSlots);
      }
    }
  }

  /** The three ways decoding fails, in the order they are checked; the tag
      error is the program's own code 4, the other two are built in. */
  lemma DecodeErrors(src: seq<Byte>)
    requires |src| >= LEN
    ensures src[0] != 0 ==> Decode(src) == Err(Custom(4))
    ensures src[0] == 0 && FromLe(src[97..101]) != 20 ==> Decode(src) == Err(BuiltinInvalidAccountData)
    ensures src[0] == 0 && FromLe(src[97..101]) == 20 && src[105] > 1 ==>
              Decode(src) == Err(BuiltinInvalidAccountData)
  {
  }

  /** Bytes past `LEN` are never read. */
  lemma DecodeIgnoresTail(src: seq<Byte>)
    requires |src| >= LEN
    ensures Decode(src) == Decode(src[..LEN])
  {
    var s := src[..LEN];
    assert s[..LEN] == s;
    assert src[97..101] == s[97..101] && src[101..105] == s[101..105];
    assert src[1..33] == s[1..33] && src[33..65] == s[33..65] && src[65..97] == s[65..97];
  }

  /** The owner key of the hand-written test record. */
  const TEST_OWNER: Pubkey := [
    0xe7, 0x38, 0xcc, 0x07, 0x5d, 0xd3, 0xe1, 0xaf, 0x7f, 0x14, 0x4b, 0xcd, 0x39, 0x35, 0x21, 0x3c,
    0xe1, 0x3f, 0x0a, 0x1e, 0x12, 0x22, 0x79, 0x87, 0x70, 0x0e, 0x95, 0xf6, 0xc9, 0x8a, 0x8f, 0x38]

  /** The key the hand-written test record names as both neighbours. */
  const TEST_NEIGHBOUR: Pubkey := [
    0x73, 0xf4, 0xef, 0x5f, 0xe3, 0xdb, 0x6f, 0x25, 0x40, 0x2d, 0xc2, 0xce, 0x13, 0x71, 0x62, 0xbc,
    0x74, 0x74, 0x4f, 0xde, 0x84, 0xac, 0xae, 0x6b, 0x6e, 0x04, 0xfe, 0x34, 0xa3, 0xf3, 0x83, 0xc4]

  /** The hand-written deserialisation test: tag 0, the owner, the neighbour
      twice, count bytes `14 00 00 00`, in-use bytes `00 00 00 00`, flag 1,
      then twenty sentinels. It decodes, and the owner read back is the one
      written. */
  lemma ManualSolBoxDeserialize()
    ensures var v := [0] + TEST_OWNER + TEST_NEIGHBOUR + TEST_NEIGHBOUR + [0x14, 0, 0, 0]
                     + [0, 0, 0, 0] + [1] + Flatten(EmptyMessageSlots());
            Decode(v).Ok? && Decode(v).value.owner == TEST_OWNER
  {
    var b := SolBox(TEST_OWNER, TEST_NEIGHBOUR, TEST_NEIGHBOUR, 20, 0, true, EmptyMessageSlots());
    assert LeBytes(20) == [0x14, 0, 0, 0] && LeBytes(0) == [0, 0, 0, 0];
    DecodeEncode(b);
  }

  // ---------------------------------------------------------------------
  // In-place packing and the decoding loop

  /** `copy_from_slice` into the sub-slice `dst[start .. start + |src|]`. */
  method CopyFromSlice(dst: array<Byte>, start: nat, src: seq<Byte>)
    requires start + |src| <= dst.Length
    modifies dst
    ensures dst[..] == old(dst[..start]) + src + old(dst[start + |src|..])
  {
    forall k | start <= k < start + |src| {
      dst[k] := src[k - start];
    }
    assert dst[..] == old(dst[..start]) + src + old(dst[start + |src|..]);
  }

  /** `pack_keys_into_ref`: the keys are first laid out in a zeroed scratch
      array, one byte at a time, and then copied into `dst[start .. start + 640]`. */
  method PackKeysIntoRef(messageSlots: SlotTable, dst: array<Byte>, start: nat)
    requires start + PUBKEY_LEN * SOL_BOX_NUM_SPOTS <= dst.Length
    modifies dst
    ensures dst[..] == old(dst[..start]) + Flatten(messageSlots)
                       + old(dst[start + PUBKEY_LEN * SOL_BOX_NUM_SPOTS..])
  {
    var keyBytes := new Byte[SOL_BOX_NUM_SPOTS * 32](_ => 0);
    for i := 0 to SOL_BOX_NUM_SPOTS
      modifies keyBytes
      invariant keyBytes[..32 * i] == Flatten(messageSlots[..i])
    {
      var bytes := messageSlots[i];
      for j := 0 to 32
        modifies keyBytes
        invariant keyBytes[..32 * i + j] == Flatten(messageSlots[..i]) + bytes[..j]
      {
        keyBytes[i * 32 + j] := bytes[j];
        assert keyBytes[..32 * i + j + 1] == keyBytes[..32 * i + j] + [bytes[j]];
        assert bytes[..j + 1] == bytes[..j] + [bytes[j]];
      }
      assert bytes[..32] == bytes;
      assert messageSlots[..i + 1] == messageSlots[..i] + [bytes];
      FlattenSnoc(messageSlots[..i], bytes);
    }
    assert messageSlots[..SOL_BOX_NUM_SPOTS] == messageSlots;
    assert keyBytes[..] == Flatten(messageSlots) by {
      assert keyBytes[..] == keyBytes[..32 * SOL_BOX_NUM_SPOTS];
    }
    CopyFromSlice(dst, start, keyBytes[..]);
  }

  /** After `done` has been written over the front of `rest`, the bytes from
      `|done| + |x|` on are still those of `rest`. */
  lemma WriteBehind(done: seq<Byte>, x: seq<Byte>, rest: seq<Byte>)
    requires |done| + |x| <= |rest|
    ensures (done + rest[|done|..])[..|done|] == done
    ensures (done + rest[|done|..])[|done| + |x|..] == rest[|done| + |x|..]
  {
  }

  /** `copy_from_slice` of the next field, seen as extending the part of
      `dst` already written (`done`) over its original contents (`rest`). */
  method CopyBehind(dst: array<Byte>, start: nat, x: seq<Byte>, ghost done: seq<Byte>,
                    ghost rest: seq<Byte>)
    requires start == |done| && |done| + |x| <= |rest| == dst.Length
    requires dst[..] == done + rest[|done|..]
    modifies dst
    ensures dst[..] == (done + x) + rest[|done| + |x|..]
  {
    WriteBehind(done, x, rest);
    CopyFromSlice(dst, start, x);
  }

  /** The fixed fields of a packed box: everything before the slot table. */
  function Header(b: SolBox): (r: seq<Byte>)
    ensures |r| == 106 && r[0] == 0
    ensures r[1..33] == b.owner && r[33..65] == b.nextBox && r[65..97] == b.prevBox
    ensures FromLe(r[97..101]) == b.numSpots && FromLe(r[101..105]) == b.numInUse
    ensures r[105] == BoolByte(b.isInitialized)
  {
    [0] + b.owner + b.nextBox + b.prevBox + LeBytes(b.numSpots) + LeBytes(b.numInUse)
      + [BoolByte(b.isInitialized)]
  }

  /** The tag and the three keys of the header, into `dst[0..97]`. */
  method PackKeysHeaderInto(b: SolBox, dst: array<Byte>)
    requires dst.Length >= LEN
    modifies dst
    ensures dst[..] == [0] + b.owner + b.nextBox + b.prevBox + old(dst[97..])
  {
    ghost var rest := dst[..];
    CopyBehind(dst, 0, [0], [], rest);
    CopyBehind(dst, 1, b.owner, [0], rest);
    CopyBehind(dst, 33, b.nextBox, [0] + b.owner, rest);
    CopyBehind(dst, 65, b.prevBox, [0] + b.owner + b.nextBox, rest);
  }

  /** The two counts and the flag byte of the header, into `dst[97..106]`. */
  method PackCountsInto(b: SolBox, dst: array<Byte>)
    requires dst.Length >= LEN
    modifies dst
    ensures dst[..] == old(dst[..97]) + LeBytes(b.numSpots) + LeBytes(b.numInUse)
                       + [BoolByte(b.isInitialized)] + old(dst[106..])
  {
    ghost var rest := dst[..];
    assert dst[..] == rest[..97] + rest[97..];
    CopyBehind(dst, 97, LeBytes(b.numSpots), rest[..97], rest);
    CopyBehind(dst, 101, LeBytes(b.numInUse), rest[..97] + LeBytes(b.numSpots), rest);
    // the one-byte sub-slice `is_initialized_dst[0]`
    CopyBehind(dst, 105, [BoolByte(b.isInitialized)],
               rest[..97] + LeBytes(b.numSpots) + LeBytes(b.numInUse), rest);
  }

  /** The field writes of `pack_into_slice` that precede the slot table, each
      into its own sub-slice: `dst[0..106]` receives the header and nothing
      else changes. */
  method PackHeaderInto(b: SolBox, dst: array<Byte>)
    requires dst.Length >= LEN
    modifies dst
    ensures dst[..] == Header(b) + old(dst[106..])
  {
    PackKeysHeaderInto(b, dst);
    ghost var mid := dst[..];
    assert mid[97..][9..] == old(dst[106..]);
    PackCountsInto(b, dst);
    assert mid[..97] == [0] + b.owner + b.nextBox + b.prevBox;
  }

  /** `pack_into_slice`: writes the packed box into `dst[0..LEN]` and leaves
      every byte after it untouched. */
  method PackIntoSlice(b: SolBox, dst: array<Byte>)
    requires dst.Length >= LEN
    modifies dst
    ensures dst[..] == Encode(b) + old(dst[LEN..])
  {
    PackHeaderInto(b, dst);
    ghost var before := dst[..];
    assert before[..106] == Header(b);
    assert before[LEN..] == old(dst[LEN..]);
    PackKeysIntoRef(b.messageSlots, dst, 106);
  }

  /** The slot-table part of `unpack_from_slice`: a zero-filled (sentinel)
      array takes one 32-byte chunk per slot. */
  method UnpackSlots(slotsSrc: seq<Byte>) returns (slots: SlotTable)
    requires |slotsSrc| == PUBKEY_LEN * SOL_BOX_NUM_SPOTS
    ensures slots == Chunks(slotsSrc)
  {
    ghost var chunks := Chunks(slotsSrc);
    var messageSlots := new Pubkey[SOL_BOX_NUM_SPOTS](_ => NULL_KEY);
    var i := 0;
    while i < SOL_BOX_NUM_SPOTS
      invariant 0 <= i <= SOL_BOX_NUM_SPOTS
      invariant messageSlots[..i] == chunks[..i]
    {
      var chunk := slotsSrc[32 * i .. 32 * i + 32];
      FlattenAt(chunks, i);
      messageSlots[i] := chunk;
      i := i + 1;
    }
    assert messageSlots[..] == chunks;
    slots := messageSlots[..];
  }

  /** `unpack_from_slice`, as written: the checks in order, then the fields
      and the slot table. */
  method UnpackFromSlice(src: seq<Byte>) returns (r: Result<SolBox>)
    requires |src| >= LEN
    ensures r == Decode(src)
  {
    var s := src[..LEN];
    if s[0] != 0 {
      return Err(ToProgramError(Sol2SolError.InvalidAccountData));
    }
    var numSpots := FromLe(s[97..101]);
    if numSpots != SOL_BOX_NUM_SPOTS {
      return Err(BuiltinInvalidAccountData);
    }
    var numInUse := FromLe(s[101..105]);
    var isInitialized: bool;
    if s[105] == 0 {
      isInitialized := false;
    } else if s[105] == 1 {
      isInitialized := true;
    } else {
      return Err(BuiltinInvalidAccountData);
    }
    var messageSlots := UnpackSlots(s[106..]);
    r := Ok(SolBox(s[1..33], s[33..65], s[65..97], numSpots, numInUse, isInitialized,
                   messageSlots));
  }

  // ---------------------------------------------------------------------
  // First-fit slot allocation (add_message_to_sol_box)

  /** Index of the lowest slot holding the sentinel, or `|slots|` if none does. */
  function FirstNull(slots: seq<Pubkey>): (i: nat)
    ensures i <= |slots|
    ensures i < |slots| ==> slots[i] == NULL_KEY
    ensures forall j :: 0 <= j < i ==> slots[j] != NULL_KEY
  {
    if slots == [] then 0
    else if slots[0] == NULL_KEY then 0
    else 1 + FirstNull(slots[1..])
  }

  /** What `add_message_to_sol_box` does to the table: the lowest empty slot
      takes the key and every other slot keeps its value; with no empty slot
      the call fails with `SolBoxNoSpaceLeft`. */
  function AddMessage(slots: SlotTable, messageKey: Pubkey): (r: Result<SlotTable>)
    ensures r.Ok? <==> NULL_KEY in slots
    ensures r.Err? ==> r.error == ToProgramError(SolBoxNoSpaceLeft)
    ensures r.Ok? ==> exists i :: 0 <= i < |slots| && slots[i] == NULL_KEY
                        && (forall j :: 0 <= j < i ==> slots[j] != NULL_KEY)
                        && r.value == slots[i := messageKey]
  {
    var i := FirstNull(slots);
    if i == |slots| then Err(ToProgramError(SolBoxNoSpaceLeft))
    else Ok(slots[i := messageKey])
  }

  /** `add_message_to_sol_box` on the table in place: scans from slot 0,
      overwrites the first sentinel and stops; fails with the table unchanged
      when there is none. */
  method AddMessageToSolBox(messageSlots: array<Pubkey>, messageKey: Pubkey)
    returns (r: ProgramResult)
    requires messageSlots.Length == SOL_BOX_NUM_SPOTS
    modifies messageSlots
    ensures var spec := AddMessage(old(messageSlots[..]), messageKey);
            && (r.Ok? <==> spec.Ok?)
            && (r.Ok? ==> messageSlots[..] == spec.value)
            && (r.Err? ==> r.error == spec.error && messageSlots[..] == old(messageSlots[..]))
  {
    ghost var slots: SlotTable := messageSlots[..];
    var nullKey := NULL_KEY;
    for i := 0 to SOL_BOX_NUM_SPOTS
      invariant forall j :: 0 <= j < i ==> slots[j] != NULL_KEY
    {
      var currKey := messageSlots[i];
      if currKey == nullKey {
        assert FirstNull(slots) == i;
        messageSlots[i] := messageKey;
        return Ok(());
      }
    }
    assert NULL_KEY !in slots;
    return Err(ToProgramError(SolBoxNoSpaceLeft));
  }

  /** Adding the keys one after another, stopping at the first failure. */
  function AddAll(slots: SlotTable, keys: seq<Pubkey>): Result<SlotTable>
    decreases |keys|
  {
    if keys == [] then Ok(slots)
    else
      var next :- AddMessage(slots, keys[0]);
      AddAll(next, keys[1..])
  }

  /** In a table whose first `|used|` slots hold non-sentinel keys and whose
      rest is empty, the next add lands in slot `|used|`. */
  lemma AddAfterUsed(used: seq<Pubkey>, k: Pubkey)
    requires |used| < SOL_BOX_NUM_SPOTS && NULL_KEY !in used
    ensures AddMessage(used + Nulls(SOL_BOX_NUM_SPOTS - |used|), k)
            == Ok((used + [k]) + Nulls(SOL_BOX_NUM_SPOTS - |used| - 1))
  {
    var slots: SlotTable := used + Nulls(SOL_BOX_NUM_SPOTS - |used|);
    assert FirstNull(slots) == |used| by {
      assert slots[|used|] == NULL_KEY;
      assert forall j :: 0 <= j < |used| ==> slots[j] == used[j];
    }
    assert slots[|used| := k] == (used + [k]) + Nulls(SOL_BOX_NUM_SPOTS - |used| - 1);
  }

  /** Such a table takes further non-sentinel keys in index order. */
  lemma {:induction false} AddAllFillsInOrder(used: seq<Pubkey>, keys: seq<Pubkey>)
    requires |used| + |keys| <= SOL_BOX_NUM_SPOTS
    requires NULL_KEY !in used && NULL_KEY !in keys
    ensures AddAll(used + Nulls(SOL_BOX_NUM_SPOTS - |used|), keys)
            == Ok(used + keys + Nulls(SOL_BOX_NUM_SPOTS - |used| - |keys|))
    decreases |keys|
  {
    if keys == [] {
      assert used + keys == used;
    } else {
      var used' := used + [keys[0]];
      AddAfterUsed(used, keys[0]);
      assert AddAll(used + Nulls(SOL_BOX_NUM_SPOTS - |used|), keys)
             == AddAll(used' + Nulls(SOL_BOX_NUM_SPOTS - |used'|), keys[1..]);
      AddAllFillsInOrder(used', keys[1..]);
      assert used' + keys[1..] == used + keys;
    }
  }

  /** Starting from `get_empty_message_slots`, twenty non-sentinel keys fill
      slots 0 to 19 in order. */
  lemma TwentyAddsFill(keys: seq<Pubkey>)
    requires |keys| == SOL_BOX_NUM_SPOTS && NULL_KEY !in keys
    ensures AddAll(EmptyMessageSlots(), keys) == Ok(keys)
  {
    AddAllFillsInOrder([], keys);
    assert [] + Nulls(SOL_BOX_NUM_SPOTS) == EmptyMessageSlots();
    assert [] + keys + Nulls(0) == keys;
  }

  /** A table with no sentinel left refuses a further add with
      `SolBoxNoSpaceLeft`, code 5. */
  /** Adding `keys + more` is adding `keys`, then `more` to the result. */
  lemma {:induction false} AddAllAppend(slots: SlotTable, keys: seq<Pubkey>, more: seq<Pubkey>)
    ensures AddAll(slots, keys + more)
            == if AddAll(slots, keys).Ok? then AddAll(AddAll(slots, keys).value, more)
               else AddAll(slots, keys)
    decreases |keys|
  {
    if keys == [] {
      assert keys + more == more;
    } else {
      assert (keys + more)[0] == keys[0];
      assert (keys + more)[1..] == keys[1..] + more;
      if AddMessage(slots, keys[0]).Ok? {
        AddAllAppend(AddMessage(slots, keys[0]).value, keys[1..], more);
      }
    }
  }

  /** Twenty non-sentinel keys fill an empty box, and one more is refused with
      `SolBoxNoSpaceLeft`. */
  lemma TwentyAddsThenFull(keys: seq<Pubkey>, extra: Pubkey)
    requires |keys| == SOL_BOX_NUM_SPOTS && NULL_KEY !in keys
    ensures AddAll(EmptyMessageSlots(), keys + [extra]) == Err(Custom(5))
  {
    AddAllAppend(EmptyMessageSlots(), keys, [extra]);
    TwentyAddsFill(keys);
    FullTableRefuses(keys, extra);
  }

  lemma FullTableRefuses(slots: SlotTable, extra: Pubkey)
    requires NULL_KEY !in slots
    ensures AddMessage(slots, extra) == Err(Custom(5))
  {
    assert AddMessage(slots, extra).Err?;
  }

  // ---------------------------------------------------------------------
  // Message record

  /** The message record: tag 1, recipient, sender, the size as stored, then
      the text bytes. */
  function EncodeMessage(recipient: Pubkey, sender: Pubkey, msgSize: U32, msgString: seq<Byte>)
    : (r: seq<Byte>)
    ensures |r| == FIXED_MSG_SIZE + |msgString|
  {
    [1] + recipient + sender + LeBytes(msgSize) + msgString
  }

  /** `pack_message_into`: the buffer must be exactly header plus text long,
      and all of it is overwritten. */
  method PackMessageInto(recipient: Pubkey, sender: Pubkey, msgSize: U32, msgString: Utf8String,
                         dst: array<Byte>)
    requires dst.Length == FIXED_MSG_SIZE + |msgString|
    modifies dst
    ensures dst[..] == EncodeMessage(recipient, sender, msgSize, msgString)
  {
    ghost var rest := dst[..];
    CopyBehind(dst, 0, [1], [], rest);
    CopyBehind(dst, 1, recipient, [1], rest);
    CopyBehind(dst, 33, sender, [1] + recipient, rest);
    CopyBehind(dst, 65, LeBytes(msgSize), [1] + recipient + sender, rest);
    CopyBehind(dst, FIXED_MSG_SIZE, msgString, [1] + recipient + sender + LeBytes(msgSize), rest);
  }

  /** `unpack_message_from`: refuses a tag other than 1 with the program's
      `InvalidAccountData`; otherwise returns the header fields and EVERY byte
      after the header as the text, whatever the stored size says. The text
      must be well-formed UTF-8 (the source unwraps the conversion). */
  function UnpackMessageFrom(src: seq<Byte>): (r: Result<(Pubkey, Pubkey, U32, Utf8String)>)
    requires |src| >= FIXED_MSG_SIZE
    requires src[0] == 1 ==> ValidUtf8(src[FIXED_MSG_SIZE..])
    ensures r.Ok? <==> src[0] == 1
    ensures r.Err? ==> r.error == ToProgramError(Sol2SolError.InvalidAccountData)
    ensures r.Ok? ==> EncodeMessage(r.value.0, r.value.1, r.value.2, r.value.3) == src
  {
    if src[0] != 1 then Err(ToProgramError(Sol2SolError.InvalidAccountData))
    else
      var recipient, sender := src[1..33], src[33..65];
      var msgSize := FromLe(src[65..69]);
      var msgString: Utf8String := src[FIXED_MSG_SIZE..];
      assert EncodeMessage(recipient, sender, msgSize, msgString) == src by {
        LeBytesFromLe(src[65..69]);
        assert src == src[..1] + src[1..33] + src[33..65] + src[65..69] + src[69..];
      }
      Ok((recipient, sender, msgSize, msgString))
  }

  /** Round trip for the message record. It holds for every stored size,
      because the size is never compared with the text that follows. */
  lemma MessageRoundTrip(recipient: Pubkey, sender: Pubkey, msgSize: U32, msgString: Utf8String)
    ensures UnpackMessageFrom(EncodeMessage(recipient, sender, msgSize, msgString))
            == Ok((recipient, sender, msgSize, msgString))
  {
    var e := EncodeMessage(recipient, sender, msgSize, msgString);
    assert e[1..33] == recipient && e[33..65] == sender;
    assert e[65..69] == LeBytes(msgSize);
    assert e[FIXED_MSG_SIZE..] == msgString;
  }
}
