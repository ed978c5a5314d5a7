/** The instruction codec: a tag byte (0, 1 or 2) followed by the fields of
    the variant in order, keys as 32 raw bytes, sizes as little-endian u32,
    and for `WriteMessage` a trailing UTF-8 text whose length the preceding
    size gives. */
module Instruction {
  import opened Bytes
  import opened Utf8
  import opened Errors

  /** `Sol2SolInstruction`. */
  datatype Sol2SolInstruction =
    | InitializeSolBox(owner: Pubkey, numSpots: U32, nextBox: Pubkey, prevBox: Pubkey)
    | WriteMessage(sender: Pubkey, recipient: Pubkey, solBoxId: Pubkey, msgSize: U32,
                   msgString: Utf8String)
    | DeleteMessage(owner: Pubkey, messageId: Pubkey, solBoxId: Pubkey)

  /** A `WriteMessage` whose stated size is the byte length of its text; the
      other variants carry no size to disagree with. */
  predicate WellSized(i: Sol2SolInstruction) {
    i.WriteMessage? ==> i.msgSize == |i.msgString|
  }

  /** The bytes `pack` produces: the variant's tag first. */
  function Encode(i: Sol2SolInstruction): (r: seq<Byte>)
    ensures |r| > 0
    ensures r[0] == if i.InitializeSolBox? then 0 else if i.WriteMessage? then 1 else 2
  {
    match i
    case InitializeSolBox(owner, numSpots, nextBox, prevBox) =>
      [0] + owner + LeBytes(numSpots) + nextBox + prevBox
    case WriteMessage(sender, recipient, solBoxId, msgSize, msgString) =>
      [1] + sender + recipient + solBoxId + LeBytes(msgSize) + msgString
    case DeleteMessage(owner, messageId, solBoxId) =>
      [2] + owner + messageId + solBoxId
  }

  /** Packed lengths: 101, 101 plus the text, and 97. */
  lemma EncodedLength(i: Sol2SolInstruction)
    ensures i.InitializeSolBox? ==> |Encode(i)| == 101
    ensures i.WriteMessage? ==> |Encode(i)| == 101 + |i.msgString|
    ensures i.DeleteMessage? ==> |Encode(i)| == 97
  {
  }

  // ---------------------------------------------------------------------
  // Decoding

  /** `unpack_pubkey`: the first 32 bytes as a key, and the rest. */
  function UnpackPubkey(input: seq<Byte>): (r: Result<(Pubkey, seq<Byte>)>)
    ensures r.Ok? <==> |input| >= PUBKEY_LEN
    ensures r.Err? ==> r.error == ToProgramError(InvalidInstructionData)
    ensures r.Ok? ==> r.value.0 + r.value.1 == input
  {
    if |input| >= PUBKEY_LEN then
      var key: Pubkey := input[..PUBKEY_LEN];
      assert key + input[PUBKEY_LEN..] == input;
      Ok((key, input[PUBKEY_LEN..]))
    else Err(ToProgramError(InvalidInstructionData))
  }

  /** `unpack_size`: the first 4 bytes as a little-endian u32, and the rest. */
  function UnpackSize(input: seq<Byte>): (r: Result<(U32, seq<Byte>)>)
    ensures r.Ok? <==> |input| >= 4
    ensures r.Err? ==> r.error == ToProgramError(InvalidInstructionData)
    ensures r.Ok? ==> LeBytes(r.value.0) + r.value.1 == input
  {
    if |input| >= 4 then
      LeBytesFromLe(input[..4]);
      assert input[..4] + input[4..] == input;
      Ok((FromLe(input[..4]), input[4..]))
    else Err(ToProgramError(InvalidInstructionData))
  }

  /** What `unpack_msg` returns: exactly `msgSize` bytes as the text, and the
      rest. Too few bytes is `InvalidInstructionData`, checked first; bytes
      that are not UTF-8 are the program's `InvalidAccountData`. */
  function DecodeMsg(input: seq<Byte>, msgSize: nat): (r: Result<(Utf8String, seq<Byte>)>)
    ensures r.Ok? <==> msgSize <= |input| && ValidUtf8(input[..msgSize])
    ensures msgSize > |input| ==> r == Err(ToProgramError(InvalidInstructionData))
    ensures msgSize <= |input| && !ValidUtf8(input[..msgSize]) ==>
              r == Err(ToProgramError(InvalidAccountData))
    ensures r.Ok? ==> |r.value.0| == msgSize && r.value.0 + r.value.1 == input
  {
    if |input| >= msgSize then
      if ValidUtf8(input[..msgSize]) then
        assert input[..msgSize] + input[msgSize..] == input;
        Ok((input[..msgSize], input[msgSize..]))
      else Err(ToProgramError(InvalidAccountData))
    else Err(ToProgramError(InvalidInstructionData))
  }

  /** `unpack_msg`, as written: the text is copied one byte at a time into a
      fresh buffer, which is then checked as UTF-8. */
  method UnpackMsg(input: seq<Byte>, msgSize: U32) returns (r: Result<(Utf8String, seq<Byte>)>)
    ensures r == DecodeMsg(input, msgSize)
  {
    if |input| >= msgSize {
      var utf8Bytes: seq<Byte> := [];
      for i := 0 to msgSize
        invariant utf8Bytes == input[..i]
      {
        utf8Bytes := utf8Bytes + [input[i]];
      }
      if ValidUtf8(utf8Bytes) {
        var msgData: Utf8String := utf8Bytes;
        return Ok((msgData, input[msgSize..]));
      } else {
        return Err(ToProgramError(InvalidAccountData));
      }
    } else {
      return Err(ToProgramError(InvalidInstructionData));
    }
  }

  /** `unpack`: the tag selects the variant, whose fields are read in order;
      the first field that does not fit decides the error, and whatever
      follows the last field is ignored. An unknown tag is
      `InvalidInstructionData`. An empty input is a panic in the source. */
  function Unpack(input: seq<Byte>): (r: Result<Sol2SolInstruction>)
    requires |input| >= 1
    ensures input[0] > 2 ==> r == Err(ToProgramError(InvalidInstructionData))
    ensures r.Ok? ==> input[0] <= 2
  {
    var rest := input[1..];
    match input[0]
    case 0 =>
      var owner :- UnpackPubkey(rest);
      var numSpots :- UnpackSize(owner.1);
      var nextBox :- UnpackPubkey(numSpots.1);
      var prevBox :- UnpackPubkey(nextBox.1);
      Ok(InitializeSolBox(owner.0, numSpots.0, nextBox.0, prevBox.0))
    case 1 =>
      var sender :- UnpackPubkey(rest);
      var recipient :- UnpackPubkey(sender.1);
      var solBoxId :- UnpackPubkey(recipient.1);
      var msgSize :- UnpackSize(solBoxId.1);
      var msgString :- DecodeMsg(msgSize.1, msgSize.0);
      Ok(WriteMessage(sender.0, recipient.0, solBoxId.0, msgSize.0, msgString.0))
    case 2 =>
      var owner :- UnpackPubkey(rest);
      var messageId :- UnpackPubkey(owner.1);
      var solBoxId :- UnpackPubkey(messageId.1);
      Ok(DeleteMessage(owner.0, messageId.0, solBoxId.0))
    case _ => Err(ToProgramError(InvalidInstructionData))
  }

  /** `unpack_pubkey` at offset `k` of a buffer that has room for a key. */
  lemma UnpackPubkeyAt(input: seq<Byte>, k: nat)
    requires k + PUBKEY_LEN <= |input|
    ensures UnpackPubkey(input[k..]) == Ok((input[k..k + PUBKEY_LEN], input[k + PUBKEY_LEN..]))
  {
    assert input[k..][..PUBKEY_LEN] == input[k..k + PUBKEY_LEN];
    assert input[k..][PUBKEY_LEN..] == input[k + PUBKEY_LEN..];
  }

  /** `unpack_size` at offset `k` of a buffer that has room for a u32. */
  lemma UnpackSizeAt(input: seq<Byte>, k: nat)
    requires k + 4 <= |input|
    ensures UnpackSize(input[k..]) == Ok((FromLe(input[k..k + 4]), input[k + 4..]))
  {
    assert input[k..][..4] == input[k..k + 4];
    assert input[k..][4..] == input[k + 4..];
  }

  /** Tag 0 with room for its fields: owner at 1, the slot count at 33,
      next box at 37, previous box at 69; nothing after byte 101 is read. */
  lemma UnpackInitAt(input: seq<Byte>)
    requires |input| >= 101 && input[0] == 0
    ensures Unpack(input) == Ok(InitializeSolBox(input[1..33], FromLe(input[33..37]),
                                                 input[37..69], input[69..101]))
  {
    UnpackPubkeyAt(input, 1);
    UnpackSizeAt(input, 33);
    UnpackPubkeyAt(input, 37);
    UnpackPubkeyAt(input, 69);
  }

  /** Tag 1 with room for its fixed fields: sender at 1, recipient at 33, box
      at 65, the size at 97, and then the text as `unpack_msg` reads it. */
  lemma UnpackWriteAt(input: seq<Byte>)
    requires |input| >= 101 && input[0] == 1
    ensures var n := FromLe(input[97..101]);
            var m := DecodeMsg(input[101..], n);
            Unpack(input) == if m.Ok? then Ok(WriteMessage(input[1..33], input[33..65],
                                                           input[65..97], n, m.value.0))
                             else Err(m.error)
  {
    UnpackPubkeyAt(input, 1);
    UnpackPubkeyAt(input, 33);
    UnpackPubkeyAt(input, 65);
    UnpackSizeAt(input, 97);
  }

  /** Tag 2 with room for its fields: owner at 1, message at 33, box at 65;
      nothing after byte 97 is read. */
  lemma UnpackDeleteAt(input: seq<Byte>)
    requires |input| >= 97 && input[0] == 2
    ensures Unpack(input) == Ok(DeleteMessage(input[1..33], input[33..65], input[65..97]))
  {
    UnpackPubkeyAt(input, 1);
    UnpackPubkeyAt(input, 33);
    UnpackPubkeyAt(input, 65);
  }

  /** A known tag whose fixed fields do not fit is `InvalidInstructionData`. */
  lemma UnpackShort(input: seq<Byte>)
    requires |input| >= 1
    ensures (input[0] == 0 || input[0] == 1) && |input| < 101 ==>
              Unpack(input) == Err(Custom(1))
    ensures input[0] == 2 && |input| < 97 ==> Unpack(input) == Err(Custom(1))
  {
    var rest := input[1..];
    if input[0] <= 2 && |input| < 101 {
      if |rest| >= 32 {
        UnpackPubkeyAt(input, 1);
        if |rest| >= 64 {
          UnpackPubkeyAt(input, 33);
          if input[0] == 0 {
            UnpackSizeAt(input, 33);
            if |rest| >= 68 {
              UnpackPubkeyAt(input, 37);
            }
          } else if |rest| >= 96 {
            UnpackPubkeyAt(input, 65);
          }
        }
      }
    }
  }

  /** The inputs `unpack` accepts, stated on byte offsets: a known tag, room
      for the fixed fields and, for tag 1, `size` further bytes that are UTF-8. */
  predicate Accepts(input: seq<Byte>)
    requires |input| >= 1
  {
    match input[0]
    case 0 => |input| >= 101
    case 1 => |input| >= 101 && FromLe(input[97..101]) <= |input| - 101
              && ValidUtf8(input[101..101 + FromLe(input[97..101])])
    case 2 => |input| >= 97
    case _ => false
  }

  /** The one input shape refused with the program's `InvalidAccountData`:
      a complete `WriteMessage` whose text is not UTF-8. */
  predicate TextNotUtf8(input: seq<Byte>)
    requires |input| >= 1
  {
    input[0] == 1 && |input| >= 101 && FromLe(input[97..101]) <= |input| - 101
    && !ValidUtf8(input[101..101 + FromLe(input[97..101])])
  }

  /** `unpack` succeeds exactly on the accepted inputs; every refusal is
      `InvalidInstructionData` (code 1) except a text that is not UTF-8,
      which is `InvalidAccountData` (code 4). */
  lemma UnpackAccepts(input: seq<Byte>)
    requires |input| >= 1
    ensures Unpack(input).Ok? <==> Accepts(input)
    ensures Unpack(input).Err? ==>
              Unpack(input).error == if TextNotUtf8(input) then Custom(4) else Custom(1)
  {
    UnpackShort(input);
    if input[0] == 0 && |input| >= 101 {
      UnpackInitAt(input);
    } else if input[0] == 1 && |input| >= 101 {
      UnpackWriteAt(input);
      var n := FromLe(input[97..101]);
      if n <= |input| - 101 {
        assert input[101..][..n] == input[101..101 + n];
      }
    } else if input[0] == 2 && |input| >= 97 {
      UnpackDeleteAt(input);
    }
  }

  /** A decoded `InitializeSolBox` re-packs to the first 101 input bytes. */
  lemma InitIsPrefix(input: seq<Byte>)
    requires |input| >= 101 && input[0] == 0
    ensures Encode(Unpack(input).value) == input[..101]
  {
    UnpackInitAt(input);
    LeBytesFromLe(input[33..37]);
    assert input[..101] == [0] + input[1..33] + input[33..37] + input[37..69] + input[69..101];
  }

  /** A decoded `WriteMessage` states its text's length and re-packs to the
      first `101 + size` input bytes. */
  lemma WriteIsPrefix(input: seq<Byte>)
    requires |input| >= 101 && input[0] == 1 && Unpack(input).Ok?
    ensures var n := FromLe(input[97..101]);
            && WellSized(Unpack(input).value) && n <= |input| - 101
            && Encode(Unpack(input).value) == input[..101 + n]
  {
    UnpackWriteAt(input);
    var n := FromLe(input[97..101]);
    var m := DecodeMsg(input[101..], n);
    assert m.Ok?;
    var text := m.value.0;
    assert text == input[101..101 + n] by {
      assert text == (text + m.value.1)[..n];
    }
    LeBytesFromLe(input[97..101]);
    assert input[..101 + n] == [1] + input[1..33] + input[33..65] + input[65..97]
                               + LeBytes(n) + text;
  }

  /** A decoded `DeleteMessage` re-packs to the first 97 input bytes. */
  lemma DeleteIsPrefix(input: seq<Byte>)
    requires |input| >= 97 && input[0] == 2
    ensures Encode(Unpack(input).value) == input[..97]
  {
    UnpackDeleteAt(input);
    assert input[..97] == [2] + input[1..33] + input[33..65] + input[65..97];
  }

  /** Whatever `unpack` returns re-packs to a prefix of its input: the fields
      are read in the order and widths `pack` writes them, and a decoded
      `WriteMessage` always states its text's length. */
  lemma UnpackIsPrefix(input: seq<Byte>)
    requires |input| >= 1
    ensures Unpack(input).Ok? ==>
              var i := Unpack(input).value;
              WellSized(i) && |Encode(i)| <= |input| && Encode(i) == input[..|Encode(i)|]
  {
    UnpackShort(input);
    if input[0] == 0 && |input| >= 101 {
      InitIsPrefix(input);
    } else if input[0] == 1 && |input| >= 101 && Unpack(input).Ok? {
      WriteIsPrefix(input);
    } else if input[0] == 2 && |input| >= 97 {
      DeleteIsPrefix(input);
    }
  }

  /** Round trip for `InitializeSolBox`, whatever bytes follow. */
  lemma InitRoundTrip(owner: Pubkey, numSpots: U32, nextBox: Pubkey, prevBox: Pubkey,
                      tail: seq<Byte>)
    ensures var i := InitializeSolBox(owner, numSpots, nextBox, prevBox);
            Unpack(Encode(i) + tail) == Ok(i)
  {
    var e := [0] + owner + LeBytes(numSpots) + nextBox + prevBox + tail;
    assert e[1..33] == owner && e[33..37] == LeBytes(numSpots);
    assert e[37..69] == nextBox && e[69..101] == prevBox;
    UnpackInitAt(e);
  }

  /** Round trip for a well-sized `WriteMessage`, whatever bytes follow. */
  lemma WriteRoundTrip(sender: Pubkey, recipient: Pubkey, solBoxId: Pubkey, msgString: Utf8String,
                       tail: seq<Byte>)
    requires |msgString| < 0x1_0000_0000
    ensures var i := WriteMessage(sender, recipient, solBoxId, |msgString|, msgString);
            Unpack(Encode(i) + tail) == Ok(i)
  {
    var n := |msgString|;
    var e := [1] + sender + recipient + solBoxId + LeBytes(n) + msgString + tail;
    assert e[1..33] == sender && e[33..65] == recipient && e[65..97] == solBoxId;
    assert e[97..101] == LeBytes(n);
    assert e[101..][..n] == msgString;
    UnpackWriteAt(e);
  }

  /** Round trip for `DeleteMessage`, whatever bytes follow. */
  lemma DeleteRoundTrip(owner: Pubkey, messageId: Pubkey, solBoxId: Pubkey, tail: seq<Byte>)
    ensures var i := DeleteMessage(owner, messageId, solBoxId);
            Unpack(Encode(i) + tail) == Ok(i)
  {
    var e := [2] + owner + messageId + solBoxId + tail;
    assert e[1..33] == owner && e[33..65] == messageId && e[65..97] == solBoxId;
    UnpackDeleteAt(e);
  }

  /** Round trip: a well-sized instruction unpacks from its packed bytes,
      whatever bytes follow them. */
  lemma UnpackEncode(i: Sol2SolInstruction, tail: seq<Byte>)
    requires WellSized(i)
    ensures Unpack(Encode(i) + tail) == Ok(i)
  {
    match i
    case InitializeSolBox(owner, numSpots, nextBox, prevBox) =>
      InitRoundTrip(owner, numSpots, nextBox, prevBox, tail);
    case WriteMessage(sender, recipient, solBoxId, msgSize, msgString) =>
      WriteRoundTrip(sender, recipient, solBoxId, msgString, tail);
    case DeleteMessage(owner, messageId, solBoxId) =>
      DeleteRoundTrip(owner, messageId, solBoxId, tail);
  }

  /** Round trip with nothing following. */
  lemma UnpackEncodeExact(i: Sol2SolInstruction)
    requires WellSized(i)
    ensures Unpack(Encode(i)) == Ok(i)
  {
    UnpackEncode(i, []);
    assert Encode(i) + [] == Encode(i);
  }

  /** A `WriteMessage` that states more bytes than its text holds does not
      survive the round trip: its own packed bytes are refused as too short. */
  lemma OversizedTextRefused(i: Sol2SolInstruction)
    requires i.WriteMessage? && i.msgSize > |i.msgString|
    ensures Unpack(Encode(i)) == Err(Custom(1))
  {
    var e := Encode(i);
    assert e[97..101] == LeBytes(i.msgSize);
    UnpackWriteAt(e);
  }

  /** A `WriteMessage` that states fewer bytes than its text holds is not
      refused: its packed bytes unpack to the same fields with the text cut to
      the stated size, a different instruction, or to `InvalidAccountData`
      when the cut splits a multi-byte character. */
  lemma UndersizedTextCut(i: Sol2SolInstruction)
    requires i.WriteMessage? && i.msgSize < |i.msgString|
    ensures Unpack(Encode(i))
            == if ValidUtf8(i.msgString[..i.msgSize])
               then Ok(WriteMessage(i.sender, i.recipient, i.solBoxId, i.msgSize,
                                    i.msgString[..i.msgSize]))
               else Err(Custom(4))
    ensures Unpack(Encode(i)) != Ok(i)
  {
    var e := Encode(i);
    assert e[1..33] == i.sender && e[33..65] == i.recipient && e[65..97] == i.solBoxId;
    assert e[97..101] == LeBytes(i.msgSize);
    assert e[101..][..i.msgSize] == i.msgString[..i.msgSize];
    UnpackWriteAt(e);
  }

  // ---------------------------------------------------------------------
  // Encoding

  /** `pack_msg`: the text's bytes appended to the buffer. */
  method PackMsg(msg: Utf8String, buf: seq<Byte>) returns (out: seq<Byte>)
    ensures out == buf + msg
  {
    out := buf + msg;
  }

  /** `pack`, as written: the tag pushed and each field appended in turn. */
  method Pack(i: Sol2SolInstruction) returns (buf: seq<Byte>)
    ensures buf == Encode(i)
  {
    buf := [];
    match i
    case InitializeSolBox(owner, numSpots, nextBox, prevBox) =>
      buf := buf + [0];
      buf := buf + owner;
      buf := buf + LeBytes(numSpots);
      buf := buf + nextBox;
      buf := buf + prevBox;
    case WriteMessage(sender, recipient, solBoxId, msgSize, msgString) =>
      buf := buf + [1];
      buf := buf + sender;
      buf := buf + recipient;
      buf := buf + solBoxId;
      buf := buf + LeBytes(msgSize);
      buf := PackMsg(msgString, buf);
    case DeleteMessage(owner, messageId, solBoxId) =>
      buf := buf + [2];
      buf := buf + owner;
      buf := buf + messageId;
      buf := buf + solBoxId;
  }

  /** "hello world!" as bytes. */
  const HELLO_WORLD: seq<Byte> :=
    [0x68, 0x65, 0x6c, 0x6c, 0x6f, 0x20, 0x77, 0x6f, 0x72, 0x6c, 0x64, 0x21]

  /** "hello world!" is ASCII, hence a valid `String`. */
  lemma HelloWorldIsUtf8()
    ensures ValidUtf8(HELLO_WORLD)
  {
    assert IsAscii(HELLO_WORLD);
    AsciiIsValid(HELLO_WORLD);
  }

  /** The parsing test: a `WriteMessage` carrying "hello world!" with its
      size 12 packs to 101 + 12 = 113 bytes and unpacks to itself. */
  lemma HelloWorldParsing(sender: Pubkey, recipient: Pubkey, solBoxId: Pubkey)
    ensures var i := WriteMessage(sender, recipient, solBoxId, 12, HELLO_WORLD);
            |Encode(i)| == 113 && Unpack(Encode(i)) == Ok(i)
  {
    HelloWorldIsUtf8();
    var text: Utf8String := HELLO_WORLD;
    var i := WriteMessage(sender, recipient, solBoxId, 12, text);
    EncodedLength(i);
    UnpackEncodeExact(i);
  }

  /** The data of the instruction `init_sol_box` builds: a packed
      `InitializeSolBox` naming the payer as owner, 20 slots, and the box
      itself as both neighbours. */
  method InitSolBox(payer: Pubkey, solBox: Pubkey) returns (data: seq<Byte>)
    ensures |data| == 101
    ensures Unpack(data) == Ok(InitializeSolBox(payer, 20, solBox, solBox))
  {
    data := Pack(InitializeSolBox(payer, 20, solBox, solBox));
    UnpackEncodeExact(InitializeSolBox(payer, 20, solBox, solBox));
  }
}
