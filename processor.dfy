/** The program's entry point: decode the instruction, hand its fields to the
    handler of its variant, and discard what the handler returns. The
    handlers touch no account; the init handler only builds a box value. */
module Processor {
  import opened Bytes
  import opened Utf8
  import opened Errors
  import opened State
  import opened Instruction

  /** The box `process_init_sol_box` builds: the fields it was given, every
      slot empty, nothing in use, marked initialized. */
  function NewSolBox(owner: Pubkey, numSpots: U32, nextBox: Pubkey, prevBox: Pubkey)
    : (b: SolBox)
    ensures b.owner == owner && b.nextBox == nextBox && b.prevBox == prevBox
    ensures b.numSpots == numSpots && b.numInUse == 0 && IsInitialized(b)
    ensures forall i :: 0 <= i < SOL_BOX_NUM_SPOTS ==> b.messageSlots[i] == NULL_KEY
  {
    SolBox(owner, nextBox, prevBox, numSpots, 0, true, EmptyMessageSlots())
  }

  /** `process_init_sol_box`: the box is built and then dropped, never packed
      into an account, so the handler always succeeds. */
  function ProcessInitSolBox(owner: Pubkey, numSpots: U32, nextBox: Pubkey, prevBox: Pubkey)
    : (r: ProgramResult)
    ensures r == Ok(())
  {
    var solBox := NewSolBox(owner, numSpots, nextBox, prevBox);
    Ok(())
  }

  /** `process_write_message`: an empty body. */
  function ProcessWriteMessage(sender: Pubkey, recipient: Pubkey, solBoxId: Pubkey, msgSize: U32,
                               msgString: Utf8String): (r: ProgramResult)
    ensures r == Ok(())
  {
    Ok(())
  }

  /** `process_delete_message`: an empty body. */
  function ProcessDeleteMessage(owner: Pubkey, messageId: Pubkey, solBoxId: Pubkey)
    : (r: ProgramResult)
    ensures r == Ok(())
  {
    Ok(())
  }

  /** `process_instruction`: a decoding error is returned as it is; once the
      instruction decodes, the result is `Ok(())` whatever the handler said.
      The program id and the accounts are passed along but never read. */
  function ProcessInstruction(instructionData: seq<Byte>): (r: ProgramResult)
    requires |instructionData| >= 1
    ensures r.Ok? <==> Unpack(instructionData).Ok?
    ensures r.Err? ==> r.error == Unpack(instructionData).error
  {
    var instruction :- Unpack(instructionData);
    match instruction
    case InitializeSolBox(owner, numSpots, nextBox, prevBox) =>
      var ignored := ProcessInitSolBox(owner, numSpots, nextBox, prevBox);
      Ok(())
    case WriteMessage(sender, recipient, solBoxId, msgSize, msgString) =>
      var ignored := ProcessWriteMessage(sender, recipient, solBoxId, msgSize, msgString);
      Ok(())
    case DeleteMessage(owner, messageId, solBoxId) =>
      var ignored := ProcessDeleteMessage(owner, messageId, solBoxId);
      Ok(())
  }

  /** The program accepts exactly the instruction bytes the codec accepts,
      and refuses the rest with `InvalidInstructionData` (code 1), or
      `InvalidAccountData` (code 4) for a message text that is not UTF-8. */
  lemma ProcessAccepts(instructionData: seq<Byte>)
    requires |instructionData| >= 1
    ensures ProcessInstruction(instructionData).Ok? <==> Accepts(instructionData)
    ensures ProcessInstruction(instructionData).Err? ==>
              ProcessInstruction(instructionData).error
              == if TextNotUtf8(instructionData) then Custom(4) else Custom(1)
  {
    UnpackAccepts(instructionData);
  }

  /** Every packed, well-sized instruction is processed successfully,
      whatever bytes follow it. */
  lemma ProcessPacked(i: Sol2SolInstruction, tail: seq<Byte>)
    requires WellSized(i)
    ensures ProcessInstruction(Instruction.Encode(i) + tail) == Ok(())
  {
    UnpackEncode(i, tail);
  }

  /** A box built from an instruction asking for 20 slots survives packing and
      unpacking; one built with any other count would be refused on unpacking
      with the built-in `InvalidAccountData`. */
  lemma NewSolBoxRoundTrip(owner: Pubkey, numSpots: U32, nextBox: Pubkey, prevBox: Pubkey)
    ensures var b := NewSolBox(owner, numSpots, nextBox, prevBox);
            State.Decode(State.Encode(b)) == if numSpots == SOL_BOX_NUM_SPOTS then Ok(b)
                                               else Err(BuiltinInvalidAccountData)
  {
    DecodeEncode(NewSolBox(owner, numSpots, nextBox, prevBox));
  }

  /** The first message added to a freshly built box lands in slot 0, and the
      other 19 slots stay empty. */
  lemma FirstAddIntoNewBox(owner: Pubkey, numSpots: U32, nextBox: Pubkey, prevBox: Pubkey,
                           messageKey: Pubkey)
    ensures var slots := NewSolBox(owner, numSpots, nextBox, prevBox).messageSlots;
            && AddMessage(slots, messageKey).Ok?
            && AddMessage(slots, messageKey).value[0] == messageKey
            && forall i :: 1 <= i < SOL_BOX_NUM_SPOTS ==>
                 AddMessage(slots, messageKey).value[i] == NULL_KEY
  {
    var slots := NewSolBox(owner, numSpots, nextBox, prevBox).messageSlots;
    assert slots[0] == NULL_KEY;
    assert FirstNull(slots) == 0;
  }
}
