/** The program's own error enum, its conversion into the runtime's error
    type, and the result types every codec returns. */
module Errors {
  import opened Bytes

  /** `Sol2SolError`, in declaration order: the order is the error code. */
  datatype Sol2SolError =
    | IncorrectSystemProgramAddress
    | InvalidInstructionData
    | SolBoxInvalidNumSpots
    | InsufficientFunds
    | InvalidAccountData
    | SolBoxNoSpaceLeft
    | OwnerMismatch
    | SolBoxUserOwnerMismatch
    | SolBoxSystemOwnerMismatch
    | IncorrectSolBox

  /** The runtime's error type, reduced to the variants this program produces:
      a custom code, and the built-in `InvalidAccountData`. */
  datatype ProgramError =
    | Custom(code: U32)
    | BuiltinInvalidAccountData

  /** `Result<T, ProgramError>`, usable with `:-` the way Rust uses `?`. */
  datatype Result<+T> = Ok(value: T) | Err(error: ProgramError) {
    predicate IsFailure() {
      Err?
    }

    function PropagateFailure<U>(): Result<U>
      requires Err?
    {
      Err(error)
    }

    function Extract(): T
      requires Ok?
    {
      value
    }
  }

  /** `ProgramResult`. */
  type ProgramResult = Result<()>

  datatype Option<+T> = None | Some(value: T)

  /** The enum's discriminant, `e as u32`. */
  function Discriminant(e: Sol2SolError): (d: U32)
    ensures d < 10
    ensures FromPrimitive(d) == Some(e)
  {
    match e
    case IncorrectSystemProgramAddress => 0
    case InvalidInstructionData => 1
    case SolBoxInvalidNumSpots => 2
    case InsufficientFunds => 3
    case InvalidAccountData => 4
    case SolBoxNoSpaceLeft => 5
    case OwnerMismatch => 6
    case SolBoxUserOwnerMismatch => 7
    case SolBoxSystemOwnerMismatch => 8
    case IncorrectSolBox => 9
  }

  /** The derived `FromPrimitive::from_u32`: the variant whose discriminant is `d`. */
  function FromPrimitive(d: U32): (r: Option<Sol2SolError>)
    ensures r.Some? <==> d < 10
  {
    match d
    case 0 => Some(IncorrectSystemProgramAddress)
    case 1 => Some(InvalidInstructionData)
    case 2 => Some(SolBoxInvalidNumSpots)
    case 3 => Some(InsufficientFunds)
    case 4 => Some(InvalidAccountData)
    case 5 => Some(SolBoxNoSpaceLeft)
    case 6 => Some(OwnerMismatch)
    case 7 => Some(SolBoxUserOwnerMismatch)
    case 8 => Some(SolBoxSystemOwnerMismatch)
    case 9 => Some(IncorrectSolBox)
    case _ => None
  }

  /** `impl From<Sol2SolError> for ProgramError`. */
  function ToProgramError(e: Sol2SolError): (r: ProgramError)
    ensures r.Custom? && r.code < 10
  {
    Custom(Discriminant(e))
  }

  /** Every code below 10 names exactly one variant. */
  lemma {:induction false} FromPrimitiveInverse(d: U32)
    requires d < 10
    ensures Discriminant(FromPrimitive(d).value) == d
  {
  }

  /** The conversion loses nothing: distinct variants give distinct errors,
      the three variants that share the message "Payer must be owner" included. */
  lemma ToProgramErrorInjective(a: Sol2SolError, b: Sol2SolError)
    ensures ToProgramError(a) == ToProgramError(b) <==> a == b
  {
    if ToProgramError(a) == ToProgramError(b) {
      assert FromPrimitive(Discriminant(a)) == FromPrimitive(Discriminant(b));
    }
  }

  /** The codes the codecs and the allocator depend on. */
  lemma KnownCodes()
    ensures ToProgramError(InvalidInstructionData) == Custom(1)
    ensures ToProgramError(InvalidAccountData) == Custom(4)
    ensures ToProgramError(SolBoxNoSpaceLeft) == Custom(5)
    ensures ToProgramError(OwnerMismatch) == Custom(6)
    ensures ToProgramError(SolBoxUserOwnerMismatch) == Custom(7)
    ensures ToProgramError(SolBoxSystemOwnerMismatch) == Custom(8)
  {
  }

  /** The custom `InvalidAccountData` (code 4) is never the built-in one:
      no program error converts into a built-in variant. */
  lemma NeverBuiltin(e: Sol2SolError)
    ensures ToProgramError(e) != BuiltinInvalidAccountData
  {
  }
}
