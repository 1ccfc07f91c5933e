/** Error codes, checked arithmetic and the clock of the on-chain program. */
module Program {
  import opened Words

  /** The program's error codes, then the failures raised around it by the runtime. */
  datatype ErrorCode =
    | InsufficientUnlockedTokens
    | InvalidProof
    | ExceededMaxClaim
    | MaxNodesExceeded
    | Unauthorized
    | ClawbackDuringVesting
    | ClawbackBeforeStart
    | ClawbackAlreadyClaimed
    | SameClawbackReceiver
    | SameAdmin
    | ClaimExpired
    | ArithmeticError
    | StartTimestampAfterEnd
    | TimestampsNotInFuture
    | CannotCloseDistributor
    | CannotCloseClaimStatus
    | InvalidActivationType
      // account constraints, token program, runtime
    | AccountNotInitialized
    | AccountAlreadyInUse
    | ConstraintHasOne
    | TokenInsufficientFunds
    | TokenOverflow
    | ProgramPanicked

  datatype Clock = Clock(slot: u64, unixTimestamp: i64)

  function AddU64(a: u64, b: u64): Result<u64, ErrorCode> {
    if a + b < U64_LIMIT then Ok(a + b) else Err(ArithmeticError)
  }

  function SubU64(a: u64, b: u64): Result<u64, ErrorCode> {
    if b <= a then Ok(a - b) else Err(ArithmeticError)
  }

  function SubI64(a: i64, b: i64): Result<i64, ErrorCode> {
    if -I64_MAX - 1 <= a - b <= I64_MAX then Ok(a - b) else Err(ArithmeticError)
  }

  function MulU128(a: u128, b: u128): Result<u128, ErrorCode> {
    if 0 <= a * b < U128_LIMIT then Ok(a * b) else Err(ArithmeticError)
  }

  function DivU128(a: u128, b: u128): Result<u128, ErrorCode> {
    if b == 0 then Err(ArithmeticError)
    else
      QuotientInRange(a, b);
      Ok(a / b)
  }

  lemma QuotientInRange(a: nat, b: nat)
    requires b > 0
    ensures 0 <= a / b <= a
  {
    DivMono(a, a * b, b);
    FloorUnique(a * b, b, a);
  }
}
