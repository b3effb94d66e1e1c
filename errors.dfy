/** The error kinds the core can return. Go returns error values with
    free-form messages; the model keeps only which check failed. */
module Errors {

  datatype Error =
    // internal/encoding/parse.go
    | InvalidPhcString          // input does not start with '$'
    | InvalidPhcFormat          // fewer than six '$'-separated parts
    | MissingVersion            // version part lacks the "v=" prefix
    | InvalidVersion            // strconv.Atoi rejected the version digits
    | InvalidParam              // a parameter clause has no '='
    | InvalidBase64             // salt or digest is not unpadded standard base64
    // internal/cast/cast.go
    | SyntaxError               // strconv.ParseInt: not a base-10 integer
    | RangeError                // strconv.ParseInt: outside the 32-bit signed range
    | ConversionError           // safecast: value outside the target unsigned type
    // argon2/argon2id.go, validate
    | MemoryTooLow
    | IterationsTooLow
    | ParallelismTooLow
    | MemoryTooHigh
    | IterationsTooHigh
    | ParallelismTooHigh
    // argon2/argon2id.go, Hash and Verify
    | RandomSourceFailure       // crypto/rand.Read failed
    | UnsupportedVersion        // record version is not argon2.Version
    // argon2/policy.go
    | UnknownPolicy
    // password.go
    | UnknownAlgorithm(algorithm: string)
}
