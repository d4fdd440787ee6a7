/** The records the Noir adapter exchanges with its callers and with the
    external proving backend, the errors it can raise, and the external code it
    calls (as function-valued parameters). */
module SemaphoreTypes {
  import opened Wrappers
  import opened JsValues

  /** MIN_DEPTH and MAX_DEPTH, whose values live outside the model. */
  datatype Bounds = Bounds(minDepth: int, maxDepth: int)

  /** What the adapters can throw. */
  datatype Failure =
    | NotDefined(parameter: string)                    // requireDefined
    | NotAnObject(parameter: string)                   // requireObject
    | NotANumber(parameter: string)                    // requireNumber
    | NotAString(parameter: string)                    // requireString
    | NotAUint8Array(parameter: string)                // requireUint8Array
    | NotAnArray(parameter: string)                    // requireArray
    | UnsupportedType(parameter: string)               // requireTypes
    | DepthOutOfRange(minDepth: int, maxDepth: int)    // the TypeError naming both bounds
    | CannotDestructure                                // TypeError: destructuring null
    | BigIntSyntax                                     // SyntaxError: BigInt of a non-numeric string
    | NotAnInteger                                     // RangeError: BigInt(NaN)
    | InvalidArrayLength                               // RangeError: Array(negative length)
    | External(message: string)                        // thrown by code outside the model, passed on

  /** The part of a Semaphore identity the adapter reads. */
  datatype Identity = Identity(secretScalar: int)

  /** The sibling path as the circuit takes it: the real length and 32 slots. */
  datatype Paths = Paths(len: nat, storage: seq<string>)

  /** The witness inputs handed to `Noir.execute`. */
  datatype CircuitInputs = CircuitInputs(
    indexes: string,
    message: nat,
    paths: Paths,
    scope: nat,
    secret: string)

  /** What `UltraHonkBackend.generateProof` returns. */
  datatype ProofData = ProofData(publicInputs: seq<string>, proof: seq<bv8>)

  /** The proof record `generateProof` returns and `verifyProof` reads.
      `nullifier` is None when the backend returned fewer than four public inputs. */
  datatype SemaphoreProof = SemaphoreProof(
    merkleTreeDepth: int,
    merkleTreeRoot: string,
    nullifier: Option<string>,
    message: string,
    scope: string,
    proof: seq<bv8>,
    publicInputs: seq<string>)

  /** `toBigInt` and `hash` (./to-bigint and ./hash are not part of this model).
      `hash` is taken to read its argument as a bigint first. */
  datatype Helpers = Helpers(
    toBigInt: JsValue -> Result<int, string>,
    hash: int -> nat)

  /** `Noir.execute` and `UltraHonkBackend.generateProof` / `verifyProof`. */
  datatype Backend = Backend(
    execute: CircuitInputs -> Result<seq<bv8>, string>,
    prove: seq<bv8> -> Result<ProofData, string>,
    verify: (seq<bv8>, seq<string>) -> Result<bool, string>)

  /** An exception from external code, passed on unchanged. */
  function Lift<T>(r: Result<T, string>): Result<T, Failure> {
    match r
    case Ok(v) => Ok(v)
    case Err(m) => Err(External(m))
  }

  /** The proof record as the JavaScript object `verifyProof` receives. */
  function ToJs(p: SemaphoreProof): JsValue {
    Object(map[
      "merkleTreeDepth" := Number(p.merkleTreeDepth),
      "merkleTreeRoot" := Str(p.merkleTreeRoot),
      "nullifier" := (if p.nullifier.Some? then Str(p.nullifier.value) else Undefined),
      "message" := Str(p.message),
      "scope" := Str(p.scope),
      "proof" := Bytes(p.proof),
      "publicInputs" := Array(seq(|p.publicInputs|, i requires 0 <= i < |p.publicInputs| => Str(p.publicInputs[i])))
    ])
  }
}
