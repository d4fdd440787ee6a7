/** verify-proof.ts: check the shape of a proof record and its depth, rebuild
    the four public inputs from the record's own fields and return the
    backend's verdict on them. */
module VerifyProof {
  import opened Wrappers
  import opened JsValues
  import opened JsNumbers
  import opened Hex
  import opened SemaphoreTypes
  import GenerateProof

  /** The checks of lines 18-29 in source order (destructuring null throws
      between the object check and the field checks); None when all pass. */
  function CheckShape(semaphoreProof: JsValue): Option<Failure> {
    if !IsDefined(semaphoreProof) then Some(NotDefined("semaphoreProof"))
    else if !IsObject(semaphoreProof) then Some(NotAnObject("semaphoreProof"))
    else if semaphoreProof.Null? then Some(CannotDestructure)
    else if !Property(semaphoreProof, "merkleTreeDepth").Number? then Some(NotANumber("proof.merkleTreeDepth"))
    else if !Property(semaphoreProof, "merkleTreeRoot").Str? then Some(NotAString("proof.merkleTreeRoot"))
    else if !Property(semaphoreProof, "nullifier").Str? then Some(NotAString("proof.nullifier"))
    else if !Property(semaphoreProof, "message").Str? then Some(NotAString("proof.message"))
    else if !Property(semaphoreProof, "scope").Str? then Some(NotAString("proof.scope"))
    else if !Property(semaphoreProof, "proof").Bytes? then Some(NotAUint8Array("proof.proof"))
    else if !Property(semaphoreProof, "publicInputs").Array? then Some(NotAnArray("proof.publicInputs"))
    else None
  }

  /** A plain object with a numeric depth, string root, nullifier, message and
      scope, Uint8Array proof bytes and an array of public inputs. */
  predicate WellFormed(v: JsValue) {
    && v.Object?
    && Property(v, "merkleTreeDepth").Number?
    && Property(v, "merkleTreeRoot").Str?
    && Property(v, "nullifier").Str?
    && Property(v, "message").Str?
    && Property(v, "scope").Str?
    && Property(v, "proof").Bytes?
    && Property(v, "publicInputs").Array?
  }

  /** The guard chain passes exactly on well-formed records; arrays, typed
      arrays and null pass `requireObject` but are still refused. */
  lemma CheckShapeAccepts(v: JsValue)
    ensures CheckShape(v) == None <==> WellFormed(v)
    ensures v.Undefined? ==> CheckShape(v) == Some(NotDefined("semaphoreProof"))
    ensures v.Null? ==> CheckShape(v) == Some(CannotDestructure)
  {
  }

  /** `BigInt(s)`, as `hash` and `toHex` apply it to a string argument. */
  function ReadBigInt(s: string): Result<int, Failure> {
    match StringToBigInt(s)
    case Some(v) => Ok(v)
    case None => Err(BigIntSyntax)
  }

  /** `[toHex(hash(scope)), toHex(hash(message)), toHex(merkleTreeRoot), nullifier]`,
      evaluated left to right. */
  function PublicInputLayout(scope: string, message: string, root: string, nullifier: string,
                             hash: int -> nat): Result<seq<string>, Failure>
  {
    var sc :- ReadBigInt(scope);
    var msg :- ReadBigInt(message);
    var rt :- ReadBigInt(root);
    Ok([ToHex(hash(sc), DefaultPadding), ToHex(hash(msg), DefaultPadding), ToHex(rt, DefaultPadding), nullifier])
  }

  /** The layout exists exactly when scope, message and root read as bigints. It
      has four entries: the hashed scope, the hashed message and the root, each
      in `0x` hex padded to 64 digits that reads back as that number, and the
      nullifier as given. */
  lemma PublicInputLayoutShape(scope: string, message: string, root: string, nullifier: string, hash: int -> nat)
    ensures var r := PublicInputLayout(scope, message, root, nullifier, hash);
      && (r.Ok? <==> StringToBigInt(scope).Some? && StringToBigInt(message).Some? && StringToBigInt(root).Some?)
      && (r.Ok? ==>
           var sc, msg, rt := StringToBigInt(scope).value, StringToBigInt(message).value, StringToBigInt(root).value;
           && |r.value| == 4
           && r.value[0] == ToHex(hash(sc), DefaultPadding)
           && r.value[1] == ToHex(hash(msg), DefaultPadding)
           && r.value[2] == ToHex(rt, DefaultPadding)
           && r.value[3] == nullifier
           && HexValue(r.value[0]) == Some(hash(sc))
           && HexValue(r.value[1]) == Some(hash(msg))
           && (rt >= 0 ==> HexValue(r.value[2]) == Some(rt)))
  {
    var r := PublicInputLayout(scope, message, root, nullifier, hash);
    if r.Ok? {
      var sc, msg, rt := StringToBigInt(scope).value, StringToBigInt(message).value, StringToBigInt(root).value;
      ToHexRoundTrip(hash(sc), DefaultPadding);
      ToHexRoundTrip(hash(msg), DefaultPadding);
      if rt >= 0 {
        ToHexRoundTrip(rt, DefaultPadding);
      }
    }
  }

  /** `verifyProof(semaphoreProof)`: the backend sees the proof bytes and the
      rebuilt public inputs; the record's own `publicInputs` are only checked. */
  function VerifyProof(semaphoreProof: JsValue, bounds: Bounds, helpers: Helpers, backend: Backend)
    : Result<bool, Failure>
  {
    match CheckShape(semaphoreProof)
    case Some(e) => Err(e)
    case None =>
      assert WellFormed(semaphoreProof) by { CheckShapeAccepts(semaphoreProof); }
      var depth := Property(semaphoreProof, "merkleTreeDepth").num;
      if depth < bounds.minDepth || depth > bounds.maxDepth then
        Err(DepthOutOfRange(bounds.minDepth, bounds.maxDepth))
      else
        var layout :- PublicInputLayout(
          Property(semaphoreProof, "scope").str,
          Property(semaphoreProof, "message").str,
          Property(semaphoreProof, "merkleTreeRoot").str,
          Property(semaphoreProof, "nullifier").str,
          helpers.hash);
        Lift(backend.verify(Property(semaphoreProof, "proof").bytes, layout))
  }

  /** A verdict only comes back for a well-formed record whose depth lies in
      [MIN_DEPTH, MAX_DEPTH], and it is the backend's own answer on the record's
      proof bytes and the rebuilt layout. */
  lemma VerifyResult(v: JsValue, bounds: Bounds, helpers: Helpers, backend: Backend)
    requires VerifyProof(v, bounds, helpers, backend).Ok?
    ensures WellFormed(v)
    ensures bounds.minDepth <= Property(v, "merkleTreeDepth").num <= bounds.maxDepth
    ensures var layout := PublicInputLayout(Property(v, "scope").str, Property(v, "message").str,
                                            Property(v, "merkleTreeRoot").str, Property(v, "nullifier").str,
                                            helpers.hash);
      && layout.Ok?
      && backend.verify(Property(v, "proof").bytes, layout.value) == Ok(VerifyProof(v, bounds, helpers, backend).value)
  {
    CheckShapeAccepts(v);
  }

  /** For a well-formed record in range whose layout can be built, the result is
      exactly the backend's: its verdict, or its exception passed on. */
  lemma VerifyDelegates(v: JsValue, bounds: Bounds, helpers: Helpers, backend: Backend)
    requires WellFormed(v)
    requires bounds.minDepth <= Property(v, "merkleTreeDepth").num <= bounds.maxDepth
    requires PublicInputLayout(Property(v, "scope").str, Property(v, "message").str,
                               Property(v, "merkleTreeRoot").str, Property(v, "nullifier").str, helpers.hash).Ok?
    ensures VerifyProof(v, bounds, helpers, backend)
      == Lift(backend.verify(Property(v, "proof").bytes,
                             PublicInputLayout(Property(v, "scope").str, Property(v, "message").str,
                                               Property(v, "merkleTreeRoot").str, Property(v, "nullifier").str,
                                               helpers.hash).value))
  {
    CheckShapeAccepts(v);
  }

  /** Malformed records and out-of-range depths are refused before the backend
      is consulted: the answer is an error, the same whatever the backend. */
  lemma VerifyRejectsBeforeBackend(v: JsValue, bounds: Bounds, helpers: Helpers, backend1: Backend, backend2: Backend)
    requires !WellFormed(v) || !(bounds.minDepth <= Property(v, "merkleTreeDepth").num <= bounds.maxDepth)
    ensures VerifyProof(v, bounds, helpers, backend1).Err?
    ensures VerifyProof(v, bounds, helpers, backend1) == VerifyProof(v, bounds, helpers, backend2)
    ensures WellFormed(v) ==>
      VerifyProof(v, bounds, helpers, backend1) == Err(DepthOutOfRange(bounds.minDepth, bounds.maxDepth))
  {
    CheckShapeAccepts(v);
  }

  /** The record's own `publicInputs` never reach the backend: putting any
      other array in their place gives the same answer. */
  lemma VerifyIgnoresRecordPublicInputs(fields: map<string, JsValue>, items1: seq<JsValue>, items2: seq<JsValue>,
                                        bounds: Bounds, helpers: Helpers, backend: Backend)
    ensures VerifyProof(Object(fields["publicInputs" := Array(items1)]), bounds, helpers, backend)
         == VerifyProof(Object(fields["publicInputs" := Array(items2)]), bounds, helpers, backend)
  {
    var v1 := Object(fields["publicInputs" := Array(items1)]);
    var v2 := Object(fields["publicInputs" := Array(items2)]);
    forall key | key != "publicInputs" ensures Property(v1, key) == Property(v2, key) {
    }
    assert CheckShape(v1) == CheckShape(v2);
  }

  /** The fields of a generated record as `verifyProof` reads them. */
  lemma ToJsFields(rec: SemaphoreProof)
    ensures var v := ToJs(rec);
      && Property(v, "merkleTreeDepth") == Number(rec.merkleTreeDepth)
      && Property(v, "merkleTreeRoot") == Str(rec.merkleTreeRoot)
      && Property(v, "nullifier") == (if rec.nullifier.Some? then Str(rec.nullifier.value) else Undefined)
      && Property(v, "message") == Str(rec.message)
      && Property(v, "scope") == Str(rec.scope)
      && Property(v, "proof") == Bytes(rec.proof)
      && Property(v, "publicInputs").Array?
  {
  }

  /** A record `generateProof` returns passes the shape checks of `verifyProof`
      exactly when it has a nullifier, that is, when the prover returned at least
      four public inputs. */
  lemma GeneratedRecordWellFormed(rec: SemaphoreProof)
    ensures WellFormed(ToJs(rec)) <==> rec.nullifier.Some?
    ensures CheckShape(ToJs(rec)) == None <==> rec.nullifier.Some?
  {
    ToJsFields(rec);
    CheckShapeAccepts(ToJs(rec));
  }

  /** A record without a nullifier is refused by `requireString` on it, before
      the depth is looked at and whatever the backend. */
  lemma RecordWithoutNullifierRejected(rec: SemaphoreProof, bounds: Bounds, helpers: Helpers, backend: Backend)
    requires rec.nullifier.None?
    ensures VerifyProof(ToJs(rec), bounds, helpers, backend) == Err(NotAString("proof.nullifier"))
  {
    ToJsFields(rec);
  }

  /** Generation then verification: a record `generateProof` returned, with its
      depth in bounds and a nullifier, reaches the backend with its own proof
      bytes and, in 64-digit hex, the hashed scope and message the circuit was
      given and the tree root, followed by the nullifier. When the prover's
      public inputs are laid out that way, the backend is asked about exactly
      the record's public inputs. */
  lemma GeneratedProofReachesBackend(identity: Identity, proof: GenerateProof.MerkleProofData,
                                     message: JsValue, scope: JsValue, merkleTreeDepth: Option<int>,
                                     bounds: Bounds, helpers: Helpers, backend: Backend)
    requires GenerateProof.Generate(identity, proof, message, scope, merkleTreeDepth, bounds, helpers, backend).Ok?
    requires var rec := GenerateProof.Generate(identity, proof, message, scope, merkleTreeDepth, bounds, helpers, backend).value;
      bounds.minDepth <= rec.merkleTreeDepth <= bounds.maxDepth && |rec.publicInputs| > 3
    ensures helpers.toBigInt(message).Ok? && helpers.toBigInt(scope).Ok?
    ensures var rec := GenerateProof.Generate(identity, proof, message, scope, merkleTreeDepth, bounds, helpers, backend).value;
      var layout := [ToHex(helpers.hash(helpers.toBigInt(scope).value), DefaultPadding),
                     ToHex(helpers.hash(helpers.toBigInt(message).value), DefaultPadding),
                     ToHex(proof.root, DefaultPadding),
                     rec.publicInputs[3]];
      && VerifyProof(ToJs(rec), bounds, helpers, backend) == Lift(backend.verify(rec.proof, layout))
      && (rec.publicInputs == layout ==>
            VerifyProof(ToJs(rec), bounds, helpers, backend) == Lift(backend.verify(rec.proof, rec.publicInputs)))
  {
    var rec := GenerateProof.Generate(identity, proof, message, scope, merkleTreeDepth, bounds, helpers, backend).value;
    GenerateProof.GenerateResult(identity, proof, message, scope, merkleTreeDepth, bounds, helpers, backend);
    var v := ToJs(rec);
    ToJsFields(rec);
    assert WellFormed(v);
    CheckShapeAccepts(v);
    VerifyDelegates(v, bounds, helpers, backend);
  }
}
