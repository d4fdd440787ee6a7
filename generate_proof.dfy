/** generate-proof.ts: turn a Merkle membership proof into the fixed-arity
    inputs of the Noir Semaphore circuit, run the external witness generator and
    prover, and build the proof record. */
module GenerateProof {
  import opened Wrappers
  import opened JsValues
  import opened JsSequences
  import opened JsNumbers
  import opened Hex
  import opened SemaphoreTypes

  /** DEFAULT_TREE_DEPTH: the depth assumed for a proof with no siblings, and
      the number of sibling slots the circuit has. */
  const DefaultTreeDepth: int := 32

  /** The padding of the packed index bits. */
  const IndexesPadding: int := 64

  /** The types `requireTypes` accepts for message and scope. */
  const MessageTypes: seq<string> := ["string", "bigint", "number", "Uint8Array"]

  /** A Merkle proof as plain values. */
  datatype MerkleProofData = MerkleProofData(root: int, index: nat, siblings: seq<int>)

  /** A zk-kit Merkle proof object. The adapter works on the caller's own object
      and pads its `siblings` array in place. */
  class MerkleProof {
    var root: int
    var index: nat
    var siblings: seq<int>

    constructor (root: int, index: nat, siblings: seq<int>)
      ensures Data() == MerkleProofData(root, index, siblings)
    {
      this.root := root;
      this.index := index;
      this.siblings := siblings;
    }

    function Data(): MerkleProofData
      reads this
    {
      MerkleProofData(root, index, siblings)
    }
  }

  // ---------------------------------------------------------------------------
  // Lines 45-86: argument checks, bigint normalisation, depth resolution

  /** The `requireDefined` and `requireTypes` checks on message and scope, in
      source order; identity and the Merkle proof are objects by construction. */
  function CheckArguments(message: JsValue, scope: JsValue): Option<Failure> {
    if !IsDefined(message) then Some(NotDefined("message"))
    else if !IsDefined(scope) then Some(NotDefined("scope"))
    else if !HasOneOfTypes(message, MessageTypes) then Some(UnsupportedType("message"))
    else if !HasOneOfTypes(scope, MessageTypes) then Some(UnsupportedType("scope"))
    else None
  }

  /** A string, bigint, number or Uint8Array. */
  predicate IsMessageLike(v: JsValue) {
    v.Str? || v.BigInt? || v.Number? || v.Bytes?
  }

  /** The checks pass exactly when message and scope both have an accepted type,
      and an undefined argument is reported as such before any type error. */
  lemma CheckArgumentsAccepts(message: JsValue, scope: JsValue)
    ensures CheckArguments(message, scope) == None <==> IsMessageLike(message) && IsMessageLike(scope)
    ensures message.Undefined? ==> CheckArguments(message, scope) == Some(NotDefined("message"))
    ensures !message.Undefined? && scope.Undefined? ==> CheckArguments(message, scope) == Some(NotDefined("scope"))
  {
    forall v: JsValue | IsMessageLike(v) ensures HasOneOfTypes(v, MessageTypes) {
      if v.Str? { assert IsType(v, MessageTypes[0]); }
      else if v.BigInt? { assert IsType(v, MessageTypes[1]); }
      else if v.Number? { assert IsType(v, MessageTypes[2]); }
      else { assert IsType(v, MessageTypes[3]); }
    }
  }

  /** The effective tree depth: an explicit depth must lie in the bounds; with
      none, the sibling count, or DEFAULT_TREE_DEPTH when there are no siblings.
      The inferred depth is not range-checked. */
  function ResolveDepth(merkleTreeDepth: Option<int>, siblingCount: nat, bounds: Bounds): (r: Result<int, Failure>)
    ensures r.Err? <==> merkleTreeDepth.Some? && !(bounds.minDepth <= merkleTreeDepth.value <= bounds.maxDepth)
    ensures r.Err? ==> r.error == DepthOutOfRange(bounds.minDepth, bounds.maxDepth)
    ensures r.Ok? && merkleTreeDepth.Some? ==> r.value == merkleTreeDepth.value
    ensures r.Ok? && merkleTreeDepth.None? ==> r.value == (if siblingCount != 0 then siblingCount else DefaultTreeDepth)
  {
    match merkleTreeDepth
    case Some(d) =>
      if d < bounds.minDepth || d > bounds.maxDepth then Err(DepthOutOfRange(bounds.minDepth, bounds.maxDepth))
      else Ok(d)
    case None =>
      Ok(if siblingCount != 0 then siblingCount else DefaultTreeDepth)
  }

  /** What lines 45-86 leave behind: message and scope as bigints, and the depth. */
  datatype Prepared = Prepared(message: int, scope: int, depth: int)

  function Prepare(message: JsValue, scope: JsValue, merkleTreeDepth: Option<int>, siblingCount: nat,
                   bounds: Bounds, helpers: Helpers): Result<Prepared, Failure>
  {
    match CheckArguments(message, scope)
    case Some(e) => Err(e)
    case None =>
      var msg :- Lift(helpers.toBigInt(message));
      var sc :- Lift(helpers.toBigInt(scope));
      var depth :- ResolveDepth(merkleTreeDepth, siblingCount, bounds);
      Ok(Prepared(msg, sc, depth))
  }

  /** Preparation succeeds exactly when the checks pass, both values convert and
      the depth resolves; it then holds those results. */
  lemma PrepareResult(message: JsValue, scope: JsValue, merkleTreeDepth: Option<int>, siblingCount: nat,
                      bounds: Bounds, helpers: Helpers)
    ensures var pr := Prepare(message, scope, merkleTreeDepth, siblingCount, bounds, helpers);
      pr.Ok? <==>
        && CheckArguments(message, scope) == None
        && helpers.toBigInt(message).Ok? && helpers.toBigInt(scope).Ok?
        && ResolveDepth(merkleTreeDepth, siblingCount, bounds).Ok?
    ensures var pr := Prepare(message, scope, merkleTreeDepth, siblingCount, bounds, helpers);
      pr.Ok? ==>
        && helpers.toBigInt(message) == Ok(pr.value.message)
        && helpers.toBigInt(scope) == Ok(pr.value.scope)
        && ResolveDepth(merkleTreeDepth, siblingCount, bounds) == Ok(pr.value.depth)
  {
  }

  // ---------------------------------------------------------------------------
  // Lines 98-109: index bits and sibling padding

  /** How often `for (let i = 0; i < depth; i += 1)` runs. */
  function LoopCount(depth: int): nat {
    if depth > 0 then depth else 0
  }

  /** The `merkleProofIndices` list after `count` iterations: `(index >> i) & 1`. */
  function IndexBits(index: nat, count: nat): seq<int> {
    seq(count, i => BitAndOne(SignedShiftRight(index, i)))
  }

  /** Below 32 levels, entry i of the index list is bit i of the leaf index. */
  lemma IndexBitsAreBinaryDigits(index: nat, count: nat)
    requires count <= 32
    ensures |IndexBits(index, count)| == count
    ensures forall i :: 0 <= i < count ==>
      IndexBits(index, count)[i] == (index / Pow(2, i)) % 2 && 0 <= IndexBits(index, count)[i] <= 1
  {
    forall i | 0 <= i < count
      ensures IndexBits(index, count)[i] == (index / Pow(2, i)) % 2
    {
      ShiftAndMaskIsBit(index, i);
    }
  }

  /** The caller's sibling array after `count` iterations of line 106-107: every
      position below `count` is defined, missing ones set to 0. */
  function PadSiblings(siblings: seq<int>, count: nat): (padded: seq<int>)
    ensures |padded| == if count > |siblings| then count else |siblings|
    ensures padded[..|siblings|] == siblings
    ensures forall i :: |siblings| <= i < |padded| ==> padded[i] == 0
  {
    if count <= |siblings| then siblings else siblings + Fill(count - |siblings|, 0)
  }

  /** One more iteration pads at most one more position. */
  lemma PadSiblingsStep(siblings: seq<int>, i: nat)
    ensures var before := PadSiblings(siblings, i);
      PadSiblings(siblings, i + 1) == if i >= |before| then before + [0] else before
  {
  }

  // ---------------------------------------------------------------------------
  // Lines 117-128: the circuit inputs

  /** `toHex(parseInt(bits.reverse().join(""), 2), 64)`; an empty list parses
      to NaN and a list of more than 1023 significant bits to Infinity, both of
      which `BigInt` refuses. */
  function PackIndexes(bits: seq<int>): Result<string, Failure> {
    match ParseInt(Join(Reverse(bits)), 2)
    case None => Err(NotAnInteger)
    case Some(v) =>
      // A value too large for a Number becomes Infinity, which `BigInt` refuses as well.
      if v >= NumberOverflow then Err(NotAnInteger) else Ok(ToHex(v, IndexesPadding))
  }

  /** `siblings.map(s => s.toString()).concat(Array(32 - siblings.length).fill("0"))`:
      `Array` throws on a negative length. */
  function PathStorage(siblings: seq<int>): Result<seq<string>, Failure> {
    if |siblings| > DefaultTreeDepth then Err(InvalidArrayLength)
    else Ok(seq(|siblings|, i requires 0 <= i < |siblings| => DecimalString(siblings[i]))
            + Fill(DefaultTreeDepth - |siblings|, "0"))
  }

  /** The `inputs` object, built from the index bits and the padded siblings. */
  function BuildInputs(bits: seq<int>, padded: seq<int>, siblingCount: nat,
                       message: int, scope: int, secret: int, hash: int -> nat): Result<CircuitInputs, Failure>
  {
    var indexes :- PackIndexes(bits);
    var storage :- PathStorage(padded);
    Ok(CircuitInputs(indexes, hash(message), Paths(siblingCount, storage), hash(scope), DecimalString(secret)))
  }

  /** The bit list, most significant first and joined, reads back in base 2 as
      the leaf index modulo 2^count. */
  lemma {:induction false} BitStringValue(index: nat, count: nat)
    requires count <= 32
    ensures |Join(Reverse(IndexBits(index, count)))| == count
    ensures AllDigits(Join(Reverse(IndexBits(index, count))), 2)
    ensures DigitsValue(Join(Reverse(IndexBits(index, count))), 2) == index % Pow(2, count)
  {
    if count > 0 {
      var prev := IndexBits(index, count - 1);
      var b := BitAndOne(SignedShiftRight(index, count - 1));
      assert IndexBits(index, count) == prev + [b];
      BitStringValue(index, count - 1);
      var rest := Join(Reverse(prev));
      JoinBitInFront(prev, b);
      assert Join(Reverse(IndexBits(index, count))) == [DigitChar(b)] + rest;
      DigitsValuePrepend(DigitChar(b), rest, 2);
      ShiftAndMaskIsBit(index, count - 1);
      ModDoubling(index, Pow(2, count - 1));
    }
  }

  /** Appending a bit to the list puts its digit in front of the reversed, joined string. */
  lemma JoinBitInFront(bits: seq<int>, b: int)
    requires b == 0 || b == 1
    ensures Join(Reverse(bits + [b])) == [DigitChar(b)] + Join(Reverse(bits))
  {
    var r := Reverse(bits + [b]);
    assert r == [b] + Reverse(bits);
    assert r[1..] == Reverse(bits);
    assert DecimalString(b) == [DigitChar(b)];
  }

  /** x mod 2p is x mod p plus bit log2(p) of x, weighted. */
  lemma ModDoubling(x: nat, p: nat)
    requires p > 0
    ensures x % (2 * p) == ((x / p) % 2) * p + x % p
  {
    var q, r := x / p, x % p;
    DivUnique(x, p, q, r);
    var h, b := q / 2, q % 2;
    assert x == h * (2 * p) + (b * p + r);
    DivUnique(x, 2 * p, h, b * p + r);
  }

  /** The packed `indexes` input is the leaf index modulo 2^depth in 64-digit hex,
      for depths 1 to 32; with no bits at all, packing throws. */
  lemma PackedIndexesValue(index: nat, count: nat)
    requires count <= 32
    ensures count == 0 ==> PackIndexes(IndexBits(index, count)) == Err(NotAnInteger)
    ensures count >= 1 ==> PackIndexes(IndexBits(index, count)) == Ok(ToHex(index % Pow(2, count), IndexesPadding))
  {
    var s := Join(Reverse(IndexBits(index, count)));
    BitStringValue(index, count);
    if count >= 1 {
      ParseIntAllDigits(s, 2);
      PowMono(2, count, 32);
      Pow2Is32Bits();
    } else {
      assert s == [];
    }
  }

  /** The path storage exists exactly when there are at most 32 siblings; it
      then has 32 decimal entries that read back as the siblings followed by 0s. */
  lemma PathStorageLayout(siblings: seq<int>)
    ensures PathStorage(siblings).Ok? <==> |siblings| <= DefaultTreeDepth
    ensures PathStorage(siblings).Ok? ==>
      var storage := PathStorage(siblings).value;
      && |storage| == DefaultTreeDepth
      && forall i :: 0 <= i < DefaultTreeDepth ==>
           StringToBigInt(storage[i]) == Some(if i < |siblings| then siblings[i] else 0)
  {
    if |siblings| <= DefaultTreeDepth {
      var storage := PathStorage(siblings).value;
      forall i | 0 <= i < DefaultTreeDepth
        ensures StringToBigInt(storage[i]) == Some(if i < |siblings| then siblings[i] else 0)
      {
        if i < |siblings| {
          DecimalStringRoundTrip(siblings[i]);
        } else {
          assert storage[i] == "0";
          assert StringToBigInt("0") == Some(DigitsValue("0", 10));
        }
      }
    }
  }

  /** The marshalled inputs: present exactly when 1 <= depth <= 32 and there are
      at most 32 siblings; `indexes` is the leaf index mod 2^depth in 64-digit
      hex, `paths.len` the sibling count before padding, `paths.storage` the
      padded siblings in 32 decimal slots, message and scope their hashes and
      `secret` the secret scalar in decimal. */
  lemma BuildInputsLayout(index: nat, siblings: seq<int>, depth: int,
                          message: int, scope: int, secret: int, hash: int -> nat)
    ensures var padded := PadSiblings(siblings, LoopCount(depth));
      var r := BuildInputs(IndexBits(index, LoopCount(depth)), padded, |siblings|, message, scope, secret, hash);
      && (r.Ok? <==> 1 <= depth <= DefaultTreeDepth && |siblings| <= DefaultTreeDepth)
      && (r.Ok? ==>
           && r.value.indexes == ToHex(index % Pow(2, depth), IndexesPadding)
           && r.value.paths.len == |siblings|
           && |r.value.paths.storage| == DefaultTreeDepth
           && (forall i :: 0 <= i < DefaultTreeDepth ==>
                StringToBigInt(r.value.paths.storage[i]) == Some(if i < |padded| then padded[i] else 0))
           && r.value.message == hash(message)
           && r.value.scope == hash(scope)
           && StringToBigInt(r.value.secret) == Some(secret))
  {
    var padded := PadSiblings(siblings, LoopCount(depth));
    var count := LoopCount(depth);
    PathStorageLayout(padded);
    DecimalStringRoundTrip(secret);
    if count == 0 {
      PackedIndexesValue(index, 0);
    } else if count <= 32 {
      PackedIndexesValue(index, count);
    }
  }

  // ---------------------------------------------------------------------------
  // The whole adapter

  /** Lines 111-143, once the loop has run: the inputs, the external witness
      generation and proving, and the proof record, whose nullifier is the
      fourth public input. */
  function Finish(identity: Identity, root: int, bits: seq<int>, padded: seq<int>, siblingCount: nat,
                  p: Prepared, helpers: Helpers, backend: Backend): Result<SemaphoreProof, Failure>
  {
    var inputs :- BuildInputs(bits, padded, siblingCount, p.message, p.scope, identity.secretScalar, helpers.hash);
    var solved :- Lift(backend.execute(inputs));
    var output :- Lift(backend.prove(solved));
    Ok(SemaphoreProof(
      p.depth,
      DecimalString(root),
      if |output.publicInputs| > 3 then Some(output.publicInputs[3]) else None,
      DecimalString(p.message),
      DecimalString(p.scope),
      output.proof,
      output.publicInputs))
  }

  /** `generateProof` on a Merkle proof, as a function of the values it starts from. */
  function Generate(identity: Identity, proof: MerkleProofData, message: JsValue, scope: JsValue,
                    merkleTreeDepth: Option<int>, bounds: Bounds, helpers: Helpers, backend: Backend)
    : Result<SemaphoreProof, Failure>
  {
    var p :- Prepare(message, scope, merkleTreeDepth, |proof.siblings|, bounds, helpers);
    var count := LoopCount(p.depth);
    Finish(identity, proof.root, IndexBits(proof.index, count), PadSiblings(proof.siblings, count),
           |proof.siblings|, p, helpers, backend)
  }

  /** The caller's sibling array after `generateProof`: padded once the depth is
      resolved (even when a later step throws), untouched otherwise. */
  function SiblingsAfter(proof: MerkleProofData, message: JsValue, scope: JsValue,
                         merkleTreeDepth: Option<int>, bounds: Bounds, helpers: Helpers): seq<int>
  {
    match Prepare(message, scope, merkleTreeDepth, |proof.siblings|, bounds, helpers)
    case Ok(p) => PadSiblings(proof.siblings, LoopCount(p.depth))
    case Err(_) => proof.siblings
  }

  /** The witness inputs `Generate` builds once the depth is known. */
  function InputsFor(identity: Identity, proof: MerkleProofData, p: Prepared, helpers: Helpers)
    : Result<CircuitInputs, Failure>
  {
    var count := LoopCount(p.depth);
    BuildInputs(IndexBits(proof.index, count), PadSiblings(proof.siblings, count), |proof.siblings|,
                p.message, p.scope, identity.secretScalar, helpers.hash)
  }

  /** An explicit depth outside [MIN_DEPTH, MAX_DEPTH] throws the range TypeError
      whatever the backend does, and the caller's siblings stay as they were. */
  lemma OutOfRangeDepthRejected(identity: Identity, proof: MerkleProofData, message: JsValue, scope: JsValue,
                                depth: int, bounds: Bounds, helpers: Helpers, backend: Backend)
    requires CheckArguments(message, scope) == None
    requires helpers.toBigInt(message).Ok? && helpers.toBigInt(scope).Ok?
    requires depth < bounds.minDepth || depth > bounds.maxDepth
    ensures Generate(identity, proof, message, scope, Some(depth), bounds, helpers, backend)
      == Err(DepthOutOfRange(bounds.minDepth, bounds.maxDepth))
    ensures SiblingsAfter(proof, message, scope, Some(depth), bounds, helpers) == proof.siblings
  {
  }

  /** Existing siblings are never changed; positions added are 0, and once the
      depth is resolved the array covers every level. */
  lemma SiblingsAfterPadding(proof: MerkleProofData, message: JsValue, scope: JsValue,
                             merkleTreeDepth: Option<int>, bounds: Bounds, helpers: Helpers)
    ensures var after := SiblingsAfter(proof, message, scope, merkleTreeDepth, bounds, helpers);
      && |after| >= |proof.siblings|
      && after[..|proof.siblings|] == proof.siblings
      && (forall i :: |proof.siblings| <= i < |after| ==> after[i] == 0)
      && (Prepare(message, scope, merkleTreeDepth, |proof.siblings|, bounds, helpers).Ok? ==>
            |after| >= Prepare(message, scope, merkleTreeDepth, |proof.siblings|, bounds, helpers).value.depth)
  {
  }

  /** `generateProof` succeeds exactly when the checks pass, the inputs can be
      built and both external calls return. */
  lemma GenerateSucceeds(identity: Identity, proof: MerkleProofData, message: JsValue, scope: JsValue,
                         merkleTreeDepth: Option<int>, bounds: Bounds, helpers: Helpers, backend: Backend)
    ensures Generate(identity, proof, message, scope, merkleTreeDepth, bounds, helpers, backend).Ok? <==>
      var pr := Prepare(message, scope, merkleTreeDepth, |proof.siblings|, bounds, helpers);
      && pr.Ok?
      && 1 <= pr.value.depth <= DefaultTreeDepth && |proof.siblings| <= DefaultTreeDepth
      && var inputs := InputsFor(identity, proof, pr.value, helpers);
         && inputs.Ok?
         && backend.execute(inputs.value).Ok?
         && backend.prove(backend.execute(inputs.value).value).Ok?
  {
    var pr := Prepare(message, scope, merkleTreeDepth, |proof.siblings|, bounds, helpers);
    if pr.Ok? {
      var p := pr.value;
      BuildInputsLayout(proof.index, proof.siblings, p.depth, p.message, p.scope, identity.secretScalar, helpers.hash);
    }
  }

  /** Once the depth is resolved, what remains is `Finish` on the loop's results. */
  lemma GenerateAfterPrepare(identity: Identity, proof: MerkleProofData, message: JsValue, scope: JsValue,
                             merkleTreeDepth: Option<int>, bounds: Bounds, helpers: Helpers, backend: Backend)
    requires Prepare(message, scope, merkleTreeDepth, |proof.siblings|, bounds, helpers).Ok?
    ensures var p := Prepare(message, scope, merkleTreeDepth, |proof.siblings|, bounds, helpers).value;
      var count := LoopCount(p.depth);
      Generate(identity, proof, message, scope, merkleTreeDepth, bounds, helpers, backend)
        == Finish(identity, proof.root, IndexBits(proof.index, count), PadSiblings(proof.siblings, count),
                  |proof.siblings|, p, helpers, backend)
  {
  }

  /** The record `Finish` returns when the external calls succeed. */
  lemma FinishResult(identity: Identity, root: int, bits: seq<int>, padded: seq<int>, siblingCount: nat,
                     p: Prepared, helpers: Helpers, backend: Backend)
    requires Finish(identity, root, bits, padded, siblingCount, p, helpers, backend).Ok?
    ensures var rec := Finish(identity, root, bits, padded, siblingCount, p, helpers, backend).value;
      var inputs := BuildInputs(bits, padded, siblingCount, p.message, p.scope, identity.secretScalar, helpers.hash);
      && inputs.Ok?
      && backend.execute(inputs.value).Ok?
      && var output := backend.prove(backend.execute(inputs.value).value);
         && output.Ok?
         && rec == SemaphoreProof(p.depth, DecimalString(root),
                                  if |output.value.publicInputs| > 3 then Some(output.value.publicInputs[3]) else None,
                                  DecimalString(p.message), DecimalString(p.scope),
                                  output.value.proof, output.value.publicInputs)
  {
  }

  /** The record `generateProof` returns: the resolved depth, the root, message
      and scope as decimal strings of their bigint values, the backend's proof
      bytes and public inputs unchanged, and the fourth public input as nullifier. */
  lemma GenerateResult(identity: Identity, proof: MerkleProofData, message: JsValue, scope: JsValue,
                       merkleTreeDepth: Option<int>, bounds: Bounds, helpers: Helpers, backend: Backend)
    requires Generate(identity, proof, message, scope, merkleTreeDepth, bounds, helpers, backend).Ok?
    ensures var rec := Generate(identity, proof, message, scope, merkleTreeDepth, bounds, helpers, backend).value;
      var pr := Prepare(message, scope, merkleTreeDepth, |proof.siblings|, bounds, helpers);
      && pr.Ok?
      && rec.merkleTreeDepth == pr.value.depth
      && 1 <= rec.merkleTreeDepth <= DefaultTreeDepth
      && helpers.toBigInt(message) == Ok(pr.value.message)
      && helpers.toBigInt(scope) == Ok(pr.value.scope)
      && StringToBigInt(rec.merkleTreeRoot) == Some(proof.root)
      && StringToBigInt(rec.message) == Some(pr.value.message)
      && StringToBigInt(rec.scope) == Some(pr.value.scope)
      && var inputs := InputsFor(identity, proof, pr.value, helpers);
         && inputs.Ok?
         && backend.execute(inputs.value).Ok?
         && var output := backend.prove(backend.execute(inputs.value).value);
            && output.Ok?
            && rec.proof == output.value.proof
            && rec.publicInputs == output.value.publicInputs
            && rec.nullifier == (if |rec.publicInputs| > 3 then Some(rec.publicInputs[3]) else None)
  {
    var pr := Prepare(message, scope, merkleTreeDepth, |proof.siblings|, bounds, helpers);
    assert pr.Ok?;
    PrepareResult(message, scope, merkleTreeDepth, |proof.siblings|, bounds, helpers);
    var p := pr.value;
    var count := LoopCount(p.depth);
    GenerateAfterPrepare(identity, proof, message, scope, merkleTreeDepth, bounds, helpers, backend);
    FinishResult(identity, proof.root, IndexBits(proof.index, count), PadSiblings(proof.siblings, count),
                 |proof.siblings|, p, helpers, backend);
    BuildInputsLayout(proof.index, proof.siblings, p.depth, p.message, p.scope, identity.secretScalar, helpers.hash);
    DecimalStringRoundTrip(proof.root);
    DecimalStringRoundTrip(p.message);
    DecimalStringRoundTrip(p.scope);
  }

  /** Leaf 1 of a depth-3 tree: the index list is [1, 0, 0], which packs, most
      significant bit first, to 0b001. */
  lemma LeafOneAtDepthThree()
    ensures IndexBits(1, 3) == [1, 0, 0]
  {
    var bits := IndexBits(1, 3);
    IndexBitsAreBinaryDigits(1, 3);
    assert Pow(2, 0) == 1 && Pow(2, 1) == 2 && Pow(2, 2) == 4;
    assert bits[0] == 1 && bits[1] == 0 && bits[2] == 0;
  }

  /** `generateProof(identity, merkleProof, message, scope, merkleTreeDepth)`. */
  method GenerateProof(identity: Identity, merkleProof: MerkleProof, message: JsValue, scope: JsValue,
                       merkleTreeDepth: Option<int>, bounds: Bounds, helpers: Helpers, backend: Backend)
    returns (result: Result<SemaphoreProof, Failure>)
    modifies merkleProof
    ensures merkleProof.root == old(merkleProof.root) && merkleProof.index == old(merkleProof.index)
    ensures merkleProof.siblings
      == SiblingsAfter(old(merkleProof.Data()), message, scope, merkleTreeDepth, bounds, helpers)
    ensures result
      == Generate(identity, old(merkleProof.Data()), message, scope, merkleTreeDepth, bounds, helpers, backend)
  {
    // Lines 45-86: checks, bigint normalisation and the depth; nothing is mutated before the loop.
    var merkleProofLength := |merkleProof.siblings|;
    var prepared := Prepare(message, scope, merkleTreeDepth, merkleProofLength, bounds, helpers);
    if prepared.Err? {
      return Err(prepared.error);
    }
    var depth := prepared.value.depth;

    ghost var original := merkleProof.siblings;
    var indices: seq<int> := [];
    var i := 0;
    while i < depth
      invariant 0 <= i <= LoopCount(depth)
      invariant indices == IndexBits(merkleProof.index, i)
      invariant merkleProof.siblings == PadSiblings(original, i)
      invariant merkleProof.root == old(merkleProof.root) && merkleProof.index == old(merkleProof.index)
    {
      indices := indices + [BitAndOne(SignedShiftRight(merkleProof.index, i))];
      PadSiblingsStep(original, i);
      if i >= |merkleProof.siblings| {
        // `merkleProofSiblings[i] = 0n` one past the end grows the array by one.
        merkleProof.siblings := merkleProof.siblings + [0];
      }
      i := i + 1;
    }
    ghost var start := old(merkleProof.Data());
    assert start.siblings == original && start.index == merkleProof.index && start.root == merkleProof.root;
    assert i == LoopCount(depth);

    result := Finish(identity, merkleProof.root, indices, merkleProof.siblings, merkleProofLength,
                     prepared.value, helpers, backend);
    assert result == Generate(identity, start, message, scope, merkleTreeDepth, bounds, helpers, backend);
  }
}
