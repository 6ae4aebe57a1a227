/** The advisory sealer (internal/advisory/sealer.go). Go strings are byte strings
    here; the hash, Unicode normalisation and trimming are arbitrary functions. */
module Sealer {
  import opened Wrappers
  import opened Bytes

  const NANOS_ZERO: int := -62_135_596_800_000_000_000

  /** A time is its distance from 1970 in nanoseconds; the zero time.Time is the
      start of year 1. */
  datatype SealRecord = SealRecord(
    modelID: Bytes,
    weightsHash: Bytes,
    promptHash: Bytes,
    tensorHash: Bytes,
    evalTime: int,
    prevSeal: Bytes,
    sealHash: Bytes)

  datatype Library = Library(sha: Hash, nfc: Bytes -> Bytes, trim: Bytes -> Bytes)

  /** An io.Reader: absent, failing, or holding some bytes. */
  datatype Reader = NoReader | Failing | Holding(content: Bytes)

  datatype SealError =
    | EmptyModelID | EmptyWeightsHash | EmptyPromptHash | EmptyTensorHash | ZeroTime | EmptyPrevSeal | EmptySealHash
    | SealMismatch | NilWeights | EmptyPrompt | ReadError | EmptyWeights | EmptyInput
    | WeightsMismatch | PromptMismatch | TensorMismatch

  datatype ChainError = EmptyChain | BadRecord(index: nat, error: SealError) | NotGenesis | BrokenLink(index: nat)

  function SealGenesisHash(): (g: Bytes)
    ensures |g| == 64
  {
    seq(64, _ => 48)
  }

  function SealHash(sha: Hash, b: Bytes): (h: Bytes)
    ensures |h| == 64
  {
    HexEncode(sha(b))
  }

  // ----- the canonical payload -----

  /** The length as a uint32, then the bytes. */
  function Prefixed(s: Bytes): Bytes {
    LittleEndian(|s|, 4) + s
  }

  /** uint64(t.UnixNano()) */
  function TimeBytes(t: int): (b: Bytes)
    ensures |b| == 8
  {
    LittleEndian(t % TWO_64, 8)
  }

  function Payload(r: SealRecord): Bytes {
    Prefixed(r.modelID) + (Prefixed(r.weightsHash) + (Prefixed(r.promptHash) + (Prefixed(r.tensorHash)
      + (TimeBytes(r.evalTime) + Prefixed(r.prevSeal)))))
  }

  method CanonicalAppendLen(buf: Bytes, s: Bytes) returns (out: Bytes)
    ensures out == buf + Prefixed(s)
  {
    var b := LittleEndian(|s|, 4);
    out := buf + b;
    out := out + s;
  }

  method CanonicalSealPayload(r: SealRecord) returns (buf: Bytes)
    ensures buf == Payload(r)
  {
    hide Prefixed, TimeBytes;
    buf := [];
    buf := CanonicalAppendLen(buf, r.modelID);
    buf := CanonicalAppendLen(buf, r.weightsHash);
    buf := CanonicalAppendLen(buf, r.promptHash);
    buf := CanonicalAppendLen(buf, r.tensorHash);
    var tbuf := TimeBytes(r.evalTime);
    buf := buf + tbuf;
    buf := CanonicalAppendLen(buf, r.prevSeal);
  }

  // ----- reading a payload back -----

  /** The fields the payload commits to: all but the seal itself. */
  datatype Sealed = Sealed(
    modelID: Bytes,
    weightsHash: Bytes,
    promptHash: Bytes,
    tensorHash: Bytes,
    nanos: nat,
    prevSeal: Bytes)

  function Facts(r: SealRecord): Sealed {
    Sealed(r.modelID, r.weightsHash, r.promptHash, r.tensorHash, r.evalTime % TWO_64, r.prevSeal)
  }

  /** A length-prefixed string and what follows it. */
  function ReadPrefixed(b: Bytes): Option<(Bytes, Bytes)> {
    if |b| < 4 then None
    else
      var n := FromLittleEndian(b[..4]);
      if |b| < 4 + n then None else Some((b[4..4 + n], b[4 + n..]))
  }

  function ReadPayload(b: Bytes): Option<Sealed> {
    var m := ReadPrefixed(b);
    if m.None? then None else
    var w := ReadPrefixed(m.value.1);
    if w.None? then None else
    var p := ReadPrefixed(w.value.1);
    if p.None? then None else
    var t := ReadPrefixed(p.value.1);
    if t.None? || |t.value.1| < 8 then None else
    var nanos := FromLittleEndian(t.value.1[..8]);
    var s := ReadPrefixed(t.value.1[8..]);
    if s.None? || s.value.1 != [] then None
    else Some(Sealed(m.value.0, w.value.0, p.value.0, t.value.0, nanos, s.value.0))
  }

  /** A string whose length fits its prefix; a longer one would lose its length. */
  predicate ShortString(s: Bytes) {
    |s| < 0x1_0000_0000
  }

  predicate ShortStrings(r: SealRecord) {
    ShortString(r.modelID) && ShortString(r.weightsHash) && ShortString(r.promptHash)
    && ShortString(r.tensorHash) && ShortString(r.prevSeal)
  }

  predicate InNanos(t: int) {
    -0x8000_0000_0000_0000 <= t <= 0x7FFF_FFFF_FFFF_FFFF
  }

  lemma ReadPrefixedBack(s: Bytes, rest: Bytes)
    requires ShortString(s)
    ensures ReadPrefixed(Prefixed(s) + rest) == Some((s, rest))
  {
    hide Power256, LittleEndian;
    var b, len := Prefixed(s) + rest, LittleEndian(|s|, 4);
    EightBytes();
    FromLittleEndianOf(|s|, 4);
    assert b[..4] == len;
    assert b[4..4 + |s|] == s && b[4 + |s|..] == rest;
  }

  /** A reader of the prefixes recovers every field. */
  lemma PayloadIsReadBack(r: SealRecord)
    requires ShortStrings(r)
    ensures ReadPayload(Payload(r)) == Some(Facts(r))
  {
    var tail := Prefixed(r.prevSeal);
    var time := TimeBytes(r.evalTime) + tail;
    hide ReadPrefixed, Prefixed, FromLittleEndian;
    ReadPrefixedBack(r.modelID, Prefixed(r.weightsHash) + (Prefixed(r.promptHash) + (Prefixed(r.tensorHash) + time)));
    ReadPrefixedBack(r.weightsHash, Prefixed(r.promptHash) + (Prefixed(r.tensorHash) + time));
    ReadPrefixedBack(r.promptHash, Prefixed(r.tensorHash) + time);
    ReadPrefixedBack(r.tensorHash, time);
    ReadPrefixedBack(r.prevSeal, []);
    assert tail + [] == tail && time[8..] == tail && time[..8] == TimeBytes(r.evalTime);
    TimeIsReadBack(r.evalTime);
  }

  lemma TimeIsReadBack(t: int)
    ensures FromLittleEndian(TimeBytes(t)) == t % TWO_64
  {
    EightBytes();
    hide Power256, LittleEndian;
    FromLittleEndianOf(t % TWO_64, 8);
  }

  /** Equal payloads mean equal records, up to the seal; for times outside signed
      64-bit nanoseconds, up to a multiple of 2^64 as well. */
  lemma PayloadDetermines(r: SealRecord, r': SealRecord)
    requires ShortStrings(r) && ShortStrings(r')
    ensures Payload(r) == Payload(r') <==> Facts(r) == Facts(r')
    ensures InNanos(r.evalTime) && InNanos(r'.evalTime) ==>
      (Facts(r) == Facts(r') <==> r.(sealHash := []) == r'.(sealHash := []))
  {
    PayloadIsReadBack(r);
    PayloadIsReadBack(r');
    hide ReadPayload, Prefixed;
    if InNanos(r.evalTime) && InNanos(r'.evalTime) && r.evalTime % TWO_64 == r'.evalTime % TWO_64 {
      SameNanos(r.evalTime, r'.evalTime);
    }
  }

  lemma SameNanos(t: int, t': int)
    requires InNanos(t) && InNanos(t') && t % TWO_64 == t' % TWO_64
    ensures t == t'
  {
    assert t % TWO_64 == if t < 0 then t + TWO_64 else t;
    assert t' % TWO_64 == if t' < 0 then t' + TWO_64 else t';
  }

  /** Every byte string the reader accepts is the payload of what it read. */
  lemma ReadPrefixedExactly(b: Bytes)
    ensures ReadPrefixed(b).Some? ==>
      ShortString(ReadPrefixed(b).value.0) && b == Prefixed(ReadPrefixed(b).value.0) + ReadPrefixed(b).value.1
  {
    if ReadPrefixed(b).Some? {
      EightBytes();
      LittleEndianOfFrom(b[..4]);
      hide Power256, LittleEndian, FromLittleEndian;
      var n := FromLittleEndian(b[..4]);
      assert b == b[..4] + b[4..4 + n] + b[4 + n..];
    }
  }

  /** The reader accepts exactly the payloads. */
  lemma ReadPayloadExactly(b: Bytes, r: SealRecord)
    requires ReadPayload(b) == Some(Facts(r))
    ensures b == Payload(r)
  {
    var m := ReadPrefixed(b).value;
    var w := ReadPrefixed(m.1).value;
    var p := ReadPrefixed(w.1).value;
    var t := ReadPrefixed(p.1).value;
    var s := ReadPrefixed(t.1[8..]).value;
    hide ReadPrefixed, Prefixed;
    ReadPrefixedExactly(b);
    ReadPrefixedExactly(m.1);
    ReadPrefixedExactly(w.1);
    ReadPrefixedExactly(p.1);
    ReadPrefixedExactly(t.1[8..]);
    LittleEndianOfFrom(t.1[..8]);
    hide LittleEndian, FromLittleEndian;
    assert t.1 == t.1[..8] + t.1[8..] && Prefixed(r.prevSeal) + [] == Prefixed(r.prevSeal);
  }

  // ----- sealing and verifying -----

  function HashWeights(lib: Library, weights: Reader): Result<Bytes, SealError> {
    match weights
    case NoReader => Failure(NilWeights)
    case Failing => Failure(ReadError)
    case Holding(content) => if content == [] then Failure(EmptyWeights) else Success(HexEncode(lib.sha(content)))
  }

  function HashBytes(lib: Library, data: Bytes): Result<Bytes, SealError> {
    if data == [] then Failure(EmptyInput) else Success(HexEncode(lib.sha(data)))
  }

  function NormalizePrompt(lib: Library, prompt: Bytes): Bytes {
    lib.trim(lib.nfc(prompt))
  }

  function Seal(
      lib: Library, weights: Reader, prompt: Bytes, tensors: Bytes, modelID: Bytes, evalTime: int,
      prevSeal: Bytes): Result<SealRecord, SealError>
  {
    if weights.NoReader? then Failure(NilWeights)
    else if lib.trim(prompt) == [] then Failure(EmptyPrompt)
    else if modelID == [] then Failure(EmptyModelID)
    else if evalTime == NANOS_ZERO then Failure(ZeroTime)
    else
      var weightsHash :- HashWeights(lib, weights);
      var promptHash :- HashBytes(lib, NormalizePrompt(lib, prompt));
      var tensorHash :- HashBytes(lib, tensors);
      var prev := if prevSeal == [] then SealGenesisHash() else prevSeal;
      var rec := SealRecord(modelID, weightsHash, promptHash, tensorHash, evalTime, prev, []);
      Success(rec.(sealHash := SealHash(lib.sha, Payload(rec))))
  }

  /** None is acceptance. */
  function VerifySeal(lib: Library, rec: SealRecord): Option<SealError> {
    if rec.modelID == [] then Some(EmptyModelID)
    else if rec.weightsHash == [] then Some(EmptyWeightsHash)
    else if rec.promptHash == [] then Some(EmptyPromptHash)
    else if rec.tensorHash == [] then Some(EmptyTensorHash)
    else if rec.evalTime == NANOS_ZERO then Some(ZeroTime)
    else if rec.prevSeal == [] then Some(EmptyPrevSeal)
    else if rec.sealHash == [] then Some(EmptySealHash)
    else if rec.sealHash != SealHash(lib.sha, Payload(rec)) then Some(SealMismatch)
    else None
  }

  function VerifyArtifacts(
      lib: Library, rec: SealRecord, weights: Reader, prompt: Bytes, tensors: Bytes): Option<SealError>
  {
    var w := HashWeights(lib, weights);
    var p := NormalizePrompt(lib, prompt);
    var t := HashBytes(lib, tensors);
    if w.Failure? then Some(w.error)
    else if w.value != rec.weightsHash then Some(WeightsMismatch)
    else if p == [] then Some(EmptyPrompt)
    else if HashBytes(lib, p).value != rec.promptHash then Some(PromptMismatch)
    else if t.Failure? then Some(t.error)
    else if t.value != rec.tensorHash then Some(TensorMismatch)
    else VerifySeal(lib, rec)
  }

  /** What was sealed verifies against the same artifacts. */
  lemma SealedArtifactsVerify(
      lib: Library, weights: Reader, prompt: Bytes, tensors: Bytes, modelID: Bytes, evalTime: int, prevSeal: Bytes)
    requires Seal(lib, weights, prompt, tensors, modelID, evalTime, prevSeal).Success?
    ensures
      var rec := Seal(lib, weights, prompt, tensors, modelID, evalTime, prevSeal).value;
      VerifyArtifacts(lib, rec, weights, prompt, tensors) == None
  {
    SealedVerifies(lib, weights, prompt, tensors, modelID, evalTime, prevSeal);
    hide VerifySeal, SealHash, Payload, HexEncode;
  }

  lemma SealedVerifies(
      lib: Library, weights: Reader, prompt: Bytes, tensors: Bytes, modelID: Bytes, evalTime: int, prevSeal: Bytes)
    requires Seal(lib, weights, prompt, tensors, modelID, evalTime, prevSeal).Success?
    ensures VerifySeal(lib, Seal(lib, weights, prompt, tensors, modelID, evalTime, prevSeal).value) == None
  {
    hide SealHash, Prefixed, TimeBytes;
    var rec := Seal(lib, weights, prompt, tensors, modelID, evalTime, prevSeal).value;
    assert Payload(rec) == Payload(rec.(sealHash := []));
    assert |rec.sealHash| == 64;
  }

  /** One record cannot vouch for two sets of artifacts: they are the same up to
      the normalisation of the prompt, or one of these pairs collides. */
  lemma ArtifactsAreBound(lib: Library, rec: SealRecord, w: Bytes, p: Bytes, t: Bytes, w': Bytes, p': Bytes, t': Bytes)
    requires VerifyArtifacts(lib, rec, Holding(w), p, t) == None
    requires VerifyArtifacts(lib, rec, Holding(w'), p', t') == None
    ensures w == w' || Collide(lib.sha, (w, w'))
    ensures
      var (n, n') := (NormalizePrompt(lib, p), NormalizePrompt(lib, p'));
      n == n' || Collide(lib.sha, (n, n'))
    ensures t == t' || Collide(lib.sha, (t, t'))
  {
    hide VerifySeal;
    SameHex(lib.sha(w), lib.sha(w'));
    SameHex(lib.sha(NormalizePrompt(lib, p)), lib.sha(NormalizePrompt(lib, p')));
    SameHex(lib.sha(t), lib.sha(t'));
  }

  lemma SameHex(d: Digest, d': Digest)
    ensures HexEncode(d) == HexEncode(d') <==> d == d'
  {
    DecodeOfEncode(d);
    DecodeOfEncode(d');
  }

  // ----- chains -----

  /** The checks on record i of a chain. */
  function LinkError(lib: Library, records: seq<SealRecord>, i: nat): Option<ChainError>
    requires i < |records|
  {
    var err := VerifySeal(lib, records[i]);
    if err.Some? then Some(BadRecord(i, err.value))
    else if i == 0 then if records[0].prevSeal != SealGenesisHash() then Some(NotGenesis) else None
    else if records[i].prevSeal != records[i - 1].sealHash then Some(BrokenLink(i))
    else None
  }

  function ChainErrorFrom(lib: Library, records: seq<SealRecord>, i: nat): Option<ChainError>
    requires i <= |records|
    decreases |records| - i
  {
    if i == |records| then None
    else
      var err := LinkError(lib, records, i);
      if err.Some? then err else ChainErrorFrom(lib, records, i + 1)
  }

  method VerifyChain(lib: Library, records: seq<SealRecord>) returns (err: Option<ChainError>)
    ensures err == if records == [] then Some(EmptyChain) else ChainErrorFrom(lib, records, 0)
    ensures err.None? <==> Accepted(lib, records)
  {
    AcceptedExactly(lib, records);
    hide VerifySeal, SealGenesisHash, Accepted;
    if |records| == 0 {
      return Some(EmptyChain);
    }
    for i := 0 to |records|
      invariant ChainErrorFrom(lib, records, i) == ChainErrorFrom(lib, records, 0)
    {
      var bad := VerifySeal(lib, records[i]);
      if bad.Some? {
        return Some(BadRecord(i, bad.value));
      }
      if i == 0 {
        if records[i].prevSeal != SealGenesisHash() {
          return Some(NotGenesis);
        }
        continue;
      }
      if records[i].prevSeal != records[i - 1].sealHash {
        return Some(BrokenLink(i));
      }
    }
    return None;
  }

  /** Every record sealed, the first on the genesis hash and each other one on the
      seal before it. */
  predicate Accepted(lib: Library, records: seq<SealRecord>) {
    && records != []
    && (forall i :: 0 <= i < |records| ==> VerifySeal(lib, records[i]).None?)
    && records[0].prevSeal == SealGenesisHash()
    && forall i :: 0 < i < |records| ==> records[i].prevSeal == records[i - 1].sealHash
  }

  lemma {:induction false} NoErrorFrom(lib: Library, records: seq<SealRecord>, i: nat)
    requires i <= |records|
    ensures ChainErrorFrom(lib, records, i).None?
       <==> forall k :: i <= k < |records| ==> LinkError(lib, records, k).None?
    decreases |records| - i
  {
    hide LinkError;
    if i < |records| { NoErrorFrom(lib, records, i + 1); }
  }

  lemma AcceptedExactly(lib: Library, records: seq<SealRecord>)
    ensures Accepted(lib, records) <==> records != [] && ChainErrorFrom(lib, records, 0).None?
  {
    hide VerifySeal;
    NoErrorFrom(lib, records, 0);
    if Accepted(lib, records) {
      forall k | 0 <= k < |records| ensures LinkError(lib, records, k).None? {
        assert VerifySeal(lib, records[k]).None?;
      }
    } else if records != [] && ChainErrorFrom(lib, records, 0).None? {
      forall k | 0 <= k < |records|
        ensures VerifySeal(lib, records[k]).None?
        ensures records[k].prevSeal == if k == 0 then SealGenesisHash() else records[k - 1].sealHash
      {
        assert LinkError(lib, records, k).None?;
      }
    }
  }

  /** The inputs of one call of Seal, except the seal before. */
  datatype Inputs = Inputs(weights: Reader, prompt: Bytes, tensors: Bytes, modelID: Bytes, evalTime: int)

  /** Sealing one set of inputs after the other, each on the seal before it. */
  function SealAll(lib: Library, inputs: seq<Inputs>): Result<seq<SealRecord>, SealError> {
    if inputs == [] then Success([])
    else
      var before :- SealAll(lib, inputs[..|inputs| - 1]);
      var x := inputs[|inputs| - 1];
      var rec :- Seal(lib, x.weights, x.prompt, x.tensors, x.modelID, x.evalTime,
                      if before == [] then [] else before[|before| - 1].sealHash);
      Success(before + [rec])
  }

  /** A record sealed on the end of a chain makes an accepted chain. */
  lemma ChainGrows(lib: Library, before: seq<SealRecord>, rec: SealRecord)
    requires before != [] ==> Accepted(lib, before)
    requires VerifySeal(lib, rec).None?
    requires rec.prevSeal == if before == [] then SealGenesisHash() else before[|before| - 1].sealHash
    ensures Accepted(lib, before + [rec])
  {
    hide VerifySeal, SealGenesisHash;
  }

  lemma LastSeal(lib: Library, chain: seq<SealRecord>)
    requires chain != [] && Accepted(lib, chain)
    ensures chain[|chain| - 1].sealHash != []
  {
    assert VerifySeal(lib, chain[|chain| - 1]).None?;
  }

  /** A folded chain is always accepted. */
  lemma {:induction false} SealedChainIsAccepted(lib: Library, inputs: seq<Inputs>)
    requires inputs != [] && SealAll(lib, inputs).Success?
    ensures Accepted(lib, SealAll(lib, inputs).value) && |SealAll(lib, inputs).value| == |inputs|
  {
    hide Seal, VerifySeal, SealGenesisHash, Accepted;
    var init, x := inputs[..|inputs| - 1], inputs[|inputs| - 1];
    var before := SealAll(lib, init).value;
    if init != [] {
      SealedChainIsAccepted(lib, init);
      LastSeal(lib, before);
    }
    var prev := if before == [] then [] else before[|before| - 1].sealHash;
    var rec := Seal(lib, x.weights, x.prompt, x.tensors, x.modelID, x.evalTime, prev).value;
    SealedVerifies(lib, x.weights, x.prompt, x.tensors, x.modelID, x.evalTime, prev);
    PrevSealOf(lib, x, prev);
    ChainGrows(lib, before, rec);
  }

  lemma PrevSealOf(lib: Library, x: Inputs, prev: Bytes)
    requires Seal(lib, x.weights, x.prompt, x.tensors, x.modelID, x.evalTime, prev).Success?
    ensures Seal(lib, x.weights, x.prompt, x.tensors, x.modelID, x.evalTime, prev).value.prevSeal
         == if prev == [] then SealGenesisHash() else prev
  {
    hide Payload, SealHash, HexEncode, SealGenesisHash;
  }

  // ----- tamper evidence -----

  /** Why two chains with one last seal differ: a collision of the hash, or a record
      whose seal is the genesis value. */
  datatype Evidence = Collision(pair: (Bytes, Bytes)) | GenesisSeal(rec: SealRecord)

  predicate Convincing(lib: Library, e: Evidence) {
    match e
    case Collision(pair) => Collide(lib.sha, pair)
    case GenesisSeal(rec) => VerifySeal(lib, rec).None? && rec.sealHash == SealGenesisHash()
  }

  /** Records whose payload holds all there is to know of them. */
  predicate InRange(records: seq<SealRecord>) {
    forall i :: 0 <= i < |records| ==> ShortStrings(records[i]) && InNanos(records[i].evalTime)
  }

  /** Two accepted chains with one last seal are identical, whatever their lengths,
      or here is the evidence, found from the last records back. */
  function ChainEvidence(lib: Library, a: seq<SealRecord>, b: seq<SealRecord>): (e: Evidence)
    requires Accepted(lib, a) && Accepted(lib, b) && InRange(a) && InRange(b) && a != b
    requires a[|a| - 1].sealHash == b[|b| - 1].sealHash
    ensures Convincing(lib, e)
    decreases |a|
  {
    var x, y := a[|a| - 1], b[|b| - 1];
    SealsAgree(lib, x, y);
    if Payload(x) != Payload(y) then Collision((Payload(x), Payload(y)))
    else
      SameRecord(lib, x, y);
      LastDiffers(a, b);
      if |a| == 1 then GenesisSeal(b[|b| - 2])
      else if |b| == 1 then GenesisSeal(a[|a| - 2])
      else ChainEvidence(lib, a[..|a| - 1], b[..|b| - 1])
  }

  lemma SealsAgree(lib: Library, x: SealRecord, y: SealRecord)
    requires VerifySeal(lib, x).None? && VerifySeal(lib, y).None? && x.sealHash == y.sealHash
    ensures Payload(x) != Payload(y) ==> Collide(lib.sha, (Payload(x), Payload(y)))
  {
    SameHex(lib.sha(Payload(x)), lib.sha(Payload(y)));
    hide Payload;
  }

  lemma SameRecord(lib: Library, x: SealRecord, y: SealRecord)
    requires ShortStrings(x) && InNanos(x.evalTime) && ShortStrings(y) && InNanos(y.evalTime)
    requires Payload(x) == Payload(y) && x.sealHash == y.sealHash
    ensures x == y
  {
    PayloadDetermines(x, y);
    hide Payload;
  }

  lemma LastDiffers(a: seq<SealRecord>, b: seq<SealRecord>)
    requires a != [] && b != [] && a != b && a[|a| - 1] == b[|b| - 1]
    ensures a[..|a| - 1] != b[..|b| - 1]
    ensures |a| > 1 || |b| > 1
  {
    assert a == a[..|a| - 1] + [a[|a| - 1]] && b == b[..|b| - 1] + [b[|b| - 1]];
  }
}
