/** What a seal holds and what the sealer answers, said without its code. */
module SealLayouts {
  import opened Wrappers
  import opened Bytes
  import opened Sealer

  // ----- the canonical payload -----

  /** The n bytes of a number at a place, least significant first. */
  predicate NumberAt(t: Bytes, at: nat, n: nat, v: nat) {
    && at + n <= |t|
    && forall k :: 0 <= k < n ==> Power256(k) > 0 && t[at + k] as int == v / Power256(k) % 256
  }

  /** A string at a place, behind the four bytes of its length. */
  predicate StringAt(t: Bytes, at: nat, s: Bytes) {
    at + 4 + |s| <= |t| && NumberAt(t, at, 4, |s|) && t[at + 4..at + 4 + |s|] == s
  }

  /** Model, weights, prompt, tensors, time in nanoseconds modulo 2^64, previous seal. */
  predicate IsPayload(t: Bytes, r: SealRecord) {
    var a := 4 + |r.modelID|;
    var b := a + 4 + |r.weightsHash|;
    var c := b + 4 + |r.promptHash|;
    var d := c + 4 + |r.tensorHash|;
    && StringAt(t, 0, r.modelID) && StringAt(t, a, r.weightsHash) && StringAt(t, b, r.promptHash)
    && StringAt(t, c, r.tensorHash) && NumberAt(t, d, 8, r.evalTime % TWO_64) && StringAt(t, d + 8, r.prevSeal)
    && |t| == d + 8 + 4 + |r.prevSeal|
  }

  lemma NumberInFront(pre: Bytes, v: nat, n: nat, post: Bytes)
    ensures NumberAt(pre + (LittleEndian(v, n) + post), |pre|, n, v)
  {
    var t, b := pre + (LittleEndian(v, n) + post), LittleEndian(v, n);
    hide LittleEndian, Power256;
    forall k | 0 <= k < n ensures Power256(k) > 0 && t[|pre| + k] as int == v / Power256(k) % 256 {
      LittleEndianAt(v, n, k);
      assert t[|pre| + k] == b[k];
    }
  }

  lemma StringInFront(pre: Bytes, s: Bytes, post: Bytes)
    ensures StringAt(pre + (Prefixed(s) + post), |pre|, s)
  {
    var t := pre + (Prefixed(s) + post);
    NumberInFront(pre, |s|, 4, s + post);
    hide NumberAt, LittleEndian;
    assert t == pre + (LittleEndian(|s|, 4) + (s + post));
    assert t[|pre| + 4..|pre| + 4 + |s|] == s;
  }

  lemma PrefixedLength(s: Bytes)
    ensures |Prefixed(s)| == 4 + |s|
  {
  }

  lemma Behind(pre: Bytes, s: Bytes, post: Bytes)
    ensures pre + (s + post) == (pre + s) + post && |pre + s| == |pre| + |s|
  {
  }

  /** The payload has this layout. */
  lemma PayloadLayout(r: SealRecord)
    ensures IsPayload(Payload(r), r)
  {
    hide StringAt, NumberAt, Prefixed, LittleEndian;
    var m, w, p, n := Prefixed(r.modelID), Prefixed(r.weightsHash), Prefixed(r.promptHash), Prefixed(r.tensorHash);
    var time, s := TimeBytes(r.evalTime), Prefixed(r.prevSeal);
    var none: Bytes := [];
    var t := Payload(r);
    PrefixedLength(r.modelID);
    PrefixedLength(r.weightsHash);
    PrefixedLength(r.promptHash);
    PrefixedLength(r.tensorHash);
    PrefixedLength(r.prevSeal);
    StringInFront(none, r.modelID, w + (p + (n + (time + s))));
    assert none + t == t;
    StringInFront(m, r.weightsHash, p + (n + (time + s)));
    Behind(m, w, p + (n + (time + s)));
    StringInFront(m + w, r.promptHash, n + (time + s));
    Behind(m + w, p, n + (time + s));
    StringInFront(m + w + p, r.tensorHash, time + s);
    Behind(m + w + p, n, time + s);
    NumberInFront(m + w + p + n, r.evalTime % TWO_64, 8, s);
    Behind(m + w + p + n, time, s);
    StringInFront(m + w + p + n + time, r.prevSeal, none);
    assert s + none == s;
  }

  /** And nothing else has it. */
  lemma OnePayload(t: Bytes, u: Bytes, r: SealRecord)
    requires IsPayload(t, r) && IsPayload(u, r)
    ensures t == u
  {
    hide StringAt, NumberAt;
    var a := 4 + |r.modelID|;
    var b := a + 4 + |r.weightsHash|;
    var c := b + 4 + |r.promptHash|;
    var d := c + 4 + |r.tensorHash|;
    SameString(t, u, 0, r.modelID);
    SameString(t, u, a, r.weightsHash);
    SameString(t, u, b, r.promptHash);
    SameString(t, u, c, r.tensorHash);
    SameNumber(t, u, d, 8, r.evalTime % TWO_64);
    SameString(t, u, d + 8, r.prevSeal);
    assert |t| == d + 12 + |r.prevSeal| && |u| == |t|;
    hide IsPayload;
    forall i | 0 <= i < |t| ensures t[i] == u[i] {
    }
  }

  lemma SameNumber(t: Bytes, u: Bytes, at: nat, n: nat, v: nat)
    requires NumberAt(t, at, n, v) && NumberAt(u, at, n, v)
    ensures forall i :: at <= i < at + n ==> t[i] == u[i]
  {
    hide Power256;
    forall i | at <= i < at + n ensures t[i] == u[i] {
      var k := i - at;
      assert t[at + k] as int == v / Power256(k) % 256 && u[at + k] as int == v / Power256(k) % 256;
    }
  }

  lemma SameString(t: Bytes, u: Bytes, at: nat, s: Bytes)
    requires StringAt(t, at, s) && StringAt(u, at, s)
    ensures forall i :: at <= i < at + 4 + |s| ==> t[i] == u[i]
  {
    SameNumber(t, u, at, 4, |s|);
    hide NumberAt;
    forall i | at + 4 <= i < at + 4 + |s| ensures t[i] == u[i] {
      assert t[at + 4..at + 4 + |s|][i - at - 4] == t[i] && u[at + 4..at + 4 + |s|][i - at - 4] == u[i];
    }
  }

  // ----- what is sealed -----

  /** Sealing succeeds exactly when there are weights that can be read and are not
      empty, a prompt that is not blank before and after normalisation, tensors, a model
      and a time. */
  lemma SealExactly(
      lib: Library, weights: Reader, prompt: Bytes, tensors: Bytes, modelID: Bytes, evalTime: int, prevSeal: Bytes)
    ensures Seal(lib, weights, prompt, tensors, modelID, evalTime, prevSeal).Success?
       <==> (&& weights.Holding? && weights.content != [] && lib.trim(prompt) != [] && lib.trim(lib.nfc(prompt)) != []
             && tensors != [] && modelID != [] && evalTime != -62_135_596_800_000_000_000)
  {
    hide Payload, HexEncode;
  }

  /** Otherwise the first thing that is missing, in this order, is the error. */
  lemma SealErrorExactly(
      lib: Library, weights: Reader, prompt: Bytes, tensors: Bytes, modelID: Bytes, evalTime: int, prevSeal: Bytes)
    requires Seal(lib, weights, prompt, tensors, modelID, evalTime, prevSeal).Failure?
    ensures Seal(lib, weights, prompt, tensors, modelID, evalTime, prevSeal).error
         == if weights.NoReader? then NilWeights
            else if lib.trim(prompt) == [] then EmptyPrompt
            else if modelID == [] then EmptyModelID
            else if evalTime == -62_135_596_800_000_000_000 then ZeroTime
            else if weights.Failing? then ReadError
            else if weights.content == [] then EmptyWeights
            else EmptyInput
  {
    hide Payload, HexEncode;
  }

  /** Every field of a sealed record; t is any text with the layout of its payload. */
  lemma SealedFields(
      lib: Library, weights: Reader, prompt: Bytes, tensors: Bytes, modelID: Bytes, evalTime: int, prevSeal: Bytes,
      t: Bytes)
    requires Seal(lib, weights, prompt, tensors, modelID, evalTime, prevSeal).Success?
    requires IsPayload(t, Seal(lib, weights, prompt, tensors, modelID, evalTime, prevSeal).value)
    ensures weights.Holding?
    ensures
      var r := Seal(lib, weights, prompt, tensors, modelID, evalTime, prevSeal).value;
      && r.modelID == modelID && r.evalTime == evalTime
      && r.weightsHash == HexEncode(lib.sha(weights.content))
      && r.promptHash == HexEncode(lib.sha(lib.trim(lib.nfc(prompt))))
      && r.tensorHash == HexEncode(lib.sha(tensors))
      && r.prevSeal == (if prevSeal == [] then seq(64, _ => 48) else prevSeal)
      && r.sealHash == HexEncode(lib.sha(t))
  {
    var r := Seal(lib, weights, prompt, tensors, modelID, evalTime, prevSeal).value;
    PayloadLayout(r);
    OnePayload(t, Payload(r), r);
    hide IsPayload, HexEncode, Prefixed, TimeBytes;
    assert Payload(r) == Payload(r.(sealHash := []));
    assert SealGenesisHash() == seq(64, _ => 48);
    hide Payload, SealGenesisHash;
  }

  /** Record i of a folded chain carries what was put in as input i. */
  lemma {:induction false} ChainCarriesInputs(lib: Library, inputs: seq<Inputs>, i: nat)
    requires SealAll(lib, inputs).Success? && i < |inputs|
    ensures inputs[i].weights.Holding? && |SealAll(lib, inputs).value| == |inputs|
    ensures
      var r, x := SealAll(lib, inputs).value[i], inputs[i];
      && r.modelID == x.modelID && r.evalTime == x.evalTime
      && r.weightsHash == HexEncode(lib.sha(x.weights.content))
      && r.promptHash == HexEncode(lib.sha(lib.trim(lib.nfc(x.prompt))))
      && r.tensorHash == HexEncode(lib.sha(x.tensors))
  {
    hide Seal, HexEncode, IsPayload;
    var init, x := inputs[..|inputs| - 1], inputs[|inputs| - 1];
    var before := SealAll(lib, init).value;
    var prev := if before == [] then [] else before[|before| - 1].sealHash;
    AllSealed(lib, init);
    if i < |init| {
      ChainCarriesInputs(lib, init, i);
      assert init[i] == inputs[i];
    } else {
      var rec := Seal(lib, x.weights, x.prompt, x.tensors, x.modelID, x.evalTime, prev).value;
      PayloadLayout(rec);
      SealedFields(lib, x.weights, x.prompt, x.tensors, x.modelID, x.evalTime, prev, Payload(rec));
    }
  }

  lemma {:induction false} AllSealed(lib: Library, inputs: seq<Inputs>)
    requires SealAll(lib, inputs).Success?
    ensures |SealAll(lib, inputs).value| == |inputs|
  {
    hide Seal;
    if inputs != [] { AllSealed(lib, inputs[..|inputs| - 1]); }
  }

  // ----- what verifies -----

  /** A record verifies exactly when no field is empty or zero and its seal is the
      hexadecimal SHA-256 of its payload; otherwise the first fault is reported. */
  lemma VerifySealExactly(lib: Library, r: SealRecord, t: Bytes)
    requires IsPayload(t, r)
    ensures VerifySeal(lib, r)
         == if r.modelID == [] then Some(EmptyModelID)
            else if r.weightsHash == [] then Some(EmptyWeightsHash)
            else if r.promptHash == [] then Some(EmptyPromptHash)
            else if r.tensorHash == [] then Some(EmptyTensorHash)
            else if r.evalTime == -62_135_596_800_000_000_000 then Some(ZeroTime)
            else if r.prevSeal == [] then Some(EmptyPrevSeal)
            else if r.sealHash == [] then Some(EmptySealHash)
            else if r.sealHash != HexEncode(lib.sha(t)) then Some(SealMismatch)
            else None
  {
    PayloadLayout(r);
    OnePayload(t, Payload(r), r);
    hide Payload, IsPayload, HexEncode;
  }

  /** Artifacts are accepted for a record exactly when they have its digests, the prompt
      after normalisation, and the record verifies. */
  lemma VerifyArtifactsExactly(lib: Library, r: SealRecord, weights: Reader, prompt: Bytes, tensors: Bytes)
    ensures VerifyArtifacts(lib, r, weights, prompt, tensors) == None
       <==> (&& weights.Holding? && weights.content != [] && HexEncode(lib.sha(weights.content)) == r.weightsHash
             && lib.trim(lib.nfc(prompt)) != [] && HexEncode(lib.sha(lib.trim(lib.nfc(prompt)))) == r.promptHash
             && tensors != [] && HexEncode(lib.sha(tensors)) == r.tensorHash
             && VerifySeal(lib, r) == None)
  {
    hide VerifySeal, HexEncode;
  }

  /** Otherwise the first artifact that is missing or differs is the error, and the
      record itself is looked at last. */
  lemma ArtifactErrorExactly(lib: Library, r: SealRecord, weights: Reader, prompt: Bytes, tensors: Bytes)
    requires VerifyArtifacts(lib, r, weights, prompt, tensors).Some?
    ensures
      var err, clean := VerifyArtifacts(lib, r, weights, prompt, tensors).value, lib.trim(lib.nfc(prompt));
      if weights.NoReader? then err == NilWeights
      else if weights.Failing? then err == ReadError
      else if weights.content == [] then err == EmptyWeights
      else if HexEncode(lib.sha(weights.content)) != r.weightsHash then err == WeightsMismatch
      else if clean == [] then err == EmptyPrompt
      else if HexEncode(lib.sha(clean)) != r.promptHash then err == PromptMismatch
      else if tensors == [] then err == EmptyInput
      else if HexEncode(lib.sha(tensors)) != r.tensorHash then err == TensorMismatch
      else VerifySeal(lib, r) == Some(err)
  {
    hide VerifySeal, HexEncode;
  }

  lemma {:induction false} FirstFault(lib: Library, records: seq<SealRecord>, i: nat) returns (k: nat)
    requires i <= |records| && ChainErrorFrom(lib, records, i).Some?
    ensures i <= k < |records| && ChainErrorFrom(lib, records, i) == LinkError(lib, records, k)
    ensures forall j :: i <= j < k ==> LinkError(lib, records, j).None?
    decreases |records| - i
  {
    hide LinkError;
    k := i;
    if LinkError(lib, records, i).None? { k := FirstFault(lib, records, i + 1); }
  }

  /** Record i in its chain: verified first, then linked to the genesis value of 64 zeros
      or to the seal before it. */
  lemma LinkErrorExactly(lib: Library, records: seq<SealRecord>, i: nat)
    requires i < |records|
    ensures
      var bad := VerifySeal(lib, records[i]);
      LinkError(lib, records, i)
      == if bad.Some? then Some(BadRecord(i, bad.value))
         else if i == 0 && records[0].prevSeal != seq(64, _ => 48) then Some(NotGenesis)
         else if i > 0 && records[i].prevSeal != records[i - 1].sealHash then Some(BrokenLink(i))
         else None
  {
    assert SealGenesisHash() == seq(64, _ => 48);
    hide VerifySeal, SealGenesisHash;
  }
}
