/** Sealing an audit chain into an export receipt (BuildReceipt, sortedCopy and
    VerifyReceipt of cmd/audit-exporter/exporter.go). */
module Receipts {
  import opened Wrappers
  import opened Sequences
  import opened Bytes
  import Text
  import opened Sorting
  import opened Merkle
  import opened AuditChain

  /** The time of export is not part of the model. */
  datatype ExportReceipt = ExportReceipt(
    receiptID: Bytes,
    tenantID: Bytes,
    organizationID: Bytes,
    recordCount: nat,
    merkleRoot: Bytes,
    verifiedIntegrity: bool,
    signatures: seq<Bytes>)

  datatype ReceiptError = Chain(error: ExportError) | HashNotHex

  // ----- sorting -----

  /** By sequence, then by id. */
  predicate Before(a: AuditRecord, b: AuditRecord) {
    if a.sequence != b.sequence then a.sequence < b.sequence else Text.Less(a.id, b.id)
  }

  method SortedCopy(records: seq<AuditRecord>) returns (out: array<AuditRecord>)
    ensures fresh(out) && out[..] == Sort(Before, records)
  {
    out := new AuditRecord[|records|](i requires 0 <= i < |records| => records[i]);
    assert out[..] == records;
    SortSlice(out, Before);
  }

  lemma BeforeIsStrictWeak()
    ensures StrictWeak(Before)
  {
    forall x, y | Before(x, y) ensures !Before(y, x) {
      Text.LessTotal(x.id, y.id);
    }
    forall x, y, z | !Before(x, y) && !Before(y, z) ensures !Before(x, z) {
      Text.LessTotal(x.id, y.id);
      Text.LessTotal(y.id, z.id);
      Text.LessTotal(x.id, z.id);
      if Text.Less(z.id, y.id) && Text.Less(y.id, x.id) { Text.LessTransitive(z.id, y.id, x.id); }
    }
  }

  // ----- leaves -----

  /** copy into a [32]byte */
  function ToLeaf(b: Bytes): Digest {
    if |b| >= 32 then b[..32] else b + seq(32 - |b|, _ => 0)
  }

  function LeavesFrom(chain: seq<AuditRecord>, i: nat): Option<seq<Digest>>
    requires i <= |chain|
    decreases |chain| - i
  {
    if i == |chain| then Some([])
    else
      var b, rest := HexDecode(chain[i].payloadHash), LeavesFrom(chain, i + 1);
      if b.None? || rest.None? then None else Some([ToLeaf(b.value)] + rest.value)
  }

  method DecodeLeaves(chain: seq<AuditRecord>) returns (leaves: Option<seq<Digest>>)
    ensures leaves == LeavesFrom(chain, 0)
  {
    var done: seq<Digest> := [];
    hide HexDecode, ToLeaf;
    assert LeavesFrom(chain, 0).Some? ==> [] + LeavesFrom(chain, 0).value == LeavesFrom(chain, 0).value;
    for i := 0 to |chain|
      invariant LeavesFrom(chain, 0).None? <==> LeavesFrom(chain, i).None?
      invariant LeavesFrom(chain, 0).Some? ==> LeavesFrom(chain, 0).value == done + LeavesFrom(chain, i).value
    {
      var b := HexDecode(chain[i].payloadHash);
      if b.None? {
        return None;
      }
      done := done + [ToLeaf(b.value)];
    }
    assert done + [] == done;
    return Some(done);
  }

  // ----- identifier and signature -----

  const REC: Bytes := [82, 69, 67, 45]
  const SIG: Bytes := [83, 73, 71, 45]

  /** uint64(count) */
  function CountBytes(count: nat): Bytes {
    BigEndian(count % TWO_64, 8)
  }

  function DeterministicID(sha: Hash, tenantID: Bytes, orgID: Bytes, count: nat, rootHex: Bytes): Bytes {
    REC + HexEncode(sha(tenantID + ([BAR] + (orgID + ([BAR] + (CountBytes(count) + ([BAR] + rootHex)))))))
  }

  function CountAndRoot(r: ExportReceipt): Bytes {
    CountBytes(r.recordCount) + ([BAR] + r.merkleRoot)
  }

  function SignedFacts(r: ExportReceipt): Bytes {
    r.receiptID + ([BAR] + (r.tenantID + ([BAR] + (r.organizationID + ([BAR] + CountAndRoot(r))))))
  }

  function DeterministicSignature(sha: Hash, r: ExportReceipt): Bytes {
    SIG + HexEncode(sha(SignedFacts(r)))
  }

  predicate VerifyReceipt(sha: Hash, r: ExportReceipt) {
    exists i | 0 <= i < |r.signatures| :: r.signatures[i] == DeterministicSignature(sha, r)
  }

  function RootHex(sha: Hash, leaves: seq<Digest>): Bytes {
    HexEncode(if leaves == [] then sha([]) else TreeHash(sha, leaves))
  }

  /** What BuildReceipt computes. */
  function Receipt(
      sha: Hash, fmt: Formatter, records: seq<AuditRecord>, tenantID: Bytes,
      orgID: Bytes): Result<ExportReceipt, ReceiptError>
  {
    if records == [] then Failure(Chain(EmptyChain))
    else if tenantID == [] then Failure(Chain(TenantRequired))
    else if orgID == [] then Failure(Chain(OrgIDRequired))
    else
      var sorted := Sort(Before, records);
      var err := ChainError(sha, fmt, sorted);
      if err.Some? then Failure(Chain(err.value))
      else
        var leaves := LeavesFrom(sorted, 0);
        if leaves.None? then Failure(HashNotHex)
        else
          var rootHex := RootHex(sha, leaves.value);
          var id := DeterministicID(sha, tenantID, orgID, |sorted|, rootHex);
          var unsigned := ExportReceipt(id, tenantID, orgID, |sorted|, rootHex, true, []);
          Success(unsigned.(signatures := [DeterministicSignature(sha, unsigned)]))
  }

  method BuildReceipt(sha: Hash, fmt: Formatter, records: seq<AuditRecord>, tenantID: Bytes, orgID: Bytes)
      returns (r: Result<ExportReceipt, ReceiptError>)
    ensures r == Receipt(sha, fmt, records, tenantID, orgID)
  {
    hide LeavesFrom, Sort, ChainError, TreeHash, DeterministicID, DeterministicSignature;
    if |records| == 0 {
      return Failure(Chain(EmptyChain));
    }
    if tenantID == [] {
      return Failure(Chain(TenantRequired));
    }
    if orgID == [] {
      return Failure(Chain(OrgIDRequired));
    }
    var sorted := SortedCopy(records);
    var err := ValidateChain(sha, fmt, sorted[..]);
    if err.Some? {
      return Failure(Chain(err.value));
    }
    var leaves := DecodeLeaves(sorted[..]);
    if leaves.None? {
      return Failure(HashNotHex);
    }
    var root, _, _ := MerkleRoot(sha, leaves.value);
    var rootHex := HexEncode(root);
    var receipt := ExportReceipt([], tenantID, orgID, sorted.Length, rootHex, true, []);
    receipt := receipt.(receiptID := DeterministicID(sha, tenantID, orgID, sorted.Length, rootHex));
    receipt := receipt.(signatures := [DeterministicSignature(sha, receipt)]);
    return Success(receipt);
  }

  // ----- any order of the records -----

  lemma ChainIsDistinguished(sha: Hash, fmt: Formatter, chain: seq<AuditRecord>)
    requires Accepted(sha, fmt, chain)
    ensures Distinguishes(Before, chain)
  {
    hide RecordHash, GenesisHash;
    forall i, j | 0 <= i < |chain| && 0 <= j < |chain| && chain[i] != chain[j]
      ensures Before(chain[i], chain[j]) || Before(chain[j], chain[i])
    {
      assert Linked(sha, fmt, chain, i) && Linked(sha, fmt, chain, j);
    }
  }

  /** One ordering of the records makes a receipt exactly when every other one
      does, and it is the same receipt. */
  lemma ReceiptOfPermutation(
      sha: Hash, fmt: Formatter, r1: seq<AuditRecord>, r2: seq<AuditRecord>, tenantID: Bytes, orgID: Bytes)
    requires multiset(r1) == multiset(r2)
    ensures
      var a, b := Receipt(sha, fmt, r1, tenantID, orgID), Receipt(sha, fmt, r2, tenantID, orgID);
      (a.Success? <==> b.Success?) && (a.Success? ==> a == b)
  {
    hide Sort, ChainError, StrictWeak, Before, LeavesFrom, RootHex, DeterministicID, DeterministicSignature;
    assert |multiset(r1)| == |r1| && |multiset(r2)| == |r2|;
    BeforeIsStrictWeak();
    if Receipt(sha, fmt, r1, tenantID, orgID).Success? {
      SameSort(sha, fmt, r1, r2);
    }
    if Receipt(sha, fmt, r2, tenantID, orgID).Success? {
      SameSort(sha, fmt, r2, r1);
    }
  }

  lemma SameSort(sha: Hash, fmt: Formatter, r1: seq<AuditRecord>, r2: seq<AuditRecord>)
    requires StrictWeak(Before) && multiset(r1) == multiset(r2)
    requires ChainError(sha, fmt, Sort(Before, r1)).None?
    ensures Sort(Before, r1) == Sort(Before, r2)
  {
    ValidateExactly(sha, fmt, Sort(Before, r1));
    ChainIsDistinguished(sha, fmt, Sort(Before, r1));
    SortOfPermutation(Before, r1, r2);
  }

  // ----- binding -----

  function BodyOf(fmt: Formatter, rec: AuditRecord): Bytes {
    Body(fmt, rec.previousHash, rec)
  }

  function BodyDigests(sha: Hash, fmt: Formatter, chain: seq<AuditRecord>): (d: seq<Digest>)
    ensures |d| == |chain|
  {
    seq<Digest>(|chain|, i requires 0 <= i < |chain| => sha(BodyOf(fmt, chain[i])))
  }

  /** The leaves of an accepted chain are the digests of its record bodies; in
      particular every payload hash decodes. */
  lemma {:induction false} LeavesAreDigests(sha: Hash, fmt: Formatter, chain: seq<AuditRecord>, i: nat)
    requires Accepted(sha, fmt, chain) && i <= |chain|
    ensures LeavesFrom(chain, i) == Some(BodyDigests(sha, fmt, chain)[i..])
    decreases |chain| - i
  {
    if i < |chain| {
      LeavesAreDigests(sha, fmt, chain, i + 1);
      assert Linked(sha, fmt, chain, i);
      var d := sha(BodyOf(fmt, chain[i]));
      DecodeOfEncode(d);
      assert HexDecode(chain[i].payloadHash) == Some(d) && ToLeaf(d) == d;
      hide HexDecode, ToLeaf, RecordHash, BodyOf, Linked;
      var digests := BodyDigests(sha, fmt, chain);
      assert digests[i] == d;
      assert digests[i..] == [d] + digests[i + 1..];
      assert LeavesFrom(chain, i) == Some([d] + LeavesFrom(chain, i + 1).value);
    } else {
      assert BodyDigests(sha, fmt, chain)[i..] == [];
    }
  }

  /** BuildReceipt never fails on the hexadecimal of a payload hash. */
  lemma NeverNotHex(sha: Hash, fmt: Formatter, records: seq<AuditRecord>, tenantID: Bytes, orgID: Bytes)
    ensures Receipt(sha, fmt, records, tenantID, orgID) != Failure(HashNotHex)
  {
    var sorted := Sort(Before, records);
    if ChainError(sha, fmt, sorted).None? {
      ValidateExactly(sha, fmt, sorted);
      LeavesAreDigests(sha, fmt, sorted, 0);
    }
  }

  // ----- when there is a receipt -----

  /** The chains that the records can be put together to. */
  predicate IsChainOf(sha: Hash, fmt: Formatter, chain: seq<AuditRecord>, records: seq<AuditRecord>) {
    multiset(chain) == multiset(records) && Accepted(sha, fmt, chain)
  }

  lemma AcceptedIsSorted(sha: Hash, fmt: Formatter, chain: seq<AuditRecord>)
    requires Accepted(sha, fmt, chain)
    ensures IsSorted(Before, chain)
  {
    hide RecordHash, GenesisHash;
    forall i, j | 0 <= i < j < |chain| ensures !Before(chain[j], chain[i]) {
      assert Linked(sha, fmt, chain, i) && Linked(sha, fmt, chain, j);
    }
  }

  /** Sorting finds the chain: there is at most one. */
  lemma ChainIsTheSort(sha: Hash, fmt: Formatter, chain: seq<AuditRecord>, records: seq<AuditRecord>)
    requires IsChainOf(sha, fmt, chain, records)
    ensures Sort(Before, records) == chain
  {
    BeforeIsStrictWeak();
    AcceptedIsSorted(sha, fmt, chain);
    ChainIsDistinguished(sha, fmt, chain);
    SortIsSorted(Before, records);
    hide Accepted, StrictWeak, IsSorted, Distinguishes;
    SortedIsUnique(Before, chain, Sort(Before, records));
  }

  /** BuildReceipt succeeds exactly when the records, in whatever order they come,
      can be put together to an accepted chain. */
  lemma ReceiptExactly(sha: Hash, fmt: Formatter, records: seq<AuditRecord>, tenantID: Bytes, orgID: Bytes)
    ensures Receipt(sha, fmt, records, tenantID, orgID).Success?
       <==> tenantID != [] && orgID != [] && exists chain :: IsChainOf(sha, fmt, chain, records)
  {
    var sorted := Sort(Before, records);
    ValidateExactly(sha, fmt, sorted);
    NeverNotHex(sha, fmt, records, tenantID, orgID);
    if chain :| IsChainOf(sha, fmt, chain, records) {
      ChainIsTheSort(sha, fmt, chain, records);
      assert |multiset(records)| == |records| && |multiset(sorted)| == |sorted|;
    }
    assert Receipt(sha, fmt, records, tenantID, orgID).Success? ==> IsChainOf(sha, fmt, sorted, records);
  }

  /** The first position where the digests or the bodies of two chains part. */
  function FirstDifference(fmt: Formatter, a: seq<AuditRecord>, b: seq<AuditRecord>): (i: nat)
    requires |a| == |b|
    ensures i <= |a|
    ensures forall k :: 0 <= k < i ==> BodyOf(fmt, a[k]) == BodyOf(fmt, b[k])
    ensures i < |a| ==> BodyOf(fmt, a[i]) != BodyOf(fmt, b[i])
  {
    if a == [] || BodyOf(fmt, a[0]) != BodyOf(fmt, b[0]) then 0
    else 1 + FirstDifference(fmt, a[1..], b[1..])
  }

  /** The collision behind two different chains with one root: inside the trees,
      or between two record bodies. */
  function ChainCollision(sha: Hash, fmt: Formatter, a: seq<AuditRecord>, b: seq<AuditRecord>): (pair: (Bytes, Bytes))
    requires |a| == |b| > 0 && FirstDifference(fmt, a, b) < |a|
    requires TreeHash(sha, BodyDigests(sha, fmt, a)) == TreeHash(sha, BodyDigests(sha, fmt, b))
    ensures Collide(sha, pair)
  {
    var da, db := BodyDigests(sha, fmt, a), BodyDigests(sha, fmt, b);
    if da != db then TreeCollision(sha, da, db)
    else
      var i := FirstDifference(fmt, a, b);
      assert da[i] == db[i];
      (BodyOf(fmt, a[i]), BodyOf(fmt, b[i]))
  }

  predicate SameRecords(fmt: Formatter, a: seq<AuditRecord>, b: seq<AuditRecord>) {
    && |a| == |b|
    && forall i :: 0 <= i < |a| ==> SameFacts(fmt, a[i].previousHash, a[i], b[i].previousHash, b[i])
  }

  predicate PlainActors(records: seq<AuditRecord>) {
    forall i :: 0 <= i < |records| ==> BAR !in records[i].actorID
  }

  lemma AcceptedReceipt(sha: Hash, fmt: Formatter, records: seq<AuditRecord>, tenantID: Bytes, orgID: Bytes)
    requires Receipt(sha, fmt, records, tenantID, orgID).Success?
    ensures
      var receipt, sorted := Receipt(sha, fmt, records, tenantID, orgID).value, Sort(Before, records);
      && Accepted(sha, fmt, sorted)
      && receipt.recordCount == |sorted|
      && receipt.merkleRoot == HexEncode(TreeHash(sha, BodyDigests(sha, fmt, sorted)))
  {
    var sorted := Sort(Before, records);
    ValidateExactly(sha, fmt, sorted);
    LeavesAreDigests(sha, fmt, sorted, 0);
    assert BodyDigests(sha, fmt, sorted)[0..] == BodyDigests(sha, fmt, sorted);
  }

  lemma SortKeepsPlain(records: seq<AuditRecord>)
    requires PlainActors(records)
    ensures PlainActors(Sort(Before, records))
  {
    var sorted := Sort(Before, records);
    forall i | 0 <= i < |sorted| ensures BAR !in sorted[i].actorID {
      assert sorted[i] in multiset(sorted);
      assert sorted[i] in records;
    }
  }

  /** In accepted chains, equal bodies mean equal facts. */
  lemma SameBodiesSameRecords(sha: Hash, fmt: Formatter, a: seq<AuditRecord>, b: seq<AuditRecord>)
    requires Accepted(sha, fmt, a) && Accepted(sha, fmt, b) && PlainActors(a) && PlainActors(b)
    requires |a| == |b| && FirstDifference(fmt, a, b) == |a|
    ensures SameRecords(fmt, a, b)
  {
    hide Body, RecordHash, SameFacts;
    forall i | 0 <= i < |a| ensures SameFacts(fmt, a[i].previousHash, a[i], b[i].previousHash, b[i]) {
      PreviousHashLength(sha, fmt, a, i);
      PreviousHashLength(sha, fmt, b, i);
      BodyDetermines(fmt, a[i].previousHash, a[i], b[i].previousHash, b[i]);
    }
  }

  lemma PreviousHashLength(sha: Hash, fmt: Formatter, chain: seq<AuditRecord>, i: nat)
    requires Accepted(sha, fmt, chain) && i < |chain|
    ensures |chain[i].previousHash| == SHA256_HEX_LEN
  {
    assert Linked(sha, fmt, chain, i);
    if i > 0 { assert Linked(sha, fmt, chain, i - 1); }
  }

  /** Two receipts with one record count and one Merkle root were made from
      records that agree, position by position, on previous hash, sequence,
      formatted time, actor and action; or here is a collision of the hash. */
  lemma ReceiptBinds(sha: Hash, fmt: Formatter, r1: seq<AuditRecord>, r2: seq<AuditRecord>,
                     tenant1: Bytes, org1: Bytes, tenant2: Bytes, org2: Bytes)
    requires Receipt(sha, fmt, r1, tenant1, org1).Success? && Receipt(sha, fmt, r2, tenant2, org2).Success?
    requires PlainActors(r1) && PlainActors(r2)
    ensures
      var x, y := Receipt(sha, fmt, r1, tenant1, org1).value, Receipt(sha, fmt, r2, tenant2, org2).value;
      var a, b := Sort(Before, r1), Sort(Before, r2);
      x.recordCount == y.recordCount && x.merkleRoot == y.merkleRoot ==>
        || SameRecords(fmt, a, b)
        || (&& |a| == |b| > 0 && FirstDifference(fmt, a, b) < |a|
            && TreeHash(sha, BodyDigests(sha, fmt, a)) == TreeHash(sha, BodyDigests(sha, fmt, b))
            && Collide(sha, ChainCollision(sha, fmt, a, b)))
  {
    var x, y := Receipt(sha, fmt, r1, tenant1, org1).value, Receipt(sha, fmt, r2, tenant2, org2).value;
    var a, b := Sort(Before, r1), Sort(Before, r2);
    AcceptedReceipt(sha, fmt, r1, tenant1, org1);
    AcceptedReceipt(sha, fmt, r2, tenant2, org2);
    SortKeepsPlain(r1);
    SortKeepsPlain(r2);
    hide Receipt, Sort, TreeHash, Collide;
    if x.recordCount == y.recordCount && x.merkleRoot == y.merkleRoot {
      DecodeOfEncode(TreeHash(sha, BodyDigests(sha, fmt, a)));
      DecodeOfEncode(TreeHash(sha, BodyDigests(sha, fmt, b)));
      if FirstDifference(fmt, a, b) == |a| { SameBodiesSameRecords(sha, fmt, a, b); }
    }
  }

  /** A receipt verifies as it was built. */
  lemma BuiltReceiptVerifies(sha: Hash, fmt: Formatter, records: seq<AuditRecord>, tenantID: Bytes, orgID: Bytes)
    requires Receipt(sha, fmt, records, tenantID, orgID).Success?
    ensures VerifyReceipt(sha, Receipt(sha, fmt, records, tenantID, orgID).value)
  {
    hide ChainError, LeavesFrom, TreeHash, Sort, HexEncode;
    var r := Receipt(sha, fmt, records, tenantID, orgID).value;
    assert SignedFacts(r) == SignedFacts(r.(signatures := []));
    assert r.signatures[0] == DeterministicSignature(sha, r);
  }

  /** The two identifiers as they are hashed, with a bar in between. */
  function Joined(tenantID: Bytes, orgID: Bytes): Bytes {
    tenantID + ([BAR] + orgID)
  }

  /** The receipts that have ids and roots as long as x has, and a machine count. */
  predicate Comparable(x: ExportReceipt, y: ExportReceipt) {
    && |x.receiptID| == |y.receiptID| && |x.merkleRoot| == |y.merkleRoot|
    && x.recordCount < TWO_64 && y.recordCount < TWO_64
  }

  predicate SameButJoined(x: ExportReceipt, y: ExportReceipt) {
    && x.receiptID == y.receiptID && x.recordCount == y.recordCount && x.merkleRoot == y.merkleRoot
    && Joined(x.tenantID, x.organizationID) == Joined(y.tenantID, y.organizationID)
  }

  predicate SameReceipt(x: ExportReceipt, y: ExportReceipt) {
    SameButJoined(x, y) && x.tenantID == y.tenantID && x.organizationID == y.organizationID
  }

  /** One signature for two receipts means that they agree on everything up to the
      place of the bar between tenant and organization, and altogether when the
      tenants hold no bar, short of a collision on the signed facts. */
  lemma SignatureBinds(sha: Hash, x: ExportReceipt, y: ExportReceipt)
    requires Comparable(x, y) && DeterministicSignature(sha, x) == DeterministicSignature(sha, y)
    ensures Collide(sha, (SignedFacts(x), SignedFacts(y))) || SameButJoined(x, y)
    ensures BAR !in x.tenantID && BAR !in y.tenantID
         ==> Collide(sha, (SignedFacts(x), SignedFacts(y))) || SameReceipt(x, y)
  {
    var dx, dy := sha(SignedFacts(x)), sha(SignedFacts(y));
    SplitFixed(SIG, HexEncode(dx), SIG, HexEncode(dy));
    DecodeOfEncode(dx);
    DecodeOfEncode(dy);
    hide HexEncode, SignedFacts;
    if SignedFacts(x) == SignedFacts(y) {
      SignedFactsAgree(x, y);
      if BAR !in x.tenantID && BAR !in y.tenantID {
        SplitAtBar(x.tenantID, x.organizationID, y.tenantID, y.organizationID);
      }
    }
  }

  lemma FactsBehindId(r: ExportReceipt)
    ensures SignedFacts(r)
         == r.receiptID + ([BAR] + (Joined(r.tenantID, r.organizationID) + ([BAR] + CountAndRoot(r))))
  {
    var end := [BAR] + CountAndRoot(r);
    hide CountAndRoot;
    Associative(r.tenantID, [BAR] + r.organizationID, end);
    Associative([BAR], r.organizationID, end);
  }

  lemma SignedFactsAgree(x: ExportReceipt, y: ExportReceipt)
    requires Comparable(x, y)
    ensures SignedFacts(x) == SignedFacts(y) <==> SameButJoined(x, y)
  {
    var tx, ty := CountAndRoot(x), CountAndRoot(y);
    var jx, jy := Joined(x.tenantID, x.organizationID), Joined(y.tenantID, y.organizationID);
    FactsBehindId(x);
    FactsBehindId(y);
    assert |tx| == |ty|;
    hide CountAndRoot, SignedFacts, Joined;
    if SignedFacts(x) == SignedFacts(y) {
      SplitFixedAtBar(x.receiptID, jx + ([BAR] + tx), y.receiptID, jy + ([BAR] + ty));
      assert |jx + ([BAR] + tx)| == |jy + ([BAR] + ty)|;
      SplitFixedAtBar(jx, tx, jy, ty);
      CountAndRootAgree(x, y);
    } else if SameButJoined(x, y) {
      SameCountAndRoot(x, y);
    }
  }

  lemma SameCountAndRoot(x: ExportReceipt, y: ExportReceipt)
    requires x.recordCount == y.recordCount && x.merkleRoot == y.merkleRoot
    ensures CountAndRoot(x) == CountAndRoot(y)
  {
  }

  ghost predicate UnambiguousReceipt(x: ExportReceipt) {
    forall y: ExportReceipt :: Comparable(x, y) && SignedFacts(y) == SignedFacts(x) ==> SameReceipt(x, y)
  }

  /** What is signed tells its receipt from all others exactly when neither tenant nor
      organization holds a bar. */
  lemma SignatureExactly(x: ExportReceipt)
    requires x.recordCount < TWO_64
    ensures UnambiguousReceipt(x) <==> BAR !in x.tenantID && BAR !in x.organizationID
  {
    hide SignedFacts;
    if BAR in x.tenantID {
      var k :| 0 <= k < |x.tenantID| && x.tenantID[k] == BAR;
      var a, b := x.tenantID[..k], x.tenantID[k + 1..];
      assert x.tenantID == a + ([BAR] + b);
      BarMoves(a, b, x.organizationID);
      OtherReceipt(x, x.(tenantID := a, organizationID := b + ([BAR] + x.organizationID)));
    } else if BAR in x.organizationID {
      var k :| 0 <= k < |x.organizationID| && x.organizationID[k] == BAR;
      var a, b := x.organizationID[..k], x.organizationID[k + 1..];
      assert x.organizationID == a + ([BAR] + b);
      BarMoves(x.tenantID, a, b);
      OtherReceipt(x, x.(tenantID := x.tenantID + ([BAR] + a), organizationID := b));
    } else {
      forall y: ExportReceipt | Comparable(x, y) && SignedFacts(y) == SignedFacts(x) ensures SameReceipt(x, y) {
        SignedFactsAgree(x, y);
        OneBar(x.tenantID, x.organizationID, y.tenantID, y.organizationID);
      }
    }
  }

  lemma BarMoves(a: Bytes, b: Bytes, c: Bytes)
    ensures Joined(a + ([BAR] + b), c) == Joined(a, b + ([BAR] + c))
  {
    Associative(a, [BAR] + b, [BAR] + c);
    Associative([BAR], b, [BAR] + c);
  }

  lemma OtherReceipt(x: ExportReceipt, y: ExportReceipt)
    requires Comparable(x, y) && SameButJoined(x, y) && |x.tenantID| != |y.tenantID|
    ensures !UnambiguousReceipt(x)
  {
    SignedFactsAgree(x, y);
    hide SignedFacts, Joined;
    assert !SameReceipt(x, y);
  }

  lemma OneBar(t: Bytes, o: Bytes, t': Bytes, o': Bytes)
    requires BAR !in t && BAR !in o && Joined(t, o) == Joined(t', o')
    ensures t == t' && o == o'
  {
    var whole := Joined(t, o);
    assert whole[|t'|] == BAR;
    OnlyBar(t, o, |t'|);
    SplitFixedAtBar(t, o, t', o');
  }

  /** Tenant "a|b" of organization "c" and tenant "a" of "b|c" get one receipt id and
      one signature for the same records, whatever the hash. */
  lemma ShiftedTenant(sha: Hash, fmt: Formatter, records: seq<AuditRecord>, a: Bytes, b: Bytes, c: Bytes)
    requires a != [] && c != []
    ensures
      var x := Receipt(sha, fmt, records, a + ([BAR] + b), c);
      var y := Receipt(sha, fmt, records, a, b + ([BAR] + c));
      && (x.Success? <==> y.Success?)
      && (x.Success? ==> SameButJoined(x.value, y.value) && x.value.signatures == y.value.signatures)
  {
    var t, o := a + ([BAR] + b), b + ([BAR] + c);
    hide ChainError, LeavesFrom, TreeHash, Sort, HexEncode, SignedFacts;
    var x, y := Receipt(sha, fmt, records, t, c), Receipt(sha, fmt, records, a, o);
    if x.Success? {
      BarMoves(a, b, c);
      SameIds(sha, t, c, a, o, x.value.recordCount, x.value.merkleRoot);
      hide Joined, DeterministicID;
      SameFactsSigned(x.value, y.value);
    }
  }

  lemma SameIds(sha: Hash, t: Bytes, o: Bytes, t': Bytes, o': Bytes, count: nat, root: Bytes)
    requires Joined(t, o) == Joined(t', o')
    ensures DeterministicID(sha, t, o, count, root) == DeterministicID(sha, t', o', count, root)
  {
    var end := [BAR] + (CountBytes(count) + ([BAR] + root));
    hide HexEncode, CountBytes;
    Associative(t, [BAR] + o, end);
    Associative([BAR], o, end);
    Associative(t', [BAR] + o', end);
    Associative([BAR], o', end);
  }

  lemma SameFactsSigned(x: ExportReceipt, y: ExportReceipt)
    requires SameButJoined(x, y)
    ensures SignedFacts(x) == SignedFacts(y) && SignedFacts(x.(signatures := [])) == SignedFacts(y.(signatures := []))
  {
    FactsBehindId(x);
    FactsBehindId(y);
    SameCountAndRoot(x, y);
    hide SignedFacts, Joined;
    UnsignedFacts(x);
    UnsignedFacts(y);
  }

  lemma UnsignedFacts(x: ExportReceipt)
    ensures SignedFacts(x.(signatures := [])) == SignedFacts(x)
  {
  }

  lemma CountAndRootAgree(x: ExportReceipt, y: ExportReceipt)
    requires x.recordCount < TWO_64 && y.recordCount < TWO_64
    requires CountAndRoot(x) == CountAndRoot(y)
    ensures x.recordCount == y.recordCount && x.merkleRoot == y.merkleRoot
  {
    hide BigEndian, Power256;
    SplitFixedAtBar(CountBytes(x.recordCount), x.merkleRoot, CountBytes(y.recordCount), y.merkleRoot);
    EightBytes();
    assert x.recordCount % TWO_64 == x.recordCount && y.recordCount % TWO_64 == y.recordCount;
    BigEndianInjective(x.recordCount, y.recordCount, 8);
  }
}
