/** The bytes that the audit exporter hashes, and its answers, said without its code. */
module RecordLayouts {
  import opened Wrappers
  import opened Bytes
  import Text
  import opened Sorting
  import opened Merkle
  import opened AuditChain
  import opened Receipts

  /** The parts one behind the other. */
  function Concat(parts: seq<Bytes>): Bytes {
    if parts == [] then [] else parts[0] + Concat(parts[1..])
  }

  lemma ConcatCons(part: Bytes, parts: seq<Bytes>)
    ensures Concat([part] + parts) == part + Concat(parts)
  {
    assert ([part] + parts)[1..] == parts;
  }

  /** The eight bytes of a number, most significant first. */
  predicate IsNumber(b: Bytes, n: nat) {
    |b| == 8 && forall k :: 0 <= k < 8 ==> Power256(7 - k) > 0 && b[k] as int == n / Power256(7 - k) % 256
  }

  lemma NumberIsBigEndian(b: Bytes, n: nat)
    requires IsNumber(b, n)
    ensures b == BigEndian(n, 8)
  {
    hide BigEndian, Power256;
    forall k | 0 <= k < 8 ensures b[k] == BigEndian(n, 8)[k] {
      BigEndianAt(n, 8, k);
    }
  }

  // ----- records -----

  /** previous hash, bar, sequence, bar, time, bar, actor, bar, action. */
  function RecordParts(previousHash: Bytes, sequence: Bytes, time: Bytes, actor: Bytes, action: Bytes): seq<Bytes> {
    [previousHash, [124], sequence, [124], time, [124], actor, [124], action]
  }

  lemma NineParts(a: Bytes, b: Bytes, c: Bytes, d: Bytes, e: Bytes, f: Bytes, g: Bytes, h: Bytes, i: Bytes)
    ensures Concat([a, b, c, d, e, f, g, h, i]) == a + (b + (c + (d + (e + (f + (g + (h + i)))))))
  {
    hide Concat;
    ConcatOne(i);
    assert [h, i] == [h] + [i] && [g, h, i] == [g] + [h, i] && [f, g, h, i] == [f] + [g, h, i];
    assert [e, f, g, h, i] == [e] + [f, g, h, i] && [d, e, f, g, h, i] == [d] + [e, f, g, h, i];
    assert [c, d, e, f, g, h, i] == [c] + [d, e, f, g, h, i];
    assert [b, c, d, e, f, g, h, i] == [b] + [c, d, e, f, g, h, i];
    assert [a, b, c, d, e, f, g, h, i] == [a] + [b, c, d, e, f, g, h, i];
    ConcatCons(h, [i]);
    ConcatCons(g, [h, i]);
    ConcatCons(f, [g, h, i]);
    ConcatCons(e, [f, g, h, i]);
    ConcatCons(d, [e, f, g, h, i]);
    ConcatCons(c, [d, e, f, g, h, i]);
    ConcatCons(b, [c, d, e, f, g, h, i]);
    ConcatCons(a, [b, c, d, e, f, g, h, i]);
  }

  lemma ConcatOne(a: Bytes)
    ensures Concat([a]) == a
  {
    assert [a][1..] == [] && Concat([]) == [] && a + [] == a;
  }

  /** A record hash is the hexadecimal SHA-256 of these bytes and no others. */
  lemma RecordHashLayout(sha: Hash, fmt: Formatter, previousHash: Bytes, rec: AuditRecord, sequence: Bytes)
    requires IsNumber(sequence, rec.sequence)
    ensures
      var parts := RecordParts(previousHash, sequence, fmt(rec.timestamp), rec.actorID, rec.action);
      RecordHash(sha, fmt, previousHash, rec) == HexEncode(sha(Concat(parts)))
  {
    NumberIsBigEndian(sequence, rec.sequence);
    hide IsNumber, BigEndian, HexEncode, Concat;
    NineParts(previousHash, [124], sequence, [124], fmt(rec.timestamp), [124], rec.actorID, [124], rec.action);
    assert Body(fmt, previousHash, rec)
        == previousHash + ([124] + (sequence + ([124] + (fmt(rec.timestamp) + ([124] + (rec.actorID + ([124]
           + rec.action)))))));
    hide Body;
  }

  predicate IsLowerHexText(s: Bytes) {
    forall i :: 0 <= i < |s| ==> 48 <= s[i] <= 57 || 97 <= s[i] <= 102
  }

  /** The first check that a record fails, over the integers. */
  lemma RecordErrorExactly(sha: Hash, fmt: Formatter, chain: seq<AuditRecord>, i: nat)
    requires i < |chain|
    ensures
      var rec := chain[i];
      var link := if i > 0 then chain[i - 1].payloadHash else seq(64, _ => 48);
      RecordError(sha, fmt, chain, i)
      == if i > 0 && rec.sequence != chain[i - 1].sequence + 1 then Some(SequenceGap)
         else if rec.previousHash != link then Some(ChainBroken)
         else if |rec.payloadHash| != 64 then Some(HashBadLength)
         else if !IsLowerHexText(rec.payloadHash) then Some(HashNotLowerHex)
         else if rec.payloadHash != RecordHash(sha, fmt, rec.previousHash, rec) then Some(HashMismatch)
         else None
  {
    hide RecordHash;
    assert GenesisHash() == seq(64, _ => 48);
    assert LowerHex(chain[i].payloadHash) <==> |chain[i].payloadHash| == 64 && IsLowerHexText(chain[i].payloadHash);
    hide LowerHex, IsLowerHexText, GenesisHash;
  }

  lemma {:induction false} FirstError(sha: Hash, fmt: Formatter, chain: seq<AuditRecord>, i: nat) returns (k: nat)
    requires i <= |chain| && ErrorFrom(sha, fmt, chain, i).Some?
    ensures i <= k < |chain| && ErrorFrom(sha, fmt, chain, i) == RecordError(sha, fmt, chain, k)
    ensures forall j :: i <= j < k ==> RecordError(sha, fmt, chain, j).None?
    decreases |chain| - i
  {
    hide RecordError;
    k := i;
    if RecordError(sha, fmt, chain, i).None? { k := FirstError(sha, fmt, chain, i + 1); }
  }

  /** validateChain reports the error of the first record that has one. */
  lemma ChainErrorIsFirst(sha: Hash, fmt: Formatter, chain: seq<AuditRecord>) returns (k: nat)
    requires ChainError(sha, fmt, chain).Some? && chain != []
    ensures k < |chain| && ChainError(sha, fmt, chain) == RecordError(sha, fmt, chain, k)
    ensures forall j :: 0 <= j < k ==> RecordError(sha, fmt, chain, j).None?
  {
    k := FirstError(sha, fmt, chain, 0);
  }

  // ----- the tree -----

  /** The root of one leaf is the leaf; of more it is the hash of the roots of the two
      parts, the left one first, cut at the largest power of two below their number. */
  lemma TreeExactly(sha: Hash, leaves: seq<Digest>, p: nat)
    requires leaves != [] && Power2(p) < |leaves| <= 2 * Power2(p)
    ensures
      var k := Power2(p);
      TreeHash(sha, leaves) == sha(TreeHash(sha, leaves[..k]) + TreeHash(sha, leaves[k..]))
  {
    hide TreeHash, SplitPoint, Power2;
    assert |leaves| > 1;
    SplitIsPower(|leaves|, p);
    TreeCut(sha, leaves);
  }

  lemma SplitIsPower(n: nat, p: nat)
    requires n > 1 && Power2(p) < n <= 2 * Power2(p)
    ensures SplitPoint(n) == Power2(p)
  {
    var k := SplitPoint(n);
    assert k < n <= 2 * k;
    var q: nat :| k == Power2(q);
    hide SplitPoint, Power2;
    OnePower(n, p, q);
  }

  lemma TreeCut(sha: Hash, leaves: seq<Digest>)
    requires |leaves| > 1
    ensures
      var k := SplitPoint(|leaves|);
      TreeHash(sha, leaves) == sha(TreeHash(sha, leaves[..k]) + TreeHash(sha, leaves[k..]))
  {
    hide SplitPoint;
  }

  lemma {:induction false} PowersGrow(p: nat, q: nat)
    requires p < q
    ensures 2 * Power2(p) <= Power2(q)
    decreases q
  {
    if p < q - 1 { PowersGrow(p, q - 1); }
  }

  lemma OnePower(n: nat, p: nat, q: nat)
    requires Power2(p) < n <= 2 * Power2(p) && Power2(q) < n <= 2 * Power2(q)
    ensures p == q
  {
    if p < q { PowersGrow(p, q); }
    if q < p { PowersGrow(q, p); }
  }

  lemma SmallTrees(sha: Hash, a: Digest, b: Digest)
    ensures TreeHash(sha, [a]) == a && TreeHash(sha, [a, b]) == sha(a + b)
  {
    assert [a, b][..1] == [a] && [a, b][1..] == [b];
    TreeExactly(sha, [a, b], 0);
  }

  // ----- receipts -----

  /** tenant, bar, organization, bar, count, bar, root in hexadecimal. */
  function IdParts(tenantID: Bytes, orgID: Bytes, count: Bytes, root: Bytes): seq<Bytes> {
    [tenantID, [124], orgID, [124], count, [124], root]
  }

  lemma SevenParts(a: Bytes, b: Bytes, c: Bytes, d: Bytes, e: Bytes, f: Bytes, g: Bytes)
    ensures Concat([a, b, c, d, e, f, g]) == a + (b + (c + (d + (e + (f + g)))))
  {
    hide Concat;
    ConcatOne(g);
    assert [f, g] == [f] + [g] && [e, f, g] == [e] + [f, g] && [d, e, f, g] == [d] + [e, f, g];
    assert [c, d, e, f, g] == [c] + [d, e, f, g] && [b, c, d, e, f, g] == [b] + [c, d, e, f, g];
    assert [a, b, c, d, e, f, g] == [a] + [b, c, d, e, f, g];
    ConcatCons(f, [g]);
    ConcatCons(e, [f, g]);
    ConcatCons(d, [e, f, g]);
    ConcatCons(c, [d, e, f, g]);
    ConcatCons(b, [c, d, e, f, g]);
    ConcatCons(a, [b, c, d, e, f, g]);
  }

  /** "REC-" and the hexadecimal SHA-256 of the parts. */
  lemma IdLayout(sha: Hash, tenantID: Bytes, orgID: Bytes, count: nat, root: Bytes, b: Bytes)
    requires IsNumber(b, count % TWO_64)
    ensures DeterministicID(sha, tenantID, orgID, count, root)
         == [82, 69, 67, 45] + HexEncode(sha(Concat(IdParts(tenantID, orgID, b, root))))
  {
    NumberIsBigEndian(b, count % TWO_64);
    hide IsNumber, BigEndian, HexEncode, Concat;
    SevenParts(tenantID, [124], orgID, [124], b, [124], root);
  }

  /** "SIG-" and the hexadecimal SHA-256 of the id and the same parts. */
  function SignatureText(sha: Hash, r: ExportReceipt, b: Bytes): Bytes {
    [83, 73, 71, 45]
    + HexEncode(sha(Concat([r.receiptID, [124], r.tenantID, [124], r.organizationID, [124], b, [124], r.merkleRoot])))
  }

  lemma SignatureLayout(sha: Hash, r: ExportReceipt, b: Bytes)
    requires IsNumber(b, r.recordCount % TWO_64)
    ensures DeterministicSignature(sha, r) == SignatureText(sha, r, b)
  {
    NumberIsBigEndian(b, r.recordCount % TWO_64);
    hide IsNumber, BigEndian, HexEncode, Concat;
    NineParts(r.receiptID, [124], r.tenantID, [124], r.organizationID, [124], b, [124], r.merkleRoot);
    assert SignedFacts(r)
        == r.receiptID + ([124] + (r.tenantID + ([124] + (r.organizationID + ([124] + (b + ([124] + r.merkleRoot)))))));
    hide SignedFacts;
  }

  /** A receipt verifies exactly when one of its signatures is that text. */
  lemma VerifyExactly(sha: Hash, r: ExportReceipt, b: Bytes)
    requires IsNumber(b, r.recordCount % TWO_64)
    ensures VerifyReceipt(sha, r) <==> SignatureText(sha, r, b) in r.signatures
  {
    SignatureLayout(sha, r, b);
    hide SignatureText, DeterministicSignature, IsNumber;
  }

  /** The numbers ascend; records of one number are in the order of their ids. */
  predicate InExportOrder(records: seq<AuditRecord>) {
    forall i, j :: 0 <= i < j < |records| ==>
      var a, b := records[i], records[j];
      a.sequence < b.sequence || (a.sequence == b.sequence && (a.id == b.id || Text.Less(a.id, b.id)))
  }

  /** sortedCopy puts the records in this order, each as often as it was there. */
  lemma SortedCopyExactly(records: seq<AuditRecord>)
    ensures InExportOrder(Sort(Before, records)) && multiset(Sort(Before, records)) == multiset(records)
  {
    hide Text.Less, Sort;
    BeforeIsStrictWeak();
    SortIsSorted(Before, records);
    var s := Sort(Before, records);
    forall i, j | 0 <= i < j < |s|
      ensures s[i].sequence < s[j].sequence
           || (s[i].sequence == s[j].sequence && (s[i].id == s[j].id || Text.Less(s[i].id, s[j].id)))
    {
      assert !Before(s[j], s[i]);
      Text.LessTotal(s[i].id, s[j].id);
    }
  }

  /** Every field of a built receipt. */
  lemma ReceiptFields(
      sha: Hash, fmt: Formatter, records: seq<AuditRecord>, tenantID: Bytes, orgID: Bytes, b: Bytes)
    requires Receipt(sha, fmt, records, tenantID, orgID).Success? && IsNumber(b, |records| % TWO_64)
    ensures
      var r := Receipt(sha, fmt, records, tenantID, orgID).value;
      && r.tenantID == tenantID && r.organizationID == orgID && r.recordCount == |records| && r.verifiedIntegrity
      && r.merkleRoot == HexEncode(TreeHash(sha, BodyDigests(sha, fmt, Sort(Before, records))))
      && r.receiptID == [82, 69, 67, 45] + HexEncode(sha(Concat(IdParts(tenantID, orgID, b, r.merkleRoot))))
      && r.signatures == [SignatureText(sha, r, b)]
  {
    hide HexEncode, Concat, IsNumber, SignedFacts, Receipt, TreeHash, Sort, IdParts, SignatureText;
    hide DeterministicID, DeterministicSignature;
    var r := Receipt(sha, fmt, records, tenantID, orgID).value;
    AcceptedReceipt(sha, fmt, records, tenantID, orgID);
    BuiltFields(sha, fmt, records, tenantID, orgID);
    IdLayout(sha, tenantID, orgID, |records|, r.merkleRoot, b);
    SignatureLayout(sha, r, b);
    Unsigned(sha, r);
  }

  lemma BuiltFields(sha: Hash, fmt: Formatter, records: seq<AuditRecord>, tenantID: Bytes, orgID: Bytes)
    requires Receipt(sha, fmt, records, tenantID, orgID).Success?
    ensures
      var r := Receipt(sha, fmt, records, tenantID, orgID).value;
      && r.tenantID == tenantID && r.organizationID == orgID && r.recordCount == |records| && r.verifiedIntegrity
      && r.receiptID == DeterministicID(sha, tenantID, orgID, |records|, r.merkleRoot)
      && r.signatures == [DeterministicSignature(sha, r.(signatures := []))]
  {
    hide ChainError, LeavesFrom, RootHex, TreeHash, Sort, DeterministicID, DeterministicSignature;
  }

  lemma Unsigned(sha: Hash, r: ExportReceipt)
    ensures DeterministicSignature(sha, r.(signatures := [])) == DeterministicSignature(sha, r)
  {
    UnsignedFacts(r);
    hide SignedFacts, HexEncode;
  }

  /** Which error refuses an export. */
  lemma ReceiptErrorExactly(sha: Hash, fmt: Formatter, records: seq<AuditRecord>, tenantID: Bytes, orgID: Bytes)
    ensures
      var r, err := Receipt(sha, fmt, records, tenantID, orgID), ChainError(sha, fmt, Sort(Before, records));
      if records == [] then r == Failure(Chain(EmptyChain))
      else if tenantID == [] then r == Failure(Chain(TenantRequired))
      else if orgID == [] then r == Failure(Chain(OrgIDRequired))
      else if err.Some? then r == Failure(Chain(err.value))
      else r.Success?
  {
    NeverNotHex(sha, fmt, records, tenantID, orgID);
    hide ChainError, LeavesFrom, RootHex, TreeHash, Sort, DeterministicID, DeterministicSignature;
  }
}
