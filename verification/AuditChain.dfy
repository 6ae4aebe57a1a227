/** Audit records, their canonical bytes and the chain check
    (cmd/audit-exporter/exporter.go). Go strings are byte strings here. */
module AuditChain {
  import opened Wrappers
  import opened Bytes

  const BAR: byte := 124

  /** RFC 3339 text of an instant in UTC: digits, letters and punctuation, no bar. */
  type PlainText = b: Bytes | BAR !in b
  type Formatter = int -> PlainText

  datatype AuditRecord = AuditRecord(
    id: string,
    sequence: uint64,
    timestamp: int,
    actorID: Bytes,
    action: Bytes,
    payloadHash: Bytes,
    previousHash: Bytes)

  datatype ExportError =
    | EmptyChain
    | SequenceGap
    | ChainBroken
    | HashMismatch
    | HashBadLength
    | HashNotLowerHex
    | TenantRequired
    | OrgIDRequired

  // ----- the canonical body -----

  /** previousHash | sequence | timestamp | actor_id | action */
  function Body(fmt: Formatter, previousHash: Bytes, rec: AuditRecord): Bytes {
    previousHash + ([BAR] + (BigEndian(rec.sequence, 8) + ([BAR] + (fmt(rec.timestamp) +
      ([BAR] + (rec.actorID + ([BAR] + rec.action)))))))
  }

  function RecordHash(sha: Hash, fmt: Formatter, previousHash: Bytes, rec: AuditRecord): Bytes {
    HexEncode(sha(Body(fmt, previousHash, rec)))
  }

  /** uint64Bytes fills its buffer from the last byte back. */
  method Uint64Bytes(v: uint64) returns (b: array<byte>)
    ensures fresh(b) && b[..] == BigEndian(v, 8)
  {
    b := new byte[8];
    var rest: nat := v;
    var i: int := 7;
    ghost var low: Bytes := [];
    while i >= 0
      invariant -1 <= i <= 7
      invariant b[i + 1..] == low
      invariant BigEndian(v, 8) == BigEndian(rest, (i + 1) as nat) + low
    {
      b[i] := (rest % 256) as byte;
      low := [b[i]] + low;
      rest := rest / 256;
      i := i - 1;
    }
  }

  /** The hasher is fed piece by piece; `written` is what it has been given. */
  method ComputeRecordHash(sha: Hash, fmt: Formatter, previousHash: Bytes, rec: AuditRecord) returns (hash: Bytes)
    ensures hash == RecordHash(sha, fmt, previousHash, rec)
  {
    var written: Bytes := previousHash;
    written := written + [BAR];
    var sequence := Uint64Bytes(rec.sequence);
    written := written + sequence[..];
    written := written + [BAR];
    written := written + fmt(rec.timestamp);
    written := written + [BAR];
    written := written + rec.actorID;
    written := written + [BAR];
    written := written + rec.action;
    assert written == Body(fmt, previousHash, rec);
    hash := HexEncode(sha(written));
  }

  /** The facts the body is about. */
  predicate SameFacts(fmt: Formatter, p: Bytes, r: AuditRecord, p': Bytes, r': AuditRecord) {
    && p == p' && r.sequence == r'.sequence && fmt(r.timestamp) == fmt(r'.timestamp)
    && r.actorID == r'.actorID && r.action == r'.action
  }

  lemma SplitFixed(a: Bytes, s: Bytes, b: Bytes, t: Bytes)
    requires |a| == |b| && a + s == b + t
    ensures a == b && s == t
  {
    assert a == (a + s)[..|a|] && s == (a + s)[|a|..];
    assert b == (b + t)[..|b|] && t == (b + t)[|b|..];
  }

  lemma SplitFixedAtBar(a: Bytes, s: Bytes, b: Bytes, t: Bytes)
    requires |a| == |b| && a + ([BAR] + s) == b + ([BAR] + t)
    ensures a == b && s == t
  {
    SplitFixed(a, [BAR] + s, b, [BAR] + t);
    SplitFixed([BAR], s, [BAR], t);
  }

  /** Two texts cut at their first bar. */
  lemma SplitAtBar(a: Bytes, s: Bytes, b: Bytes, t: Bytes)
    requires BAR !in a && BAR !in b && a + ([BAR] + s) == b + ([BAR] + t)
    ensures a == b && s == t
  {
    var whole := a + ([BAR] + s);
    assert whole[|a|] == BAR && whole[|b|] == BAR;
    assert forall i :: 0 <= i < |a| ==> whole[i] == a[i];
    assert forall i :: 0 <= i < |b| ==> whole[i] == b[i];
    SplitFixedAtBar(a, s, b, t);
  }

  /** Everything in front of the actor can be read off the body. */
  lemma BodyFront(fmt: Formatter, p: Bytes, r: AuditRecord, p': Bytes, r': AuditRecord)
    requires |p| == |p'| && Body(fmt, p, r) == Body(fmt, p', r')
    ensures p == p' && r.sequence == r'.sequence && fmt(r.timestamp) == fmt(r'.timestamp)
    ensures r.actorID + ([BAR] + r.action) == r'.actorID + ([BAR] + r'.action)
  {
    var end, end' := r.actorID + ([BAR] + r.action), r'.actorID + ([BAR] + r'.action);
    var time, time' := fmt(r.timestamp) + ([BAR] + end), fmt(r'.timestamp) + ([BAR] + end');
    var seq8, seq8' := BigEndian(r.sequence, 8), BigEndian(r'.sequence, 8);
    hide BigEndian;
    SplitFixedAtBar(p, seq8 + ([BAR] + time), p', seq8' + ([BAR] + time'));
    SplitFixedAtBar(seq8, time, seq8', time');
    SplitAtBar(fmt(r.timestamp), end, fmt(r'.timestamp), end');
    EightBytes();
    BigEndianInjective(r.sequence, r'.sequence, 8);
  }

  /** Bodies with previous hashes of one length and actors without a bar are
      uniquely decodable. */
  lemma BodyDetermines(fmt: Formatter, p: Bytes, r: AuditRecord, p': Bytes, r': AuditRecord)
    requires |p| == |p'| && BAR !in r.actorID && BAR !in r'.actorID
    ensures Body(fmt, p, r) == Body(fmt, p', r') <==> SameFacts(fmt, p, r, p', r')
  {
    if Body(fmt, p, r) == Body(fmt, p', r') {
      BodyFront(fmt, p, r, p', r');
      SplitAtBar(r.actorID, r.action, r'.actorID, r'.action);
    }
  }

  ghost predicate Unambiguous(fmt: Formatter, p: Bytes, r: AuditRecord) {
    forall p': Bytes, r': AuditRecord ::
      |p'| == |p| && Body(fmt, p', r') == Body(fmt, p, r) ==> SameFacts(fmt, p, r, p', r')
  }

  /** Moving a bar between actor and action leaves the body alone. */
  lemma ShiftedBar(fmt: Formatter, p: Bytes, r: AuditRecord, a: Bytes, b: Bytes, c: Bytes)
    ensures Body(fmt, p, r.(actorID := a, action := b + ([BAR] + c)))
         == Body(fmt, p, r.(actorID := a + ([BAR] + b), action := c))
  {
    assert a + ([BAR] + (b + ([BAR] + c))) == (a + ([BAR] + b)) + ([BAR] + c);
  }

  lemma BarInActor(fmt: Formatter, p: Bytes, r: AuditRecord)
    requires BAR in r.actorID
    ensures !Unambiguous(fmt, p, r)
  {
    var k :| 0 <= k < |r.actorID| && r.actorID[k] == BAR;
    var a, b := r.actorID[..k], r.actorID[k + 1..];
    assert r.actorID == a + ([BAR] + b);
    ShiftedBar(fmt, p, r, a, b, r.action);
    hide Body;
    assert r == r.(actorID := a + ([BAR] + b), action := r.action);
    assert |r.(actorID := a, action := b + ([BAR] + r.action)).actorID| < |r.actorID|;
  }

  lemma BarInAction(fmt: Formatter, p: Bytes, r: AuditRecord)
    requires BAR in r.action
    ensures !Unambiguous(fmt, p, r)
  {
    var k :| 0 <= k < |r.action| && r.action[k] == BAR;
    var a, b := r.action[..k], r.action[k + 1..];
    assert r.action == a + ([BAR] + b);
    ShiftedBar(fmt, p, r, r.actorID, a, b);
    hide Body;
    assert r == r.(actorID := r.actorID, action := a + ([BAR] + b));
    assert |r.(actorID := r.actorID + ([BAR] + a), action := b).actorID| > |r.actorID|;
  }

  /** Without that condition on actors, a body tells its record from all others
      exactly when neither its actor nor its action holds a bar: the code does not
      escape the separator. */
  lemma UnambiguousExactly(fmt: Formatter, p: Bytes, r: AuditRecord)
    ensures Unambiguous(fmt, p, r) <==> BAR !in r.actorID && BAR !in r.action
  {
    if BAR in r.actorID {
      BarInActor(fmt, p, r);
    } else if BAR in r.action {
      BarInAction(fmt, p, r);
    } else {
      forall p': Bytes, r': AuditRecord | |p'| == |p| && Body(fmt, p', r') == Body(fmt, p, r)
        ensures SameFacts(fmt, p, r, p', r')
      {
        BodyFront(fmt, p, r, p', r');
        hide Body;
        var end := r.actorID + ([BAR] + r.action);
        assert end[|r'.actorID|] == BAR;
        OnlyBar(r.actorID, r.action, |r'.actorID|);
        SplitFixedAtBar(r.actorID, r.action, r'.actorID, r'.action);
      }
    }
  }

  lemma OnlyBar(a: Bytes, b: Bytes, k: nat)
    requires BAR !in a && BAR !in b
    requires k < |a + ([BAR] + b)| && (a + ([BAR] + b))[k] == BAR
    ensures k == |a|
  {
    var whole := a + ([BAR] + b);
    assert forall i :: 0 <= i < |a| ==> whole[i] == a[i];
    assert forall i :: |a| < i < |whole| ==> whole[i] == b[i - |a| - 1];
  }

  // ----- the chain -----

  const SHA256_HEX_LEN: int := 64

  function GenesisHash(): (g: Bytes)
    ensures |g| == SHA256_HEX_LEN
  {
    seq(SHA256_HEX_LEN, _ => 48)
  }

  /** Go's addition on uint64. */
  function Plus1(n: uint64): uint64 {
    (n + 1) % TWO_64
  }

  method IsLowerHex(s: Bytes) returns (ok: bool)
    ensures ok <==> LowerHex(s)
  {
    if |s| != SHA256_HEX_LEN {
      return false;
    }
    for i := 0 to |s|
      invariant forall k :: 0 <= k < i ==> IsLowerHexDigit(s[k])
    {
      if !(48 <= s[i] <= 57) && !(97 <= s[i] <= 102) {
        return false;
      }
    }
    return true;
  }

  predicate LowerHex(s: Bytes) {
    |s| == SHA256_HEX_LEN && forall i :: 0 <= i < |s| ==> IsLowerHexDigit(s[i])
  }

  /** The checks on record i, in the program's order. */
  function RecordError(sha: Hash, fmt: Formatter, chain: seq<AuditRecord>, i: nat): Option<ExportError>
    requires i < |chain|
  {
    var rec := chain[i];
    if i > 0 && rec.sequence <= chain[i - 1].sequence then Some(SequenceGap)
    else if i > 0 && rec.sequence > Plus1(chain[i - 1].sequence) then Some(SequenceGap)
    else if rec.previousHash != (if i > 0 then chain[i - 1].payloadHash else GenesisHash()) then Some(ChainBroken)
    else if !LowerHex(rec.payloadHash) then
      if |rec.payloadHash| != SHA256_HEX_LEN then Some(HashBadLength) else Some(HashNotLowerHex)
    else if RecordHash(sha, fmt, rec.previousHash, rec) != rec.payloadHash then Some(HashMismatch)
    else None
  }

  /** The first failing check over the records from i on. */
  function ErrorFrom(sha: Hash, fmt: Formatter, chain: seq<AuditRecord>, i: nat): Option<ExportError>
    requires i <= |chain|
    decreases |chain| - i
  {
    if i == |chain| then None
    else
      var err := RecordError(sha, fmt, chain, i);
      if err.Some? then err else ErrorFrom(sha, fmt, chain, i + 1)
  }

  function ChainError(sha: Hash, fmt: Formatter, chain: seq<AuditRecord>): Option<ExportError> {
    if chain == [] then Some(EmptyChain) else ErrorFrom(sha, fmt, chain, 0)
  }

  method ValidateChain(sha: Hash, fmt: Formatter, sorted: seq<AuditRecord>) returns (err: Option<ExportError>)
    ensures err == ChainError(sha, fmt, sorted)
  {
    if |sorted| == 0 {
      return Some(EmptyChain);
    }
    hide Body, HexEncode;
    for i := 0 to |sorted|
      invariant ErrorFrom(sha, fmt, sorted, i) == ErrorFrom(sha, fmt, sorted, 0)
    {
      var rec := sorted[i];
      if i > 0 && rec.sequence <= sorted[i - 1].sequence {
        return Some(SequenceGap);
      }
      if i > 0 && rec.sequence > Plus1(sorted[i - 1].sequence) {
        return Some(SequenceGap);
      }
      var wantLink := GenesisHash();
      if i > 0 {
        wantLink := sorted[i - 1].payloadHash;
      }
      if rec.previousHash != wantLink {
        return Some(ChainBroken);
      }
      var lowerHex := IsLowerHex(rec.payloadHash);
      if !lowerHex {
        if |rec.payloadHash| != SHA256_HEX_LEN {
          return Some(HashBadLength);
        }
        return Some(HashNotLowerHex);
      }
      var computed := ComputeRecordHash(sha, fmt, rec.previousHash, rec);
      if computed != rec.payloadHash {
        return Some(HashMismatch);
      }
    }
    return None;
  }

  // ----- what an accepted chain is -----

  /** Anchored at the genesis hash, linked, hashed, and numbered without a gap as
      integers: the wrap-around at the largest uint64 accepts nothing. */
  predicate Accepted(sha: Hash, fmt: Formatter, chain: seq<AuditRecord>) {
    && chain != []
    && forall i :: 0 <= i < |chain| ==> Linked(sha, fmt, chain, i)
  }

  predicate Linked(sha: Hash, fmt: Formatter, chain: seq<AuditRecord>, i: nat)
    requires i < |chain|
  {
    && chain[i].sequence == chain[0].sequence + i
    && chain[i].previousHash == (if i > 0 then chain[i - 1].payloadHash else GenesisHash())
    && chain[i].payloadHash == RecordHash(sha, fmt, chain[i].previousHash, chain[i])
  }

  lemma HashIsLowerHex(sha: Hash, fmt: Formatter, p: Bytes, rec: AuditRecord)
    ensures LowerHex(RecordHash(sha, fmt, p, rec))
  {
  }

  /** One record passes its checks, given that the one before did, exactly when it
      is linked. */
  lemma NoErrorIsLinked(sha: Hash, fmt: Formatter, chain: seq<AuditRecord>, i: nat)
    requires i < |chain| && (i > 0 ==> chain[i - 1].sequence == chain[0].sequence + (i - 1))
    ensures RecordError(sha, fmt, chain, i).None? <==> Linked(sha, fmt, chain, i)
  {
    HashIsLowerHex(sha, fmt, chain[i].previousHash, chain[i]);
    hide RecordHash, LowerHex;
  }

  lemma {:induction false} AcceptedFrom(sha: Hash, fmt: Formatter, chain: seq<AuditRecord>, i: nat)
    requires i <= |chain| && (i > 0 ==> chain[i - 1].sequence == chain[0].sequence + (i - 1))
    ensures ErrorFrom(sha, fmt, chain, i).None? <==> forall k :: i <= k < |chain| ==> Linked(sha, fmt, chain, k)
    decreases |chain| - i
  {
    if i < |chain| {
      NoErrorIsLinked(sha, fmt, chain, i);
      hide RecordError;
      if RecordError(sha, fmt, chain, i).None? { AcceptedFrom(sha, fmt, chain, i + 1); }
    }
  }

  /** validateChain accepts exactly the anchored, linked, hashed chains that are
      numbered without a gap. */
  lemma ValidateExactly(sha: Hash, fmt: Formatter, chain: seq<AuditRecord>)
    ensures ChainError(sha, fmt, chain).None? <==> Accepted(sha, fmt, chain)
  {
    if chain != [] { AcceptedFrom(sha, fmt, chain, 0); }
  }
}
