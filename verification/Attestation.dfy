/** The attestation document: what `attest` writes, what `verify_against` makes of it, and
    what that proves about two stores. */
module Attestation {
  import opened Bytes
  import opened StoreFormat
  import opened Recovery
  import opened RawReader

  const CHECKPOINT_EVERY := 4096

  // ----- Lower-case hex and its case-blind comparison

  function HexDigit(n: int): char
    requires 0 <= n < 16
  {
    "0123456789abcdef"[n]
  }

  lemma HexDigits(n: int)
    requires 0 <= n < 16
    ensures HexDigit(n) == if n < 10 then '0' + n as char else 'a' + (n - 10) as char
  {
  }

  function Hex(bytes: seq<Byte>): (s: string)
    ensures |s| == 2 * |bytes|
  {
    if bytes == [] then "" else [HexDigit(bytes[0] / 16), HexDigit(bytes[0] % 16)] + Hex(bytes[1..])
  }

  function Lower(c: char): char {
    if 'A' <= c <= 'Z' then c + ('a' - 'A') else c
  }

  predicate EqIgnoreCase(a: string, b: string) {
    |a| == |b| && forall i :: 0 <= i < |a| ==> Lower(a[i]) == Lower(b[i])
  }

  lemma DigitsApart(x: int, y: int)
    requires 0 <= x < 16 && 0 <= y < 16
    ensures Lower(HexDigit(x)) == Lower(HexDigit(y)) <==> x == y
  {
  }

  lemma EqFromSecond(x: string, y: string)
    requires |x| == |y| && |x| >= 2
    ensures EqIgnoreCase(x, y) <==> Lower(x[0]) == Lower(y[0]) && Lower(x[1]) == Lower(y[1]) && EqIgnoreCase(x[2..], y[2..])
  {
    hide Lower;
    if EqIgnoreCase(x[2..], y[2..]) {
      forall i | 2 <= i < |x| ensures Lower(x[i]) == Lower(y[i]) {
        assert x[i] == x[2..][i - 2] && y[i] == y[2..][i - 2];
      }
    }
  }

  lemma {:induction false} HexInjective(a: seq<Byte>, b: seq<Byte>)
    ensures EqIgnoreCase(Hex(a), Hex(b)) <==> a == b
  {
    hide Lower, HexDigit, EqIgnoreCase;
    if a == b {
      SelfEqual(Hex(a));
    } else if |a| == |b| {
      HexInjective(a[1..], b[1..]);
      EqFromSecond(Hex(a), Hex(b));
      assert Hex(a)[2..] == Hex(a[1..]) && Hex(b)[2..] == Hex(b[1..]);
      DigitsApart(a[0] / 16, b[0] / 16);
      DigitsApart(a[0] % 16, b[0] % 16);
      assert a == [a[0]] + a[1..] && b == [b[0]] + b[1..];
    } else {
      DifferentLengths(Hex(a), Hex(b));
    }
  }

  lemma SelfEqual(x: string)
    ensures EqIgnoreCase(x, x)
  {
  }

  lemma DifferentLengths(x: string, y: string)
    requires |x| != |y|
    ensures !EqIgnoreCase(x, y)
  {
  }

  // ----- The document

  datatype Checkpoint = Checkpoint(id: nat, chain: string)

  datatype Document = Document(storeId: string, records: nat, genesis: string, head: string, checkpoints: seq<Checkpoint>)

  /** The attested ids: every 4096th and the last. */
  predicate Attested(count: nat, id: nat) {
    id < count && (id % CHECKPOINT_EVERY == 0 || id == count - 1)
  }

  lemma AttestedIds(count: nat, id: nat)
    ensures Attested(count, id) <==> id < count && (id % 4096 == 0 || id + 1 == count)
  {
  }

  /** A document for the store as it is: one checkpoint at each attested id, in order, with
      the chain value the store holds there. */
  ghost predicate Describes(sha: Sha, a: Reader, doc: Document)
    requires a.Valid()
  {
    && doc.storeId == Hex(a.storeId)
    && doc.genesis == Hex(GenesisOf(sha, a.storeId))
    && doc.records == a.count
    && doc.head == Hex(a.Prev(sha, a.count))
    && (forall i :: 0 <= i < |doc.checkpoints| ==> Checks(a, doc.checkpoints[i]))
    && (forall i, j :: 0 <= i < j < |doc.checkpoints| ==> doc.checkpoints[i].id < doc.checkpoints[j].id)
    && (forall id :: Attested(a.count, id) ==> exists i :: 0 <= i < |doc.checkpoints| && doc.checkpoints[i].id == id)
  }

  ghost predicate Checks(a: Reader, c: Checkpoint)
    requires a.Valid()
  {
    Attested(a.count, c.id) && c.chain == Hex(a.Chain(c.id).value)
  }

  method Attest(sha: Sha, a: Reader) returns (doc: Document)
    requires a.Valid()
    ensures Describes(sha, a, doc)
  {
    hide Hex, ReadEntry, GenesisOf;
    var checkpoints: seq<Checkpoint> := [];
    var id := 0;
    while id < a.count
      invariant id % CHECKPOINT_EVERY == 0
      invariant id == CHECKPOINT_EVERY * |checkpoints|
      invariant |checkpoints| > 0 ==> CHECKPOINT_EVERY * (|checkpoints| - 1) < a.count
      invariant forall i :: 0 <= i < |checkpoints| ==>
        checkpoints[i].id == CHECKPOINT_EVERY * i && Checks(a, checkpoints[i])
    {
      checkpoints := checkpoints + [Checkpoint(id, Hex(a.Chain(id).value))];
      id := id + CHECKPOINT_EVERY;
    }
    ghost var grid := checkpoints;
    if a.count > 0 && (checkpoints == [] || checkpoints[|checkpoints| - 1].id != a.count - 1) {
      checkpoints := checkpoints + [Checkpoint(a.count - 1, Hex(a.Chain(a.count - 1).value))];
    }
    doc := Document(Hex(a.storeId), a.count, Hex(GenesisOf(sha, a.storeId)), Hex(a.Prev(sha, a.count)), checkpoints);
    forall k: nat | Attested(a.count, k)
      ensures exists i :: 0 <= i < |checkpoints| && checkpoints[i].id == k
    {
      if k % CHECKPOINT_EVERY == 0 {
        var i := k / CHECKPOINT_EVERY;
        assert i < |grid| && checkpoints[i].id == k;
      } else {
        assert checkpoints[|checkpoints| - 1].id == k;
      }
    }
  }

  // ----- The comparison

  datatype Problem = WrongStore | ShorterStore | NoCheckpoints | PastTheEnd(id: nat)

  datatype Comparison = Comparison(compared: nat, badCheckpoint: Option<nat>, problem: Option<Problem>)

  predicate Agrees(b: Reader, c: Checkpoint)
    requires b.Valid() && c.id < b.count
  {
    EqIgnoreCase(Hex(b.Chain(c.id).value), c.chain)
  }

  /** The first checkpoint the loop stops at: past the end of the store, or disagreeing. */
  function Stop(b: Reader, cs: seq<Checkpoint>, from: nat): (i: nat)
    requires b.Valid() && from <= |cs|
    ensures from <= i <= |cs|
    ensures forall j :: from <= j < i ==> cs[j].id < b.count && Agrees(b, cs[j])
    ensures i < |cs| && cs[i].id < b.count ==> !Agrees(b, cs[i])
    decreases |cs| - from
  {
    if from == |cs| then from
    else if cs[from].id < b.count && Agrees(b, cs[from]) then Stop(b, cs, from + 1)
    else from
  }

  predicate SameStore(sha: Sha, b: Reader, doc: Document) {
    EqIgnoreCase(doc.storeId, Hex(b.storeId)) && EqIgnoreCase(doc.genesis, Hex(GenesisOf(sha, b.storeId)))
  }

  /** Whether the last attested record's chain value is the document's head. */
  predicate HeadAgrees(b: Reader, doc: Document)
    requires b.Valid()
  {
    0 < doc.records <= b.count ==> EqIgnoreCase(Hex(b.Chain(doc.records - 1).value), doc.head)
  }

  /** Nothing disagreed and nothing was missing. */
  predicate Accepts(sha: Sha, b: Reader, doc: Document)
    requires b.Valid()
  {
    && SameStore(sha, b, doc)
    && doc.records <= b.count
    && HeadAgrees(b, doc)
    && (doc.checkpoints == [] ==> doc.records == 0)
    && Stop(b, doc.checkpoints, 0) == |doc.checkpoints|
  }

  /** The id a comparison of one store reports: of the checkpoint it stops at, if the store
      has that record, and otherwise of the last attested record if the head disagrees. */
  function BadCheckpoint(b: Reader, doc: Document): Option<nat>
    requires b.Valid()
  {
    var i := Stop(b, doc.checkpoints, 0);
    if i < |doc.checkpoints| && doc.checkpoints[i].id < b.count then Some(doc.checkpoints[i].id)
    else if HeadAgrees(b, doc) then None
    else Some(doc.records - 1)
  }

  method CheckAttestation(sha: Sha, b: Reader, doc: Document) returns (c: Comparison)
    requires b.Valid()
    ensures c.problem == None && c.badCheckpoint == None <==> Accepts(sha, b, doc)
    ensures c.problem == Some(WrongStore) <==> !SameStore(sha, b, doc)
    ensures !SameStore(sha, b, doc) ==> c.badCheckpoint == None && c.compared == 0
    ensures SameStore(sha, b, doc) ==>
      var i := Stop(b, doc.checkpoints, 0);
      && c.compared == (if i < |doc.checkpoints| && doc.checkpoints[i].id < b.count then i + 1 else i)
      && c.badCheckpoint == BadCheckpoint(b, doc)
      && c.problem == (if doc.records > b.count then Some(ShorterStore)
                       else if doc.checkpoints == [] && doc.records > 0 then Some(NoCheckpoints)
                       else if i < |doc.checkpoints| && doc.checkpoints[i].id >= b.count then Some(PastTheEnd(doc.checkpoints[i].id))
                       else None)
  {
    hide Hex, ReadEntry, GenesisOf, EqIgnoreCase;
    if !EqIgnoreCase(doc.storeId, Hex(b.storeId)) || !EqIgnoreCase(doc.genesis, Hex(GenesisOf(sha, b.storeId))) {
      return Comparison(0, None, Some(WrongStore));
    }
    var problem: Option<Problem> := None;
    var bad: Option<nat> := None;
    if doc.records > b.count {
      problem := Some(ShorterStore);
    }
    if doc.records > 0 && doc.records <= b.count {
      var last := doc.records - 1;
      if !EqIgnoreCase(Hex(b.Chain(last).value), doc.head) {
        bad := Some(last);
      }
    }
    if doc.checkpoints == [] && doc.records > 0 && problem == None {
      problem := Some(NoCheckpoints);
    }
    var compared := 0;
    var i := 0;
    while i < |doc.checkpoints|
      invariant i == compared <= |doc.checkpoints|
      invariant Stop(b, doc.checkpoints, 0) == Stop(b, doc.checkpoints, i)
      invariant bad == if HeadAgrees(b, doc) then None else Some(doc.records - 1)
      invariant problem == if doc.records > b.count then Some(ShorterStore)
                           else if doc.checkpoints == [] && doc.records > 0 then Some(NoCheckpoints)
                           else None
    {
      var cp := doc.checkpoints[i];
      if cp.id >= b.count {
        if problem == None {
          problem := Some(PastTheEnd(cp.id));
        }
        break;
      }
      compared := compared + 1;
      if !EqIgnoreCase(Hex(b.Chain(cp.id).value), cp.chain) {
        bad := Some(cp.id);
        break;
      }
      i := i + 1;
    }
    c := Comparison(compared, bad, problem);
  }

  // ----- What the comparison proves

  /** The hash keeps apart what these two stores hash at one id: their bytes, and what their
      chain values are computed from. (No hash of fixed width is injective everywhere.) */
  ghost predicate NoCollisionAt(sha: Sha, a: Reader, b: Reader, i: nat)
    requires a.Valid() && b.Valid() && i < a.count && i < b.count
  {
    && a.Get(i).Some? && b.Get(i).Some?
    && var x, y := a.Get(i).value, b.Get(i).value;
      && (sha(x.bytes) == sha(y.bytes) ==> x.bytes == y.bytes)
      && (ChainStep(sha, a.Prev(sha, i), x.digest) == ChainStep(sha, b.Prev(sha, i), y.digest)
          ==> a.Prev(sha, i) + x.digest == b.Prev(sha, i) + y.digest)
  }

  lemma ConcatInjective(a: Digest, b: Digest, c: Digest, d: Digest)
    requires a + b == c + d
    ensures a == c && b == d
  {
    assert a == (a + b)[..32] && c == (c + d)[..32];
    assert b == (a + b)[32..] && d == (c + d)[32..];
  }

  /** A record in order: read back, hashing to its digest, linked to its predecessor. */
  lemma InOrder(sha: Sha, a: Reader, i: nat)
    requires a.Valid() && i < a.count && a.Fault(sha, i) == None
    ensures a.Get(i).Some? && a.Get(i).value.digest == sha(a.Get(i).value.bytes)
    ensures a.Chain(i) == Some(ChainStep(sha, a.Prev(sha, i), a.Get(i).value.digest))
    ensures a.Prev(sha, i + 1) == a.Chain(i).value
  {
    hide Reader.Get, ReadEntry, ChainStep, GenesisOf;
  }

  /** One link both ways: the chain values agree exactly when the predecessors' do and the
      bytes do. */
  lemma LinkIff(sha: Sha, a: Reader, b: Reader, i: nat)
    requires a.Valid() && b.Valid() && i < a.count && i < b.count
    requires a.Fault(sha, i) == None && b.Fault(sha, i) == None
    requires NoCollisionAt(sha, a, b, i)
    ensures a.Chain(i) == b.Chain(i)
       <==> a.Prev(sha, i) == b.Prev(sha, i) && a.Get(i).value.bytes == b.Get(i).value.bytes
  {
    hide Reader.Get, Reader.Chain, Reader.Prev, Reader.Fault, ChainStep;
    InOrder(sha, a, i);
    InOrder(sha, b, i);
    if a.Chain(i) == b.Chain(i) {
      ConcatInjective(a.Prev(sha, i), a.Get(i).value.digest, b.Prev(sha, i), b.Get(i).value.digest);
    }
  }

  ghost predicate SameBytes(a: Reader, b: Reader, i: nat)
    requires a.Valid() && b.Valid() && i < a.count && i < b.count
  {
    a.Get(i).Some? && b.Get(i).Some? && a.Get(i).value.bytes == b.Get(i).value.bytes
  }

  /** Two stores that verify, as far as `n` records: of one genesis, with nothing at fault
      and nothing colliding. */
  ghost predicate Comparable(sha: Sha, a: Reader, b: Reader, n: nat) {
    && a.Valid() && b.Valid() && n <= a.count && n <= b.count
    && a.storeId == b.storeId
    && forall i :: 0 <= i < n ==>
        a.Fault(sha, i) == None && b.Fault(sha, i) == None && NoCollisionAt(sha, a, b, i)
  }

  /** The chain value at one id stands for every byte of every record up to it: it agrees
      exactly when all of them do. */
  lemma {:induction false} ChainIffBytes(sha: Sha, a: Reader, b: Reader, n: nat)
    requires Comparable(sha, a, b, n)
    ensures a.Prev(sha, n) == b.Prev(sha, n) <==> forall i :: 0 <= i < n ==> SameBytes(a, b, i)
  {
    hide Reader.Get, Reader.Chain, Reader.Fault, ChainStep, GenesisOf;
    if n > 0 {
      ChainIffBytes(sha, a, b, n - 1);
      var last := n - 1;
      assert NoCollisionAt(sha, a, b, last);
      LinkIff(sha, a, b, last);
      assert a.Prev(sha, n) == b.Prev(sha, n) <==> a.Chain(last) == b.Chain(last);
      assert SameBytes(a, b, last) <==> a.Get(last).value.bytes == b.Get(last).value.bytes;
      assert (forall i :: 0 <= i < n ==> SameBytes(a, b, i))
        <==> (forall i :: 0 <= i < last ==> SameBytes(a, b, i)) && SameBytes(a, b, last);
    }
  }

  /** Soundness. If a store verifies and agrees with another's attestation, its first
      `records` records hold the same bytes. */
  lemma AttestationSound(sha: Sha, a: Reader, b: Reader, doc: Document)
    requires a.Valid() && b.Valid() && Describes(sha, a, doc)
    requires Accepts(sha, b, doc)
    requires forall i :: 0 <= i < a.count ==>
      a.Fault(sha, i) == None && b.Fault(sha, i) == None && NoCollisionAt(sha, a, b, i)
    ensures forall i :: 0 <= i < doc.records ==> SameBytes(a, b, i)
  {
    hide Reader.Get, Reader.Chain, Reader.Fault, ChainStep, GenesisOf, Hex, EqIgnoreCase;
    HexInjective(a.storeId, b.storeId);
    if a.count > 0 {
      HexInjective(b.Chain(a.count - 1).value, a.Prev(sha, a.count));
      ChainIffBytes(sha, a, b, a.count);
    }
  }

  /** Agreement, exactly: a store that verifies is accepted if and only if it has the same
      identity, at least as many records, and the same bytes in each of those attested. */
  lemma AttestationExact(sha: Sha, a: Reader, b: Reader, doc: Document)
    requires a.Valid() && b.Valid() && Describes(sha, a, doc)
    requires forall i :: 0 <= i < a.count && i < b.count ==>
      a.Fault(sha, i) == None && b.Fault(sha, i) == None && NoCollisionAt(sha, a, b, i)
    ensures Accepts(sha, b, doc) <==>
      a.storeId == b.storeId && a.count <= b.count && forall i :: 0 <= i < a.count ==> SameBytes(a, b, i)
  {
    hide Reader.Get, Reader.Chain, Reader.Fault, ChainStep, GenesisOf, Hex, EqIgnoreCase, NoCollisionAt, SameBytes;
    HexInjective(a.storeId, b.storeId);
    if Accepts(sha, b, doc) {
      AttestationSound(sha, a, b, doc);
    }
    if a.storeId == b.storeId && a.count <= b.count && forall i :: 0 <= i < a.count ==> SameBytes(a, b, i) {
      OwnAccepted(sha, a, b, doc);
    }
  }

  /** The chain value at an attested id of a store with the same bytes is the attested one. */
  lemma {:induction false} OwnAccepted(sha: Sha, a: Reader, b: Reader, doc: Document)
    requires a.Valid() && b.Valid() && Describes(sha, a, doc)
    requires Comparable(sha, a, b, a.count) && forall i :: 0 <= i < a.count ==> SameBytes(a, b, i)
    ensures Accepts(sha, b, doc)
  {
    hide Reader.Get, Reader.Chain, Reader.Fault, ChainStep, GenesisOf, Hex, EqIgnoreCase, NoCollisionAt, SameBytes;
    HexInjective(a.storeId, b.storeId);
    HexInjective(GenesisOf(sha, a.storeId), GenesisOf(sha, b.storeId));
    forall j | 0 <= j < |doc.checkpoints|
      ensures doc.checkpoints[j].id < b.count && Agrees(b, doc.checkpoints[j])
    {
      var id := doc.checkpoints[j].id;
      assert Checks(a, doc.checkpoints[j]);
      ChainIffBytes(sha, a, b, id + 1);
      HexInjective(b.Chain(id).value, a.Chain(id).value);
    }
    if a.count > 0 {
      ChainIffBytes(sha, a, b, a.count);
      HexInjective(b.Chain(a.count - 1).value, a.Prev(sha, a.count));
      assert Attested(a.count, a.count - 1);
    }
    StopsNowhere(b, doc.checkpoints, 0);
  }

  lemma {:induction false} StopsNowhere(b: Reader, cs: seq<Checkpoint>, from: nat)
    requires b.Valid() && from <= |cs| && forall j :: from <= j < |cs| ==> cs[j].id < b.count && Agrees(b, cs[j])
    ensures Stop(b, cs, from) == |cs|
    decreases |cs| - from
  {
    hide Agrees;
    if from < |cs| {
      StopsNowhere(b, cs, from + 1);
    }
  }

  /** Location. If a store that verifies differs from the attested one first at record `n`,
      the comparison reports exactly the least attested id at or after `n`. */
  lemma AttestationLocates(sha: Sha, a: Reader, b: Reader, doc: Document, n: nat)
    requires a.Valid() && b.Valid() && Describes(sha, a, doc)
    requires a.storeId == b.storeId
    requires n < doc.records <= b.count
    requires forall i :: 0 <= i < doc.records ==>
      a.Fault(sha, i) == None && b.Fault(sha, i) == None && NoCollisionAt(sha, a, b, i)
    requires !SameBytes(a, b, n) && forall i :: 0 <= i < n ==> SameBytes(a, b, i)
    ensures SameStore(sha, b, doc)
    ensures exists id :: BadCheckpoint(b, doc) == Some(id) && NextAttested(a.count, n, id)
  {
    hide Reader.Get, Reader.Chain, Reader.Fault, ChainStep, GenesisOf, Hex, EqIgnoreCase, Stop, NoCollisionAt, SameBytes;
    var id := LeastAttested(a.count, n);
    var c :| 0 <= c < |doc.checkpoints| && doc.checkpoints[c].id == id;
    forall j | 0 <= j < c ensures doc.checkpoints[j].id < n {
      assert Checks(a, doc.checkpoints[j]) && doc.checkpoints[j].id < doc.checkpoints[c].id;
    }
    StopsAt(sha, a, b, doc, n, c);
    assert BadCheckpoint(b, doc) == Some(id);
  }

  /** The first attested id at or after `n`. */
  ghost predicate NextAttested(count: nat, n: nat, id: nat) {
    n <= id && Attested(count, id) && forall k :: n <= k < id ==> !Attested(count, k)
  }

  lemma LeastAttested(count: nat, n: nat) returns (id: nat)
    requires n < count
    ensures NextAttested(count, n, id)
  {
    id := n;
    while !Attested(count, id)
      invariant n <= id < count
      invariant forall k :: n <= k < id ==> !Attested(count, k)
      decreases count - id
    {
      id := id + 1;
    }
  }

  /** The comparison stops at the first checkpoint at or after the first record that differs. */
  lemma {:induction false} StopsAt(sha: Sha, a: Reader, b: Reader, doc: Document, n: nat, c: nat)
    requires a.Valid() && b.Valid() && Describes(sha, a, doc)
    requires a.storeId == b.storeId
    requires c < |doc.checkpoints| && n <= doc.checkpoints[c].id < b.count
    requires forall j :: 0 <= j < c ==> doc.checkpoints[j].id < n
    requires forall i :: 0 <= i <= doc.checkpoints[c].id ==>
      a.Fault(sha, i) == None && b.Fault(sha, i) == None && NoCollisionAt(sha, a, b, i)
    requires !SameBytes(a, b, n) && forall i :: 0 <= i < n ==> SameBytes(a, b, i)
    ensures SameStore(sha, b, doc) && Stop(b, doc.checkpoints, 0) == c
  {
    hide Reader.Get, Reader.Chain, Reader.Fault, ChainStep, GenesisOf, Hex, EqIgnoreCase;
    HexInjective(a.storeId, b.storeId);
    HexInjective(GenesisOf(sha, a.storeId), GenesisOf(sha, b.storeId));
    forall j | 0 <= j <= c
      ensures doc.checkpoints[j].id < b.count
      ensures Agrees(b, doc.checkpoints[j]) <==> j < c
    {
      var id := doc.checkpoints[j].id;
      assert Checks(a, doc.checkpoints[j]);
      assert j < c ==> id < doc.checkpoints[c].id;
      ChainIffBytes(sha, a, b, id + 1);
      HexInjective(b.Chain(id).value, a.Chain(id).value);
      if j == c {
        assert !SameBytes(a, b, n);
      }
    }
    StopIs(b, doc.checkpoints, 0, c);
  }

  lemma {:induction false} StopIs(b: Reader, cs: seq<Checkpoint>, from: nat, c: nat)
    requires b.Valid() && from <= c < |cs|
    requires forall j :: from <= j <= c ==> cs[j].id < b.count && (Agrees(b, cs[j]) <==> j < c)
    ensures Stop(b, cs, from) == c
    decreases c - from
  {
    hide Agrees;
    if from < c {
      StopIs(b, cs, from + 1, c);
    }
  }

  // ----- What the chain does not cover

  /** The receipt time and the source of a record enter neither its digest nor any chain
      value: a store that differs from an honest one in those header fields alone has the
      same chain, and every record of it still verifies. */
  lemma {:induction false} ReceiptAndSourceUncovered(sha: Sha, genesis: Digest, recs: seq<Rec>, i: nat, receipt: I64, source: U32)
    requires i < |recs|
    ensures var forged := recs[i := recs[i].(receipt := receipt, source := source)];
      && ChainOf(sha, genesis, forged) == ChainOf(sha, genesis, recs)
      && (HonestFrom(sha, recs, 0) <==> HonestFrom(sha, forged, 0))
    decreases |recs|
  {
    var forged := recs[i := recs[i].(receipt := receipt, source := source)];
    var last := |recs| - 1;
    if i == last {
      assert forged[..last] == recs[..last];
    } else {
      ReceiptAndSourceUncovered(sha, genesis, recs[..last], i, receipt, source);
      assert forged[..last] == recs[..last][i := recs[i].(receipt := receipt, source := source)];
    }
    assert forall j :: 0 <= j < |recs| ==> forged[j].bytes == recs[j].bytes && forged[j].digest == recs[j].digest;
  }
}
