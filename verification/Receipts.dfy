/** The receipt chain of src/receipts.rs: signing, verifying a file, checkpoints, and what
    the hash of the last receipt pins down.  The hash and the signature are parameters. */
module Receipts {
  import opened Basics

  datatype Status = Success | ToolError | PolicyVetoed | TimedOut

  /** What the caller supplies for one receipt, hashes of input and output included. */
  datatype Call = Call(timestamp: string, session: string, tool: string, schemaHash: string,
                       inputHash: string, outputHash: string, durationUs: nat, status: Status)

  datatype Receipt = Receipt(version: nat, sequence: nat, prevHash: string, call: Call)

  datatype Signed = Signed(receipt: Receipt, hash: string, signature: string, signer: string)

  /** `ExecutionReceipt::compute_hash` and `hmac_sha256`. */
  datatype Crypto = Crypto(hash: Receipt -> string, mac: (string, string) -> string)

  function Zeros(n: nat): string { if n == 0 then "" else "0" + Zeros(n - 1) }

  /** Sixty-four zeros: what the first receipt points back to. */
  const GENESIS := Zeros(64)

  function Sign(c: Crypto, key: string, signer: string, r: Receipt): Signed {
    Signed(r, c.hash(r), c.mac(key, c.hash(r)), signer)
  }

  /** `SignedReceiptRecord::verify`. */
  predicate Genuine(c: Crypto, key: Option<string>, s: Signed) {
    c.hash(s.receipt) == s.hash && (key.Some? ==> s.signature == c.mac(key.value, s.hash))
  }

  // ---------------------------------------------------------------- chains

  /** The hash the record at position `i` has to point back to. */
  function Tip(rs: seq<Signed>, i: nat): string
    requires i <= |rs|
  {
    if i == 0 then GENESIS else rs[i - 1].hash
  }

  predicate Linked(c: Crypto, key: Option<string>, rs: seq<Signed>, i: nat)
    requires i < |rs|
  {
    rs[i].receipt.sequence == i + 1 && rs[i].receipt.prevHash == Tip(rs, i) && Genuine(c, key, rs[i])
  }

  /** Numbered from one, each record pointing to the one before it, each genuine. */
  ghost predicate IsChain(c: Crypto, key: Option<string>, rs: seq<Signed>) {
    forall i | 0 <= i < |rs| :: Linked(c, key, rs, i)
  }

  lemma ChainSnoc(c: Crypto, key: Option<string>, rs: seq<Signed>, s: Signed)
    ensures IsChain(c, key, rs + [s]) <==>
      IsChain(c, key, rs) && s.receipt.sequence == |rs| + 1 && s.receipt.prevHash == Tip(rs, |rs|) && Genuine(c, key, s)
  {
    var all := rs + [s];
    assert forall i | 0 <= i < |rs| :: Linked(c, key, all, i) == Linked(c, key, rs, i);
    if IsChain(c, key, all) {
      assert Linked(c, key, all, |rs|);
      forall i | 0 <= i < |rs| ensures Linked(c, key, rs, i) {
        assert Linked(c, key, all, i);
      }
    }
  }

  // ---------------------------------------------------------------- verifying a file

  /** A line of the file after trimming. */
  datatype Line = Blank | Corrupt | Record(record: Signed)

  datatype Summary = Summary(count: nat, lastHash: string, signaturesVerified: bool)

  datatype Fault = CorruptJson | SequenceBroken | ChainBroken | SignatureFailed

  datatype Verdict = Verified(summary: Summary) | Rejected(line: nat, fault: Fault)

  function Records(lines: seq<Line>): seq<Signed> {
    if lines == [] then [] else
      var l := lines[|lines| - 1];
      Records(lines[..|lines| - 1]) + (if l.Record? then [l.record] else [])
  }

  ghost predicate FileIsChain(c: Crypto, key: Option<string>, lines: seq<Line>) {
    Corrupt !in lines && IsChain(c, key, Records(lines))
  }

  /** What is wrong with a line that follows the chain `rs`. */
  predicate HasFault(c: Crypto, key: Option<string>, rs: seq<Signed>, l: Line, fault: Fault) {
    match fault
    case CorruptJson => l.Corrupt?
    case SequenceBroken => l.Record? && l.record.receipt.sequence != |rs| + 1
    case ChainBroken => l.Record? && l.record.receipt.sequence == |rs| + 1 && l.record.receipt.prevHash != Tip(rs, |rs|)
    case SignatureFailed =>
      && l.Record? && l.record.receipt.sequence == |rs| + 1 && l.record.receipt.prevHash == Tip(rs, |rs|)
      && !Genuine(c, key, l.record)
  }

  /** One more line keeps a good file good exactly when it is blank or the next record. */
  lemma FileStep(c: Crypto, key: Option<string>, lines: seq<Line>, i: nat)
    requires i < |lines|
    ensures var l, rs := lines[i], Records(lines[..i]);
      && Records(lines[..i + 1]) == (if l.Record? then rs + [l.record] else rs)
      && (FileIsChain(c, key, lines[..i + 1]) <==>
            FileIsChain(c, key, lines[..i]) && forall fault :: !HasFault(c, key, rs, l, fault))
  {
    var l, rs := lines[i], Records(lines[..i]);
    assert lines[..i + 1] == lines[..i] + [l];
    assert lines[..i + 1][..i] == lines[..i];
    if l.Record? {
      ChainSnoc(c, key, rs, l.record);
      assert HasFault(c, key, rs, l, SequenceBroken) <==> l.record.receipt.sequence != |rs| + 1;
      assert HasFault(c, key, rs, l, ChainBroken) || HasFault(c, key, rs, l, SequenceBroken)
        <==> !(l.record.receipt.sequence == |rs| + 1 && l.record.receipt.prevHash == Tip(rs, |rs|));
      assert HasFault(c, key, rs, l, SignatureFailed) ==> !Genuine(c, key, l.record);
    } else {
      assert HasFault(c, key, rs, l, CorruptJson) <==> l.Corrupt?;
    }
  }

  lemma {:induction false} PrefixesAreChains(c: Crypto, key: Option<string>, lines: seq<Line>, i: nat, k: nat)
    requires i <= k <= |lines| && FileIsChain(c, key, lines[..k])
    ensures FileIsChain(c, key, lines[..i])
    decreases k
  {
    if i < k {
      FileStep(c, key, lines, k - 1);
      PrefixesAreChains(c, key, lines, i, k - 1);
    }
  }

  /** `verify_receipt_chain_file`: accepts exactly the files that hold a chain, sums the chain
      up, and otherwise names the first line that breaks it and how. */
  method VerifyFile(c: Crypto, key: Option<string>, file: Option<seq<Line>>) returns (v: Verdict)
    ensures file.None? ==> v == Verified(Summary(0, GENESIS, key.Some?))
    ensures file.Some? ==> (v.Verified? <==> FileIsChain(c, key, file.value))
    ensures file.Some? && v.Verified? ==>
      var rs := Records(file.value);
      v.summary == Summary(|rs|, Tip(rs, |rs|), key.Some?)
    ensures file.Some? && v.Rejected? ==>
      && v.line < |file.value| && FileIsChain(c, key, file.value[..v.line])
      && HasFault(c, key, Records(file.value[..v.line]), file.value[v.line], v.fault)
  {
    if file.None? {
      return Verified(Summary(0, GENESIS, key.Some?));
    }
    var lines := file.value;
    var expectedSeq := 1;
    var expectedPrevHash := GENESIS;
    var total := 0;
    for i := 0 to |lines|
      invariant FileIsChain(c, key, lines[..i])
      invariant total == |Records(lines[..i])| && expectedSeq == total + 1
      invariant expectedPrevHash == Tip(Records(lines[..i]), total)
    {
      ghost var rs := Records(lines[..i]);
      FileStep(c, key, lines, i);
      var fault: Option<Fault> := None;
      match lines[i] {
        case Blank =>
        case Corrupt =>
          fault := Some(CorruptJson);
        case Record(record) =>
          if record.receipt.sequence != expectedSeq {
            fault := Some(SequenceBroken);
          } else if record.receipt.prevHash != expectedPrevHash {
            fault := Some(ChainBroken);
          } else if !Genuine(c, key, record) {
            fault := Some(SignatureFailed);
          } else {
            expectedPrevHash := record.hash;
            expectedSeq := expectedSeq + 1;
            total := total + 1;
          }
      }
      if fault.Some? {
        assert HasFault(c, key, rs, lines[i], fault.value);
        if FileIsChain(c, key, lines[..|lines|]) {
          PrefixesAreChains(c, key, lines, i + 1, |lines|);
        }
        assert lines[..|lines|] == lines;
        return Rejected(i, fault.value);
      }
      assert forall f :: !HasFault(c, key, rs, lines[i], f);
    }
    assert lines[..|lines|] == lines;
    v := Verified(Summary(total, expectedPrevHash, key.Some?));
  }

  // ---------------------------------------------------------------- the last hash decides

  ghost predicate NoCollision(c: Crypto, a: seq<Signed>, b: seq<Signed>) {
    forall i, j | 0 <= i < |a| && 0 <= j < |b| ::
      c.hash(a[i].receipt) == c.hash(b[j].receipt) ==> a[i].receipt == b[j].receipt
  }

  ghost predicate NoGenesis(c: Crypto, a: seq<Signed>) {
    forall i | 0 <= i < |a| :: c.hash(a[i].receipt) != GENESIS
  }

  /** Two verified chains with the same last hash hold the same receipts at every position,
      as long as no two of their receipts collide and none hashes to the genesis value. */
  lemma {:induction false} TipDeterminesChain(c: Crypto, k: Option<string>, a: seq<Signed>, l: Option<string>, b: seq<Signed>)
    requires IsChain(c, k, a) && IsChain(c, l, b) && Tip(a, |a|) == Tip(b, |b|)
    requires NoCollision(c, a, b) && NoGenesis(c, a) && NoGenesis(c, b)
    ensures |a| == |b| && forall i | 0 <= i < |a| :: a[i].receipt == b[i].receipt
    decreases |a|
  {
    if a == [] || b == [] {
      EmptyTogether(c, k, a, l, b);
    } else {
      LastReceiptsAgree(c, k, a, l, b);
      PrefixesClean(c, a, b);
      TipDeterminesChain(c, k, a[..|a| - 1], l, b[..|b| - 1]);
      SameUpToLast(a, b);
    }
  }

  lemma SameUpToLast(a: seq<Signed>, b: seq<Signed>)
    requires a != [] && |a| == |b| && a[|a| - 1].receipt == b[|b| - 1].receipt
    requires var a', b' := a[..|a| - 1], b[..|b| - 1]; forall i | 0 <= i < |a'| :: a'[i].receipt == b'[i].receipt
    ensures forall i | 0 <= i < |a| :: a[i].receipt == b[i].receipt
  {
    forall i | 0 <= i < |a| ensures a[i].receipt == b[i].receipt {
      if i < |a| - 1 {
        assert a[..|a| - 1][i] == a[i] && b[..|b| - 1][i] == b[i];
      }
    }
  }

  lemma EmptyTogether(c: Crypto, k: Option<string>, a: seq<Signed>, l: Option<string>, b: seq<Signed>)
    requires IsChain(c, k, a) && IsChain(c, l, b) && Tip(a, |a|) == Tip(b, |b|)
    requires NoGenesis(c, a) && NoGenesis(c, b) && (a == [] || b == [])
    ensures a == [] && b == []
  {
    if a != [] {
      LastLink(c, k, a);
    }
    if b != [] {
      LastLink(c, l, b);
    }
  }

  lemma LastReceiptsAgree(c: Crypto, k: Option<string>, a: seq<Signed>, l: Option<string>, b: seq<Signed>)
    requires a != [] && b != [] && IsChain(c, k, a) && IsChain(c, l, b) && Tip(a, |a|) == Tip(b, |b|)
    requires NoCollision(c, a, b)
    ensures a[|a| - 1].receipt == b[|b| - 1].receipt
    ensures IsChain(c, k, a[..|a| - 1]) && IsChain(c, l, b[..|b| - 1])
    ensures Tip(a[..|a| - 1], |a| - 1) == Tip(b[..|b| - 1], |b| - 1)
  {
    LastLink(c, k, a);
    LastLink(c, l, b);
    assert c.hash(a[|a| - 1].receipt) == c.hash(b[|b| - 1].receipt);
  }

  lemma PrefixesClean(c: Crypto, a: seq<Signed>, b: seq<Signed>)
    requires a != [] && b != [] && NoCollision(c, a, b) && NoGenesis(c, a) && NoGenesis(c, b)
    ensures NoCollision(c, a[..|a| - 1], b[..|b| - 1])
    ensures NoGenesis(c, a[..|a| - 1]) && NoGenesis(c, b[..|b| - 1])
  {
  }

  lemma LastLink(c: Crypto, k: Option<string>, a: seq<Signed>)
    requires a != [] && IsChain(c, k, a)
    ensures var init, s := a[..|a| - 1], a[|a| - 1];
      IsChain(c, k, init) && s.receipt.prevHash == Tip(init, |init|) && Genuine(c, k, s)
  {
    assert a == a[..|a| - 1] + [a[|a| - 1]];
    ChainSnoc(c, k, a[..|a| - 1], a[|a| - 1]);
  }

  datatype Checkpoint = Checkpoint(sequence: nat, lastHash: string, signer: string)

  function CheckpointOf(s: Summary, signer: string): Checkpoint { Checkpoint(s.count, s.lastHash, signer) }

  predicate Meets(s: Summary, p: Checkpoint) { s.count == p.sequence && s.lastHash == p.lastHash }

  function SummaryOf(key: Option<string>, rs: seq<Signed>): Summary { Summary(|rs|, Tip(rs, |rs|), key.Some?) }

  /** Sixty-four zeros come before the first receipt. */
  lemma {:induction false} ZerosAre(n: nat)
    ensures |Zeros(n)| == n && forall k | 0 <= k < n :: Zeros(n)[k] == '0'
  {
    if n > 0 {
      ZerosAre(n - 1);
    }
  }

  /** A chain that starts from sixty-four zeros and signs each receipt verifies, with its key and
      without one; a key only adds a demand; another key is refused when its signature of the
      first receipt differs. */
  lemma SignedChainVerifies(c: Crypto, key: string, other: string, signer: string, rs: seq<Receipt>)
    requires forall i | 0 <= i < |rs| :: rs[i].sequence == i + 1
    requires forall i | 0 <= i < |rs| :: rs[i].prevHash == if i == 0 then GENESIS else c.hash(rs[i - 1])
    ensures |GENESIS| == 64 && forall k | 0 <= k < 64 :: GENESIS[k] == '0'
    ensures IsChain(c, Some(key), SignAll(c, key, signer, rs)) && IsChain(c, None, SignAll(c, key, signer, rs))
    ensures rs != [] && c.mac(other, c.hash(rs[0])) != c.mac(key, c.hash(rs[0]))
        ==> !IsChain(c, Some(other), SignAll(c, key, signer, rs))
  {
    ZerosAre(64);
    var chain := SignAll(c, key, signer, rs);
    forall i | 0 <= i < |rs| ensures Linked(c, Some(key), chain, i) && Linked(c, None, chain, i) {
      assert chain[i] == Sign(c, key, signer, rs[i]);
      assert i > 0 ==> chain[i - 1] == Sign(c, key, signer, rs[i - 1]);
      assert chain[i].receipt.prevHash == rs[i].prevHash == Tip(chain, i);
    }
    if rs != [] && c.mac(other, c.hash(rs[0])) != c.mac(key, c.hash(rs[0])) {
      assert !Linked(c, Some(other), chain, 0);
    }
  }

  function SignAll(c: Crypto, key: string, signer: string, rs: seq<Receipt>): seq<Signed> {
    seq(|rs|, i requires 0 <= i < |rs| => Sign(c, key, signer, rs[i]))
  }

  lemma KeyOnlyAdds(c: Crypto, key: string, a: seq<Signed>)
    requires IsChain(c, Some(key), a)
    ensures IsChain(c, None, a)
  {
    forall i | 0 <= i < |a| ensures Linked(c, None, a, i) {
      assert Linked(c, Some(key), a, i);
    }
  }

  /** Another chain meets the checkpoint of `b` exactly when it has as many receipts and the same
      last hash; in particular `b` meets its own, whoever took it. */
  lemma MeetsIff(k: Option<string>, a: seq<Signed>, l: Option<string>, b: seq<Signed>, signer: string)
    ensures Meets(SummaryOf(k, a), CheckpointOf(SummaryOf(l, b), signer)) <==> |a| == |b| && Tip(a, |a|) == Tip(b, |b|)
    ensures Meets(SummaryOf(k, b), CheckpointOf(SummaryOf(l, b), signer))
  {
  }

  /** A checkpoint fixes the whole chain, whoever signed it and with whatever key it is read. */
  lemma CheckpointFixesChain(c: Crypto, k: Option<string>, a: seq<Signed>, l: Option<string>, b: seq<Signed>, p: Checkpoint)
    requires IsChain(c, k, a) && IsChain(c, l, b)
    requires Meets(SummaryOf(k, a), p) && Meets(SummaryOf(l, b), p)
    requires NoCollision(c, a, b) && NoGenesis(c, a) && NoGenesis(c, b)
    ensures |a| == |b| && forall i | 0 <= i < |a| :: a[i].receipt == b[i].receipt
  {
    TipDeterminesChain(c, k, a, l, b);
  }

  /** A truncated chain still verifies, but misses the checkpoint, by its last hash alone. */
  lemma TruncationMissesCheckpoint(c: Crypto, k: Option<string>, a: seq<Signed>, n: nat, signer: string)
    requires IsChain(c, k, a) && n < |a|
    requires NoCollision(c, a, a) && NoGenesis(c, a)
    ensures IsChain(c, k, a[..n])
    ensures !Meets(SummaryOf(k, a[..n]), CheckpointOf(SummaryOf(k, a), signer))
    ensures Tip(a[..n], n) != Tip(a, |a|)
  {
    forall i | 0 <= i < n ensures Linked(c, k, a[..n], i) {
      assert Linked(c, k, a, i);
    }
    if Tip(a[..n], n) == Tip(a, |a|) {
      TipDeterminesChain(c, k, a[..n], k, a);
    }
  }

  /** The signer's name is outside the hash and the signature: renaming it goes unnoticed. */
  lemma SignerIsNotProtected(c: Crypto, k: Option<string>, a: seq<Signed>, b: seq<Signed>)
    requires |a| == |b| && forall i | 0 <= i < |a| :: b[i] == a[i].(signer := b[i].signer)
    ensures IsChain(c, k, a) <==> IsChain(c, k, b)
    ensures SummaryOf(k, a) == SummaryOf(k, b)
  {
    forall i | 0 <= i < |a| ensures Linked(c, k, a, i) <==> Linked(c, k, b, i) {
      assert i > 0 ==> b[i - 1] == a[i - 1].(signer := b[i - 1].signer);
    }
    if a != [] {
      assert b[|a| - 1] == a[|a| - 1].(signer := b[|a| - 1].signer);
    }
  }

  /** Exactly what the last hash protects, for chains verified with one key: equal tips mean
      records that are equal at every position except for the name of the signer. */
  lemma SameTipIff(c: Crypto, key: string, a: seq<Signed>, b: seq<Signed>)
    requires IsChain(c, Some(key), a) && IsChain(c, Some(key), b)
    requires NoCollision(c, a, b) && NoGenesis(c, a) && NoGenesis(c, b)
    ensures Tip(a, |a|) == Tip(b, |b|)
       <==> |a| == |b| && forall i | 0 <= i < |a| :: b[i] == a[i].(signer := b[i].signer)
  {
    if Tip(a, |a|) == Tip(b, |b|) {
      TipDeterminesChain(c, Some(key), a, Some(key), b);
      forall i | 0 <= i < |a| ensures b[i] == a[i].(signer := b[i].signer) {
        assert Linked(c, Some(key), a, i) && Linked(c, Some(key), b, i);
      }
    } else if |a| == |b| && a != [] {
      var last := |a| - 1;
      assert a[last].hash != b[last].hash;
    }
  }
}
