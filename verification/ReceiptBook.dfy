/** The receipt book of src/receipts.rs over its file: open, record, reopen, and appends
    that go wrong. */
module ReceiptBook {
  import opened Basics
  import opened Receipts

  /** What appending a line comes to: written and synced, failed before any byte was
      written, or written while the sync that follows reports an error. */
  datatype Io = Written | NotWritten | WrittenNotSynced

  /** What the book keeps in memory. */
  datatype Memory = Memory(sequence: nat, prevHash: string)

  /** The records in the file, and the open book if there is one. */
  datatype World = World(file: seq<Signed>, book: Option<Memory>)

  datatype Event = Reopen | Append(call: Call, io: Io)

  /** One book: hash, key and signer name. */
  datatype Owner = Owner(crypto: Crypto, key: string, signer: string)

  const START := World([], None)

  function NextRecord(o: Owner, m: Memory, call: Call): Signed {
    Sign(o.crypto, o.key, o.signer, Receipt(1, m.sequence, m.prevHash, call))
  }

  ghost predicate Intact(o: Owner, file: seq<Signed>) { IsChain(o.crypto, Some(o.key), file) }

  function Recorded(m: Memory, s: Signed): Memory { Memory(m.sequence + 1, s.hash) }

  ghost function Opened(o: Owner, file: seq<Signed>): Option<Memory> {
    if Intact(o, file) then Some(Memory(|file| + 1, Tip(file, |file|))) else None
  }

  ghost function After(o: Owner, w: World, e: Event): World {
    match e
    case Reopen => w.(book := Opened(o, w.file))
    case Append(call, io) =>
      if w.book.None? then w else
        var s := NextRecord(o, w.book.value, call);
        match io
        case Written => World(w.file + [s], Some(Recorded(w.book.value, s)))
        case NotWritten => w
        case WrittenNotSynced => w.(file := w.file + [s])
  }

  ghost function Run(o: Owner, es: seq<Event>): World {
    if es == [] then START else After(o, Run(o, es[..|es| - 1]), es[|es| - 1])
  }

  /** The memory agrees with the file. */
  ghost predicate InStep(o: Owner, w: World) {
    Intact(o, w.file) && (w.book.Some? ==> w.book == Opened(o, w.file))
  }

  /** The file holds one record more than the memory knows of. */
  ghost predicate Behind(o: Owner, w: World) {
    && Intact(o, w.file) && w.file != []
    && w.book == Some(Memory(|w.file|, Tip(w.file, |w.file| - 1)))
  }

  lemma AppendInStep(o: Owner, w: World, call: Call)
    requires InStep(o, w) && w.book.Some?
    ensures Intact(o, w.file + [NextRecord(o, w.book.value, call)])
  {
    ChainSnoc(o.crypto, Some(o.key), w.file, NextRecord(o, w.book.value, call));
  }

  /** A record written from a memory that is behind repeats a sequence number. */
  lemma AppendBehind(o: Owner, w: World, call: Call)
    requires Behind(o, w)
    ensures !Intact(o, w.file + [NextRecord(o, w.book.value, call)])
  {
    ChainSnoc(o.crypto, Some(o.key), w.file, NextRecord(o, w.book.value, call));
  }

  lemma BrokenStays(o: Owner, w: World, e: Event)
    requires !Intact(o, w.file)
    ensures !Intact(o, After(o, w, e).file)
  {
    if e.Append? && w.book.Some? {
      ChainSnoc(o.crypto, Some(o.key), w.file, NextRecord(o, w.book.value, e.call));
    }
  }

  // ---------------------------------------------------------------- runs without a failed sync

  /** The calls whose append reported success, in order. */
  ghost function Successes(o: Owner, es: seq<Event>): seq<Call> {
    if es == [] then [] else
      var init, e := es[..|es| - 1], es[|es| - 1];
      Successes(o, init) + (if e.Append? && e.io.Written? && Run(o, init).book.Some? then [e.call] else [])
  }

  /** Over any run of opens, appends and reopens, including appends that fail without
      writing: the file verifies and holds exactly the successful calls, in order, and the
      memory is in step with it. */
  lemma {:induction false} RunVerifies(o: Owner, es: seq<Event>)
    requires forall i | 0 <= i < |es| :: es[i].Append? ==> !es[i].io.WrittenNotSynced?
    ensures Intact(o, Run(o, es).file)
    ensures |Run(o, es).file| == |Successes(o, es)|
    ensures forall i | 0 <= i < |Successes(o, es)| :: Run(o, es).file[i].receipt.call == Successes(o, es)[i]
    ensures forall i | 0 <= i < |Run(o, es).file| ::
      Run(o, es).file[i].receipt.version == 1 && Run(o, es).file[i].signer == o.signer
    ensures Run(o, es).book.Some? ==>
      var m, file := Run(o, es).book.value, Run(o, es).file;
      m.sequence == |Successes(o, es)| + 1 && m.prevHash == Tip(file, |file|)
  {
    if es != [] {
      var init, e := es[..|es| - 1], es[|es| - 1];
      RunVerifies(o, init);
      if e.Append? && Run(o, init).book.Some? {
        AppendInStep(o, Run(o, init), e.call);
      }
    }
  }

  // ---------------------------------------------------------------- failed syncs

  /** An append left a line in the file but reported an error, and the book has not been
      reopened since. */
  ghost predicate Stale(o: Owner, es: seq<Event>) {
    if es == [] then false else
      var init, e := es[..|es| - 1], es[|es| - 1];
      if e.Reopen? then false
      else Stale(o, init) || (e.io.WrittenNotSynced? && Run(o, init).book.Some?)
  }

  /** Something was written through a stale book. */
  ghost predicate WroteStale(o: Owner, es: seq<Event>) {
    exists k :: 0 <= k < |es| && WritesAt(o, es, k) && Stale(o, es[..k])
  }

  ghost predicate WritesAt(o: Owner, es: seq<Event>, k: nat)
    requires k < |es|
  {
    es[k].Append? && !es[k].io.NotWritten? && Run(o, es[..k]).book.Some?
  }

  lemma WroteStaleSnoc(o: Owner, init: seq<Event>, e: Event)
    ensures WroteStale(o, init + [e]) <==>
      (WroteStale(o, init) ||
       (e.Append? && !e.io.NotWritten? && Run(o, init).book.Some? && Stale(o, init)))
  {
    var es := init + [e];
    assert es[..|init|] == init;
    forall k | 0 <= k < |init|
      ensures WritesAt(o, es, k) && Stale(o, es[..k]) <==> WritesAt(o, init, k) && Stale(o, init[..k])
    {
      assert es[..k] == init[..k];
    }
    if WroteStale(o, init) {
      var k :| 0 <= k < |init| && WritesAt(o, init, k) && Stale(o, init[..k]);
      assert WritesAt(o, es, k) && Stale(o, es[..k]);
    }
    if e.Append? && !e.io.NotWritten? && Run(o, init).book.Some? && Stale(o, init) {
      assert WritesAt(o, es, |init|) && Stale(o, es[..|init|]);
    }
  }

  /** The three conditions a world can be in, decided by the events alone. */
  ghost predicate Condition(o: Owner, es: seq<Event>) {
    var w := Run(o, es);
    if WroteStale(o, es) then !Intact(o, w.file)
    else if Stale(o, es) then Behind(o, w)
    else InStep(o, w)
  }

  lemma {:induction false} RunCondition(o: Owner, es: seq<Event>)
    ensures Condition(o, es)
  {
    if es != [] {
      var init, e := es[..|es| - 1], es[|es| - 1];
      assert es == init + [e];
      RunCondition(o, init);
      WroteStaleSnoc(o, init, e);
      StepCondition(o, init, e, es);
    }
  }

  lemma StepCondition(o: Owner, init: seq<Event>, e: Event, es: seq<Event>)
    requires es == init + [e] && es[..|es| - 1] == init && Condition(o, init)
    requires WroteStale(o, es) <==>
      (WroteStale(o, init) || (e.Append? && !e.io.NotWritten? && Run(o, init).book.Some? && Stale(o, init)))
    ensures Condition(o, es)
  {
    var w := Run(o, init);
    if WroteStale(o, init) {
      BrokenStays(o, w, e);
    } else if e.Append? && w.book.Some? {
      if Stale(o, init) {
        AppendBehind(o, w, e.call);
      } else {
        AppendInStep(o, w, e.call);
      }
    }
  }

  /** With failed syncs the file verifies exactly when nothing was written through a book
      that had reported a failed sync and had not been reopened. */
  lemma VerifiesIff(o: Owner, es: seq<Event>)
    ensures Intact(o, Run(o, es).file) <==> !WroteStale(o, es)
  {
    RunCondition(o, es);
  }

  /** The smallest such run: a failed sync, then one more append. */
  lemma FailedSyncThenAppendBreaks(o: Owner, first: Call, second: Call)
    ensures !Intact(o, Run(o, [Reopen, Append(first, WrittenNotSynced), Append(second, Written)]).file)
  {
    var a := [Reopen];
    var b := a + [Append(first, WrittenNotSynced)];
    var e := Append(second, Written);
    assert b + [e] == [Reopen, Append(first, WrittenNotSynced), Append(second, Written)];
    assert a[..0] == [] && b[..1] == a;
    assert !Stale(o, a) && InStep(o, Run(o, a)) && Run(o, a).book.Some?;
    AppendInStep(o, Run(o, a), first);
    assert Run(o, b) == After(o, Run(o, a), b[1]) && Stale(o, b);
    WroteStaleSnoc(o, b, e);
    VerifiesIff(o, b + [e]);
  }

  /** So reopening after every append that did not succeed is enough. */
  ghost predicate ReopensAfterErrors(es: seq<Event>) {
    forall i, j | 0 <= i < j < |es| && es[i].Append? && !es[i].io.Written? && es[j].Append? ::
      exists k :: i < k < j && es[k].Reopen?
  }

  lemma {:induction false} StaleSince(o: Owner, es: seq<Event>) returns (i: nat)
    requires Stale(o, es)
    ensures i < |es| && es[i].Append? && es[i].io.WrittenNotSynced?
    ensures forall k | i < k < |es| :: !es[k].Reopen?
  {
    var init, e := es[..|es| - 1], es[|es| - 1];
    if Stale(o, init) {
      i := StaleSince(o, init);
      assert forall k | 0 <= k < |init| :: init[k] == es[k];
    } else {
      i := |es| - 1;
    }
  }

  lemma StaleWriteNotReopened(o: Owner, es: seq<Event>, k: nat)
    requires k < |es| && es[k].Append? && Stale(o, es[..k])
    ensures !ReopensAfterErrors(es)
  {
    var i := StaleSince(o, es[..k]);
    assert es[i] == es[..k][i];
    forall m | i < m < k ensures !es[m].Reopen? {
      assert es[m] == es[..k][m];
    }
  }

  lemma ReopeningSuffices(o: Owner, es: seq<Event>)
    requires ReopensAfterErrors(es)
    ensures Intact(o, Run(o, es).file)
  {
    forall k | 0 <= k < |es| && WritesAt(o, es, k) ensures !Stale(o, es[..k]) {
      if Stale(o, es[..k]) {
        StaleWriteNotReopened(o, es, k);
      }
    }
    VerifiesIff(o, es);
  }

  // ---------------------------------------------------------------- the book as an object

  class ReceiptFile {
    var lines: Option<seq<Line>>

    constructor ()
      ensures lines == Option.None
    {
      lines := Option.None;
    }

    /** The records in the file; a missing file has none. */
    function Contents(): seq<Signed>
      reads this
    {
      if lines.None? then [] else Records(lines.value)
    }
  }

  class ReceiptBook {
    const owner: Owner
    const file: ReceiptFile
    var sequence: nat
    var prevHash: string

    function InMemory(): Memory
      reads this
    {
      Memory(sequence, prevHash)
    }

    constructor (owner: Owner, file: ReceiptFile, sequence: nat, prevHash: string)
      ensures this.owner == owner && this.file == file && InMemory() == Memory(sequence, prevHash)
    {
      this.owner, this.file := owner, file;
      this.sequence, this.prevHash := sequence, prevHash;
    }

    /** `ReceiptBook::new`: refuses a file that does not verify, else resumes its chain. */
    static method Open(owner: Owner, file: ReceiptFile) returns (book: Option<ReceiptBook>)
      ensures book.Some? <==> (file.lines.Some? ==> FileIsChain(owner.crypto, Some(owner.key), file.lines.value))
      ensures book.Some? ==> fresh(book.value) && book.value.owner == owner && book.value.file == file
      ensures book.Some? ==> Some(book.value.InMemory()) == Opened(owner, file.Contents())
      ensures file.lines.Some? && Corrupt !in file.lines.value ==> (book.Some? <==> Opened(owner, file.Contents()).Some?)
    {
      if file.lines.None? {
        var b := new ReceiptBook(owner, file, 1, GENESIS);
        return Some(b);
      }
      var v := VerifyFile(owner.crypto, Some(owner.key), file.lines);
      match v {
        case Verified(s) =>
          var b := new ReceiptBook(owner, file, s.count + 1, s.lastHash);
          book := Some(b);
        case Rejected(_, _) =>
          book := Option.None;
      }
    }

    /** `record_execution`: sign the next receipt, append it, and only then advance. */
    method RecordExecution(call: Call, io: Io) returns (r: Option<Signed>)
      modifies this, file
      ensures r == if io.Written? then Some(NextRecord(owner, old(InMemory()), call)) else Option.None
      ensures var before := World(old(file.Contents()), Some(old(InMemory())));
        World(file.Contents(), Some(InMemory())) == After(owner, before, Append(call, io))
    {
      var receipt := Receipt(1, sequence, prevHash, call);
      var signed := Sign(owner.crypto, owner.key, owner.signer, receipt);
      r := Option.None;
      if io.NotWritten? {
        return;
      }
      var written := (if file.lines.Some? then file.lines.value else []) + [Record(signed)];
      assert written[..|written| - 1] == if file.lines.Some? then file.lines.value else [];
      assert Records(written) == file.Contents() + [signed];
      file.lines := Some(written);
      if io.WrittenNotSynced? {
        return;
      }
      prevHash := signed.hash;
      sequence := sequence + 1;
      r := Some(signed);
    }
  }
}
