/** What the character device means: the commands committed so far and the unfinished one. */
module DeviceLog {
  import opened Bytes
  import opened Lines
  import opened CircularBuffer

  datatype Log = Log(committed: seq<seq<byte>>, pending: seq<byte>)

  const EMPTY_LOG: Log := Log([], [])

  /** The commands still in the ring, oldest first. */
  function Commands(l: Log): seq<seq<byte>> {
    Recent(l.committed)
  }

  function Contents(l: Log): seq<byte> {
    Flatten(Commands(l))
  }

  function Evicted(l: Log): seq<byte> {
    Flatten(l.committed[..|l.committed| - |Commands(l)|])
  }

  /** Every byte taken from a writer, in order. */
  function Accepted(l: Log): seq<byte> {
    Flatten(l.committed) + l.pending
  }

  lemma StreamParts(l: Log)
    ensures Accepted(l) == Evicted(l) + Contents(l) + l.pending
  {
    var k := |l.committed| - |Commands(l)|;
    assert l.committed == l.committed[..k] + Commands(l);
    FlattenAppend(l.committed[..k], Commands(l));
  }

  // ---------------------------------------------------------------- writing

  /** One write of the bytes `data`. The scan for a newline also looks at `after`, the byte one past
      the data, which the write does not control. */
  function Write(l: Log, data: seq<byte>, after: byte): Log {
    var command := l.pending + data;
    if NEWLINE in command || after == NEWLINE
    then Log(l.committed + [command], [])
    else Log(l.committed, command)
  }

  /** The byte one past the data is no newline, or the data hold one themselves. */
  predicate Harmless(data: seq<byte>, after: byte) {
    after == NEWLINE ==> NEWLINE in data
  }

  datatype WriteOp = WriteOp(data: seq<byte>, after: byte)

  function Run(l: Log, ops: seq<WriteOp>): Log
    decreases |ops|
  {
    if ops == [] then l else Run(Write(l, ops[0].data, ops[0].after), ops[1..])
  }

  function Written(ops: seq<WriteOp>): seq<byte> {
    if ops == [] then [] else ops[0].data + Written(ops[1..])
  }

  lemma WriteAccepts(l: Log, data: seq<byte>, after: byte)
    ensures Accepted(Write(l, data, after)) == Accepted(l) + data
    ensures l.committed <= Write(l, data, after).committed
  {
    var command := l.pending + data;
    FlattenAppend(l.committed, [command]);
    FlattenSingle(command);
  }

  lemma {:induction false} RunAccepts(l: Log, ops: seq<WriteOp>)
    ensures Accepted(Run(l, ops)) == Accepted(l) + Written(ops)
    ensures l.committed <= Run(l, ops).committed
    decreases |ops|
  {
    if ops != [] {
      WriteAccepts(l, ops[0].data, ops[0].after);
      RunAccepts(Write(l, ops[0].data, ops[0].after), ops[1..]);
    }
  }

  /** Over every run no byte is lost, duplicated or reordered, whatever the scan reads past the data. */
  lemma ByteConservation(ops: seq<WriteOp>)
    ensures var l := Run(EMPTY_LOG, ops);
            Evicted(l) + Contents(l) + l.pending == Written(ops)
  {
    RunAccepts(EMPTY_LOG, ops);
    StreamParts(Run(EMPTY_LOG, ops));
  }

  lemma {:induction false} PendingHasNoNewline(l: Log, ops: seq<WriteOp>)
    requires NEWLINE !in l.pending
    ensures NEWLINE !in Run(l, ops).pending
    decreases |ops|
  {
    if ops != [] {
      PendingHasNoNewline(Write(l, ops[0].data, ops[0].after), ops[1..]);
    }
  }

  /** The write commits the pending bytes with its own when these hold a newline, the first of the
      command; otherwise it adds them to the pending ones. */
  predicate CommitsAtNewline(l: Log, data: seq<byte>, after: byte) {
    var command, r := l.pending + data, Write(l, data, after);
    if NEWLINE in data
    then r == Log(l.committed + [command], []) && |l.pending| < |Cut(command, NEWLINE)|
    else r == Log(l.committed, command)
  }

  /** After any run, a write commits exactly when its own bytes hold a newline, which is then the first
      of the command, if and only if a stray newline past the data has one in the data to hide behind. */
  lemma CommitHoldsFirstNewline(ops: seq<WriteOp>, data: seq<byte>, after: byte)
    ensures CommitsAtNewline(Run(EMPTY_LOG, ops), data, after) <==> Harmless(data, after)
  {
    PendingHasNoNewline(EMPTY_LOG, ops);
    var p := Run(EMPTY_LOG, ops).pending;
    if NEWLINE in data {
      var i :| 0 <= i < |data| && data[i] == NEWLINE;
      assert (p + data)[|p| + i] == NEWLINE;
      var c := Cut(p + data, NEWLINE);
      assert c[|c| - 1] == (p + data)[|c| - 1];
    }
  }

  // ------------------------------------------------- lines and write chunking

  /** A write that ends at its newline, if it has one, and for which the stray byte does not matter. */
  predicate Framed(op: WriteOp) {
    (forall i | 0 <= i < |op.data| - 1 :: op.data[i] != NEWLINE) && Harmless(op.data, op.after)
  }

  lemma FramedWrite(l: Log, op: WriteOp)
    requires NEWLINE !in l.pending
    ensures var r := Write(l, op.data, op.after);
            if r.committed == l.committed then Framed(op)
            else r.committed == l.committed + [l.pending + op.data] && (IsLine(l.pending + op.data) <==> Framed(op))
  {
    var n := |op.data|;
    var command := l.pending + op.data;
    assert forall i | 0 <= i < n :: op.data[i] == command[|l.pending| + i];
    if NEWLINE in command {
      assert NEWLINE in op.data;
      assert command[..|command| - 1] == l.pending + op.data[..n - 1];
      assert forall i | 0 <= i < n - 1 :: op.data[i] == op.data[..n - 1][i];
    }
  }

  predicate AllFramed(ops: seq<WriteOp>) {
    forall i | 0 <= i < |ops| :: Framed(ops[i])
  }

  ghost predicate AllLines(commands: seq<seq<byte>>) {
    forall k | 0 <= k < |commands| :: IsLine(commands[k])
  }

  lemma AllLinesJoin(a: seq<seq<byte>>, b: seq<seq<byte>>)
    ensures AllLines(a + b) <==> AllLines(a) && AllLines(b)
  {
    assert forall i | 0 <= i < |a| :: a[i] == (a + b)[i];
    assert forall i | 0 <= i < |b| :: b[i] == (a + b)[|a| + i];
  }

  lemma AllFramedCons(ops: seq<WriteOp>)
    requires ops != []
    ensures AllFramed(ops) <==> Framed(ops[0]) && AllFramed(ops[1..])
  {
    assert forall i | 1 <= i < |ops| :: ops[i] == ops[1..][i - 1];
  }

  /** The commands a run adds are all single lines exactly when every write is framed. */
  lemma {:induction false} RunCommitsLines(l: Log, ops: seq<WriteOp>) returns (added: seq<seq<byte>>)
    requires NEWLINE !in l.pending
    ensures Run(l, ops).committed == l.committed + added
    ensures AllLines(added) <==> AllFramed(ops)
    decreases |ops|
  {
    if ops == [] {
      return [];
    }
    var command := l.pending + ops[0].data;
    FramedWrite(l, ops[0]);
    AllFramedCons(ops);
    var m := Write(l, ops[0].data, ops[0].after);
    var rest := RunCommitsLines(m, ops[1..]);
    if m.committed == l.committed {
      return rest;
    }
    assert l.committed + [command] + rest == l.committed + ([command] + rest);
    AllLinesJoin([command], rest);
    assert AllLines([command]) <==> IsLine([command][0]);
    return [command] + rest;
  }

  /** How a byte string is split into writes does not matter, the commands being its lines and the
      pending bytes its unterminated tail, if and only if every write is framed. */
  lemma ChunkingExact(ops: seq<WriteOp>)
    ensures Run(EMPTY_LOG, ops) == Log(LinesOf(Written(ops)), TailOf(Written(ops))) <==> AllFramed(ops)
  {
    var l, s := Run(EMPTY_LOG, ops), Written(ops);
    var added := RunCommitsLines(EMPTY_LOG, ops);
    assert l.committed == added;
    assert Flatten(added) + l.pending == s by {
      RunAccepts(EMPTY_LOG, ops);
      assert Accepted(EMPTY_LOG) == [];
    }
    if AllLines(added) {
      PendingHasNoNewline(EMPTY_LOG, ops);
      SplitUnique(added, l.pending);
    } else {
      LinesAreLines(s);
      assert AllLines(LinesOf(s));
    }
  }

  // ---------------------------------------------------------------- reading

  /** One read of at most `count` bytes at `pos`: what is left of the entry there. */
  function Slice(l: Log, pos: nat, count: nat): seq<byte> {
    match Locate(Sizes(Commands(l)), pos)
    case None => []
    case Some((k, b)) =>
      LocateExact(Sizes(Commands(l)), pos, k, b);
      Commands(l)[k][b..b + Min(count, |Commands(l)[k]| - b)]
  }

  /** What reaches user space when the last `uncopied` bytes of the slice fault. */
  function Transfer(l: Log, pos: nat, count: nat, uncopied: nat): seq<byte> {
    var s := Slice(l, pos, count);
    s[..|s| - Min(uncopied, |s|)]
  }

  lemma SliceIsContents(l: Log, pos: nat, count: nat)
    ensures var r := Slice(l, pos, count);
            if pos < |Contents(l)|
            then pos + |r| <= |Contents(l)| && r == Contents(l)[pos..pos + |r|] && (count > 0 ==> |r| > 0)
            else r == []
  {
    var sizes := Sizes(Commands(l));
    FlattenLength(Commands(l));
    LocateFinds(sizes, pos);
    if pos < |Contents(l)| {
      var (k, b) := Locate(sizes, pos).value;
      LocateExact(sizes, pos, k, b);
      FlattenSlice(Commands(l), k, b, Min(count, |Commands(l)[k]| - b));
    }
  }

  /** A read is a slice of everything ever accepted, at the bytes evicted so far plus the position. */
  lemma SliceIsAccepted(l: Log, pos: nat, count: nat)
    ensures var r, at := Slice(l, pos, count), |Evicted(l)| + pos;
            r == [] || (at + |r| <= |Accepted(l)| && r == Accepted(l)[at..at + |r|])
  {
    SliceIsContents(l, pos, count);
    StreamParts(l);
    var e, c, r := Evicted(l), Contents(l), Slice(l, pos, count);
    if r != [] {
      assert (e + c + l.pending)[|e| + pos..|e| + pos + |r|] == c[pos..pos + |r|];
    }
  }

  lemma TransferIsAccepted(l: Log, pos: nat, count: nat, uncopied: nat)
    ensures var r, at := Transfer(l, pos, count, uncopied), |Evicted(l)| + pos;
            r == [] || (at + |r| <= |Accepted(l)| && r == Accepted(l)[at..at + |r|])
  {
    SliceIsAccepted(l, pos, count);
    var s, at := Slice(l, pos, count), |Evicted(l)| + pos;
    var n := |Transfer(l, pos, count, uncopied)|;
    assert s != [] ==> Accepted(l)[at..at + |s|][..n] == Accepted(l)[at..at + n];
  }

  /** After a copy fault the bytes that did not come across are still there: reading that many on from the
      new position completes the read. */
  lemma RetryCompletes(l: Log, pos: nat, count: nat, uncopied: nat)
    requires uncopied <= |Slice(l, pos, count)|
    ensures var t := Transfer(l, pos, count, uncopied);
            |t| + uncopied == |Slice(l, pos, count)| && t + Slice(l, pos + |t|, uncopied) == Slice(l, pos, count)
  {
    hide Locate, Sum, Contents, Commands, Slice;
    var t := Transfer(l, pos, count, uncopied);
    if uncopied == 0 {
      NothingAsked(l, pos + |t|);
      assert t + [] == t;
    } else {
      var k, b := SliceOf(l, pos, count);
      SliceAt(l, pos + |t|, uncopied, k, b + |t|);
      SliceJoin(Commands(l)[k], b, |t|, uncopied);
    }
  }

  lemma NothingAsked(l: Log, pos: nat)
    ensures Slice(l, pos, 0) == []
  {
  }

  /** A read that yields something is a slice of one command. */
  lemma SliceOf(l: Log, pos: nat, count: nat) returns (k: nat, b: nat)
    requires Slice(l, pos, count) != []
    ensures k < |Commands(l)| && b < |Commands(l)[k]| && Sum(Sizes(Commands(l))[..k]) + b == pos
    ensures Slice(l, pos, count) == Commands(l)[k][b..b + Min(count, |Commands(l)[k]| - b)]
  {
    var found := Locate(Sizes(Commands(l)), pos).value;
    k, b := found.0, found.1;
    LocateExact(Sizes(Commands(l)), pos, k, b);
    hide Locate, Sum, Commands;
  }

  lemma SliceAt(l: Log, pos: nat, count: nat, k: nat, b: nat)
    requires k < |Commands(l)| && b < |Commands(l)[k]| && Sum(Sizes(Commands(l))[..k]) + b == pos
    ensures Slice(l, pos, count) == Commands(l)[k][b..b + Min(count, |Commands(l)[k]| - b)]
  {
    LocateExact(Sizes(Commands(l)), pos, k, b);
    hide Locate, Sum, Commands;
  }

  lemma SliceJoin(s: seq<byte>, b: nat, m: nat, n: nat)
    requires b + m + n <= |s|
    ensures s[b..b + m] + s[b + m..b + m + n] == s[b..b + m + n]
    ensures s[b..b + m + n][..m] == s[b..b + m]
  {
  }

  /** A read ends where its entry ends: it takes what is left of the one entry at `pos`, or less when
      less is asked for. */
  lemma SliceStaysInEntry(l: Log, pos: nat, count: nat) returns (k: nat)
    requires pos < |Contents(l)|
    ensures k < |Commands(l)|
    ensures var begin, end := Sum(Sizes(Commands(l))[..k]), Sum(Sizes(Commands(l))[..k + 1]);
            begin <= pos < end && |Slice(l, pos, count)| == Min(count, end - pos)
  {
    var sizes := Sizes(Commands(l));
    FlattenLength(Commands(l));
    LocateFinds(sizes, pos);
    k := Locate(sizes, pos).value.0;
    var b := Locate(sizes, pos).value.1;
    LocateExact(sizes, pos, k, b);
    SumTake(sizes, k);
  }

  /** Reading on from `pos` until a read returns nothing, the i-th read asking for counts(i) bytes. */
  function Drain(l: Log, pos: nat, counts: nat -> nat, i: nat): seq<byte>
    decreases |Contents(l)| - pos
  {
    SliceIsContents(l, pos, counts(i));
    var r := Slice(l, pos, counts(i));
    if r == [] then [] else r + Drain(l, pos + |r|, counts, i + 1)
  }

  lemma {:induction false} DrainYieldsRest(l: Log, pos: nat, counts: nat -> nat, i: nat)
    requires pos <= |Contents(l)|
    requires forall j: nat :: counts(j) > 0
    ensures Drain(l, pos, counts, i) == Contents(l)[pos..]
    decreases |Contents(l)| - pos
  {
    hide Slice, Contents;
    var r, c := Slice(l, pos, counts(i)), Contents(l);
    SliceIsContents(l, pos, counts(i));
    if pos < |c| {
      DrainYieldsRest(l, pos + |r|, counts, i + 1);
      assert c[pos..] == r + c[pos + |r|..];
    }
  }

  lemma EvictedGrows(l: Log, ops: seq<WriteOp>)
    ensures Evicted(l) <= Evicted(Run(l, ops))
    ensures Accepted(l) <= Accepted(Run(l, ops))
  {
    var l2 := Run(l, ops);
    RunAccepts(l, ops);
    var k, k2 := |l.committed| - |Commands(l)|, |l2.committed| - |Commands(l2)|;
    assert l2.committed[..k2] == l.committed[..k] + l2.committed[k..k2];
    FlattenAppend(l.committed[..k], l2.committed[k..k2]);
  }

  /** File positions do not move on eviction: between two reads of one file a reader loses exactly as
      many bytes of the stream as were evicted in between, so the two reads are contiguous exactly
      when nothing but empty commands was evicted. */
  lemma {:induction false} ReadsSkipEvicted(l: Log, ops: seq<WriteOp>, after: Log, pos: nat, n: nat, m: nat,
                                            r1: seq<byte>, r2: seq<byte>)
    requires after == Run(l, ops)
    requires r1 == Slice(l, pos, n) != []
    requires r2 == Slice(after, pos + |r1|, m) != []
    ensures var skipped := |Evicted(after)| - |Evicted(l)|;
            var at := |Evicted(l)| + pos;
            var at2 := at + |r1| + skipped;
            && 0 <= skipped && at2 + |r2| <= |Accepted(after)|
            && Accepted(after)[at..at + |r1|] == r1
            && Accepted(after)[at2..at2 + |r2|] == r2
  {
    hide *;
    EvictedGrows(l, ops);
    SliceIsAccepted(l, pos, n);
    SliceIsAccepted(after, pos + |r1|, m);
    PrefixSlice(Accepted(l), Accepted(after), |Evicted(l)| + pos, |Evicted(l)| + pos + |r1|);
  }

  lemma PrefixSlice(a: seq<byte>, b: seq<byte>, i: nat, j: nat)
    requires a <= b && i <= j <= |a|
    ensures b[i..j] == a[i..j]
  {
  }

  /** Byte `off` of the cmd-th oldest command lies behind all of the older ones. */
  lemma CommandByte(l: Log, cmd: nat, off: nat)
    requires cmd < |Commands(l)| && off < |Commands(l)[cmd]|
    ensures var pos := Sum(Sizes(Commands(l))[..cmd]) + off;
            pos < |Contents(l)| && Contents(l)[pos] == Commands(l)[cmd][off]
  {
    FlattenSlice(Commands(l), cmd, off, 1);
    var pos := Sum(Sizes(Commands(l))[..cmd]) + off;
    assert Contents(l)[pos] == Contents(l)[pos..pos + 1][0] == Commands(l)[cmd][off..off + 1][0];
  }

  // ---------------------------------------------------------------- seeking

  datatype Seek = Moved(pos: nat) | Invalid | InvalidLockHeld

  function Out(l: Log): (r: nat)
    ensures r <= |Commands(l)|
  {
    OutOffs(|l.committed|)
  }

  /** The commands in slot order, which is the order the seek walks. */
  function Slots(l: Log): seq<seq<byte>> {
    Physical(Commands(l), Out(l))
  }

  /** The seek to byte `off` of command `cmd` as it is shipped: commands are counted by slot, a
      target past the first unfilled slot is the end of the data, and two of the three rejections
      return with the device lock held. */
  function SeekShipped(l: Log, cmd: nat, off: nat): Seek {
    if cmd > CAPACITY then Invalid
    else if cmd < |Slots(l)| then
      if off < |Slots(l)[cmd]| then Moved(Sum(Sizes(Slots(l))[..cmd]) + off) else InvalidLockHeld
    else if cmd == |Slots(l)| < CAPACITY then InvalidLockHeld
    else Moved(|Contents(l)|)
  }

  /** The seek as its header describes it: the cmd-th oldest command, or a plain rejection. */
  function SeekDocumented(l: Log, cmd: nat, off: nat): Seek {
    var c := Commands(l);
    if cmd < |c| && off < |c[cmd]| then Moved(Sum(Sizes(c)[..cmd]) + off) else Invalid
  }

  /** Documented seek and offset lookup are inverse: every position below the total size comes from
      exactly one pair, and that pair is what the lookup finds there. */
  lemma SeekLookupInverse(l: Log, cmd: nat, off: nat, pos: nat)
    ensures SeekDocumented(l, cmd, off) == Moved(pos)
       <==> Locate(Sizes(Commands(l)), pos) == Some((cmd, off))
    ensures Locate(Sizes(Commands(l)), pos).Some? <==> pos < |Contents(l)|
  {
    LocateExact(Sizes(Commands(l)), pos, cmd, off);
    LocateFinds(Sizes(Commands(l)), pos);
    FlattenLength(Commands(l));
  }

  /** Both seeks move to the same place, or both refuse. */
  predicate SameTarget(l: Log, cmd: nat, off: nat) {
    if SeekShipped(l, cmd, off).Moved?
    then SeekShipped(l, cmd, off) == SeekDocumented(l, cmd, off)
    else SeekDocumented(l, cmd, off) == Invalid
  }

  lemma SlotSizes(l: Log)
    ensures Sizes(Slots(l)) == Physical(Sizes(Commands(l)), Out(l))
  {
    var c := Commands(l);
    assert Sizes(c[|c| - Out(l)..]) == Sizes(c)[|c| - Out(l)..];
    assert Sizes(c[..|c| - Out(l)]) == Sizes(c)[..|c| - Out(l)];
  }

  lemma SameSizesSameSeek(l: Log, cmd: nat, off: nat)
    requires Sizes(Slots(l)) == Sizes(Commands(l)) && cmd < |Commands(l)|
    ensures SameTarget(l, cmd, off)
  {
    assert Sizes(Slots(l))[cmd] == Sizes(Commands(l))[cmd];
  }

  /** For the commands present, the shipped seek does what the header says exactly when rotating the
      entry sizes by the read index leaves them unchanged; in particular when that index is 0. */
  lemma SeekAgreesExactly(l: Log)
    ensures (forall cmd: nat, off: nat | cmd < |Commands(l)| :: SameTarget(l, cmd, off))
       <==> Sizes(Slots(l)) == Sizes(Commands(l))
    ensures Out(l) == 0 ==> Sizes(Slots(l)) == Sizes(Commands(l))
  {
    var p, c := Slots(l), Commands(l);
    if Out(l) == 0 {
      assert p == c;
    }
    if Sizes(p) == Sizes(c) {
      forall cmd: nat, off: nat | cmd < |c| ensures SameTarget(l, cmd, off) {
        SameSizesSameSeek(l, cmd, off);
      }
    } else {
      var i :| 0 <= i < |c| && Sizes(p)[i] != Sizes(c)[i];
      assert !SameTarget(l, i, Min(|p[i]|, |c[i]|));
    }
  }

  /** Past the commands present, the shipped seek refuses only the first missing command and indices
      above the capacity, and the first missing one with the lock held; for every other index it
      succeeds where the header says it fails. */
  lemma SeekPastEnd(l: Log, cmd: nat, off: nat)
    requires cmd >= |Commands(l)|
    ensures SameTarget(l, cmd, off) <==> cmd > CAPACITY || cmd == |Commands(l)| < CAPACITY
    ensures SeekShipped(l, cmd, off) == SeekDocumented(l, cmd, off) <==> cmd > CAPACITY
  {
  }

  /** Where a seek that succeeds lands: on the named byte of the command in the slot of that number, or,
      when no command is in that slot, at the end of the data, where there is nothing to read. */
  lemma SeekLands(l: Log, cmd: nat, off: nat, pos: nat)
    requires SeekShipped(l, cmd, off) == Moved(pos)
    ensures if cmd < |Commands(l)|
            then Locate(Sizes(Slots(l)), pos) == Some((cmd, off)) && pos < |Contents(l)|
            else pos == |Contents(l)| && forall n: nat :: Slice(l, pos, n) == []
  {
    LocateExact(Sizes(Slots(l)), pos, cmd, off);
    LocateFinds(Sizes(Slots(l)), pos);
    SlotSumIsLength(l);
    forall n: nat ensures pos >= |Contents(l)| ==> Slice(l, pos, n) == [] {
      SliceIsContents(l, pos, n);
    }
  }

  /** The target of a seek that returns with the device lock held: a byte past the command in that
      slot, or the first slot that no command has filled. */
  predicate KeepsLock(l: Log, cmd: nat, off: nat) {
    if cmd < |Slots(l)| then off >= |Slots(l)[cmd]| else cmd == |Slots(l)| < CAPACITY
  }

  /** The lock is left held exactly for those targets. */
  lemma LockLeakExactly(l: Log, cmd: nat, off: nat)
    ensures SeekShipped(l, cmd, off) == InvalidLockHeld <==> KeepsLock(l, cmd, off)
  {
  }

  /** For one target the shipped seek does all that the header says, the lock included, exactly when
      the target is in range of both the command and the slot and as many bytes lie before either. */
  lemma SeekExact(l: Log, cmd: nat, off: nat)
    ensures SeekShipped(l, cmd, off) == SeekDocumented(l, cmd, off)
       <==> if cmd < |Commands(l)|
            then && off < |Commands(l)[cmd]| && off < |Slots(l)[cmd]|
                 && Sum(Sizes(Slots(l))[..cmd]) == Sum(Sizes(Commands(l))[..cmd])
            else cmd > CAPACITY
  {
  }

  /** Once the ring has wrapped, a shipped seek to command 0 can land in another command. */
  lemma SeekWrappedExample()
    ensures var two := [7, NEWLINE];
            var one := [NEWLINE];
            var l := Log([two, one, two, two, two, two, two, two, two, two, two], []);
            SeekDocumented(l, 0, 1) == Invalid && SeekShipped(l, 0, 1) == Moved(1)
            && Locate(Sizes(Commands(l)), 1) == Some((1, 0))
  {
    var two := [7, NEWLINE];
    var one := [NEWLINE];
    var l := Log([two, one, two, two, two, two, two, two, two, two, two], []);
    assert Commands(l) == [one, two, two, two, two, two, two, two, two, two];
    assert Sizes(Commands(l))[1..][0] == 2;
  }

  /** The size an lseek is checked against, summed in slot order, is the length of the contents. */
  lemma SlotSumIsLength(l: Log)
    ensures Sum(Sizes(Slots(l))) == |Contents(l)|
  {
    SlotSizes(l);
    SumRotates(Sizes(Commands(l)), Out(l));
    FlattenLength(Commands(l));
  }
}
