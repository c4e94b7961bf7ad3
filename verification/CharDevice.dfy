/** The character device (aesd-char-driver/main.c): its lock, ring, pending entry and kernel heap. */
module CharDevice {
  import opened Bytes
  import opened CircularBuffer
  import opened DeviceLog

  const EINVAL: int := 22
  const ENOMEM: int := 12
  const ERESTARTSYS: int := 512

  const LOFF_MAX: nat := 0x7FFF_FFFF_FFFF_FFFF

  const SEEK_SET: int := 0
  const SEEK_CUR: int := 1
  const SEEK_END: int := 2

  /** What the kernel decides during a write: whether taking the lock is interrupted, whether the two
      allocations succeed and where the buffer is (NULL on failure), how many bytes come across from
      user space, and the byte one past them in memory. */
  datatype WriteEnv = WriteEnv(interrupted: bool, entryOk: bool, where: Address, copied: nat, after: byte)

  datatype ReadEnv = ReadEnv(interrupted: bool, uncopied: nat)

  type Heap = map<Address, seq<byte>>

  ghost predicate Holds(heap: Heap, e: Entry, data: seq<byte>) {
    e.buffptr != NULL && e.buffptr in heap && heap[e.buffptr] == data && e.size == |data|
  }

  ghost function Addresses(entries: seq<Entry>): set<Address> {
    set e | e in entries :: e.buffptr
  }

  /** Each command in the ring and the pending bytes sit in a live buffer of their own, and no other
      buffer is live: nothing is shared, freed early or lost. */
  ghost predicate Owns(heap: Heap, view: seq<Entry>, commands: seq<seq<byte>>, pend: Entry, pending: seq<byte>) {
    && |view| == |commands|
    && (forall k | 0 <= k < |view| :: Holds(heap, view[k], commands[k]))
    && (forall i, j | 0 <= i < j < |view| :: view[i].buffptr != view[j].buffptr)
    && (if pend.buffptr == NULL then pend.size == 0 && pending == []
        else Holds(heap, pend, pending) && forall k | 0 <= k < |view| :: view[k].buffptr != pend.buffptr)
    && heap.Keys == Addresses(view) + (if pend.buffptr == NULL then {} else {pend.buffptr})
  }

  lemma DropPending(heap: Heap, view: seq<Entry>, commands: seq<seq<byte>>, pend: Entry,
                    pending: seq<byte>)
    requires Owns(heap, view, commands, pend, pending)
    ensures Owns(heap - {pend.buffptr}, view, commands, CLEARED, [])
  {
    forall k | 0 <= k < |view| ensures Holds(heap - {pend.buffptr}, view[k], commands[k]) {
      assert Holds(heap, view[k], commands[k]);
    }
    assert NULL !in Addresses(view);
    assert pend.buffptr !in Addresses(view);
  }

  lemma PendingSize(heap: Heap, view: seq<Entry>, commands: seq<seq<byte>>, pend: Entry,
                    pending: seq<byte>)
    requires Owns(heap, view, commands, pend, pending)
    ensures pend.size == |pending| && NULL !in heap && (pend.buffptr == NULL || pend.buffptr in heap)
  {
    NullNotLive(heap, view, commands, pend, pending);
  }

  lemma KeepPending(heap: Heap, view: seq<Entry>, commands: seq<seq<byte>>, e: Entry,
                    data: seq<byte>)
    requires Owns(heap - {e.buffptr}, view, commands, CLEARED, []) && Holds(heap, e, data)
    ensures Owns(heap, view, commands, e, data)
  {
    var rest := heap - {e.buffptr};
    assert e.buffptr !in Addresses(view);
    forall k | 0 <= k < |view| ensures Holds(heap, view[k], commands[k]) {
      assert Holds(rest, view[k], commands[k]);
    }
    assert heap.Keys == rest.Keys + {e.buffptr};
  }

  lemma AppendCommand(heap: Heap, view: seq<Entry>, commands: seq<seq<byte>>, e: Entry,
                      data: seq<byte>)
    requires Owns(heap - {e.buffptr}, view, commands, CLEARED, []) && Holds(heap, e, data)
    ensures Owns(heap, view + [e], commands + [data], CLEARED, [])
  {
    KeepPending(heap, view, commands, e, data);
    assert Addresses(view + [e]) == Addresses(view) + {e.buffptr};
  }

  lemma EvictOldest(heap: Heap, view: seq<Entry>, commands: seq<seq<byte>>)
    requires Owns(heap, view, commands, CLEARED, []) && view != []
    ensures view[0].buffptr in heap
    ensures Owns(heap - {view[0].buffptr}, view[1..], commands[1..], CLEARED, [])
  {
    var p := view[0].buffptr;
    assert Holds(heap, view[0], commands[0]);
    AddressesTail(view);
    hide Addresses;
    forall k | 0 <= k < |view| - 1 ensures Holds(heap - {p}, view[1..][k], commands[1..][k]) {
      assert Holds(heap, view[k + 1], commands[k + 1]);
    }
  }

  lemma AddressesTail(view: seq<Entry>)
    requires view != []
    requires forall i, j | 0 <= i < j < |view| :: view[i].buffptr != view[j].buffptr
    ensures var p := view[0].buffptr;
            Addresses(view) == {p} + Addresses(view[1..]) && p !in Addresses(view[1..])
  {
    assert view == [view[0]] + view[1..];
  }

  /** A finished command enters the ring; once the ring is full the oldest one leaves. */
  lemma CommitOwns(heap: Heap, history: seq<Entry>, committed: seq<seq<byte>>, e: Entry,
                   command: seq<byte>)
    requires |history| == |committed| && Holds(heap, e, command)
    requires Owns(heap - {e.buffptr}, Recent(history), Recent(committed), CLEARED, [])
    ensures var evicted := if |history| >= CAPACITY then Recent(history)[0].buffptr else NULL;
            && NULL !in heap && (evicted != NULL ==> evicted in heap)
            && Owns(heap - {evicted}, Recent(history + [e]), Recent(committed + [command]), CLEARED, [])
  {
    hide Owns;
    var v, c := Recent(history), Recent(committed);
    AppendCommand(heap, v, c, e, command);
    NullNotLive(heap, v + [e], c + [command], CLEARED, []);
    RecentPush(history, e);
    RecentPush(committed, command);
    if |history| >= CAPACITY {
      EvictOldest(heap, v + [e], c + [command]);
      assert (v + [e])[1..] == v[1..] + [e];
      assert (c + [command])[1..] == c[1..] + [command];
    } else {
      assert heap - {NULL} == heap;
    }
  }

  lemma NullNotLive(heap: Heap, view: seq<Entry>, commands: seq<seq<byte>>, pend: Entry,
                    pending: seq<byte>)
    requires Owns(heap, view, commands, pend, pending)
    ensures NULL !in heap
  {
    assert forall k | 0 <= k < |view| :: Holds(heap, view[k], commands[k]);
  }

  /** Walking the slots from 0 meets the same distinct live buffers as walking oldest first. */
  lemma OwnsPhysical(heap: Heap, view: seq<Entry>, commands: seq<seq<byte>>, pend: Entry,
                     pending: seq<byte>, out: nat)
    requires out <= |view| && Owns(heap, view, commands, pend, pending)
    ensures var p := Physical(view, out);
            && Addresses(p) == Addresses(view) <= heap.Keys
            && forall i, j | 0 <= i < j < |p| :: p[i].buffptr != p[j].buffptr
  {
    RotatedAddresses(view, out);
  }

  lemma RotatedHolds(heap: Heap, view: seq<Entry>, commands: seq<seq<byte>>, pend: Entry,
                     pending: seq<byte>, out: nat, i: nat)
    requires out <= |view| && Owns(heap, view, commands, pend, pending) && i < |view|
    ensures Holds(heap, Physical(view, out)[i], Physical(commands, out)[i])
  {
    var k := if i < out then |view| - out + i else i - out;
    assert Physical(view, out)[i] == view[k] && Physical(commands, out)[i] == commands[k];
  }

  lemma RotatedAddresses(view: seq<Entry>, out: nat)
    requires out <= |view|
    requires forall i, j | 0 <= i < j < |view| :: view[i].buffptr != view[j].buffptr
    ensures Addresses(Physical(view, out)) == Addresses(view)
    ensures forall i, j | 0 <= i < j < |view| :: Physical(view, out)[i].buffptr != Physical(view, out)[j].buffptr
  {
    var a, b := view[|view| - out..], view[..|view| - out];
    assert view == b + a;
    assert Addresses(b + a) == Addresses(b) + Addresses(a) == Addresses(a + b);
    forall i, j | 0 <= i < j < |view| ensures (a + b)[i].buffptr != (a + b)[j].buffptr {
      assert (a + b)[i] == view[if i < out then |view| - out + i else i - out];
      assert (a + b)[j] == view[if j < out then |view| - out + j else j - out];
    }
  }

  /** fixed_size_llseek: the return value and the new position for a file of `size` bytes. */
  function FixedSizeLlseek(pos: int, offset: int, whence: int, size: nat): (r: (int, int))
    ensures r.0 >= 0 && (whence == SEEK_SET || whence == SEEK_END) ==> r.0 == r.1 && 0 <= r.1 <= size
    ensures r.0 < 0 ==> r.1 == pos && r.0 == -EINVAL
  {
    if whence == SEEK_CUR && offset == 0 then
      if pos < 0 then (-EINVAL, pos) else (pos, pos)
    else if whence != SEEK_SET && whence != SEEK_CUR && whence != SEEK_END then (-EINVAL, pos)
    else
      var target := if whence == SEEK_SET then offset else if whence == SEEK_CUR then pos + offset else size + offset;
      if 0 <= target <= size then (target, target) else (-EINVAL, pos)
  }

  /** A SEEK_SET is refused exactly outside the contents, and reading on from where it leaves the file
      yields the contents from there on. */
  lemma SeekSetReads(l: Log, pos: int, offset: int, counts: nat -> nat)
    requires forall j: nat :: counts(j) > 0
    ensures var (ret, now) := FixedSizeLlseek(pos, offset, SEEK_SET, |Contents(l)|);
            if 0 <= offset <= |Contents(l)|
            then ret == now == offset && Drain(l, now, counts, 0) == Contents(l)[offset..]
            else ret == -EINVAL && now == pos
  {
    if 0 <= offset <= |Contents(l)| {
      DrainYieldsRest(l, offset, counts, 0);
    }
  }

  /** A SEEK_END by -n is refused exactly when there are no n bytes, and reading on from where it leaves
      the file yields the last n bytes. */
  lemma SeekEndReads(l: Log, pos: int, n: int, counts: nat -> nat)
    requires forall j: nat :: counts(j) > 0
    ensures var (ret, now) := FixedSizeLlseek(pos, -n, SEEK_END, |Contents(l)|);
            if 0 <= n <= |Contents(l)|
            then && ret == now >= 0
                 && |Drain(l, now, counts, 0)| == n && Contents(l) == Contents(l)[..now] + Drain(l, now, counts, 0)
            else ret == -EINVAL && now == pos
  {
    var (ret, now) := FixedSizeLlseek(pos, -n, SEEK_END, |Contents(l)|);
    if 0 <= n <= |Contents(l)| {
      DrainYieldsRest(l, now, counts, 0);
    }
  }

  /** A SEEK_CUR moves by its offset and is refused exactly outside the contents, except that a move by
      nothing is granted wherever the file is; two moves are one by the sum. Nothing else is a seek. */
  lemma SeekCurAdds(l: Log, pos: nat, a: int, b: int)
    ensures var n := |Contents(l)|;
            var (ret, now) := FixedSizeLlseek(pos, a, SEEK_CUR, n);
            && (if a == 0 || 0 <= pos + a <= n then ret == now == pos + a else ret == -EINVAL && now == pos)
            && (ret >= 0 && FixedSizeLlseek(now, b, SEEK_CUR, n).0 >= 0 ==>
                  FixedSizeLlseek(now, b, SEEK_CUR, n) == FixedSizeLlseek(pos, a + b, SEEK_CUR, n))
  {
  }

  lemma NoOtherSeek(pos: int, offset: int, whence: int, size: nat)
    requires whence != SEEK_SET && whence != SEEK_CUR && whence != SEEK_END
    ensures FixedSizeLlseek(pos, offset, whence, size) == (-EINVAL, pos)
  {
  }

  class File {
    var fPos: int

    constructor ()
      ensures fPos == 0
    {
      fPos := 0;
    }

    /** The positions the kernel passes to the driver. */
    predicate InRange(count: nat)
      reads this
    {
      0 <= fPos && fPos + count <= LOFF_MAX
    }
  }

  class Device {
    const ring: Ring
    var gEnt: Entry
    var locked: bool
    /** The data buffers that are allocated and not yet freed. */
    var heap: Heap
    ghost var log: Log

    ghost predicate Valid()
      reads this`gEnt, this`heap, this`log, ring, ring.entry
    {
      && ring.Valid()
      && |ring.history| == |log.committed|
      && Owns(heap, ring.View(), Commands(log), gEnt, log.pending)
    }

    constructor ()
      ensures Valid() && log == EMPTY_LOG && !locked && heap == map[] && fresh(ring) && fresh(ring.entry)
    {
      ring := new Ring();
      gEnt, locked, heap, log := CLEARED, false, map[], EMPTY_LOG;
    }

    method Kfree(p: Address)
      requires p == NULL || p in heap
      modifies this`heap
      ensures heap == old(heap) - {p}
    {
      heap := heap - {p};
    }

    /** The scan for a newline runs to index `size` inclusive, one past the data. */
    method NewlineFound(data: seq<byte>, after: byte) returns (found: bool)
      ensures found <==> NEWLINE in data || after == NEWLINE
    {
      found := false;
      var i := 0;
      while i <= |data| && !found
        invariant i <= |data| + 1
        invariant found <==> exists j | 0 <= j < i :: (data + [after])[j] == NEWLINE
      {
        var c := if i < |data| then data[i] else after;
        assert (data + [after])[i] == c;
        if c == NEWLINE {
          found := true;
        }
        i := i + 1;
      }
      assert forall j | 0 <= j < |data| :: (data + [after])[j] == data[j];
      assert (data + [after])[|data|] == after;
    }

    /** The new buffer takes the pending bytes and then the bytes from user space. */
    method Gather(where: Address, data: seq<byte>) returns (lEnt: Entry)
      requires Valid() && where != NULL && where !in heap
      modifies this`heap, this`gEnt
      ensures gEnt == CLEARED
      ensures lEnt == Entry(where, |log.pending + data|)
      ensures heap == (old(heap) - {old(gEnt).buffptr})[where := log.pending + data]
    {
      hide Unrolls;
      NullNotLive(heap, ring.View(), Commands(log), gEnt, log.pending);
      lEnt := Entry(where, 0);
      heap := heap[lEnt.buffptr := []];
      if gEnt.buffptr != NULL {
        assert Holds(old(heap), gEnt, log.pending);
        heap := heap[lEnt.buffptr := heap[gEnt.buffptr][..gEnt.size]];
        lEnt := lEnt.(size := gEnt.size);
        Kfree(gEnt.buffptr);
        gEnt := CLEARED;
      }
      heap := heap[lEnt.buffptr := heap[lEnt.buffptr] + data];
      lEnt := lEnt.(size := lEnt.size + |data|);
      assert heap[where] == log.pending + data;
      assert heap == (old(heap) - {old(gEnt).buffptr})[where := log.pending + data];
    }

    /** The finished command goes into the ring, and what it displaces is freed. */
    method Commit(lEnt: Entry, ghost command: seq<byte>)
      requires ring.Valid() && |ring.history| == |log.committed| && gEnt == CLEARED
      requires Holds(heap, lEnt, command)
      requires Owns(heap - {lEnt.buffptr}, ring.View(), Commands(log), CLEARED, [])
      modifies this`heap, this`log, ring, ring.entry
      ensures Valid() && log == Log(old(log.committed) + [command], [])
    {
      hide Owns, Unrolls;
      CommitOwns(heap, ring.history, log.committed, lEnt, command);
      var evicted := ring.AddEntry(lEnt);
      log := Log(log.committed + [command], []);
      assert evicted == NULL ==> heap - {evicted} == heap;
      if evicted != NULL {
        Kfree(evicted);
      }
    }

    /** A command with a newline is committed; one without becomes the pending bytes. */
    method Settle(lEnt: Entry, ghost command: seq<byte>, after: byte)
      requires ring.Valid() && |ring.history| == |log.committed| && gEnt == CLEARED
      requires Holds(heap, lEnt, command)
      requires Owns(heap - {lEnt.buffptr}, ring.View(), Commands(log), CLEARED, [])
      modifies this`heap, this`gEnt, this`log, ring, ring.entry
      ensures Valid()
      ensures log == if NEWLINE in command || after == NEWLINE then Log(old(log.committed) + [command], [])
                     else Log(old(log.committed), command)
    {
      hide Owns, Unrolls;
      var newlineFound := NewlineFound(heap[lEnt.buffptr], after);
      if newlineFound {
        Commit(lEnt, command);
      } else {
        KeepPending(heap, ring.View(), Commands(log), lEnt, command);
        gEnt := lEnt;
        log := Log(log.committed, command);
      }
    }

    /** The pending buffer is freed when it is empty and has to make room for nothing. */
    method DropEmptyPending()
      requires Valid() && gEnt.size == 0
      modifies this`heap, this`gEnt
      ensures Valid() && gEnt == CLEARED
    {
      hide Owns, Unrolls;
      PendingSize(heap, ring.View(), Commands(log), gEnt, log.pending);
      assert log.pending == [];
      assert gEnt.buffptr == NULL ==> gEnt == CLEARED;
      assert gEnt.buffptr == NULL ==> heap - {gEnt.buffptr} == heap;
      DropPending(heap, ring.View(), Commands(log), gEnt, log.pending);
      if gEnt.buffptr != NULL {
        Kfree(gEnt.buffptr);
        gEnt := CLEARED;
      }
    }

    /** Writing nothing onto nothing pending asks for a buffer of size 0. The scan then reads through an
        address that is no buffer: the call does not come back from that, and it `faults` holding the
        lock. */
    method Write(filp: File, buf: seq<byte>, env: WriteEnv) returns (ret: int, faults: bool)
      requires Valid() && !locked && filp.InRange(|buf|)
      requires env.copied <= |buf| && env.where !in heap
      modifies this, filp, ring, ring.entry
      ensures Valid() && locked == faults
      ensures faults <==> !env.interrupted && env.entryOk && env.where != NULL && buf == [] && old(log.pending) == []
      ensures env.interrupted ==> ret == -ERESTARTSYS
      ensures !env.interrupted && (!env.entryOk || env.where == NULL) ==> ret == -ENOMEM
      ensures ret < 0 ==> heap == old(heap) && gEnt == old(gEnt)
      ensures ret < 0 || faults ==>
                log == old(log) && ring.history == old(ring.history) && filp.fPos == old(filp.fPos)
      ensures !faults && !env.interrupted && env.entryOk && env.where != NULL ==>
                && ret == env.copied && filp.fPos == old(filp.fPos) + env.copied
                && log == DeviceLog.Write(old(log), buf[..env.copied], env.after)
                && Accepted(log) == Accepted(old(log)) + buf[..env.copied]
    {
      faults := false;
      if env.interrupted {
        return -ERESTARTSYS, false;
      }
      locked := true;
      if !env.entryOk || env.where == NULL {
        locked := false;
        return -ENOMEM, false;
      }
      WriteAccepts(log, buf[..env.copied], env.after);
      PendingSize(heap, ring.View(), Commands(log), gEnt, log.pending);
      hide Owns, Unrolls, Accepted;
      if |buf| + gEnt.size == 0 {
        DropEmptyPending();
        return 0, true;
      }
      ghost var command := log.pending + buf[..env.copied];
      DropPending(heap, ring.View(), Commands(log), gEnt, log.pending);
      ghost var rest := heap - {gEnt.buffptr};
      var lEnt := Gather(env.where, buf[..env.copied]);
      assert heap - {env.where} == rest;
      ret := env.copied;
      filp.fPos := filp.fPos + env.copied;
      Settle(lEnt, command, env.after);
      locked := false;
    }

    lemma ViewSizes()
      requires Valid()
      ensures EntrySizes(ring.View()) == Sizes(Commands(log))
    {
      forall k | 0 <= k < |ring.View()| ensures EntrySizes(ring.View())[k] == Sizes(Commands(log))[k] {
        assert Holds(heap, ring.View()[k], Commands(log)[k]);
      }
    }

    /** The lookup in the entry sizes leads to the buffer whose bytes the read is to return. */
    lemma {:induction false} ReadAt(pos: nat, count: nat, uncopied: nat)
      requires Valid()
      ensures match Locate(EntrySizes(ring.View()), pos)
              case None => Transfer(log, pos, count, uncopied) == []
              case Some((k, b)) =>
                ring.SlotOf(k) < CAPACITY &&
                var e := ring.entry[ring.SlotOf(k)];
                e.buffptr in heap && b < e.size == |heap[e.buffptr]| &&
                var n := Min(count, e.size - b);
                Transfer(log, pos, count, uncopied) == heap[e.buffptr][b..b + n - Min(uncopied, n)]
    {
      ViewSizes();
      match Locate(EntrySizes(ring.View()), pos)
      case None =>
      case Some((k, b)) =>
        LocateExact(EntrySizes(ring.View()), pos, k, b);
        ring.SlotHoldsEntry(k);
        assert Holds(heap, ring.View()[k], Commands(log)[k]);
    }

    method Read(filp: File, count: nat, env: ReadEnv) returns (ret: int, buf: seq<byte>)
      requires Valid() && !locked && filp.InRange(count)
      modifies this`locked, filp
      ensures Valid() && !locked
      ensures filp.fPos == old(filp.fPos) + |buf|
      ensures env.interrupted ==> ret == -ERESTARTSYS && buf == []
      ensures !env.interrupted ==> ret == |buf| && buf == Transfer(log, old(filp.fPos), count, env.uncopied)
      ensures var at := |Evicted(log)| + old(filp.fPos);
              buf == [] || (at + |buf| <= |Accepted(log)| && buf == Accepted(log)[at..at + |buf|])
    {
      hide Owns, Unrolls, Transfer, Locate, EntrySizes, Evicted, Accepted;
      TransferIsAccepted(log, filp.fPos, count, env.uncopied);
      buf := [];
      if env.interrupted {
        return -ERESTARTSYS, [];
      }
      locked := true;
      ReadAt(filp.fPos, count, env.uncopied);
      var slot, retOffset := ring.FindEntryOffsetForFpos(filp.fPos);
      if slot == None {
        ret := 0;
      } else {
        var ent := ring.entry[slot.value];
        var n := Min(count, ent.size - retOffset);
        var copied := n - Min(env.uncopied, n);
        buf := heap[ent.buffptr][retOffset..retOffset + copied];
        ret := copied;
        filp.fPos := filp.fPos + copied;
      }
      locked := false;
    }

    /** What a walk over the slots meets at slot `i`. */
    lemma SlotFact(i: nat)
      requires Valid() && i < CAPACITY
      ensures var p := Sizes(Slots(log));
              && |p| <= CAPACITY && p[..|p|] == p
              && if i < |p| then ring.entry[i].buffptr != NULL && ring.entry[i].size == p[i]
                 else ring.entry[i] == CLEARED
    {
      EntryFact(heap, i);
      var v, c, o := ring.View(), Commands(log), Out(log);
      assert |v| == |c|;
      if i < |v| {
        RotatedHolds(heap, v, c, gEnt, log.pending, o, i);
      }
      hide Owns, Unrolls, Physical;
    }

    /** The slots hold the rotated view, also while the heap is being emptied. */
    lemma EntryFact(live: Heap, i: nat)
      requires ring.Valid() && |ring.history| == |log.committed| && i < CAPACITY
      requires Owns(live, ring.View(), Commands(log), gEnt, log.pending)
      ensures var p := Physical(ring.View(), Out(log));
              && |p| <= CAPACITY && p[..|p|] == p
              && if i < |p| then ring.entry[i] == p[i] && p[i].buffptr != NULL else ring.entry[i] == CLEARED
    {
      ring.PhysicalOrder();
      var v := ring.View();
      if i < |v| {
        RotatedHolds(live, v, Commands(log), gEnt, log.pending, Out(log), i);
        assert ring.entry[i] == ring.entry[..|v|][i];
      }
      hide Owns, Unrolls, Physical;
    }

    method TotalSize() returns (size: nat)
      requires Valid()
      ensures size == |Contents(log)|
    {
      hide Owns, Unrolls, Slots, Contents, Commands;
      SlotFact(0);
      SlotSumIsLength(log);
      ghost var p := Sizes(Slots(log));
      size := 0;
      var index := 0;
      while index < CAPACITY
        invariant index <= CAPACITY
        invariant size == Sum(p[..Min(index, |p|)])
      {
        SlotFact(index);
        if index < |p| {
          SumTake(p, index);
        }
        if ring.entry[index].buffptr != NULL {
          size := size + ring.entry[index].size;
        }
        index := index + 1;
      }
    }

    method Llseek(filp: File, offset: int, whence: int) returns (ret: int)
      requires Valid()
      modifies filp
      ensures var r := FixedSizeLlseek(old(filp.fPos), offset, whence, |Contents(log)|);
              ret == r.0 && filp.fPos == r.1
    {
      var totalBufferSize := TotalSize();
      var r := FixedSizeLlseek(filp.fPos, offset, whence, totalBufferSize);
      filp.fPos := r.1;
      ret := r.0;
    }

    /** The walk of a seek: where it stops, or a rejection found on the way. */
    method WalkTo(writeCmd: nat, writeCmdOffset: nat) returns (ok: bool, totalOffset: nat)
      requires Valid() && writeCmd <= CAPACITY
      ensures SeekShipped(log, writeCmd, writeCmdOffset) == if ok then Moved(totalOffset) else InvalidLockHeld
      ensures ok ==> totalOffset <= |Contents(log)|
    {
      hide Owns, Unrolls, Slots, Contents, Commands;
      SlotFact(0);
      SlotSumIsLength(log);
      ghost var p := Sizes(Slots(log));
      var index := 0;
      totalOffset := 0;
      while index < CAPACITY
        invariant index <= |p| && index <= writeCmd
        invariant totalOffset == Sum(p[..index])
      {
        SlotFact(index);
        var ent := ring.entry[index];
        if index == writeCmd {
          if ent.buffptr == NULL {
            return false, 0;
          } else if writeCmdOffset >= ent.size {
            return false, 0;
          } else {
            SumTake(p, index);
            SumSplit(p, index + 1);
            return true, totalOffset + writeCmdOffset;
          }
        } else if ent.buffptr != NULL {
          SumTake(p, index);
          totalOffset := totalOffset + ent.size;
        } else {
          return true, totalOffset;
        }
        index := index + 1;
      }
      ok := true;
    }

    method AdjustFileOffset(filp: File, writeCmd: nat, writeCmdOffset: nat, interrupted: bool) returns (ret: int)
      requires Valid() && !locked
      modifies this`locked, filp
      ensures Valid()
      ensures interrupted && writeCmd <= CAPACITY ==>
                ret == -ERESTARTSYS && !locked && filp.fPos == old(filp.fPos)
      ensures !interrupted || writeCmd > CAPACITY ==>
                match SeekShipped(log, writeCmd, writeCmdOffset)
                case Moved(pos) => ret == pos && filp.fPos == pos && !locked
                case Invalid => ret == -EINVAL && filp.fPos == old(filp.fPos) && !locked
                case InvalidLockHeld => ret == -EINVAL && filp.fPos == old(filp.fPos) && locked
    {
      if writeCmd > CAPACITY {
        return -EINVAL;
      }
      if interrupted {
        return -ERESTARTSYS;
      }
      locked := true;
      var ok, totalOffset := WalkTo(writeCmd, writeCmdOffset);
      if !ok {
        return -EINVAL;
      }
      ret := Llseek(filp, totalOffset, SEEK_SET);
      locked := false;
    }

    /** Unloading frees every command once. It leaves the pending buffer behind if there is one. */
    method Cleanup()
      requires Valid()
      modifies this`heap
      ensures heap == if gEnt.buffptr == NULL then map[] else map[gEnt.buffptr := log.pending]
    {
      hide Owns, Unrolls, Physical;
      ghost var v, live := ring.View(), heap;
      ghost var p := Physical(v, Out(log));
      OwnsPhysical(heap, v, Commands(log), gEnt, log.pending, Out(log));
      var index := 0;
      while index < CAPACITY
        invariant index <= CAPACITY
        invariant heap == live - Addresses(p[..Min(index, |p|)])
      {
        EntryFact(live, index);
        var ent := ring.entry[index];
        if ent.buffptr != NULL {
          FreeNext(live, p, index);
          Kfree(ent.buffptr);
        }
        index := index + 1;
      }
      assert p[..|p|] == p;
      LeftPending(live, v, Commands(log), gEnt, log.pending);
    }
  }

  lemma FreeNext(live: Heap, p: seq<Entry>, index: nat)
    requires index < |p| && Addresses(p) <= live.Keys
    requires forall i, j | 0 <= i < j < |p| :: p[i].buffptr != p[j].buffptr
    ensures p[index].buffptr in live - Addresses(p[..index])
    ensures live - Addresses(p[..index + 1]) == live - Addresses(p[..index]) - {p[index].buffptr}
  {
    assert p[..index + 1] == p[..index] + [p[index]];
    assert Addresses(p[..index + 1]) == Addresses(p[..index]) + {p[index].buffptr};
  }

  lemma LeftPending(heap: Heap, view: seq<Entry>, commands: seq<seq<byte>>, pend: Entry,
                    pending: seq<byte>)
    requires Owns(heap, view, commands, pend, pending)
    ensures heap - Addresses(view) == if pend.buffptr == NULL then map[] else map[pend.buffptr := pending]
  {
    if pend.buffptr != NULL {
      assert pend.buffptr !in Addresses(view);
    }
  }
}
