/** The fixed ring of write commands (aesd-circular-buffer.c), as a bounded log. */
module CircularBuffer {
  import opened Bytes

  const CAPACITY: nat := 10
  const SIZE_MAX: nat := 0xFFFF_FFFF_FFFF_FFFF

  type Address = nat
  const NULL: Address := 0

  datatype Entry = Entry(buffptr: Address, size: nat)

  /** A slot that memset cleared and no write has filled. */
  const CLEARED: Entry := Entry(NULL, 0)

  /** What a log bounded to CAPACITY keeps of a history, oldest first. */
  function Recent<T>(history: seq<T>): seq<T> {
    if |history| <= CAPACITY then history else history[|history| - CAPACITY..]
  }

  /** The read index after `n` writes: it starts to move when the ring is full. */
  function OutOffs(n: nat): nat {
    if n < CAPACITY then 0 else n % CAPACITY
  }

  /** Slots 0, 1, ... of a ring whose oldest-first contents are `view` and whose oldest slot is `out`. */
  function Physical<T>(view: seq<T>, out: nat): (r: seq<T>)
    requires out <= |view|
    ensures |r| == |view|
  {
    view[|view| - out..] + view[..|view| - out]
  }

  lemma RecentPush<T>(history: seq<T>, e: T)
    ensures Recent(history + [e])
         == if |history| < CAPACITY then history + [e] else Recent(history)[1..] + [e]
  {
  }

  /** Overwriting the oldest slot and stepping past it drops the oldest and appends the newest. */
  lemma OverwriteOldest<T>(slots: seq<T>, i: nat, e: T)
    requires i < |slots| == CAPACITY
    ensures var after, j := slots[i := e], (i + 1) % CAPACITY;
            after[j..] + after[..j] == (slots[i..] + slots[..i])[1..] + [e]
  {
    var after, j := slots[i := e], (i + 1) % CAPACITY;
    if i == CAPACITY - 1 {
      assert after[j..] + after[..j] == slots[..i] + [e];
      assert (slots[i..] + slots[..i])[1..] == slots[..i];
    } else {
      assert after[j..] == slots[i..][1..];
      assert after[..j] == slots[..i] + [e];
    }
  }

  function EntrySizes(entries: seq<Entry>): (r: seq<nat>)
    ensures |r| == |entries|
  {
    seq(|entries|, i requires 0 <= i < |entries| => entries[i].size)
  }

  lemma SumRotates(sizes: seq<nat>, out: nat)
    requires out <= |sizes|
    ensures Sum(Physical(sizes, out)) == Sum(sizes)
  {
    var k := |sizes| - out;
    SumAppend(sizes[k..], sizes[..k]);
    SumSplit(sizes, k);
  }

  lemma ScanHit(sizes: seq<nat>, idx: nat, total: nat, pos: int)
    requires idx < |sizes| && total == Sum(sizes[..idx])
    ensures total <= pos < total + sizes[idx] ==> Locate(sizes, pos) == Some((idx, pos - total))
  {
    if total <= pos {
      LocateExact(sizes, pos, idx, pos - total);
    }
  }

  /** Empty slots in front of the oldest entry do not disturb a lookup. */
  lemma LocateSkipsCleared(cleared: seq<nat>, sizes: seq<nat>, pos: nat)
    requires forall i | 0 <= i < |cleared| :: cleared[i] == 0
    ensures Locate(cleared + sizes, pos)
         == match Locate(sizes, pos) case None => None case Some((k, b)) => Some((|cleared| + k, b))
  {
    SumZeros(cleared);
    SumAppend(cleared, sizes);
    LocateFinds(sizes, pos);
    LocateFinds(cleared + sizes, pos);
    if Locate(sizes, pos).Some? {
      var (k, b) := Locate(sizes, pos).value;
      LocateExact(sizes, pos, k, b);
      assert (cleared + sizes)[..|cleared| + k] == cleared + sizes[..k];
      SumAppend(cleared, sizes[..k]);
      LocateExact(cleared + sizes, pos, |cleared| + k, b);
    }
  }

  /** The entries from the read index to the write index, oldest first. */
  function ViewOf(slots: seq<Entry>, inOffs: nat, outOffs: nat, full: bool): seq<Entry>
    requires inOffs <= |slots| && outOffs <= |slots|
  {
    if full then slots[outOffs..] + slots[..outOffs] else slots[..inOffs]
  }

  /** After any number of adds the fields of the ring are determined by the history. */
  ghost predicate Unrolls(slots: seq<Entry>, inOffs: nat, outOffs: nat, full: bool, history: seq<Entry>) {
    && |slots| == CAPACITY
    && inOffs == |history| % CAPACITY
    && outOffs == OutOffs(|history|)
    && full == (|history| >= CAPACITY)
    && ViewOf(slots, inOffs, outOffs, full) == Recent(history)
    && (!full ==> forall i | inOffs <= i < CAPACITY :: slots[i] == CLEARED)
  }

  lemma UnrollsAdd(slots: seq<Entry>, inOffs: nat, outOffs: nat, full: bool,
                   history: seq<Entry>, e: Entry)
    requires Unrolls(slots, inOffs, outOffs, full, history)
    ensures var next := (inOffs + 1) % CAPACITY;
            var nowFull := full || inOffs == CAPACITY - 1;
            Unrolls(slots[inOffs := e], next, if nowFull then next else outOffs, nowFull, history + [e])
    ensures inOffs < |slots| == CAPACITY && full == (|history| >= CAPACITY)
    ensures full ==> slots[inOffs] == Recent(history)[0]
  {
    RecentPush(history, e);
    var after := slots[inOffs := e];
    if full {
      OverwriteOldest(slots, inOffs, e);
    } else if inOffs == CAPACITY - 1 {
      assert after[0..] + after[..0] == slots[..inOffs] + [e];
    } else {
      assert after[..inOffs + 1] == slots[..inOffs] + [e];
    }
  }

  class Ring {
    const entry: array<Entry>
    var inOffs: nat
    var outOffs: nat
    var full: bool
    /** Every entry ever added, oldest first. */
    ghost var history: seq<Entry>

    ghost predicate Valid()
      reads this, entry
    {
      entry.Length == CAPACITY && Unrolls(entry[..], inOffs, outOffs, full, history)
    }

    /** The entries in the ring, oldest first. */
    ghost function View(): seq<Entry>
      reads this`history
    {
      Recent(history)
    }

    /** The slot of the k-th oldest entry. */
    function SlotOf(k: nat): nat
      reads this
    {
      (outOffs + k) % CAPACITY
    }

    constructor ()
      ensures Valid() && history == [] && fresh(entry)
    {
      entry := new Entry[CAPACITY](_ => CLEARED);
      inOffs, outOffs, full := 0, 0, false;
      history := [];
    }

    method AddEntry(e: Entry) returns (evicted: Address)
      requires Valid()
      modifies this, entry
      ensures Valid() && history == old(history) + [e]
      ensures evicted == if |old(history)| >= CAPACITY then old(View())[0].buffptr else NULL
    {
      hide Unrolls, Recent;
      UnrollsAdd(entry[..], inOffs, outOffs, full, history, e);
      ghost var before, at := entry[..], inOffs;
      evicted := NULL;
      if full {
        evicted := entry[inOffs].buffptr;
      }
      entry[inOffs] := e;
      assert entry[..] == before[at := e];
      if inOffs == CAPACITY - 1 {
        full := true;
        inOffs := 0;
      } else {
        inOffs := inOffs + 1;
      }
      if full {
        outOffs := inOffs;
      }
      history := history + [e];
    }

    /** `char_num` is the one-based offset, computed in size_t: it wraps to 0 at SIZE_MAX, and then
        the first slot visited is returned. The lookup is the flat one exactly below SIZE_MAX. */
    method FindEntryOffsetForFpos(charOffset: nat) returns (slot: Option<nat>, byteOffset: nat)
      requires Valid() && charOffset <= SIZE_MAX
      ensures charOffset < SIZE_MAX ==>
                match Locate(EntrySizes(View()), charOffset)
                case None => slot == None
                case Some((k, b)) => slot == Some(SlotOf(k)) && byteOffset == b
      ensures charOffset == SIZE_MAX ==> slot == Some(inOffs) && byteOffset == SIZE_MAX
      ensures charOffset == SIZE_MAX >= Sum(EntrySizes(View())) ==> Locate(EntrySizes(View()), charOffset) == None
      ensures slot.Some? ==> slot.value < CAPACITY
    {
      hide Unrolls, Locate, Sum, ScanSizes, EntrySizes;
      ghost var sizes := ScanSizes();
      ScanSlot(0);
      var totalByteCount := 0;
      var charNum := (charOffset + 1) % (SIZE_MAX + 1);
      var idx := 0;
      slot, byteOffset := None, 0;
      while slot == None && idx < CAPACITY
        invariant idx <= CAPACITY
        invariant slot == None ==> totalByteCount == Sum(sizes[..idx])
        invariant slot == None && charOffset < SIZE_MAX ==> totalByteCount <= charOffset
        invariant slot == None && charOffset == SIZE_MAX ==> idx == 0
        invariant slot.Some? && charOffset == SIZE_MAX ==> slot.value == inOffs && byteOffset == SIZE_MAX
        invariant slot.Some? && charOffset < SIZE_MAX ==>
                    1 <= idx && slot.value == (idx - 1 + inOffs) % CAPACITY
                    && Locate(sizes, charOffset) == Some((idx - 1, byteOffset))
        invariant slot.Some? ==> slot.value < CAPACITY
        decreases CAPACITY - idx, slot == None
      {
        var entIdx := (idx + inOffs) % CAPACITY;
        ScanSlot(idx);
        if totalByteCount <= charNum && charNum <= totalByteCount + entry[entIdx].size {
          slot, byteOffset := Some(entIdx), charOffset - totalByteCount;
          ScanHit(sizes, idx, totalByteCount, charOffset);
        }
        SumTake(sizes, idx);
        totalByteCount := totalByteCount + entry[entIdx].size;
        idx := idx + 1;
      }
      LocateFinds(sizes, charOffset);
      LocateFinds(EntrySizes(View()), charOffset);
      ScanOrder(charOffset);
    }

    /** The entry sizes in the order of the lookup, which starts at the write index. */
    ghost function ScanSizes(): (r: seq<nat>)
      requires Valid()
      reads this, entry
      ensures |r| == CAPACITY
    {
      EntrySizes(entry[inOffs..] + entry[..inOffs])
    }

    lemma ScanSlot(i: nat)
      requires Valid() && i < CAPACITY
      ensures inOffs < CAPACITY && entry[(i + inOffs) % CAPACITY].size == ScanSizes()[i]
      ensures var s := ScanSizes(); s[..CAPACITY] == s && Sum(s[..0]) == 0
    {
    }

    /** The scan visits the unfilled slots first, then the entries oldest first. */
    lemma ScanOrder(pos: nat)
      requires Valid()
      ensures match Locate(ScanSizes(), pos)
              case None => Locate(EntrySizes(View()), pos) == None
              case Some((j, b)) =>
                var k := j - (CAPACITY - |View()|);
                k >= 0 && Locate(EntrySizes(View()), pos) == Some((k, b)) && SlotOf(k) == (j + inOffs) % CAPACITY
    {
      var cleared := ScanIsView();
      hide Unrolls, ScanSizes, EntrySizes, Locate;
      var v := EntrySizes(View());
      LocateSkipsCleared(cleared, v, pos);
      if Locate(v, pos).Some? {
        LocateExact(v, pos, Locate(v, pos).value.0, Locate(v, pos).value.1);
      }
    }

    lemma ScanIsView() returns (cleared: seq<nat>)
      requires Valid()
      ensures forall i | 0 <= i < |cleared| :: cleared[i] == 0
      ensures ScanSizes() == cleared + EntrySizes(View()) && |cleared| == CAPACITY - |View()|
      ensures inOffs < CAPACITY && outOffs == if |View()| < CAPACITY then 0 else inOffs
      ensures |View()| < CAPACITY ==> inOffs == |View()|
    {
      cleared := if full then [] else EntrySizes(entry[inOffs..]);
      assert full ==> [] + EntrySizes(View()) == EntrySizes(View());
    }

    /** The slots walked from 0 are the oldest-first entries rotated by the read index. */
    lemma PhysicalOrder()
      requires Valid()
      ensures outOffs <= |View()| <= CAPACITY
      ensures entry[..|View()|] == Physical(View(), outOffs)
      ensures forall i | |View()| <= i < CAPACITY :: entry[i] == CLEARED
    {
      var v := View();
      if full {
        assert v[|v| - outOffs..] == entry[..outOffs];
        assert v[..|v| - outOffs] == entry[outOffs..];
        assert entry[..|v|] == entry[..outOffs] + entry[outOffs..];
      } else {
        assert Physical(v, 0) == v;
      }
    }

    lemma SlotHoldsEntry(k: nat)
      requires Valid() && k < |View()|
      ensures SlotOf(k) < CAPACITY && entry[SlotOf(k)] == View()[k]
    {
    }
  }
}
