/** Bytes, byte sequences and the prefix sums that turn (entry, byte in entry) into a flat offset. */
module Bytes {
  newtype byte = x: int | 0 <= x < 256

  const NEWLINE: byte := 10
  const NUL: byte := 0

  datatype Option<+T> = None | Some(value: T)

  function Min(a: nat, b: nat): nat {
    if a < b then a else b
  }

  function Flatten(ss: seq<seq<byte>>): seq<byte> {
    if ss == [] then [] else ss[0] + Flatten(ss[1..])
  }

  lemma {:induction false} FlattenAppend(a: seq<seq<byte>>, b: seq<seq<byte>>)
    ensures Flatten(a + b) == Flatten(a) + Flatten(b)
  {
    if a == [] {
      assert a + b == b;
    } else {
      assert (a + b)[1..] == a[1..] + b;
      FlattenAppend(a[1..], b);
    }
  }

  lemma FlattenSingle(s: seq<byte>)
    ensures Flatten([s]) == s
  {
    assert [s][1..] == [];
    assert s + [] == s;
  }

  function Sum(sizes: seq<nat>): nat {
    if sizes == [] then 0 else sizes[0] + Sum(sizes[1..])
  }

  lemma {:induction false} SumAppend(a: seq<nat>, b: seq<nat>)
    ensures Sum(a + b) == Sum(a) + Sum(b)
  {
    if a == [] {
      assert a + b == b;
    } else {
      assert (a + b)[1..] == a[1..] + b;
      SumAppend(a[1..], b);
    }
  }

  lemma SumOne(n: nat)
    ensures Sum([n]) == n
  {
    assert [n][1..] == [];
  }

  lemma SumTake(sizes: seq<nat>, k: nat)
    requires k < |sizes|
    ensures Sum(sizes[..k + 1]) == Sum(sizes[..k]) + sizes[k]
  {
    assert sizes[..k + 1] == sizes[..k] + [sizes[k]];
    SumAppend(sizes[..k], [sizes[k]]);
    SumOne(sizes[k]);
  }

  lemma SumSplit(sizes: seq<nat>, k: nat)
    requires k <= |sizes|
    ensures Sum(sizes) == Sum(sizes[..k]) + Sum(sizes[k..])
  {
    assert sizes == sizes[..k] + sizes[k..];
    SumAppend(sizes[..k], sizes[k..]);
  }

  lemma {:induction false} SumZeros(sizes: seq<nat>)
    requires forall i | 0 <= i < |sizes| :: sizes[i] == 0
    ensures Sum(sizes) == 0
  {
    if sizes != [] {
      SumZeros(sizes[1..]);
    }
  }

  function Sizes(ss: seq<seq<byte>>): (r: seq<nat>)
    ensures |r| == |ss|
  {
    seq(|ss|, i requires 0 <= i < |ss| => |ss[i]|)
  }

  lemma {:induction false} FlattenLength(ss: seq<seq<byte>>)
    ensures |Flatten(ss)| == Sum(Sizes(ss))
  {
    if ss != [] {
      assert Sizes(ss)[1..] == Sizes(ss[1..]);
      FlattenLength(ss[1..]);
    }
  }

  /** A flat offset looked up by walking the pieces: which piece, and which byte of it. */
  function Locate(sizes: seq<nat>, pos: nat): Option<(nat, nat)> {
    if sizes == [] then None
    else if pos < sizes[0] then Some((0, pos))
    else
      match Locate(sizes[1..], pos - sizes[0])
      case None => None
      case Some((k, b)) => Some((k + 1, b))
  }

  /** The pair Locate returns is exactly the pair whose prefix-sum interval holds the offset. */
  lemma {:induction false} LocateExact(sizes: seq<nat>, pos: nat, k: nat, b: nat)
    ensures Locate(sizes, pos) == Some((k, b))
       <==> k < |sizes| && b < sizes[k] && Sum(sizes[..k]) + b == pos
  {
    if sizes != [] {
      if k > 0 {
        if pos >= sizes[0] {
          LocateExact(sizes[1..], pos - sizes[0], k - 1, b);
        }
        if k < |sizes| {
          assert sizes[..k][1..] == sizes[1..][..k - 1];
        }
      } else {
        assert sizes[..0] == [];
      }
    }
  }

  lemma {:induction false} LocateFinds(sizes: seq<nat>, pos: nat)
    ensures Locate(sizes, pos).Some? <==> pos < Sum(sizes)
  {
    if sizes != [] && pos >= sizes[0] {
      LocateFinds(sizes[1..], pos - sizes[0]);
    }
  }

  /** A slice of one piece is the slice of the concatenation at the piece's prefix sum. */
  lemma {:induction false} FlattenSlice(ss: seq<seq<byte>>, k: nat, b: nat, n: nat)
    requires k < |ss| && b + n <= |ss[k]|
    ensures var p := Sum(Sizes(ss)[..k]) + b;
            p + n <= |Flatten(ss)| && Flatten(ss)[p..p + n] == ss[k][b..b + n]
  {
    var p := Sum(Sizes(ss)[..k]) + b;
    var f := Flatten(ss[1..]);
    if k == 0 {
      assert Sizes(ss)[..0] == [];
      assert Flatten(ss)[..|ss[0]|] == ss[0];
    } else {
      assert Sizes(ss)[..k][1..] == Sizes(ss[1..])[..k - 1];
      FlattenSlice(ss[1..], k - 1, b, n);
      var q := p - |ss[0]|;
      assert Flatten(ss)[p..p + n] == f[q..q + n];
    }
  }
}
