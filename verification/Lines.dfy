/** Terminated pieces of a byte stream, as the server frames them. */
module Lines {
  import opened Bytes

  /** The shortest prefix ending in `term`, or everything when `term` does not occur. */
  function Cut(s: seq<byte>, term: byte): (r: seq<byte>)
    ensures r <= s
    ensures s != [] ==> r != []
    ensures term !in s ==> r == s
    ensures term in s ==> r != [] && r[|r| - 1] == term && term !in r[..|r| - 1]
  {
    if s == [] then []
    else if s[0] == term then [term]
    else
      var t := Cut(s[1..], term);
      assert term in s ==> ([s[0]] + t)[..|t|] == [s[0]] + t[..|t| - 1];
      [s[0]] + t
  }

  /** The newline-terminated lines of `s`, in order. */
  function LinesOf(s: seq<byte>): seq<seq<byte>>
    decreases |s|
  {
    if NEWLINE !in s then []
    else [Cut(s, NEWLINE)] + LinesOf(s[|Cut(s, NEWLINE)|..])
  }

  /** What follows the last newline of `s`. */
  function TailOf(s: seq<byte>): seq<byte>
    decreases |s|
  {
    if NEWLINE !in s then s else TailOf(s[|Cut(s, NEWLINE)|..])
  }

  /** A line holds exactly one newline, its last byte. */
  ghost predicate IsLine(s: seq<byte>) {
    s != [] && s[|s| - 1] == NEWLINE && NEWLINE !in s[..|s| - 1]
  }

  /** `p` is the longest prefix of `s` that is empty or ends in a newline. */
  ghost predicate IsLinePrefix(p: seq<byte>, s: seq<byte>) {
    p <= s && (p == [] || p[|p| - 1] == NEWLINE) && NEWLINE !in s[|p|..]
  }

  lemma LinePrefixUnique(p: seq<byte>, q: seq<byte>, s: seq<byte>)
    requires IsLinePrefix(p, s) && IsLinePrefix(q, s)
    ensures p == q
  {
    forall i | |p| <= i < |s| ensures s[i] != NEWLINE {
      assert s[i] == s[|p|..][i - |p|];
    }
    forall i | |q| <= i < |s| ensures s[i] != NEWLINE {
      assert s[i] == s[|q|..][i - |q|];
    }
  }

  /** Splitting loses nothing. */
  lemma {:induction false} SplitLossless(s: seq<byte>)
    ensures Flatten(LinesOf(s)) + TailOf(s) == s
    ensures NEWLINE !in TailOf(s)
    decreases |s|
  {
    if NEWLINE in s {
      var c := Cut(s, NEWLINE);
      SplitLossless(s[|c|..]);
      LinesStep(s);
      hide *;
      assert s == c + s[|c|..];
      Grouped(c, Flatten(LinesOf(s[|c|..])), TailOf(s[|c|..]));
    }
  }

  lemma LinesStep(s: seq<byte>)
    requires NEWLINE in s
    ensures var c := Cut(s, NEWLINE);
            Flatten(LinesOf(s)) == c + Flatten(LinesOf(s[|c|..])) && TailOf(s) == TailOf(s[|c|..])
  {
  }

  lemma Grouped<T>(a: seq<T>, b: seq<T>, c: seq<T>)
    ensures a + b + c == a + (b + c)
  {
  }

  lemma {:induction false} LinesAreLines(s: seq<byte>)
    ensures forall i | 0 <= i < |LinesOf(s)| :: IsLine(LinesOf(s)[i])
    decreases |s|
  {
    if NEWLINE in s {
      var c := Cut(s, NEWLINE);
      LinesAreLines(s[|c|..]);
      assert IsLine(c);
    }
  }

  lemma {:induction false} FlatLinesEnd(ls: seq<seq<byte>>)
    requires forall i | 0 <= i < |ls| :: IsLine(ls[i])
    ensures var f := Flatten(ls); f == [] || f[|f| - 1] == NEWLINE
  {
    if ls != [] {
      FlatLinesEnd(ls[1..]);
    }
  }

  /** The lines of `s` together are its longest newline-terminated prefix. */
  lemma LinesArePrefix(s: seq<byte>)
    ensures IsLinePrefix(Flatten(LinesOf(s)), s)
  {
    SplitLossless(s);
    LinesAreLines(s);
    FlatLinesEnd(LinesOf(s));
    var f := Flatten(LinesOf(s));
    assert (f + TailOf(s))[|f|..] == TailOf(s);
  }

  /** The lines and the tail are the only way to write `s` as lines and a newline-free rest. */
  lemma {:induction false} SplitUnique(ls: seq<seq<byte>>, t: seq<byte>)
    requires forall i | 0 <= i < |ls| :: IsLine(ls[i])
    requires NEWLINE !in t
    ensures LinesOf(Flatten(ls) + t) == ls && TailOf(Flatten(ls) + t) == t
  {
    var s := Flatten(ls) + t;
    if ls == [] {
      assert s == t;
    } else {
      var rest := Flatten(ls[1..]) + t;
      assert s == ls[0] + rest;
      assert s[|ls[0]| - 1] == NEWLINE;
      CutLine(ls[0], rest);
      assert s[|ls[0]|..] == rest;
      SplitUnique(ls[1..], t);
    }
  }

  lemma {:induction false} CutLine(l: seq<byte>, rest: seq<byte>)
    requires IsLine(l)
    ensures Cut(l + rest, NEWLINE) == l
  {
    if |l| > 1 {
      assert l[0] == l[..|l| - 1][0];
      assert (l + rest)[1..] == l[1..] + rest;
      assert l[1..][..|l| - 2] == l[..|l| - 1][1..];
      CutLine(l[1..], rest);
    }
  }

  /** A C string read out of a buffer: everything before the first NUL. */
  function CStr(s: seq<byte>): (r: seq<byte>)
    ensures r <= s && NUL !in r
    ensures |r| < |s| ==> s[|r|] == NUL
  {
    if s == [] || s[0] == NUL then [] else [s[0]] + CStr(s[1..])
  }

  lemma CStrWhole(s: seq<byte>)
    requires NUL !in s
    ensures CStr(s) == s
  {
  }

  /** What the server sends back for the stream `s`: each complete line, as a C string. */
  function Echo(s: seq<byte>): seq<byte>
    decreases |s|
  {
    if NEWLINE !in s then []
    else CStr(Cut(s, NEWLINE)) + Echo(s[|Cut(s, NEWLINE)|..])
  }

  lemma EchoStep(s: seq<byte>)
    ensures if NEWLINE in s
            then Echo(s) == CStr(Cut(s, NEWLINE)) + Echo(s[|Cut(s, NEWLINE)|..])
            else Echo(s) == []
  {
  }

  lemma TailStep(s: seq<byte>)
    ensures TailOf(s) == if NEWLINE in s then TailOf(s[|Cut(s, NEWLINE)|..]) else s
  {
  }

  /** Without NULs the echo is the longest newline-terminated prefix. */
  lemma {:induction false} EchoIsLinePrefix(s: seq<byte>)
    requires NUL !in s
    ensures Echo(s) == Flatten(LinesOf(s))
    ensures IsLinePrefix(Echo(s), s)
    decreases |s|
  {
    LinesArePrefix(s);
    if NEWLINE in s {
      var c := Cut(s, NEWLINE);
      EchoIsLinePrefix(s[|c|..]);
      CStrWhole(c);
      assert LinesOf(s)[1..] == LinesOf(s[|c|..]);
    }
  }
}
