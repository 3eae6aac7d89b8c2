/**
 The argument vector on its way through exec: execv packs the strings into one buffer, each
 ended by NUL and the whole by one more; the process manager finds the strings again by
 scanning for the double NUL.
 */
module Argv {
  import opened Words

  const BUFFER_SIZE := 200                      // Buffer_Size of include/oslib.h
  const ARGV_SIZE := 150
  const NR_ARGV := 10

  type Bytestring = seq<byte>

  predicate NulFree(s: Bytestring) { 0 !in s }

  predicate Proper(args: seq<Bytestring>) {
    forall s :: s in args ==> NulFree(s)
  }

  /** The strings one after the other, each followed by NUL. */
  function Packed(args: seq<Bytestring>): Bytestring {
    if args == [] then [] else Packed(args[..|args| - 1]) + args[|args| - 1] + [0]
  }

  function Start(args: seq<Bytestring>, i: nat): nat
    requires i <= |args|
  {
    |Packed(args[..i])|
  }

  function Starts(args: seq<Bytestring>): (r: seq<nat>)
    ensures |r| == |args|
  {
    seq(|args|, i requires 0 <= i < |args| => Start(args, i))
  }

  lemma StartNext(args: seq<Bytestring>, i: nat)
    requires i < |args|
    ensures Packed(args[..i + 1]) == Packed(args[..i]) + args[i] + [0]
    ensures Start(args, i + 1) == Start(args, i) + |args[i]| + 1
  {
    assert args[..i + 1][..i] == args[..i];
  }

  /** String i stands at Start(i), followed by its NUL. */
  lemma {:induction false} PackedAt(args: seq<Bytestring>, i: nat)
    requires i < |args|
    ensures Start(args, i) + |args[i]| < |Packed(args)|
    ensures Packed(args)[Start(args, i)..Start(args, i) + |args[i]|] == args[i]
    ensures Packed(args)[Start(args, i) + |args[i]|] == 0
    ensures Packed(args[..i]) <= Packed(args)
    decreases |args|
  {
    var n := |args| - 1;
    assert args[..n + 1] == args;
    StartNext(args, n);
    if i < n {
      PackedAt(args[..n], i);
      assert args[..n][..i] == args[..i];
    }
  }

  /** lib/oslib.c:35-58, with the buffer as out-parameter. */
  method Pack(args: seq<Bytestring>, buf: array<byte>) returns (n: nat)
    requires Proper(args) && |Packed(args)| < buf.Length
    modifies buf
    ensures n == |Packed(args)| + 1 <= buf.Length && buf[..n] == Packed(args) + [0]
    ensures buf[n..] == old(buf[n..])
  {
    var ptr := 0;
    var i := 0;
    assert args[..0] == [];
    assert args[..|args|] == args;
    while i < |args|
      invariant i <= |args| && ptr == Start(args, i) <= |Packed(args)|
      invariant buf[..ptr] == Packed(args[..i]) && buf[ptr..] == old(buf[ptr..])
    {
      PackedAt(args, i);
      StartNext(args, i);
      ghost var start := ptr;
      var str := args[i];
      var k := 0;
      while k < |str|
        invariant k <= |str| && ptr == start + k
        invariant buf[..ptr] == Packed(args[..i]) + str[..k] && buf[ptr..] == old(buf[ptr..])
      {
        buf[ptr] := str[k];
        ptr := ptr + 1;
        k := k + 1;
      }
      assert str[..k] == str;
      buf[ptr] := 0;
      ptr := ptr + 1;
      i := i + 1;
    }
    buf[ptr] := 0;
    n := ptr + 1;
  }

  datatype ScanResult = Endless | Found(starts: seq<nat>, right: nat)

  /** The scan of kernel/pm.c:102-114 over the bytes it reads, from the state in which b[..right + 1]
      has been read, the current string began at left, and starts have been recorded. */
  function Scan(b: Bytestring, left: nat, right: nat, starts: seq<nat>): ScanResult
    requires right < |b|
    decreases |b| - right
  {
    if right + 1 == |b| then Endless
    else if b[right + 1] != 0 then Scan(b, left, right + 1, starts)
    else if b[right] == 0 then Found(starts, right + 1)
    else Scan(b, right + 2, right + 1, starts + [left])
  }

  /** Inside a string the scan runs on to its NUL. */
  lemma {:induction false} ScanString(b: Bytestring, left: nat, right: nat, stop: nat, starts: seq<nat>)
    requires right < stop < |b| && b[stop] == 0 && forall k :: right <= k < stop ==> b[k] != 0
    ensures Scan(b, left, right, starts) == Scan(b, stop + 1, stop, starts + [left])
    decreases stop - right
  {
    if right + 1 < stop { ScanString(b, left, right + 1, stop, starts); }
  }

  function Buffer(args: seq<Bytestring>, rest: Bytestring): Bytestring {
    Packed(args) + [0] + rest
  }

  lemma PackedIndex(args: seq<Bytestring>, i: nat, k: nat)
    requires i < |args| && k < |args[i]|
    ensures Start(args, i) + k < |Packed(args)| && Packed(args)[Start(args, i) + k] == args[i][k]
  {
    hide Packed, Start;
    PackedAt(args, i);
    var from := Start(args, i);
    assert Packed(args)[from..from + |args[i]|][k] == Packed(args)[from + k];
  }

  lemma StartsTake(args: seq<Bytestring>, i: nat)
    requires i < |args|
    ensures Starts(args)[..i] + [Start(args, i)] == Starts(args)[..i + 1]
  {}

  lemma StringInBuffer(args: seq<Bytestring>, i: nat, rest: Bytestring)
    requires i < |args| && Proper(args)
    ensures var b, stop := Buffer(args, rest), Start(args, i) + |args[i]|;
            stop + 1 == Start(args, i + 1) <= |Packed(args)| < |b| && b[stop] == 0
            && forall k :: Start(args, i) <= k < stop ==> b[k] == args[i][k - Start(args, i)] && b[k] != 0
    ensures Starts(args)[..i] + [Start(args, i)] == Starts(args)[..i + 1]
  {
    hide Packed, Start, Starts;
    PackedAt(args, i);
    StartNext(args, i);
    StartsTake(args, i);
    var b, from := Buffer(args, rest), Start(args, i);
    assert args[i] in args;
    forall k | from <= k < from + |args[i]| ensures b[k] == args[i][k - from] && b[k] != 0 {
      PackedIndex(args, i, k - from);
    }
  }

  lemma BufferEnd(args: seq<Bytestring>, rest: Bytestring)
    ensures Start(args, |args|) == |Packed(args)| < |Buffer(args, rest)| && Buffer(args, rest)[|Packed(args)|] == 0
    ensures Starts(args)[..|args|] == Starts(args) && Start(args, 0) == 0
  {
    assert args[..|args|] == args && args[..0] == [];
  }

  /** From the NUL before string i every string from i on is found. */
  lemma {:induction false} ScanFinds(args: seq<Bytestring>, i: nat, rest: Bytestring)
    requires 0 < i <= |args| && Proper(args) && forall s :: s in args ==> s != []
    ensures 0 < Start(args, i) < |Buffer(args, rest)|
    ensures Scan(Buffer(args, rest), Start(args, i), Start(args, i) - 1, Starts(args)[..i]) == Found(Starts(args), |Packed(args)|)
    decreases |args| - i
  {
    hide Buffer, Start, Starts, Packed, NulFree;
    var b := Buffer(args, rest);
    StringInBuffer(args, i - 1, rest);
    if i == |args| {
      BufferEnd(args, rest);
    } else {
      StringInBuffer(args, i, rest);
      var from, stop := Start(args, i), Start(args, i) + |args[i]|;
      assert args[i] in args;
      ScanString(b, from, from, stop, Starts(args)[..i]);
      ScanFinds(args, i + 1, rest);
    }
  }

  /** One or more strings, none of them empty, are found again, whatever follows in memory. */
  lemma ScanFindsAll(args: seq<Bytestring>, rest: Bytestring)
    requires args != [] && Proper(args) && forall s :: s in args ==> s != []
    ensures Scan(Buffer(args, rest), 0, 0, []) == Found(Starts(args), |Packed(args)|)
  {
    hide Buffer, Start, Starts, Packed, NulFree;
    BufferEnd(args, rest);
    StringInBuffer(args, 0, rest);
    assert args[0] in args;
    ScanString(Buffer(args, rest), 0, 0, |args[0]|, []);
    ScanFinds(args, 1, rest);
  }

  function Zeros(b: Bytestring): nat {
    if b == [] then 0 else Zeros(b[..|b| - 1]) + (if b[|b| - 1] == 0 then 1 else 0)
  }

  lemma {:induction false} ZerosConcat(a: Bytestring, b: Bytestring)
    ensures Zeros(a + b) == Zeros(a) + Zeros(b)
    decreases |b|
  {
    if b == [] {
      assert a + b == a;
    } else {
      ZerosConcat(a, b[..|b| - 1]);
      assert (a + b)[..|a + b| - 1] == a + b[..|b| - 1];
    }
  }

  lemma {:induction false} NoZeros(s: Bytestring)
    requires NulFree(s)
    ensures Zeros(s) == 0
    decreases |s|
  {
    if s != [] {
      assert s[|s| - 1] in s;
      assert NulFree(s[..|s| - 1]);
      NoZeros(s[..|s| - 1]);
    }
  }

  lemma {:induction false} ZerosPacked(args: seq<Bytestring>)
    requires Proper(args)
    ensures Zeros(Packed(args)) == |args|
    decreases |args|
  {
    if args != [] {
      var n := |args| - 1;
      ZerosPacked(args[..n]);
      assert args[n] in args;
      NoZeros(args[n]);
      ZerosConcat(Packed(args[..n]), args[n]);
      assert Zeros([0]) == 1 by { assert [0][..0] == []; }
      ZerosConcat(Packed(args[..n]) + args[n], [0]);
    }
  }

  /** A scan stops at a double NUL, and records at most one start for each NUL passed on the way. */
  lemma {:induction false} ScanStops(b: Bytestring, left: nat, right: nat, starts: seq<nat>)
    requires right < |b|
    ensures var r := Scan(b, left, right, starts);
            r.Found? ==> right < r.right < |b| && b[r.right] == 0 && b[r.right - 1] == 0
                         && |r.starts| + Zeros(b[..right + 1]) <= |starts| + Zeros(b[..r.right])
                         && forall k :: right < k < r.right ==> b[k] != 0 || b[k - 1] != 0
    decreases |b| - right
  {
    if right + 1 < |b| {
      assert b[..right + 2][..right + 1] == b[..right + 1];
      if b[right + 1] != 0 { ScanStops(b, left, right + 1, starts); }
      else if b[right] != 0 { ScanStops(b, right + 2, right + 1, starts + [left]); }
    }
  }

  /** An empty string among the arguments is lost, whatever follows: the scan stops early or drops a string. */
  lemma EmptyStringIsLost(args: seq<Bytestring>, e: nat, rest: Bytestring)
    requires Proper(args) && e < |args| && args[e] == []
    ensures Scan(Buffer(args, rest), 0, 0, []) != Found(Starts(args), |Packed(args)|)
  {
    hide Start, Starts, Packed, NulFree, Scan, Zeros;
    var b := Buffer(args, rest);
    BufferEnd(args, rest);
    ScanStops(b, 0, 0, []);
    StringInBuffer(args, e, rest);
    if e > 0 {
      StringInBuffer(args, e - 1, rest);
    } else {
      ZerosPacked(args);
      FirstZero(b);
      assert b[..|Packed(args)|] == Packed(args);
    }
  }

  /** So is an empty list: its one NUL is passed over, and the scan goes on into what follows. */
  lemma NoStringsAreLost(rest: Bytestring)
    ensures Scan(Buffer([], rest), 0, 0, []) != Found(Starts([]), |Packed([])|)
  {
    ScanStops(Buffer([], rest), 0, 0, []);
  }

  lemma FirstZero(b: Bytestring)
    requires b != [] && b[0] == 0
    ensures Zeros(b[..1]) == 1
  {}

  /**
   The exact condition, whatever bytes lie behind the packed strings: the arguments come back
   if and only if there are some and none of them is empty.
   */
  lemma ScanFindsAllIff(args: seq<Bytestring>, rest: Bytestring)
    requires Proper(args)
    ensures Scan(Buffer(args, rest), 0, 0, []) == Found(Starts(args), |Packed(args)|)
            <==> args != [] && forall s :: s in args ==> s != []
  {
    hide Buffer, Start, Starts, Packed, NulFree, Scan;
    if args == [] {
      NoStringsAreLost(rest);
    } else if s :| s in args && s == [] {
      var e :| 0 <= e < |args| && args[e] == s;
      EmptyStringIsLost(args, e, rest);
    } else {
      ScanFindsAll(args, rest);
    }
  }
}
