/**
 The IDE driver (kernel/drivers/ide.c): the sector cache over a drive that raises one interrupt
 for each command, while clients and the timer go on sending to the driver's mailbox.
 */
module IdeDriver {
  import opened Words
  import opened SectorCache

  /** What the driver receives: two hardware messages, and requests of clients. */
  datatype Packet =
    | Ready
    | WriteBack
    | Read(src: nat, offset: nat, length: nat)
    | Write(src: nat, offset: nat, data: seq<byte>)

  datatype Reply = Reply(dest: nat, data: seq<byte>)

  predicate Hard(p: Packet) { p.Ready? || p.WriteBack? }

  ghost predicate NoReady(q: seq<Packet>) {
    forall k :: 0 <= k < |q| ==> q[k] != Ready
  }

  function Extent(p: Packet): nat {
    match p
    case Read(_, offset, length) => offset + length
    case Write(_, offset, data) => offset + |data|
    case _ => 0
  }

  /** Requests stay on the disk. */
  ghost predicate OnDisk(q: seq<Packet>, sectors: nat) {
    forall k :: 0 <= k < |q| ==> Extent(q[k]) <= SECTOR_SIZE * sectors
  }

  /** The requests among the packets, in order. */
  function Requests(q: seq<Packet>): seq<Packet> {
    if q == [] then [] else (if Hard(q[0]) then [] else [q[0]]) + Requests(q[1..])
  }

  lemma {:induction false} RequestsAppend(p: seq<Packet>, q: seq<Packet>)
    ensures Requests(p + q) == Requests(p) + Requests(q)
  {
    if p == [] {
      assert p + q == q;
    } else {
      var r := p + q;
      assert r[0] == p[0] && r[1..] == p[1..] + q;
      RequestsAppend(p[1..], q);
    }
  }

  lemma {:induction false} RequestsOnly(q: seq<Packet>)
    requires forall k :: 0 <= k < |q| ==> !Hard(q[k])
    ensures Requests(q) == q
  {
    if q != [] {
      RequestsOnly(q[1..]);
      assert q == [q[0]] + q[1..];
    }
  }

  lemma {:induction false} RequestsAre(q: seq<Packet>)
    ensures forall k :: 0 <= k < |Requests(q)| ==> !Hard(Requests(q)[k]) && Requests(q)[k] in q
  {
    if q != [] { RequestsAre(q[1..]); }
  }

  /** How many packets it takes from the front of q to have n requests. */
  function Position(q: seq<Packet>, n: nat): (k: nat)
    requires n <= |Requests(q)|
    ensures n <= k <= |q|
  {
    if n == 0 then 0 else 1 + Position(q[1..], if Hard(q[0]) then n else n - 1)
  }

  /** From a to b the requests of a have not been lost, and none has moved back in the queue. */
  ghost predicate Onward(a: seq<Packet>, b: seq<Packet>) {
    && Requests(a) <= Requests(b)
    && forall n: nat :: n <= |Requests(a)| ==> Position(b, n) <= Position(a, n)
  }

  lemma OnwardSame(a: seq<Packet>)
    ensures Onward(a, a)
  {}

  lemma OnwardTrans(a: seq<Packet>, b: seq<Packet>, c: seq<Packet>)
    requires Onward(a, b) && Onward(b, c)
    ensures Onward(a, c)
  {}

  lemma {:induction false} PositionAppend(a: seq<Packet>, more: seq<Packet>, n: nat)
    requires n <= |Requests(a)|
    ensures n <= |Requests(a + more)| && Position(a + more, n) == Position(a, n)
  {
    RequestsAppend(a, more);
    if n > 0 {
      assert (a + more)[1..] == a[1..] + more;
      PositionAppend(a[1..], more, if Hard(a[0]) then n else n - 1);
    }
  }

  lemma {:induction false} PositionOfRequests(q: seq<Packet>, n: nat)
    requires (forall k :: 0 <= k < |q| ==> !Hard(q[k])) && n <= |Requests(q)|
    ensures Position(q, n) == n
  {
    if n > 0 { PositionOfRequests(q[1..], n - 1); }
  }

  /** Packets that arrive go to the end. */
  lemma OnwardAppend(a: seq<Packet>, more: seq<Packet>)
    ensures Onward(a, a + more)
  {
    RequestsAppend(a, more);
    forall n: nat | n <= |Requests(a)| ensures Position(a + more, n) <= Position(a, n) { PositionAppend(a, more, n); }
  }

  /** Dropping hardware packets brings requests nearer. */
  lemma OnwardFilter(a: seq<Packet>)
    ensures Onward(a, Requests(a))
  {
    RequestsAre(a);
    RequestsOnly(Requests(a));
    forall n: nat | n <= |Requests(a)| ensures Position(Requests(a), n) <= Position(a, n) { PositionOfRequests(Requests(a), n); }
  }

  /** Where the first hardware packet is, which receive(MSG_HARD_INTR) takes; the end if there is none. */
  function FirstHard(q: seq<Packet>): (i: nat)
    ensures i <= |q| && (forall k :: 0 <= k < i ==> !Hard(q[k])) && (i < |q| ==> Hard(q[i]))
  {
    if q == [] || Hard(q[0]) then 0 else 1 + FirstHard(q[1..])
  }

  // ---------------------------------------------------------------- clients of a flat disk

  ghost function FlatSlice(d: seq<seq<byte>>, offset: nat, length: nat): (r: seq<byte>)
    requires Flat(d) && offset + length <= SECTOR_SIZE * |d|
    ensures |r| == length
  {
    seq<byte>(length, k requires 0 <= k < length => FlatByte(d, offset + k))
  }

  ghost function FlatStore(d: seq<seq<byte>>, offset: nat, data: seq<byte>): (r: seq<seq<byte>>)
    requires Flat(d) && offset + |data| <= SECTOR_SIZE * |d|
    ensures Flat(r) && |r| == |d|
    decreases |data|
  {
    if data == [] then d else FlatPut(FlatStore(d, offset, data[..|data| - 1]), offset + |data| - 1, data[|data| - 1])
  }

  lemma FlatPutByte(d: seq<seq<byte>>, offset: nat, b: byte, j: nat)
    requires Flat(d) && offset < SECTOR_SIZE * |d| && j < SECTOR_SIZE * |d|
    ensures FlatByte(FlatPut(d, offset, b), j) == if j == offset then b else FlatByte(d, j)
  {}

  /** A store puts its bytes where they belong and nothing elsewhere. */
  lemma {:induction false} FlatStoreByte(d: seq<seq<byte>>, offset: nat, data: seq<byte>, j: nat)
    requires Flat(d) && offset + |data| <= SECTOR_SIZE * |d| && j < SECTOR_SIZE * |d|
    ensures FlatByte(FlatStore(d, offset, data), j) == if offset <= j < offset + |data| then data[j - offset] else FlatByte(d, j)
    decreases |data|
  {
    hide FlatByte, FlatPut;
    if data != [] {
      var n := |data| - 1;
      FlatStoreByte(d, offset, data[..n], j);
      FlatPutByte(FlatStore(d, offset, data[..n]), offset + n, data[n], j);
    }
  }

  /** What one request writes, a later one reads. */
  lemma ReadBack(d: seq<seq<byte>>, src: nat, offset: nat, data: seq<byte>)
    requires Flat(d) && offset + |data| <= SECTOR_SIZE * |d|
    ensures FlatServe(d, [Write(src, offset, data), Read(src, offset, |data|)]).1 == [Reply(src, []), Reply(src, data)]
  {
    hide FlatStore, FlatByte;
    var w, r := Write(src, offset, data), Read(src, offset, |data|);
    assert [w, r][..1] == [w];
    ServeOne(d, w);
    var e := FlatStore(d, offset, data);
    forall k | 0 <= k < |data| ensures FlatSlice(e, offset, |data|)[k] == data[k] {
      FlatStoreByte(d, offset, data, offset + k);
    }
    assert FlatSlice(e, offset, |data|) == data;
  }

  /** A flat disk serving one request. */
  ghost function FlatOne(d: seq<seq<byte>>, p: Packet): (r: (seq<seq<byte>>, seq<Reply>))
    requires Flat(d) && Extent(p) <= SECTOR_SIZE * |d|
    ensures Flat(r.0) && |r.0| == |d|
  {
    match p
    case Read(src, offset, length) => (d, [Reply(src, FlatSlice(d, offset, length))])
    case Write(src, offset, data) => (FlatStore(d, offset, data), [Reply(src, [])])
    case _ => (d, [])
  }

  /** A flat disk serving the requests one after the other. */
  ghost function FlatServe(d: seq<seq<byte>>, ps: seq<Packet>): (r: (seq<seq<byte>>, seq<Reply>))
    requires Flat(d) && OnDisk(ps, |d|)
    ensures Flat(r.0) && |r.0| == |d|
    decreases |ps|
  {
    if ps == [] then (d, [])
    else
      var n := |ps| - 1;
      var before := FlatServe(d, ps[..n]);
      var last := FlatOne(before.0, ps[n]);
      (last.0, before.1 + last.1)
  }

  /** Request p is a Write that gives byte j. */
  predicate Writes(p: Packet, j: nat) {
    p.Write? && p.offset <= j < p.offset + |p.data|
  }

  /** b is byte j of disk d after the requests ps: it comes from the last Write that covers j, or was there. */
  ghost predicate Stands(d: seq<seq<byte>>, ps: seq<Packet>, j: nat, b: byte)
    requires Flat(d) && j < SECTOR_SIZE * |d|
  {
    if exists k :: 0 <= k < |ps| && Writes(ps[k], j) then
      exists k :: 0 <= k < |ps| && Writes(ps[k], j) && b == ps[k].data[j - ps[k].offset]
                  && forall l :: k < l < |ps| ==> !Writes(ps[l], j)
    else b == FlatByte(d, j)
  }

  /** Every request is answered, to its sender: a Read with the bytes as they stand after the requests
      before it, a Write with none. */
  ghost predicate Answered(d: seq<seq<byte>>, ps: seq<Packet>, replies: seq<Reply>)
    requires Flat(d) && OnDisk(ps, |d|)
  {
    |replies| == |ps| && forall k :: 0 <= k < |ps| ==> AnsweredWith(d, ps[..k], ps[k], replies[k])
  }

  /** r answers p after the requests ps. */
  ghost predicate AnsweredWith(d: seq<seq<byte>>, ps: seq<Packet>, p: Packet, r: Reply)
    requires Flat(d) && Extent(p) <= SECTOR_SIZE * |d|
  {
    && (p.Write? ==> r == Reply(p.src, []))
    && (p.Read? ==> r.dest == p.src && |r.data| == p.length
                    && forall i :: 0 <= i < p.length ==> Stands(d, ps, p.offset + i, r.data[i]))
  }

  lemma StandsNext(d: seq<seq<byte>>, ps: seq<Packet>, p: Packet, j: nat, b: byte)
    requires Flat(d) && j < SECTOR_SIZE * |d| && Stands(d, ps, j, b)
    ensures Stands(d, ps + [p], j, if Writes(p, j) then p.data[j - p.offset] else b)
  {
    hide FlatByte;
    var q := ps + [p];
    assert q[|ps|] == p && forall k :: 0 <= k < |ps| ==> q[k] == ps[k];
    if exists k :: 0 <= k < |ps| && Writes(ps[k], j) {
      var k :| 0 <= k < |ps| && Writes(ps[k], j) && b == ps[k].data[j - ps[k].offset] && forall l :: k < l < |ps| ==> !Writes(ps[l], j);
      assert Writes(q[k], j);
    }
  }

  /** One request, of whatever kind, on every byte. */
  lemma ServesByte(d: seq<seq<byte>>, p: Packet, j: nat)
    requires Flat(d) && Extent(p) <= SECTOR_SIZE * |d| && j < SECTOR_SIZE * |d|
    ensures FlatByte(FlatOne(d, p).0, j) == if Writes(p, j) then p.data[j - p.offset] else FlatByte(d, j)
  {
    hide FlatByte, FlatStore;
    if p.Write? { FlatStoreByte(d, p.offset, p.data, j); }
  }

  /** Whatever list of requests is served, each byte of the disk is that of the last Write to it. */
  lemma {:induction false} ServedBytes(d: seq<seq<byte>>, ps: seq<Packet>, j: nat)
    requires Flat(d) && OnDisk(ps, |d|) && j < SECTOR_SIZE * |d|
    ensures Stands(d, ps, j, FlatByte(FlatServe(d, ps).0, j))
    decreases |ps|
  {
    hide FlatByte, FlatOne, Stands;
    if ps == [] {
      assert Stands(d, ps, j, FlatByte(d, j)) by { NothingWritten(d, j); }
    } else {
      var n := |ps| - 1;
      ServedBytes(d, ps[..n], j);
      ServesByte(FlatServe(d, ps[..n]).0, ps[n], j);
      StandsNext(d, ps[..n], ps[n], j, FlatByte(FlatServe(d, ps[..n]).0, j));
      assert ps[..n] + [ps[n]] == ps;
    }
  }

  /** Every byte of e is as it stands after the requests ps. */
  ghost predicate Shown(d: seq<seq<byte>>, ps: seq<Packet>, e: seq<seq<byte>>) {
    && Flat(d) && Flat(e) && |e| == |d|
    && forall j: nat :: j < SECTOR_SIZE * |d| ==> Stands(d, ps, j, FlatByte(e, j))
  }

  lemma AllStand(d: seq<seq<byte>>, ps: seq<Packet>)
    requires Flat(d) && OnDisk(ps, |d|)
    ensures Shown(d, ps, FlatServe(d, ps).0)
  {
    hide FlatByte, Stands, FlatServe;
    forall j: nat | j < SECTOR_SIZE * |d| ensures Stands(d, ps, j, FlatByte(FlatServe(d, ps).0, j)) { ServedBytes(d, ps, j); }
  }

  /** The store shows a flat disk that was d after the requests ps, which gave the replies rs. */
  ghost predicate ServesAs(d: seq<seq<byte>>, ps: seq<Packet>, st: Store, rs: seq<Reply>) {
    && Flat(d) && Shaped(st) && |st.disk| == |d| && OnDisk(ps, |d|) && (Logical(st), rs) == FlatServe(d, ps)
    && forall k :: 0 <= k < |ps| ==> !Hard(ps[k])
  }

  lemma ServesNothing(st: Store)
    requires Coherent(st)
    ensures Shaped(st) && ServesAs(Logical(st), [], st, [])
  {
    hide Logical;
    FlatLogical(st);
    ServeNothing(Logical(st));
  }

  lemma ServesMore(d: seq<seq<byte>>, ps: seq<Packet>, st: Store, rs: seq<Reply>, more: seq<Packet>, st': Store, r: seq<Reply>)
    requires ServesAs(d, ps, st, rs) && Shaped(st') && |st'.disk| == |d|
    requires OnDisk(more, |d|) && (forall k :: 0 <= k < |more| ==> !Hard(more[k])) && (Logical(st'), r) == FlatServe(Logical(st), more)
    ensures ServesAs(d, ps + more, st', rs + r)
  {
    hide Logical, FlatServe;
    ServeAppend(d, ps, more);
  }

  lemma ServesWell(d: seq<seq<byte>>, ps: seq<Packet>, st: Store, rs: seq<Reply>)
    requires ServesAs(d, ps, st, rs)
    ensures OnDisk(ps, |d|) && (Logical(st), rs) == FlatServe(d, ps)
    ensures Answered(d, ps, rs) && Shown(d, ps, Logical(st))
  {
    hide Logical, FlatServe, Answered, Shown;
    ServedReplies(d, ps);
    AllStand(d, ps);
  }

  lemma NothingWritten(d: seq<seq<byte>>, j: nat)
    requires Flat(d) && j < SECTOR_SIZE * |d|
    ensures Stands(d, [], j, FlatByte(d, j))
  {}

  /** And each Read gets, at its turn, those bytes. */
  lemma {:induction false} ServedReplies(d: seq<seq<byte>>, ps: seq<Packet>)
    requires Flat(d) && OnDisk(ps, |d|) && forall k :: 0 <= k < |ps| ==> !Hard(ps[k])
    ensures Answered(d, ps, FlatServe(d, ps).1)
    decreases |ps|
  {
    hide FlatByte, Stands, FlatOne;
    if ps != [] {
      var n := |ps| - 1;
      var before := FlatServe(d, ps[..n]);
      ServedReplies(d, ps[..n]);
      LastAnswered(d, ps[..n], ps[n]);
      AnsweredNext(d, ps[..n], ps[n], before.1, FlatOne(before.0, ps[n]).1);
      assert ps[..n] + [ps[n]] == ps;
    }
  }

  lemma LastAnswered(d: seq<seq<byte>>, ps: seq<Packet>, p: Packet)
    requires Flat(d) && OnDisk(ps, |d|) && Extent(p) <= SECTOR_SIZE * |d| && !Hard(p)
    ensures var r := FlatOne(FlatServe(d, ps).0, p).1; |r| == 1 && AnsweredWith(d, ps, p, r[0])
  {
    hide FlatByte, Stands, FlatStore, FlatServe;
    if p.Read? {
      var e := FlatServe(d, ps).0;
      var data := FlatSlice(e, p.offset, p.length);
      forall i | 0 <= i < p.length ensures Stands(d, ps, p.offset + i, data[i]) { ServedBytes(d, ps, p.offset + i); }
    }
  }

  lemma AnsweredNext(d: seq<seq<byte>>, ps: seq<Packet>, p: Packet, rs: seq<Reply>, r: seq<Reply>)
    requires Flat(d) && OnDisk(ps, |d|) && Extent(p) <= SECTOR_SIZE * |d|
    requires Answered(d, ps, rs) && |r| == 1 && AnsweredWith(d, ps, p, r[0])
    ensures Answered(d, ps + [p], rs + r)
  {
    hide AnsweredWith;
    var all := ps + [p];
    forall k | 0 <= k < |all| ensures AnsweredWith(d, all[..k], all[k], (rs + r)[k]) {
      assert all[..k] == ps[..k];
      assert k < |ps| ==> AnsweredWith(d, ps[..k], ps[k], rs[k]);
      assert ps[..|ps|] == ps;
    }
  }

  lemma FlatLogical(st: Store)
    requires Coherent(st)
    ensures Shaped(st) && Flat(Logical(st)) && |Logical(st)| == |st.disk|
  {}

  lemma ServeNothing(d: seq<seq<byte>>)
    requires Flat(d)
    ensures FlatServe(d, []) == (d, [])
  {}

  lemma ServeOne(d: seq<seq<byte>>, p: Packet)
    requires Flat(d) && Extent(p) <= SECTOR_SIZE * |d|
    ensures FlatServe(d, [p]) == FlatOne(d, p)
  {
    hide FlatOne;
    var x := [p];
    assert x[..|x| - 1] == [];
    var last := FlatOne(d, p);
    assert FlatServe(d, x) == (last.0, FlatServe(d, []).1 + last.1);
    assert FlatServe(d, []).1 + last.1 == last.1;
  }

  /** Serving one list of requests and then another is serving both. */
  lemma {:induction false} ServeAppend(d: seq<seq<byte>>, p: seq<Packet>, q: seq<Packet>)
    requires Flat(d) && OnDisk(p, |d|) && OnDisk(q, |d|)
    ensures OnDisk(p + q, |d|)
    ensures var r := FlatServe(d, p); var t := FlatServe(r.0, q);
            FlatServe(d, p + q) == (t.0, r.1 + t.1)
    decreases |q|
  {
    hide FlatOne;
    if q == [] {
      assert p + q == p;
      assert FlatServe(d, p).1 + [] == FlatServe(d, p).1;
    } else {
      var n := |q| - 1;
      ServeAppend(d, p, q[..n]);
      var pq := p + q;
      assert q == q[..n] + [q[n]];
      assert pq == (p + q[..n]) + [q[n]];
      assert pq[..|pq| - 1] == p + q[..n];
      assert pq[|pq| - 1] == q[n];
      var a := FlatServe(d, p);
      var b := FlatServe(a.0, q[..n]);
      var c := FlatOne(b.0, q[n]);
      assert FlatServe(a.0, q) == (c.0, b.1 + c.1);
      assert FlatServe(d, pq) == (c.0, (a.1 + b.1) + c.1);
      assert (a.1 + b.1) + c.1 == a.1 + (b.1 + c.1);
    }
  }

  /** Dropping a hardware packet keeps the requests. */
  lemma DropHard(q: seq<Packet>, i: nat)
    requires i < |q| && Hard(q[i])
    ensures Requests(q[..i] + q[i + 1..]) == Requests(q)
  {
    var p, h, r := q[..i], [q[i]], q[i + 1..];
    assert Requests(h) == [];
    Split(p, h, r);
    assert q == p + (h + r);
  }

  lemma Split(p: seq<Packet>, h: seq<Packet>, r: seq<Packet>)
    requires Requests(h) == []
    ensures Requests(p + (h + r)) == Requests(p + r)
  {
    hide Requests;
    RequestsAppend(p, h + r);
    RequestsAppend(h, r);
    RequestsAppend(p, r);
  }

  lemma OneRequest(p: Packet)
    ensures Requests([p]) == if Hard(p) then [] else [p]
  {
    assert [p][1..] == [];
  }

  /** Of the first requests, those not done yet come next, within k packets of the queue. */
  ghost predicate Waiting(first: seq<Packet>, done: seq<Packet>, q: seq<Packet>, k: int) {
    && first <= done + Requests(q)
    && (|done| < |first| ==> Position(q, |first| - |done|) <= k)
  }

  lemma WaitingStart(q: seq<Packet>)
    ensures Waiting(Requests(q), [], q, |q|)
  {}

  /** A round takes the head of the queue. */
  lemma WaitingStep(first: seq<Packet>, done: seq<Packet>, q: seq<Packet>, k: int, r: seq<Packet>)
    requires Waiting(first, done, q, k) && q != [] && Onward(q[1..], r)
    ensures Waiting(first, done + Requests([q[0]]), r, k - 1)
  {
    OneRequest(q[0]);
    assert Requests(q) == Requests([q[0]]) + Requests(q[1..]);
    var done' := done + Requests([q[0]]);
    assert done + Requests(q) == done' + Requests(q[1..]) <= done' + Requests(r);
  }

  /** With an empty queue there is nothing left of the first requests. */
  lemma WaitingIdle(first: seq<Packet>, done: seq<Packet>, k: int, r: seq<Packet>)
    requires Waiting(first, done, [], k)
    ensures Waiting(first, done + [], r, k - 1)
  {
    assert done + [] == done && Requests([]) == [];
    assert first <= done + Requests(r);
  }

  lemma WaitingEnd(first: seq<Packet>, done: seq<Packet>, q: seq<Packet>, k: int)
    requires Waiting(first, done, q, k)
    ensures k <= 0 ==> first <= done
  {}

  // ---------------------------------------------------------------- 32-bit transfers

  lemma WordBytes(b: seq<byte>, o: nat)
    requires o + 4 <= |b|
    ensures BytesOf(WordAt(b, o)) == b[o..o + 4]
  {
    var w := WordAt(b, o);
    var b0: int, b1: int, b2: int, b3: int := b[o], b[o + 1], b[o + 2], b[o + 3];
    var q1: int, q2: int := b1 + 0x100 * b2 + 0x1_0000 * b3, b2 + 0x100 * b3;
    assert w == 0x100 * q1 + b0 && q1 == 0x100 * q2 + b1 && q2 == 0x100 * b3 + b2;
    assert w / 0x100 == q1 && q1 / 0x100 == q2 && w / 0x1_0000 == q2 && w / 0x100_0000 == b3;
  }

  /** The transfer loops of do_read and do_write: 128 longs carry a sector over unchanged. */
  method Transfer(from: seq<byte>, buf: seq<byte>) returns (content: seq<byte>)
    requires |from| == |buf| == SECTOR_SIZE
    ensures content == from && |content| == 512
  {
    content := buf;
    var i: nat := 0;
    while i < SECTOR_SIZE / 4
      invariant i <= SECTOR_SIZE / 4 && |content| == SECTOR_SIZE
      invariant content[..4 * i] == from[..4 * i]
    {
      var long := WordAt(from, 4 * i);
      WordBytes(from, 4 * i);
      content := PutWord(content, 4 * i, long);
      assert content[..4 * (i + 1)] == from[..4 * i] + from[4 * i..4 * i + 4];
      i := i + 1;
    }
    assert content == content[..4 * i] && from == from[..4 * i];
  }

  class Driver {
    const cache: array<Slot>
    const disk: array<seq<byte>>
    var ports: (byte, byte, byte, byte)
    var inbox: seq<Packet>
    // What others send during the k-th stretch of time.
    const feed: nat -> seq<Packet>
    var now: nat
    // Requests that have arrived, and those that have been taken up.
    ghost var arrived: seq<Packet>
    ghost var taken: seq<Packet>

    /** cache_init on zeroed memory, over a disk of whole sectors. */
    constructor (disk: array<seq<byte>>, feed: nat -> seq<Packet>)
      requires disk.Length <= MAX_SECTORS && forall s :: 0 <= s < disk.Length ==> |disk[s]| == SECTOR_SIZE
      requires forall k: nat :: NoReady(feed(k)) && OnDisk(feed(k), disk.Length)
      ensures Valid() && this.disk == disk && this.feed == feed && fresh(cache) && now == 0
      ensures Logical(View()) == disk[..] && arrived == taken == []
    {
      var zero: seq<byte> := seq<byte>(SECTOR_SIZE, _ => 0);
      this.disk, this.feed := disk, feed;
      cache := new Slot[NR_SEC_CACHE](_ => Slot(0, false, false, zero));
      ports, inbox, now, arrived, taken := (0, 0, 0, 0), [], 0, [], [];
    }

    ghost function View(): Store
      reads cache, disk
    {
      Store(cache[..], disk[..])
    }

    /** Nobody but the drive sends Ready. */
    ghost predicate Fed() {
      forall k: nat :: NoReady(feed(k)) && OnDisk(feed(k), disk.Length)
    }

    ghost predicate Valid()
      reads this, cache, disk
    {
      && Coherent(View())
      && Fed()
      && NoReady(inbox)
      && OnDisk(inbox, disk.Length)
      && OnDisk(taken, disk.Length)
      && arrived == taken + Requests(inbox)
    }

    /** Messages of others arrive. */
    method Elapse()
      modifies this`inbox, this`now, this`arrived
      ensures inbox == old(inbox) + feed(old(now)) && arrived == old(arrived) + Requests(feed(old(now)))
    {
      inbox := inbox + feed(now);
      arrived := arrived + Requests(feed(now));
      now := now + 1;
    }

    /** A command runs on the drive: others may send meanwhile, and its interrupt sends Ready. */
    method Command()
      requires Valid()
      modifies this`inbox, this`now, this`arrived
      ensures |inbox| > 0 && inbox[|inbox| - 1] == Ready
      ensures NoReady(inbox[..|inbox| - 1]) && OnDisk(inbox[..|inbox| - 1], disk.Length)
      ensures arrived == taken + Requests(inbox[..|inbox| - 1])
      ensures Onward(old(inbox), inbox[..|inbox| - 1])
    {
      RequestsAppend(inbox, feed(now));
      OnwardAppend(inbox, feed(now));
      Elapse();
      ghost var q := inbox;
      inbox := inbox + [Ready];
      assert inbox[..|inbox| - 1] == q;
    }

    /** receive(MSG_HARD_INTR). */
    method ReceiveHard() returns (p: Packet)
      requires FirstHard(inbox) < |inbox|
      modifies this`inbox
      ensures var i := FirstHard(old(inbox)); p == old(inbox)[i] && inbox == old(inbox)[..i] + old(inbox)[i + 1..]
    {
      var i := 0;
      while !Hard(inbox[i])
        invariant i < |inbox| && i <= FirstHard(inbox)
        decreases |inbox| - i
      {
        i := i + 1;
      }
      assert i == FirstHard(inbox);
      p := inbox[i];
      inbox := inbox[..i] + inbox[i + 1..];
    }

    /** One receive of the wait loop, when Ready is the last packet: a write-back message is dropped, or Ready is found. */
    method TakeHard(ghost c: seq<Packet>) returns (p: Packet, ghost rest: seq<Packet>)
      requires inbox == c + [Ready] && NoReady(c)
      modifies this`inbox
      ensures NoReady(rest) && Requests(rest) == Requests(c)
      ensures p == Ready ==> inbox == rest && forall k :: 0 <= k < |rest| ==> !Hard(rest[k])
      ensures p != Ready ==> inbox == rest + [Ready] && |rest| < |c|
    {
      ghost var q, i := inbox, FirstHard(inbox);
      assert Hard(q[|c|]) && forall k :: 0 <= k < |c| ==> q[k] == c[k];
      p := ReceiveHard();
      if i < |c| {
        rest := c[..i] + c[i + 1..];
        DropHard(c, i);
      } else {
        rest := c;
      }
    }

    /** The wait loop of do_read and do_write: write-back messages are dropped, requests stay. */
    method AwaitReady()
      requires |inbox| > 0 && inbox[|inbox| - 1] == Ready && NoReady(inbox[..|inbox| - 1])
      modifies this`inbox
      ensures inbox == Requests(old(inbox)[..|old(inbox)| - 1])
    {
      ghost var a := inbox[..|inbox| - 1];
      assert inbox == a + [Ready];
      var p, c := TakeHard(a);
      while p != Ready
        invariant NoReady(c) && Requests(c) == Requests(a)
        invariant p == Ready ==> inbox == c && forall k :: 0 <= k < |c| ==> !Hard(c[k])
        invariant p != Ready ==> inbox == c + [Ready]
        decreases p != Ready, |c|
      {
        p, c := TakeHard(c);
      }
      RequestsOnly(c);
    }

    /** ide_prepare: the drive's address registers. */
    method Prepare(sector: nat)
      requires sector < MAX_SECTORS
      modifies this`ports
      ensures Addressed(ports) == sector
    {
      AddressedExactly(sector);
      ports := Registers(sector);
    }

    /** ide_prepare, the read command and do_read. */
    method ReadSector(sector: nat, buf: seq<byte>) returns (content: seq<byte>)
      requires Valid() && sector < disk.Length && |buf| == SECTOR_SIZE
      modifies this
      ensures Valid() && unchanged(cache, disk) && taken == old(taken) && Onward(old(inbox), inbox)
      ensures content == disk[sector]
    {
      Prepare(sector);
      ghost var q := inbox;
      Command();
      ghost var r := inbox[..|inbox| - 1];
      Settle();
      OnwardTrans(q, r, inbox);
      content := Transfer(disk[Addressed(ports)], buf);
    }

    /** AwaitReady, from the state a command leaves behind. */
    method Settle()
      requires Coherent(View()) && Fed() && OnDisk(taken, disk.Length)
      requires |inbox| > 0 && inbox[|inbox| - 1] == Ready && NoReady(inbox[..|inbox| - 1])
      requires OnDisk(inbox[..|inbox| - 1], disk.Length) && arrived == taken + Requests(inbox[..|inbox| - 1])
      modifies this`inbox
      ensures Valid() && Onward(old(inbox)[..|old(inbox)| - 1], inbox)
    {
      ghost var a := inbox[..|inbox| - 1];
      OnwardFilter(a);
      AwaitReady();
      RequestsAre(a);
      RequestsOnly(inbox);
      forall k | 0 <= k < |inbox| ensures inbox[k] in a && Extent(inbox[k]) <= SECTOR_SIZE * disk.Length {}
    }

    /** ide_prepare and do_write: slot i goes to its sector. */
    method WriteSector(i: nat)
      requires Valid() && i < NR_SEC_CACHE && cache[i].used
      modifies this, disk
      ensures Valid() && taken == old(taken) && Onward(old(inbox), inbox)
      ensures View() == Flushed(old(View()), i)
    {
      FlushKeeps(View(), i);
      Prepare(cache[i].sector);
      var sector := Addressed(ports);
      var content := Transfer(cache[i].content, disk[sector]);
      disk[sector] := content;
      ghost var q := inbox;
      Command();
      ghost var r := inbox[..|inbox| - 1];
      Settle();
      OnwardTrans(q, r, inbox);
    }

    /** cache_fetch: afterwards slot sector % 127 holds the sector as the clients see it. */
    method CacheFetch(sector: nat) returns (i: nat)
      requires Valid() && sector < disk.Length
      modifies this, cache, disk
      ensures Valid() && taken == old(taken) && Onward(old(inbox), inbox)
      ensures i == sector % NR_SEC_CACHE && Cached(View(), sector)
      ensures Logical(View()) == Logical(old(View()))
    {
      hide Onward;
      OnwardSame(inbox);
      i := sector % NR_SEC_CACHE;
      if !(cache[i].used && cache[i].sector == sector) {
        if cache[i].used && cache[i].dirty {
          FlushKeeps(View(), i);
          WriteSector(i);
        }
        LoadKeeps(View(), sector);
        ghost var q := inbox;
        var content := ReadSector(sector, cache[i].content);
        OnwardTrans(old(inbox), q, inbox);
        cache[i] := Slot(sector, true, false, content);
        assert View() == Loaded(Store(View().cache[i := old(View()).cache[i]], View().disk), sector);
      }
    }

    /** read_byte returns the byte the clients see, and changes none. */
    method ReadByte(offset: nat) returns (b: byte)
      requires Valid() && offset < SECTOR_SIZE * disk.Length
      modifies this, cache, disk
      ensures Valid() && taken == old(taken) && Onward(old(inbox), inbox)
      ensures b == FlatByte(Logical(old(View())), offset) && Logical(View()) == Logical(old(View()))
    {
      var i := CacheFetch(offset / SECTOR_SIZE);
      CachedContent(View(), offset / SECTOR_SIZE);
      b := cache[i].content[offset % SECTOR_SIZE];
    }

    /** write_byte changes exactly one byte of the disk the clients see. */
    method WriteByte(offset: nat, b: byte)
      requires Valid() && offset < SECTOR_SIZE * disk.Length
      modifies this, cache, disk
      ensures Valid() && taken == old(taken) && Onward(old(inbox), inbox)
      ensures Logical(View()) == FlatPut(Logical(old(View())), offset, b)
    {
      hide Logical, FlatPut;
      var i := CacheFetch(offset / SECTOR_SIZE);
      CachedContent(View(), offset / SECTOR_SIZE);
      EditKeeps(View(), offset, b);
      ghost var st := View();
      var content: seq<byte> := cache[i].content[offset % SECTOR_SIZE := b];
      cache[i] := cache[i].(content := content, dirty := true);
      assert View() == Edited(st, i, offset % SECTOR_SIZE, b);
    }

    /** The IDE_WRITEBACK loop: every sector is on the disk afterwards, and the clients see no difference. */
    method WriteBackAll()
      requires Valid()
      modifies this, cache, disk
      ensures Valid() && taken == old(taken) && Onward(old(inbox), inbox)
      ensures Logical(View()) == Logical(old(View()))
      ensures disk[..] == Logical(View())
    {
      hide Logical, Onward;
      OnwardSame(inbox);
      var i: nat := 0;
      while i < NR_SEC_CACHE
        invariant i <= NR_SEC_CACHE && Valid() && taken == old(taken) && Onward(old(inbox), inbox)
        invariant Logical(View()) == Logical(old(View()))
        invariant forall k :: 0 <= k < i ==> !cache[k].dirty
      {
        DirtyIsUsed(View(), i);
        if cache[i].dirty {
          FlushKeeps(View(), i);
          ghost var q := inbox;
          WriteSector(i);
          OnwardTrans(old(inbox), q, inbox);
          CleanKeeps(View(), i);
          ghost var st := View();
          cache[i] := cache[i].(dirty := false);
          assert View() == Cleaned(st, i);
        }
        i := i + 1;
      }
      CleanIsRaw(View());
    }

    /** A DEV_READ request. */
    method ServeRead(offset: nat, length: nat) returns (data: seq<byte>)
      requires Valid() && offset + length <= SECTOR_SIZE * disk.Length
      modifies this, cache, disk
      ensures Valid() && taken == old(taken) && Onward(old(inbox), inbox)
      ensures Logical(View()) == Logical(old(View())) && data == FlatSlice(Logical(old(View())), offset, length)
    {
      hide Logical, FlatByte, Onward;
      OnwardSame(inbox);
      data := [];
      while |data| < length
        invariant |data| <= length && Valid() && taken == old(taken) && Onward(old(inbox), inbox)
        invariant Logical(View()) == Logical(old(View())) && data == FlatSlice(Logical(old(View())), offset, |data|)
      {
        ghost var q := inbox;
        var b := ReadByte(offset + |data|);
        OnwardTrans(old(inbox), q, inbox);
        data := data + [b];
      }
    }

    /** A DEV_WRITE request. */
    method ServeWrite(offset: nat, data: seq<byte>)
      requires Valid() && offset + |data| <= SECTOR_SIZE * disk.Length
      modifies this, cache, disk
      ensures Valid() && taken == old(taken) && Onward(old(inbox), inbox)
      ensures Logical(View()) == FlatStore(Logical(old(View())), offset, data)
    {
      hide Logical, FlatPut, Onward;
      OnwardSame(inbox);
      var i: nat := 0;
      assert data[..0] == [];
      while i < |data|
        invariant i <= |data| && Valid() && taken == old(taken) && Onward(old(inbox), inbox)
        invariant Logical(View()) == FlatStore(Logical(old(View())), offset, data[..i])
      {
        assert data[..i + 1][..i] == data[..i];
        ghost var q := inbox;
        WriteByte(offset + i, data[i]);
        OnwardTrans(old(inbox), q, inbox);
        i := i + 1;
      }
      assert data[..|data|] == data;
    }

    /** The oldest message leaves the mailbox; a request counts as taken up. */
    method Receive() returns (p: Packet)
      requires Valid() && inbox != []
      modifies this`inbox, this`taken
      ensures Valid() && !p.Ready? && Extent(p) <= SECTOR_SIZE * disk.Length
      ensures taken == old(taken) + Requests([p]) && p == old(inbox)[0] && inbox == old(inbox)[1..]
    {
      p := inbox[0];
      assert inbox == [p] + inbox[1..];
      RequestsAppend([p], inbox[1..]);
      taken := taken + Requests([p]);
      inbox := inbox[1..];
    }

    /** One round of the driver's loop; ok == false is the panic on a leaking interrupt. */
    method Handle() returns (ok: bool, replies: seq<Reply>, ghost done: seq<Packet>)
      requires Valid()
      modifies this, cache, disk
      ensures ok && Valid()
      ensures OnDisk(done, disk.Length) && taken == old(taken) + done
      ensures (Logical(View()), replies) == FlatServe(Logical(old(View())), done)
      ensures old(inbox) == [] ==> done == []
      ensures old(inbox) != [] ==> done == Requests([old(inbox)[0]]) && Onward(old(inbox)[1..], inbox)
      ensures old(inbox) != [] && old(inbox)[0].WriteBack? ==> disk[..] == Logical(View())
    {
      hide Logical, FlatStore, FlatSlice, Coherent, FlatServe, Onward;
      ok, replies, done := true, [], [];
      FlatLogical(View());
      ServeNothing(Logical(View()));
      if inbox == [] {
        ArriveKeeps();
        return;
      }
      var p := Receive();
      OneRequest(p);
      match p
      case Ready => ok := false;
      case WriteBack => WriteBackAll();
      case Read(src, offset, length) =>
        done := [p];
        ServeOne(Logical(View()), p);
        var data := ServeRead(offset, length);
        replies := [Reply(src, data)];
      case Write(src, offset, data) =>
        done := [p];
        ServeOne(Logical(View()), p);
        ServeWrite(offset, data);
        replies := [Reply(src, [])];
    }

    /** An empty mailbox: the driver waits until something arrives. */
    method ArriveKeeps()
      requires Valid()
      modifies this`inbox, this`now, this`arrived
      ensures Valid()
    {
      RequestsAppend(inbox, feed(now));
      Elapse();
    }

    /**
     Any run of the driver, however write-backs and requests arrive: the requests are served in
     the order they came, with the replies a flat disk would give, and the panic is not reached.
     As many rounds as there are messages at the start serve every request among them.
     */
    method Run(rounds: nat) returns (ok: bool, replies: seq<Reply>, ghost done: seq<Packet>)
      requires Valid()
      modifies this, cache, disk
      ensures ok && Valid()
      ensures OnDisk(done, disk.Length) && taken == old(taken) + done && arrived == taken + Requests(inbox)
      ensures (Logical(View()), replies) == FlatServe(Logical(old(View())), done)
      ensures Answered(Logical(old(View())), done, replies)
      ensures Shown(Logical(old(View())), done, Logical(View()))
      ensures rounds >= |old(inbox)| ==> Requests(old(inbox)) <= done
    {
      hide Coherent, Logical, FlatServe, Waiting, Answered, Shown, Onward, ServesAs;
      FlatLogical(View());
      ghost var d, first := Logical(View()), Requests(inbox);
      ServesNothing(View());
      WaitingStart(inbox);
      ok, replies, done := true, [], [];
      var i := 0;
      while i < rounds
        invariant i <= rounds && ok && Valid()
        invariant taken == old(taken) + done && ServesAs(d, done, View(), replies)
        invariant Waiting(first, done, inbox, |old(inbox)| - i)
      {
        var r: seq<Reply>;
        ghost var e, q, st := [], inbox, View();
        ok, r, e := Handle();
        if q != [] { RequestsAre([q[0]]); }
        FlatLogical(View());
        ServesMore(d, done, st, replies, e, View(), r);
        if q == [] { WaitingIdle(first, done, |old(inbox)| - i, inbox); }
        else { WaitingStep(first, done, q, |old(inbox)| - i, inbox); }
        replies := replies + r;
        done := done + e;
        i := i + 1;
      }
      WaitingEnd(first, done, inbox, |old(inbox)| - i);
      ServesWell(d, done, View(), replies);
    }
  }
}
