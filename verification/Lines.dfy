/** Terminal input as values: a line being edited, the lines not yet read, and who is waiting (kernel/drivers/tty.c). */
module Lines {
  import opened Words

  const NR_INPUT_BUF := 256
  const NR_INPUT_POOL := 1024
  const NEWLINE: byte := 10

  /** The text before and after the cursor. */
  datatype Edit = Edit(before: seq<byte>, after: seq<byte>)

  datatype Key = Char(c: byte) | Back | Left | Right | Other

  function Press(e: Edit, k: Key): Edit {
    match k
    case Char(c) => e.(before := e.before + [c])
    case Back => if e.before == [] then e else e.(before := e.before[..|e.before| - 1])
    case Left =>
      if e.before == [] then e
      else Edit(e.before[..|e.before| - 1], [e.before[|e.before| - 1]] + e.after)
    case Right =>
      if e.after == [] then e
      else Edit(e.before + [e.after[0]], e.after[1..])
    case Other => e
  }

  /** A reader waiting for up to length bytes. */
  datatype Reader = Reader(pid: nat, length: nat)

  datatype Reply = Reply(pid: nat, data: seq<byte>)

  datatype Input = Input(lines: seq<seq<byte>>, readers: seq<Reader>)

  /** A line is not empty and has no NUL. */
  ghost predicate Line(l: seq<byte>) {
    l != [] && forall k :: 0 <= k < |l| ==> l[k] != 0
  }

  ghost predicate AllLines(ls: seq<seq<byte>>) {
    forall k :: 0 <= k < |ls| ==> Line(ls[k])
  }

  function Min(a: nat, b: nat): nat { if a < b then a else b }

  /** What canonic_wakeup_read does: the last reader to come gets the start of the oldest line. */
  predicate CanServe(i: Input) { i.readers != [] && i.lines != [] }

  function Served(i: Input): Reply
    requires CanServe(i)
  {
    var reader := i.readers[|i.readers| - 1];
    Reply(reader.pid, i.lines[0][..Min(reader.length, |i.lines[0]|)])
  }

  function AfterServe(i: Input): Input
    requires CanServe(i)
  {
    var n := Min(i.readers[|i.readers| - 1].length, |i.lines[0]|);
    Input(if n == |i.lines[0]| then i.lines[1..] else [i.lines[0][n..]] + i.lines[1..], i.readers[..|i.readers| - 1])
  }

  function Wake(i: Input): (Input, seq<Reply>) {
    if CanServe(i) then (AfterServe(i), [Served(i)]) else (i, [])
  }

  /** The lines as they lie in the input pool, each with a NUL behind it. */
  function Stored(ls: seq<seq<byte>>): seq<byte> {
    if ls == [] then [] else ls[0] + [0] + Stored(ls[1..])
  }

  /** The bytes of the lines, in order. */
  function Text(ls: seq<seq<byte>>): seq<byte> {
    if ls == [] then [] else ls[0] + Text(ls[1..])
  }

  function Delivered(rs: seq<Reply>): seq<byte> {
    if rs == [] then [] else Delivered(rs[..|rs| - 1]) + rs[|rs| - 1].data
  }

  lemma {:induction false} StoredAppend(ls: seq<seq<byte>>, l: seq<byte>)
    ensures Stored(ls + [l]) == Stored(ls) + l + [0]
  {
    if ls == [] {
      assert [l][1..] == [];
    } else {
      StoredAppend(ls[1..], l);
      assert (ls + [l])[1..] == ls[1..] + [l];
    }
  }

  lemma {:induction false} TextAppend(ls: seq<seq<byte>>, l: seq<byte>)
    ensures Text(ls + [l]) == Text(ls) + l
  {
    if ls == [] {
      assert [l][1..] == [];
    } else {
      TextAppend(ls[1..], l);
      assert (ls + [l])[1..] == ls[1..] + [l];
    }
  }

  /** A served read takes its bytes off the front of the text, and leaves whole lines. */
  lemma ServeTakes(i: Input)
    requires CanServe(i) && AllLines(i.lines)
    ensures AllLines(AfterServe(i).lines)
    ensures Text(i.lines) == Served(i).data + Text(AfterServe(i).lines)
    ensures Served(i).data <= i.lines[0]
    ensures var last := i.readers[|i.readers| - 1];
            && Served(i).pid == last.pid && |Served(i).data| <= last.length && i.readers == AfterServe(i).readers + [last]
            && (|Served(i).data| == last.length || Served(i).data == i.lines[0])
  {}

  // ---------------------------------------------------------------- runs

  datatype Event = Enter(line: seq<byte>) | Request(reader: Reader)

  function Arrive(i: Input, e: Event): Input {
    match e
    case Enter(l) => i.(lines := i.lines + [l])
    case Request(reader) => i.(readers := i.readers + [reader])
  }

  function Step(i: Input, e: Event): (Input, seq<Reply>) { Wake(Arrive(i, e)) }

  function Run(i: Input, es: seq<Event>): (r: (Input, seq<Reply>))
    decreases |es|
  {
    if es == [] then (i, [])
    else
      var n := |es| - 1;
      var before := Run(i, es[..n]);
      var last := Step(before.0, es[n]);
      (last.0, before.1 + last.1)
  }

  /** The lines entered, in order. */
  function Entered(es: seq<Event>): seq<seq<byte>> {
    if es == [] then []
    else Entered(es[..|es| - 1]) + if es[|es| - 1].Enter? then [es[|es| - 1].line] else []
  }

  ghost predicate Typed(es: seq<Event>) {
    forall k :: 0 <= k < |es| && es[k].Enter? ==> Line(es[k].line)
  }

  lemma StepText(i: Input, e: Event)
    requires AllLines(i.lines) && (e.Enter? ==> Line(e.line))
    ensures var s := Step(i, e);
            && AllLines(s.0.lines) && |s.1| <= 1
            && (if e.Enter? then Text(i.lines) + e.line else Text(i.lines)) == Delivered(s.1) + Text(s.0.lines)
  {
    var a := Arrive(i, e);
    if e.Enter? { TextAppend(i.lines, e.line); }
    if CanServe(a) {
      ServeTakes(a);
      assert [Served(a)][..0] == [];
      assert Delivered([Served(a)]) == [] + Served(a).data;
    }
  }

  lemma {:induction false} DeliveredAppend(p: seq<Reply>, q: seq<Reply>)
    requires |q| <= 1
    ensures Delivered(p + q) == Delivered(p) + Delivered(q)
  {
    if q == [] {
      assert p + q == p;
    } else {
      assert (p + q)[..|p|] == p && q[..0] == [];
      assert Delivered(q) == [] + q[0].data;
    }
  }

  /** Over any run, the bytes delivered to readers, followed by those unread, are the bytes typed: none lost, repeated or reordered. */
  lemma {:induction false} RunConserves(es: seq<Event>)
    requires Typed(es)
    ensures var r := Run(Input([], []), es);
            AllLines(r.0.lines) && Text(Entered(es)) == Delivered(r.1) + Text(r.0.lines)
    decreases |es|
  {
    hide Step, Delivered, Text;
    if es == [] {
      NothingTyped();
    } else {
      var n := |es| - 1;
      RunConserves(es[..n]);
      var before := Run(Input([], []), es[..n]);
      var last := Step(before.0, es[n]);
      StepText(before.0, es[n]);
      DeliveredAppend(before.1, last.1);
      var d, t, d', t' := Delivered(before.1), Text(before.0.lines), Delivered(last.1), Text(last.0.lines);
      assert d + (d' + t') == (d + d') + t';
      if es[n].Enter? {
        TextAppend(Entered(es[..n]), es[n].line);
        assert (d + t) + es[n].line == d + (t + es[n].line);
      } else {
        assert Entered(es) == Entered(es[..n]);
      }
    }
  }

  /**
   One entered line wakes one reader only. With none kept waiting before, a reader is left
   waiting beside unread input exactly when two or more were waiting and the line is longer
   than the last of them asked for.
   */
  lemma LeftWaitingExactly(i: Input, e: Event)
    requires !CanServe(i) && (e.Enter? ==> Line(e.line))
    ensures CanServe(Step(i, e).0) <==>
              e.Enter? && |i.readers| >= 2 && i.readers[|i.readers| - 1].length < |e.line|
  {}

  /** So it happens: two readers of one byte each, a line of two bytes, and the first reader is left waiting beside the second byte. */
  lemma ReaderLeftWaiting(p: nat, q: nat)
    ensures var i := Input([], [Reader(p, 1), Reader(q, 1)]);
            var line: seq<byte> := [65, NEWLINE];
            && Step(i, Enter(line)) == (Input([[NEWLINE]], [Reader(p, 1)]), [Reply(q, [65])])
            && CanServe(Step(i, Enter(line)).0)
  {
    var line: seq<byte> := [65, NEWLINE];
    var a := Input([line], [Reader(p, 1), Reader(q, 1)]);
    assert Arrive(Input([], [Reader(p, 1), Reader(q, 1)]), Enter(line)) == a by { assert [] + [line] == [line]; }
    assert a.readers[..1] == [Reader(p, 1)] && line[..1] == [65] && line[1..] == [NEWLINE];
    assert a.lines[1..] == [] && [line[1..]] + [] == [[NEWLINE]];
  }

  lemma NothingTyped()
    ensures Delivered([]) == [] && Text([]) == []
  {}

  // ---------------------------------------------------------------- how long a reader waits

  lemma {:induction false} RunNext(i: Input, es: seq<Event>, e: Event)
    ensures Run(i, es + [e]).0 == Step(Run(i, es).0, e).0
  {
    assert (es + [e])[..|es|] == es;
  }

  /** With no new reader, every line entered serves one: a reader with j others above it is served by
      line j + 1. */
  lemma {:induction false} ServedByLines(i: Input, es: seq<Event>)
    requires forall k :: 0 <= k < |es| ==> es[k].Enter?
    ensures var left := if |es| < |i.readers| then |i.readers| - |es| else 0;
            Run(i, es).0.readers == i.readers[..left]
    decreases |es|
  {
    if es != [] {
      ServedByLines(i, es[..|es| - 1]);
    } else {
      assert i.readers[..|i.readers|] == i.readers;
    }
  }

  /** After a first reader, n times over: another reader, a line of two bytes, and another reader. */
  function Latecomers(p: nat, q: nat, n: nat): seq<Event> {
    if n == 0 then [Request(Reader(p, 1))]
    else Latecomers(p, q, n - 1) + [Request(Reader(q, 1))] + [Enter([65, NEWLINE])] + [Request(Reader(q, 1))]
  }

  /** In every round the first reader is left beside unread input, and no number of rounds serves it. */
  lemma {:induction false} ReaderCanStarve(p: nat, q: nat, n: nat)
    ensures Run(Input([], []), Latecomers(p, q, n)).0 == Input([], [Reader(p, 1)])
    ensures Run(Input([], []), Latecomers(p, q, n) + [Request(Reader(q, 1))] + [Enter([65, NEWLINE])]).0
         == Input([[NEWLINE]], [Reader(p, 1)])
  {
    hide Run, Step;
    if n == 0 {
      FirstReader(p);
    } else {
      ReaderCanStarve(p, q, n - 1);
      var es := Latecomers(p, q, n - 1) + [Request(Reader(q, 1))] + [Enter([65, NEWLINE])];
      RunNext(Input([], []), es, Request(Reader(q, 1)));
      ServedAtOnce(p, q);
    }
    OneRound(Latecomers(p, q, n), p, q);
  }

  lemma FirstReader(p: nat)
    ensures Run(Input([], []), [Request(Reader(p, 1))]).0 == Input([], [Reader(p, 1)])
  {
    RunNext(Input([], []), [], Request(Reader(p, 1)));
    assert [] + [Request(Reader(p, 1))] == [Request(Reader(p, 1))] && [] + [Reader(p, 1)] == [Reader(p, 1)];
  }

  lemma OneRound(es: seq<Event>, p: nat, q: nat)
    requires Run(Input([], []), es).0 == Input([], [Reader(p, 1)])
    ensures Run(Input([], []), es + [Request(Reader(q, 1))] + [Enter([65, NEWLINE])]).0 == Input([[NEWLINE]], [Reader(p, 1)])
  {
    hide Run;
    RunNext(Input([], []), es, Request(Reader(q, 1)));
    assert [Reader(p, 1)] + [Reader(q, 1)] == [Reader(p, 1), Reader(q, 1)];
    RunNext(Input([], []), es + [Request(Reader(q, 1))], Enter([65, NEWLINE]));
    ReaderLeftWaiting(p, q);
  }

  lemma ServedAtOnce(p: nat, q: nat)
    ensures Step(Input([[NEWLINE]], [Reader(p, 1)]), Request(Reader(q, 1))).0 == Input([], [Reader(p, 1)])
  {
    var a := Arrive(Input([[NEWLINE]], [Reader(p, 1)]), Request(Reader(q, 1)));
    assert a.readers == [Reader(p, 1), Reader(q, 1)] && a.readers[..1] == [Reader(p, 1)];
    assert a.lines[1..] == [];
  }
}
