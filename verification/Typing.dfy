/**
 The terminal driver's loop as a value (kernel/drivers/tty.c:33-60): a line being edited, the input
 behind it, and the keys and read requests that come in.
 */
module Typing {
  import opened Words
  import opened Lines

  datatype Signal = Stroke(k: Key) | EnterKey | Read(reader: Reader)

  datatype Desk = Desk(edit: Edit, input: Input)

  /** How key k changes text t with the cursor at n. */
  ghost predicate Edits(t: seq<byte>, n: nat, k: Key, t': seq<byte>, n': nat)
    requires n <= |t|
  {
    match k
    case Char(c) => t' == t[..n] + [c] + t[n..] && n' == n + 1
    case Back => if n == 0 then t' == t && n' == n else t' == t[..n - 1] + t[n..] && n' == n - 1
    case Left => t' == t && n' == if n == 0 then 0 else n - 1
    case Right => t' == t && n' == if n == |t| then n else n + 1
    case Other => t' == t && n' == n
  }

  /** The pair of texts before and after the cursor is edited just so. */
  lemma PressEdits(e: Edit, k: Key)
    ensures var r := Press(e, k); Edits(e.before + e.after, |e.before|, k, r.before + r.after, |r.before|)
  {
    var t, r := e.before + e.after, Press(e, k);
    match k
    case Char(c) => assert t[..|e.before|] == e.before && t[|e.before|..] == e.after;
    case Back =>
      if e.before != [] { assert r.before + r.after == t[..|e.before| - 1] + t[|e.before|..]; }
    case Left =>
      if e.before != [] { assert e.before == e.before[..|e.before| - 1] + [e.before[|e.before| - 1]]; }
    case Right =>
      if e.after != [] { assert e.after == [e.after[0]] + e.after[1..]; }
    case Other =>
  }

  /** Enter ends the line with a newline, wherever the cursor is. */
  function Handle(d: Desk, s: Signal): (Desk, seq<Reply>) {
    match s
    case Stroke(k) => (d.(edit := Press(d.edit, k)), [])
    case EnterKey =>
      var r := Step(d.input, Enter(d.edit.before + d.edit.after + [NEWLINE]));
      (Desk(Edit([], []), r.0), r.1)
    case Read(reader) =>
      var r := Step(d.input, Request(reader));
      (d.(input := r.0), r.1)
  }

  function HandleAll(d: Desk, ss: seq<Signal>): (r: (Desk, seq<Reply>))
    decreases |ss|
  {
    if ss == [] then (d, [])
    else
      var first := Handle(d, ss[0]);
      var rest := HandleAll(first.0, ss[1..]);
      (rest.0, first.1 + rest.1)
  }

  /** Keys are not NUL, and the line buffer and the pool have room; the code takes both for granted. */
  predicate Roomy(d: Desk, s: Signal) {
    var n := |d.edit.before| + |d.edit.after|;
    match s
    case Stroke(Char(c)) => c != 0 && n + 1 < NR_INPUT_BUF
    case EnterKey => n + 1 < NR_INPUT_BUF && |Stored(d.input.lines)| + n + 2 < NR_INPUT_POOL
    case _ => true
  }

  predicate AllRoomy(d: Desk, ss: seq<Signal>)
    decreases |ss|
  {
    ss == [] || (Roomy(d, ss[0]) && AllRoomy(Handle(d, ss[0]).0, ss[1..]))
  }

  /** The first n signals are handled: they left d and gave the replies rs, and there is room for the rest. */
  ghost predicate HandledTo(d0: Desk, ss: seq<Signal>, n: nat, d: Desk, rs: seq<Reply>) {
    n <= |ss| && AllRoomy(d, ss[n..]) && HandleAll(d0, ss) == (HandleAll(d, ss[n..]).0, rs + HandleAll(d, ss[n..]).1)
  }

  lemma HandledNone(d: Desk, ss: seq<Signal>)
    requires AllRoomy(d, ss)
    ensures HandledTo(d, ss, 0, d, [])
  {
    var r := HandleAll(d, ss);
    assert ss[0..] == ss && [] + r.1 == r.1;
  }

  lemma HandledNext(d0: Desk, ss: seq<Signal>, n: nat, d: Desk, rs: seq<Reply>)
    requires n < |ss| && HandledTo(d0, ss, n, d, rs)
    ensures Roomy(d, ss[n]) && HandledTo(d0, ss, n + 1, Handle(d, ss[n]).0, rs + Handle(d, ss[n]).1)
  {
    hide Handle;
    var t := ss[n..];
    assert t[0] == ss[n] && t[1..] == ss[n + 1..];
    var first := Handle(d, ss[n]);
    var rest := HandleAll(first.0, ss[n + 1..]);
    assert rs + (first.1 + rest.1) == (rs + first.1) + rest.1;
  }

  lemma HandledAll(d0: Desk, ss: seq<Signal>, d: Desk, rs: seq<Reply>)
    requires HandledTo(d0, ss, |ss|, d, rs)
    ensures (d, rs) == HandleAll(d0, ss)
  {
    assert rs + [] == rs;
  }

  /** The signal is a character, Enter or a request. */
  predicate Plain(s: Signal) { s.Stroke? ==> s.k.Char? && s.k.c != 0 }

  ghost predicate AllPlain(ss: seq<Signal>) {
    forall i :: 0 <= i < |ss| ==> Plain(ss[i])
  }

  /** The bytes a signal types. */
  function Byte(s: Signal): seq<byte> {
    match s
    case Stroke(Char(c)) => [c]
    case EnterKey => [NEWLINE]
    case _ => []
  }

  function Bytes(ss: seq<Signal>): seq<byte> {
    if ss == [] then [] else Byte(ss[0]) + Bytes(ss[1..])
  }

  /** What is typed and not delivered, oldest first. */
  function Contents(d: Desk): seq<byte> {
    Text(d.input.lines) + d.edit.before
  }

  /** The cursor is at the end of a line without NUL. */
  ghost predicate AtEnd(d: Desk) {
    AllLines(d.input.lines) && d.edit.after == [] && 0 !in d.edit.before
  }

  /** s turns d into d' and the replies rs, and no byte is lost, repeated or reordered. */
  ghost predicate Conserves(d: Desk, s: Signal, d': Desk, rs: seq<Reply>) {
    AtEnd(d') && Contents(d) + Byte(s) == Delivered(rs) + Contents(d')
  }

  lemma StrokeConserves(d: Desk, s: Signal)
    requires AtEnd(d) && Plain(s) && s.Stroke?
    ensures var r := Handle(d, s); Conserves(d, s, r.0, r.1)
  {
    hide Text, Delivered, AllLines;
    NothingTyped();
    var t, b := Text(d.input.lines), d.edit.before;
    assert (t + b) + [s.k.c] == [] + (t + (b + [s.k.c]));
  }

  lemma Regroup(a: seq<byte>, b: seq<byte>, c: seq<byte>)
    ensures (a + b) + c == a + (b + c)
  {}

  lemma EnterConserves(d: Desk)
    requires AtEnd(d)
    ensures var r := Handle(d, EnterKey); Conserves(d, EnterKey, r.0, r.1)
  {
    hide Text, Step, Delivered, AllLines;
    var b := d.edit.before;
    var l := b + [NEWLINE];
    assert b + d.edit.after == b;
    assert Line(l);
    StepText(d.input, Enter(l));
    Regroup(Text(d.input.lines), b, [NEWLINE]);
    var t := Text(Handle(d, EnterKey).0.input.lines);
    assert t + [] == t;
  }

  lemma ReadConserves(d: Desk, reader: Reader)
    requires AtEnd(d)
    ensures var r := Handle(d, Read(reader)); Conserves(d, Read(reader), r.0, r.1)
  {
    hide Text, Step, Delivered, AllLines;
    StepText(d.input, Request(reader));
    var r := Handle(d, Read(reader));
    assert Contents(d) + [] == Contents(d);
    Regroup(Delivered(r.1), Text(r.0.input.lines), d.edit.before);
  }

  lemma {:induction false} DeliveredBoth(p: seq<Reply>, q: seq<Reply>)
    ensures Delivered(p + q) == Delivered(p) + Delivered(q)
    decreases |q|
  {
    if q == [] {
      assert p + q == p;
    } else {
      var n := |q| - 1;
      DeliveredBoth(p, q[..n]);
      assert (p + q)[..|p| + n] == p + q[..n];
      Regroup(Delivered(p), Delivered(q[..n]), q[n].data);
    }
  }

  lemma {:induction false} RunTyped(d: Desk, ss: seq<Signal>)
    requires AtEnd(d) && AllPlain(ss)
    ensures var r := HandleAll(d, ss); AtEnd(r.0) && Contents(d) + Bytes(ss) == Delivered(r.1) + Contents(r.0)
    decreases |ss|
  {
    hide Contents, Delivered, Handle, Byte, AtEnd, Plain;
    if ss == [] {
      NothingTyped();
      assert Contents(d) + [] == [] + Contents(d);
    } else {
      var s, first := ss[0], Handle(d, ss[0]);
      match s {
        case Stroke(_) => StrokeConserves(d, s);
        case EnterKey => EnterConserves(d);
        case Read(reader) => ReadConserves(d, reader);
      }
      RunTyped(first.0, ss[1..]);
      var rest := HandleAll(first.0, ss[1..]);
      DeliveredBoth(first.1, rest.1);
      Regroup(Contents(d), Byte(s), Bytes(ss[1..]));
      Regroup(Delivered(first.1), Contents(first.0), Bytes(ss[1..]));
      Regroup(Delivered(first.1), Delivered(rest.1), Contents(rest.0));
    }
  }

  /** From the keyboard to the readers: while only characters and Enter are typed, the bytes delivered, those
      unread and those on the line are the bytes typed, in order, a newline for each Enter. */
  lemma TypedIsDelivered(ss: seq<Signal>)
    requires AllPlain(ss)
    ensures var r := HandleAll(Desk(Edit([], []), Input([], [])), ss);
            r.0.edit.after == [] && Bytes(ss) == Delivered(r.1) + (Text(r.0.input.lines) + r.0.edit.before)
  {
    hide HandleAll, Bytes, Delivered;
    NothingTyped();
    var d := Desk(Edit([], []), Input([], []));
    RunTyped(d, ss);
    assert [] + Bytes(ss) == Bytes(ss);
  }

  function Keys(w: seq<byte>): seq<Signal> {
    seq(|w|, i requires 0 <= i < |w| => Stroke(Char(w[i])))
  }

  lemma {:induction false} KeysMakeTheLine(d: Desk, w: seq<byte>)
    ensures HandleAll(d, Keys(w) + [EnterKey]) == Handle(d.(edit := Edit(d.edit.before + w, d.edit.after)), EnterKey)
    decreases |w|
  {
    hide Step;
    var ss := Keys(w) + [EnterKey];
    if w == [] {
      assert ss == [EnterKey] && ss[1..] == [];
      assert d.edit.before + w == d.edit.before;
      var r := Handle(d, EnterKey);
      assert r.1 + [] == r.1;
    } else {
      assert ss[1..] == Keys(w[1..]) + [EnterKey];
      var e := Handle(d, ss[0]).0;
      KeysMakeTheLine(e, w[1..]);
      assert e.edit.before + w[1..] == d.edit.before + w;
      var rest := HandleAll(e, ss[1..]);
      assert [] + rest.1 == rest.1;
    }
  }

  /** Typing w on an empty line, and Enter, enters w and a newline. */
  lemma TypingEnters(i: Input, w: seq<byte>)
    ensures HandleAll(Desk(Edit([], []), i), Keys(w) + [EnterKey])
         == (Desk(Edit([], []), Step(i, Enter(w + [10])).0), Step(i, Enter(w + [10])).1)
  {
    KeysMakeTheLine(Desk(Edit([], []), i), w);
    assert [] + w + [] + [NEWLINE] == w + [10];
  }
}
