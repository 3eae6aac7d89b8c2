/** The terminal driver's line editor and input ring (kernel/drivers/tty.c). */
module Terminal {
  import opened Words
  import opened Lines
  import opened Typing

  /** How many bytes lie between the read end f and the write end r of the ring. */
  function Used(f: nat, r: nat): nat
    requires f < NR_INPUT_POOL && r < NR_INPUT_POOL
  {
    if f <= r then r - f else r + NR_INPUT_POOL - f
  }

  function Wrap(i: nat): nat { i % NR_INPUT_POOL }

  /** Those bytes, oldest first. */
  function Content(pool: seq<byte>, f: nat, r: nat): (c: seq<byte>)
    requires |pool| == NR_INPUT_POOL && f < NR_INPUT_POOL && r < NR_INPUT_POOL
    ensures |c| == Used(f, r)
  {
    seq<byte>(Used(f, r), k requires 0 <= k < Used(f, r) => pool[Wrap(f + k)])
  }

  /** A byte stored at the write end comes last. */
  lemma ContentPut(pool: seq<byte>, f: nat, r: nat, b: byte)
    requires |pool| == NR_INPUT_POOL && f < NR_INPUT_POOL && r < NR_INPUT_POOL && Used(f, r) < NR_INPUT_POOL - 1
    ensures Used(f, Wrap(r + 1)) == Used(f, r) + 1
    ensures Content(pool[r := b], f, Wrap(r + 1)) == Content(pool, f, r) + [b]
  {
    var n, c, d := Used(f, r), Content(pool, f, r), Content(pool[r := b], f, Wrap(r + 1));
    assert Wrap(f + n) == r;
    forall k | 0 <= k < n ensures d[k] == c[k] { assert Wrap(f + k) != r; }
  }

  /** Moving the read end on drops the oldest byte. */
  lemma ContentDrop(pool: seq<byte>, f: nat, r: nat)
    requires |pool| == NR_INPUT_POOL && f < NR_INPUT_POOL && r < NR_INPUT_POOL && f != r
    ensures Content(pool, f, r) != [] && Content(pool, f, r)[0] == pool[f]
    ensures Content(pool, Wrap(f + 1), r) == Content(pool, f, r)[1..]
  {
    assert Wrap(f) == f;
    var c, d := Content(pool, f, r), Content(pool, Wrap(f + 1), r);
    assert |d| == |c| - 1;
    forall k | 0 <= k < |d| ensures d[k] == c[k + 1] { assert Wrap(Wrap(f + 1) + k) == Wrap(f + (k + 1)); }
  }

  class Terminal {
    const input_buffer: array<byte>
    var input_length: nat
    var cursor_pos: nat
    const input_pool: array<byte>
    var f: nat
    var r: nat
    var readers: seq<Reader>
    ghost var lines: seq<seq<byte>>

    ghost predicate Editing()
      reads this, input_buffer
    {
      && input_buffer.Length == NR_INPUT_BUF
      && cursor_pos <= input_length < NR_INPUT_BUF
      && input_buffer[input_length] == 0
      && forall k :: 0 <= k < input_length ==> input_buffer[k] != 0
    }

    /** The line being edited. */
    ghost function Line(): Edit
      requires Editing()
      reads this, input_buffer
    {
      Edit(input_buffer[..cursor_pos], input_buffer[cursor_pos..input_length])
    }

    /** The ring holds the unread lines, each with its NUL. */
    ghost predicate Queued()
      reads this, input_pool
    {
      && input_pool.Length == NR_INPUT_POOL && f < NR_INPUT_POOL && r < NR_INPUT_POOL
      && AllLines(lines)
      && Content(input_pool[..], f, r) == Stored(lines)
    }

    ghost function View(): Input
      reads this
    {
      Input(lines, readers)
    }

    ghost predicate Valid()
      reads this, input_buffer, input_pool
    {
      input_buffer != input_pool && Editing() && Queued()
    }

    constructor ()
      ensures Valid() && Line() == Edit([], []) && View() == Input([], [])
      ensures fresh(input_buffer) && fresh(input_pool)
    {
      input_buffer := new byte[NR_INPUT_BUF](_ => 0);
      input_pool := new byte[NR_INPUT_POOL](_ => 0);
      input_length, cursor_pos, f, r, readers, lines := 0, 0, 0, 0, [], [];
    }

    /** The text from the cursor to the end moves up by one. */
    method MakeRoom()
      requires input_buffer.Length == NR_INPUT_BUF && cursor_pos <= input_length < NR_INPUT_BUF
      modifies input_buffer
      ensures input_buffer[..cursor_pos] == old(input_buffer[..cursor_pos])
      ensures input_buffer[cursor_pos + 1..input_length + 1] == old(input_buffer[cursor_pos..input_length])
    {
      var i := input_length;
      while i > cursor_pos
        invariant cursor_pos <= i <= input_length
        invariant forall k :: i < k <= input_length ==> input_buffer[k] == old(input_buffer[k - 1])
        invariant forall k :: 0 <= k <= i ==> input_buffer[k] == old(input_buffer[k])
        modifies input_buffer
      {
        input_buffer[i] := input_buffer[i - 1];
        i := i - 1;
      }
      ghost var moved, text := input_buffer[cursor_pos + 1..input_length + 1], old(input_buffer[cursor_pos..input_length]);
      forall j | 0 <= j < |text| ensures moved[j] == text[j] {
        assert moved[j] == input_buffer[cursor_pos + 1 + j];
      }
    }

    /** A character goes in at the cursor; the source takes for granted that the buffer has room. */
    method InsertChar(ch: byte)
      requires Editing() && ch != 0 && input_length + 1 < NR_INPUT_BUF
      modifies this`input_length, this`cursor_pos, input_buffer
      ensures Editing() && Line() == Press(old(Line()), Char(ch))
    {
      ghost var e := Line();
      MakeRoom();
      input_length := input_length + 1;
      input_buffer[input_length] := 0;
      input_buffer[cursor_pos] := ch;
      cursor_pos := cursor_pos + 1;
      assert input_buffer[..cursor_pos] == e.before + [ch];
      assert input_buffer[cursor_pos..input_length] == e.after;
      Unterminated(e.before + [ch], e.after);
    }

    /** Text without NUL on either side of the cursor is text without NUL. */
    lemma Unterminated(p: seq<byte>, q: seq<byte>)
      requires input_buffer.Length == NR_INPUT_BUF && cursor_pos <= input_length < NR_INPUT_BUF
      requires input_buffer[..cursor_pos] == p && input_buffer[cursor_pos..input_length] == q
      requires (forall k :: 0 <= k < |p| ==> p[k] != 0) && forall k :: 0 <= k < |q| ==> q[k] != 0
      ensures forall k :: 0 <= k < input_length ==> input_buffer[k] != 0
    {}

    /** The text from the cursor to the end, with its NUL, moves down over the character before it. */
    method CloseUp()
      requires input_buffer.Length == NR_INPUT_BUF && 0 < cursor_pos <= input_length < NR_INPUT_BUF
      modifies input_buffer
      ensures input_buffer[..cursor_pos - 1] == old(input_buffer[..cursor_pos - 1])
      ensures input_buffer[cursor_pos - 1..input_length] == old(input_buffer[cursor_pos..input_length + 1])
    {
      var i := cursor_pos - 1;
      while i < input_length
        invariant cursor_pos - 1 <= i <= input_length
        invariant forall k :: cursor_pos - 1 <= k < i ==> input_buffer[k] == old(input_buffer[k + 1])
        invariant forall k :: 0 <= k < NR_INPUT_BUF && !(cursor_pos - 1 <= k < i) ==> input_buffer[k] == old(input_buffer[k])
        modifies input_buffer
      {
        input_buffer[i] := input_buffer[i + 1];
        i := i + 1;
      }
    }

    /** The character before the cursor goes. */
    method Backspace()
      requires Editing()
      modifies this`input_length, this`cursor_pos, input_buffer
      ensures Editing() && Line() == Press(old(Line()), Back)
    {
      if cursor_pos > 0 {
        ghost var e, b := Line(), input_buffer[cursor_pos..input_length + 1];
        CloseUp();
        assert input_buffer[input_length - 1] == b[|b| - 1] == 0;
        input_length := input_length - 1;
        cursor_pos := cursor_pos - 1;
        assert input_buffer[..cursor_pos] == e.before[..cursor_pos];
        assert input_buffer[cursor_pos..input_length] == b[..|b| - 1] == e.after;
        Unterminated(e.before[..cursor_pos], e.after);
      }
    }

    method Move(k: Key)
      requires Editing() && (k.Left? || k.Right? || k.Other?)
      modifies this`cursor_pos
      ensures Editing() && Line() == Press(old(Line()), k)
    {
      match k
      case Left => if cursor_pos > 0 { cursor_pos := cursor_pos - 1; }
      case Right => if cursor_pos < input_length { cursor_pos := cursor_pos + 1; }
      case _ =>
    }

    /** canonic_mode_getch, for every key but Enter. */
    method PressKey(k: Key)
      requires Valid() && (k.Char? ==> k.c != 0 && input_length + 1 < NR_INPUT_BUF)
      modifies this`input_length, this`cursor_pos, input_buffer
      ensures Valid() && Line() == Press(old(Line()), k) && View() == old(View())
      ensures Edits(old(input_buffer[..input_length]), old(cursor_pos), k, input_buffer[..input_length], cursor_pos)
    {
      hide Press, Edits, Content, Stored, AllLines;
      PressEdits(Line(), k);
      WholeLine();
      match k {
        case Char(c) => InsertChar(c);
        case Back => Backspace();
        case _ => Move(k);
      }
      WholeLine();
    }

    /** The text and the cursor. */
    lemma WholeLine()
      requires Editing()
      ensures Line().before + Line().after == input_buffer[..input_length] && |Line().before| == cursor_pos
    {}

    /** One byte at the write end of the ring. */
    method Put(b: byte)
      requires input_pool.Length == NR_INPUT_POOL && f < NR_INPUT_POOL && r < NR_INPUT_POOL
      requires Used(f, r) < NR_INPUT_POOL - 1
      modifies this`r, input_pool
      ensures r < NR_INPUT_POOL && Used(f, r) == old(Used(f, r)) + 1
      ensures Content(input_pool[..], f, r) == old(Content(input_pool[..], f, r)) + [b]
    {
      ContentPut(input_pool[..], f, r, b);
      ghost var p := input_pool[..];
      input_pool[r] := b;
      assert input_pool[..] == p[r := b];
      r := (r + 1) % NR_INPUT_POOL;
    }

    /** The finished line, with its newline and NUL, goes into the ring. */
    method PutLine(ghost text: seq<byte>)
      requires Queued() && input_buffer != input_pool && input_buffer.Length == NR_INPUT_BUF && input_length < NR_INPUT_BUF
      requires input_buffer[..input_length] == text && input_buffer[input_length] == 0 && Lines.Line(text)
      requires Used(f, r) + |text| + 1 < NR_INPUT_POOL
      modifies this`r, this`lines, input_pool
      ensures Queued() && lines == old(lines) + [text]
    {
      hide Content, Used, Stored;
      ghost var c, u, all := Content(input_pool[..], f, r), Used(f, r), input_buffer[..input_length + 1];
      assert all == text + [0];
      var i: nat := 0;
      while i <= input_length
        invariant i <= input_length + 1 && r < NR_INPUT_POOL && Used(f, r) == u + i
        invariant Content(input_pool[..], f, r) == c + all[..i]
        modifies this`r, input_pool
      {
        assert all[..i + 1] == all[..i] + [input_buffer[i]];
        Put(input_buffer[i]);
        i := i + 1;
      }
      assert all[..i] == text + [0];
      StoredAppend(lines, text);
      lines := lines + [text];
    }

    /** One byte leaves the ring at the read end. */
    method Get() returns (b: byte)
      requires input_pool.Length == NR_INPUT_POOL && f < NR_INPUT_POOL && r < NR_INPUT_POOL
      requires Content(input_pool[..], f, r) != []
      modifies this`f
      ensures f < NR_INPUT_POOL && [b] + Content(input_pool[..], f, r) == old(Content(input_pool[..], f, r))
    {
      assert f != r;
      ContentDrop(input_pool[..], f, r);
      b := input_pool[f];
      f := (f + 1) % NR_INPUT_POOL;
    }

    /** The byte at the read end. */
    lemma Oldest(rest: seq<byte>)
      requires input_pool.Length == NR_INPUT_POOL && f < NR_INPUT_POOL && r < NR_INPUT_POOL
      requires Content(input_pool[..], f, r) == rest && rest != []
      ensures input_pool[f] == rest[0]
    {
      assert f != r;
      ContentDrop(input_pool[..], f, r);
    }

    /** canonic_wakeup_read. */
    method WakeupRead() returns (replies: seq<Reply>)
      requires Queued()
      modifies this`f, this`lines, this`readers
      ensures Queued() && (View(), replies) == Wake(old(View()))
    {
      hide Content, Stored;
      replies := [];
      Emptiness();
      if readers != [] && f != r {
        var top := readers[|readers| - 1];
        ghost var l, rest := lines[0], Stored(lines[1..]);
        StoredCons(lines);
        var data := TakeLine(top.length, l, rest);
        FinishLine(l, rest, |data|);
        replies := [Reply(top.pid, data)];
        readers := readers[..|readers| - 1];
      }
    }

    /** The ring is empty just when no line is left. */
    lemma Emptiness()
      requires Queued()
      ensures f == r <==> lines == []
    {}

    /** The loop of canonic_wakeup_read: it stops at the end of the line and so never runs past the write end. */
    method TakeLine(length: nat, ghost l: seq<byte>, ghost rest: seq<byte>) returns (data: seq<byte>)
      requires input_pool.Length == NR_INPUT_POOL && f < NR_INPUT_POOL && r < NR_INPUT_POOL
      requires Lines.Line(l) && Content(input_pool[..], f, r) == l + [0] + rest
      modifies this`f
      ensures f < NR_INPUT_POOL && data == l[..Min(length, |l|)]
      ensures Content(input_pool[..], f, r) == l[|data|..] + [0] + rest
    {
      hide Content;
      data := [];
      assert l[0..] == l;
      Oldest(l[0..] + [0] + rest);
      while |data| < length && input_pool[f] != 0
        invariant |data| <= length && |data| <= |l| && data == l[..|data|] && f < NR_INPUT_POOL
        invariant Content(input_pool[..], f, r) == l[|data|..] + [0] + rest
        invariant input_pool[f] == (l[|data|..] + [0] + rest)[0]
        decreases |l| - |data|
      {
        ghost var k := |data|;
        assert l[k..] == [l[k]] + l[k + 1..];
        var b := Get();
        data := data + [b];
        assert Content(input_pool[..], f, r) == ([b] + Content(input_pool[..], f, r))[1..] == l[k + 1..] + [0] + rest;
        Oldest(l[k + 1..] + [0] + rest);
      }
    }

    /** A NUL at the read end is skipped: the line is used up. */
    method FinishLine(ghost l: seq<byte>, ghost rest: seq<byte>, ghost n: nat)
      requires input_pool.Length == NR_INPUT_POOL && f < NR_INPUT_POOL && r < NR_INPUT_POOL
      requires lines != [] && AllLines(lines) && l == lines[0] && n <= |l| && rest == Stored(lines[1..])
      requires Content(input_pool[..], f, r) == l[n..] + [0] + rest
      modifies this`f, this`lines
      ensures Queued()
      ensures lines == if n == |l| then old(lines[1..]) else [l[n..]] + old(lines[1..])
    {
      hide Content;
      Oldest(l[n..] + [0] + rest);
      if input_pool[f] == 0 {
        assert n == |l|;
        var b := Get();
        assert Content(input_pool[..], f, r) == ([b] + Content(input_pool[..], f, r))[1..] == rest;
        lines := lines[1..];
      } else {
        assert n < |l|;
        assert ([l[n..]] + lines[1..])[1..] == lines[1..];
        lines := [l[n..]] + lines[1..];
      }
    }

    /** Enter: the line joins the unread ones, one reader is woken, and editing starts afresh. */
    method PressEnter() returns (replies: seq<Reply>)
      requires Valid() && input_length + 1 < NR_INPUT_BUF && Used(f, r) + input_length + 2 < NR_INPUT_POOL
      modifies this, input_buffer, input_pool
      ensures Valid() && Line() == Edit([], [])
      ensures (View(), replies) == Step(old(View()), Enter(old(Line().before + Line().after) + [NEWLINE]))
    {
      hide Content, Stored, Wake, AllLines;
      ghost var text := Line().before + Line().after + [NEWLINE];
      input_buffer[input_length] := NEWLINE;
      input_length := input_length + 1;
      input_buffer[input_length] := 0;
      assert input_buffer[..input_length] == text;
      PutLine(text);
      replies := WakeupRead();
      cursor_pos := 0;
      input_buffer[0] := 0;
      input_length := 0;
    }

    /** The driver's loop, over the signals that come in. */
    method Serve(ss: seq<Signal>) returns (replies: seq<Reply>)
      requires Valid() && AllRoomy(Desk(Line(), View()), ss)
      modifies this, input_buffer, input_pool
      ensures Valid() && (Desk(Line(), View()), replies) == HandleAll(old(Desk(Line(), View())), ss)
    {
      hide Content, Stored, AllLines, Press, Step, Queued, Editing, Edits, HandledTo, Roomy;
      replies := [];
      ghost var d0 := Desk(Line(), View());
      HandledNone(d0, ss);
      for i := 0 to |ss|
        invariant Valid() && HandledTo(d0, ss, i, Desk(Line(), View()), replies)
      {
        ghost var d := Desk(Line(), View());
        HandledNext(d0, ss, i, d, replies);
        RoomLeft(ss[i]);
        var r: seq<Reply> := [];
        match ss[i] {
          case Stroke(k) => PressKey(k);
          case EnterKey => r := PressEnter();
          case Read(reader) => r := Read(reader);
        }
        assert (Desk(Line(), View()), r) == Handle(d, ss[i]);
        replies := replies + r;
      }
      HandledAll(d0, ss, Desk(Line(), View()), replies);
    }

    /** How full the line buffer and the ring are. */
    lemma RoomLeft(s: Signal)
      requires Valid() && Roomy(Desk(Line(), View()), s)
      ensures s.Stroke? && s.k.Char? ==> s.k.c != 0 && input_length + 1 < NR_INPUT_BUF
      ensures s.EnterKey? ==> input_length + 1 < NR_INPUT_BUF && Used(f, r) + input_length + 2 < NR_INPUT_POOL
    {}

    /** A DEV_READ request. */
    method Read(reader: Reader) returns (replies: seq<Reply>)
      requires Valid()
      modifies this`f, this`lines, this`readers
      ensures Valid() && Line() == old(Line())
      ensures (View(), replies) == Step(old(View()), Request(reader))
    {
      hide Content, Stored, Wake, AllLines;
      readers := readers + [reader];
      replies := WakeupRead();
    }
  }

  lemma StoredCons(ls: seq<seq<byte>>)
    requires ls != []
    ensures Stored(ls) == ls[0] + [0] + Stored(ls[1..]) && Stored(ls) != []
  {}
}
