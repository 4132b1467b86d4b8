/** The editor's globals and the body of its edit loop (src/snack.c:44-88,
    327-345, 433-554, src/snack.h:84, 91-93): the 7-byte input buffer c, the
    current buffer, mode and status; the table dispatch of internal_command,
    the bool actions it calls, and one pass of internal_edit. What each of
    them does to the editor is stated as a function on a Snapshot of its
    state. */
module Editor {
  import opened Utf8
  import opened Snack
  import opened Config
  import Motion
  import Insertion
  import Buffers

  /** What the dispatch and the edit loop act on: current_mode,
      current_status, the records of the current buffer's lines in list
      order, and what its cursor actions see. */
  datatype Snapshot = Snapshot(mode: Mode, status: Status, lines: seq<LineValue>, view: Motion.View)

  /** The view is a view of these lines, and every line is consistent. */
  predicate Fits(lines: seq<LineValue>, view: Motion.View)
  {
    && Motion.Wellformed(view) && view.vls == Buffers.VisualLengths(lines)
    && forall i :: 0 <= i < |lines| ==> Consistent(lines[i])
  }

  /** The editor's buffer fits its view. */
  predicate Coherent(s: Snapshot)
  {
    Fits(s.lines, s.view)
  }

  /** The editor internal_setup leaves (src/snack.c:327-345): Normal mode,
      running, one dirty empty line, the cursor at its start. */
  const Initial: Snapshot := Snapshot(Normal, StatusRunning, [LineValue([], 1, 0, 0, true)], Motion.View([0], 0, 0, 0, 0))

  /** What each bool action returns (src/snack.c:433-554): false for the
      two mode switches, true for the rest. */
  function Returns(a: Action): bool
  {
    match a
    case ModeInsert => false
    case ModeNormal => false
    case _ => true
  }

  /** What a cursor action does to the view; the view itself for the
      actions that are not cursor actions. */
  function Moved(a: Action, v: Motion.View): (r: Motion.View)
    requires Motion.Wellformed(v)
    ensures Motion.Wellformed(r) && r.vls == v.vls && r.last == v.last
  {
    match a
    case MovePrevChar => Motion.PrevChar(v)
    case MoveNextLine => Motion.NextLine(v)
    case MovePrevLine => Motion.PrevLine(v)
    case MoveNextChar => Motion.NextChar(v)
    case MoveBof => Motion.Bof(v)
    case MoveEof => Motion.Eof(v)
    case MoveBol => Motion.Bol(v)
    case MoveEol => Motion.Eol(v)
    case _ => v
  }

  /** `cursor = internal_insert(cursor, t, |t|)` followed by
      `current_status |= Status_dirty` (src/snack.c:84-86, 544-546): the
      text goes in at the cursor, the cursor moves to the end position,
      offset_prev stays, and last_line stays the same line. */
  function Typed(s: Snapshot, t: seq<byte>): Snapshot
    requires Coherent(s) && Insertion.Insertable(s.lines, s.view.line, s.view.offset, t)
  {
    var k := s.view.line;
    var r := Insertion.Insert(s.lines, k, s.view.offset, t);
    s.(status := Dirtied(s.status), lines := r.lines,
       view := Motion.View(Buffers.VisualLengths(r.lines), Buffers.LastAfter(s.view.last, k, Insertion.Newlines(t)),
                           r.endLine, r.endOffset, s.view.offsetPrev))
  }

  /** An insertion keeps the editor coherent: one line more per newline,
      every line written consistent, and the end position and last_line
      on lines that exist. */
  lemma TypedCoherent(s: Snapshot, t: seq<byte>)
    requires Coherent(s) && Insertion.Insertable(s.lines, s.view.line, s.view.offset, t)
    ensures Coherent(Typed(s, t))
  {
    var k := s.view.line;
    var r := Insertion.Insert(s.lines, k, s.view.offset, t);
    Insertion.InsertShape(s.lines, k, s.view.offset, t);
    KeptLines(s.lines, r.lines, k, r.endLine);
    forall i | 0 <= i < |r.lines|
      ensures Consistent(r.lines[i])
    {
      if i < k {
        assert r.lines[i] == s.lines[i];
      } else if i > r.endLine {
        assert r.lines[i] == s.lines[i - r.endLine + k];
      }
    }
    var s1 := Typed(s, t);
    assert s1.lines == r.lines && Motion.Wellformed(s1.view);
  }

  /** The lines an insertion into line k keeps: those before it in place,
      and those after it moved down past its last line e. */
  lemma KeptLines(lines: seq<LineValue>, rl: seq<LineValue>, k: nat, e: nat)
    requires k < |lines| && k <= e < |rl| && |rl| - e == |lines| - k
    requires rl[..k] == lines[..k] && rl[e + 1..] == lines[k + 1..]
    ensures forall i :: 0 <= i < k ==> rl[i] == lines[i]
    ensures forall i :: e < i < |rl| ==> rl[i] == lines[i - e + k]
  {
    forall i | 0 <= i < k
      ensures rl[i] == lines[i]
    {
      assert rl[i] == rl[..k][i];
    }
    forall i | e < i < |rl|
      ensures rl[i] == lines[i - e + k]
    {
      assert rl[i] == rl[e + 1..][i - e - 1] == lines[k + 1..][i - e - 1];
    }
  }

  /** action_insert_line has a place for the newline: the cursor's line
      has a character count (its visual length is not ERR). */
  predicate CanInsertLine(s: Snapshot)
  {
    Coherent(s) && s.lines[s.view.line].visualLength >= 0
  }

  /** action_insert_line (src/snack.c:541-554): to the end of the line, a
      newline inserted there, and to the start of the line the cursor ends
      on. */
  function LineInserted(s: Snapshot): (r: Snapshot)
    requires CanInsertLine(s)
    ensures Coherent(r)
  {
    var k := s.view.line;
    var s1 := s.(view := Motion.Eol(s.view));
    Insertion.InsertNewlineAtCount(s.lines, k);
    TypedCoherent(s1, [NL]);
    var s2 := Typed(s1, [NL]);
    s2.(view := Motion.Bol(s2.view))
  }

  /** A bool action the table names, run on the editor. */
  function Performed(s: Snapshot, a: Action): (r: Snapshot)
    requires Coherent(s) && a != InsertLine
    ensures Coherent(r)
  {
    if a == Quit then s.(status := Stopped(s.status))
    else if a == ModeInsert then s.(mode := Insert)
    else if a == ModeNormal then s.(mode := Normal)
    else s.(view := Moved(a, s.view))
  }

  /** internal_command's return value (src/snack.c:52-60): that of the
      action bound to the keystroke, or true when none is. */
  function CommandResult(mode: Mode, key: seq<byte>): bool
  {
    match Bound(mode, key)
    case None => true
    case Some(a) => Returns(a)
  }

  /** The editor after internal_command for the keystroke key
      (src/snack.c:44-61): the bound action run, if there is one. */
  function Commanded(s: Snapshot, key: seq<byte>): (r: Snapshot)
    requires Coherent(s)
    ensures Coherent(r)
  {
    match Bound(s.mode, key)
    case None => s
    case Some(a) => Performed(s, a)
  }

  /** internal_edit inserts the keystroke (src/snack.c:80-86): the command
      returned true and left the editor in Insert mode. */
  predicate InsertsKey(s: Snapshot, key: seq<byte>)
    requires Coherent(s)
  {
    CommandResult(s.mode, key) && Commanded(s, key).mode == Insert
  }

  /** A keystroke is inserted exactly in Insert mode, when it is neither
      empty nor the lone ESC byte. */
  lemma InsertsKeyIff(s: Snapshot, key: seq<byte>)
    requires Coherent(s)
    ensures InsertsKey(s, key) <==> s.mode == Insert && 0 < Strlen(key) && key[..Strlen(key)] != [0x1B]
  {
    if Strlen(key) == 1 {
      assert key[..1] == [key[0]];
    }
  }

  /** A keystroke that is inserted runs no action first. */
  lemma InsertsKeyRunsNothing(s: Snapshot, key: seq<byte>)
    requires Coherent(s) && InsertsKey(s, key)
    ensures Bound(s.mode, key) == None && Commanded(s, key) == s
  {
    InsertsKeyIff(s, key);
    if Strlen(key) == 1 {
      assert key[..1] == [key[0]];
    }
  }

  /** What one pass of the edit loop demands of the keystroke it inserts:
      internal_insert's own precondition at the cursor. */
  predicate KeyReady(s: Snapshot, key: seq<byte>)
  {
    Coherent(s) && (InsertsKey(s, key) ==> Insertion.Insertable(s.lines, s.view.line, s.view.offset, key[..Strlen(key)]))
  }

  /** One pass of internal_edit once a character is in c
      (src/snack.c:80-87): run the command; when it returned true and the
      editor is in Insert mode, insert the keystroke at the cursor. */
  function Handled(s: Snapshot, key: seq<byte>): (r: Snapshot)
    requires KeyReady(s, key)
    ensures Coherent(r)
  {
    var s1 := Commanded(s, key);
    if CommandResult(s.mode, key) && s1.mode == Insert then
      InsertsKeyRunsNothing(s, key);
      TypedCoherent(s1, key[..Strlen(key)]);
      Typed(s1, key[..Strlen(key)])
    else s1
  }

  /** A keystroke that is not inserted is only a command. */
  lemma HandledCommand(s: Snapshot, key: seq<byte>)
    requires KeyReady(s, key) && !InsertsKey(s, key)
    ensures Handled(s, key) == Commanded(s, key)
  {
  }

  /** Only an inserted keystroke changes the lines or sets Status_dirty;
      every other keystroke leaves both alone. */
  lemma HandledKeepsLines(s: Snapshot, key: seq<byte>)
    requires KeyReady(s, key) && !InsertsKey(s, key)
    ensures Handled(s, key).lines == s.lines
    ensures Dirty(Handled(s, key).status) == Dirty(s.status)
  {
    HandledCommand(s, key);
    CommandedKeepsLines(s, key);
  }

  /** No action the table binds touches the lines or Status_dirty. */
  lemma CommandedKeepsLines(s: Snapshot, key: seq<byte>)
    requires Coherent(s)
    ensures Commanded(s, key).lines == s.lines
    ensures Dirty(Commanded(s, key).status) == Dirty(s.status)
  {
    match Bound(s.mode, key)
    case None =>
    case Some(a) =>
      if a == Quit {
        StoppedBits(s.status);
      }
  }

  /** Status_running is cleared exactly by a "q", or by an empty keystroke
      (a NUL read: strncmp over zero bytes matches the first entry), in
      Normal mode. */
  lemma QuitIff(s: Snapshot, key: seq<byte>)
    requires KeyReady(s, key) && Running(s.status)
    ensures !Running(Handled(s, key).status) <==>
      s.mode == Normal && (Strlen(key) == 0 || key[..Strlen(key)] == [113])
  {
    if Strlen(key) == 1 {
      assert key[..1] == [key[0]];
    }
    if InsertsKey(s, key) {
      InsertsKeyIff(s, key);
      DirtiedBits(s.status);
    } else {
      HandledCommand(s, key);
      StoppedBits(s.status);
    }
  }

  /** ESC in Insert mode goes back to Normal mode and changes nothing
      else; "i" in Normal mode goes to Insert mode and changes nothing
      else. Neither keystroke is inserted. */
  lemma ModeSwitches(s: Snapshot, key: seq<byte>)
    requires Coherent(s) && Strlen(key) == 1
    ensures s.mode == Insert && key[0] == 0x1B ==> !InsertsKey(s, key) && Handled(s, key) == s.(mode := Normal)
    ensures s.mode == Normal && key[0] == 105 ==> !InsertsKey(s, key) && Handled(s, key) == s.(mode := Insert)
  {
    InsertsKeyIff(s, key);
    assert key[..1] == [key[0]];
  }

  // ---------------------------------------------------------------------
  // The edit loop

  /** Every pass of the edit loop over the reads input can go ahead: each
      keystroke it inserts meets internal_insert's precondition. */
  predicate Feasible(s: Snapshot, input: seq<int>)
    decreases |input|
  {
    && Coherent(s)
    && (Running(s.status) && |input| > 0 ==>
          if ReadsAsErr(input[0]) then Feasible(s, Drop(input, 1))
          else KeyReady(s, Keystroke(input)) && Feasible(Handled(s, Keystroke(input)), Drop(input, Consumed(input))))
  }

  /** internal_edit (src/snack.c:63-88) over the reads input, until
      Status_running is cleared or the reads run out: a read that comes
      back ERR is skipped, and every other keystroke is handled. */
  function Run(s: Snapshot, input: seq<int>): (r: Snapshot)
    requires Feasible(s, input)
    decreases |input|
  {
    if !Running(s.status) || |input| == 0 then s
    else if ReadsAsErr(input[0]) then Run(s, Drop(input, 1))
    else Run(Handled(s, Keystroke(input)), Drop(input, Consumed(input)))
  }

  /** One pass of the loop over a running editor and some reads left:
      an ERR read is skipped, and otherwise the keystroke it starts is
      handled and its reads consumed. */
  lemma RunPass(s: Snapshot, input: seq<int>)
    requires Feasible(s, input) && Running(s.status) && |input| > 0
    ensures ReadsAsErr(input[0]) ==>
      Feasible(s, Drop(input, 1)) && Run(s, input) == Run(s, Drop(input, 1))
    ensures !ReadsAsErr(input[0]) ==>
      && KeyReady(s, Keystroke(input))
      && Feasible(Handled(s, Keystroke(input)), Drop(input, Consumed(input)))
      && Run(s, input) == Run(Handled(s, Keystroke(input)), Drop(input, Consumed(input)))
  {
  }

  // ---------------------------------------------------------------------
  // ASCII editing

  /** Every line is ASCII text and the cursor lies within its line. */
  predicate AsciiState(s: Snapshot)
  {
    && Coherent(s) && Motion.InRange(s.view)
    && forall i :: 0 <= i < |s.lines| ==> IsAscii(s.lines[i].c)
  }

  /** The keystroke utf8_wgetch leaves for one ASCII read: that byte and
      six NULs. */
  predicate AsciiKey(key: seq<byte>)
  {
    |key| == 7 && key[0] < 0x80 && forall i :: 1 <= i < 7 ==> key[i] == 0
  }

  /** The text an ASCII keystroke inserts: its byte, or nothing for a NUL. */
  lemma AsciiKeyText(key: seq<byte>)
    requires AsciiKey(key)
    ensures key[..Strlen(key)] == if key[0] == 0 then [] else [key[0]]
    ensures IsAscii(key[..Strlen(key)])
  {
    if key[0] != 0 {
      assert key[1..][0] == 0;
      assert Strlen(key) == 1;
    }
  }

  /** In an ASCII state the cursor offset is a byte offset of its line,
      so every ASCII keystroke can be inserted. */
  lemma AsciiKeyReady(s: Snapshot, key: seq<byte>)
    requires AsciiState(s) && AsciiKey(key)
    ensures KeyReady(s, key)
  {
    var k := s.view.line;
    CharactersAscii(s.lines[k].c);
    AsciiKeyText(key);
    Insertion.AsciiInsertable(s.lines, k, s.view.offset, key[..Strlen(key)]);
  }

  /** Inserting one ASCII byte keeps the state ASCII: the cursor ends one
      byte further on the same line, or at the start of the new line for a
      newline. */
  lemma TypedAscii(s: Snapshot, b: byte)
    requires AsciiState(s) && 0 < b < 0x80
    ensures Insertion.Insertable(s.lines, s.view.line, s.view.offset, [b])
    ensures AsciiState(Typed(s, [b]))
  {
    var k, o := s.view.line, s.view.offset;
    CharactersAscii(s.lines[k].c);
    InsertedByteAscii(s.lines, k, o, b);
    TypedCoherent(s, [b]);
    var r := Insertion.Insert(s.lines, k, o, [b]);
    CharactersAscii(r.lines[r.endLine].c);
  }

  /** One ASCII byte inserted into ASCII lines leaves them ASCII, with the
      end position within its line. */
  lemma InsertedByteAscii(lines: seq<LineValue>, k: nat, o: int, b: byte)
    requires forall i :: 0 <= i < |lines| ==> IsAscii(lines[i].c)
    requires k < |lines| && Consistent(lines[k]) && 0 <= o <= lines[k].length && 0 < b < 0x80
    ensures Insertion.Insertable(lines, k, o, [b])
    ensures var r := Insertion.Insert(lines, k, o, [b]);
      && r.endLine < |r.lines| && 0 <= r.endOffset <= |r.lines[r.endLine].c|
      && Consistent(r.lines[r.endLine])
      && forall i :: 0 <= i < |r.lines| ==> IsAscii(r.lines[i].c)
  {
    var a := lines[k];
    Insertion.InsertAscii(lines, k, o, [b]);
    Insertion.InsertShape(lines, k, o, [b]);
    var r := Insertion.Insert(lines, k, o, [b]);
    if b == NL {
      Insertion.SegmentsOfNewline([b]);
    } else {
      Insertion.SegmentsWithoutNewline([b]);
      assert |r.lines[k].c| == |a.c| + 1;
    }
    KeptLines(lines, r.lines, k, r.endLine);
    forall i | 0 <= i < |r.lines|
      ensures IsAscii(r.lines[i].c)
    {
      if k <= i <= r.endLine {
        assert Insertion.AsciiLine(r.lines[i]);
      }
    }
  }


  /** Every ASCII keystroke keeps the state ASCII: a cursor action keeps
      the cursor within its line, and an inserted byte lands as
      TypedAscii says. */
  lemma HandledAscii(s: Snapshot, key: seq<byte>)
    requires AsciiState(s) && AsciiKey(key)
    ensures KeyReady(s, key) && AsciiState(Handled(s, key))
  {
    AsciiKeyReady(s, key);
    if InsertsKey(s, key) {
      AsciiKeyText(key);
      InsertsKeyIff(s, key);
      InsertsKeyRunsNothing(s, key);
      TypedAscii(s, key[0]);
    } else {
      HandledCommand(s, key);
      CommandedAscii(s, key);
    }
  }

  /** A command keeps the state ASCII: no action touches the lines, and
      every cursor action keeps the cursor within its line. */
  lemma CommandedAscii(s: Snapshot, key: seq<byte>)
    requires AsciiState(s)
    ensures AsciiState(Commanded(s, key))
  {
    match Bound(s.mode, key)
    case None =>
    case Some(a) => PerformedAscii(s, a);
  }

  /** Every action the table binds keeps the state ASCII. */
  lemma PerformedAscii(s: Snapshot, a: Action)
    requires AsciiState(s) && a != InsertLine
    ensures AsciiState(Performed(s, a))
  {
    forall i | 0 <= i < |s.view.vls|
      ensures s.view.vls[i] >= 0
    {
      CharactersAscii(s.lines[i].c);
    }
    if a != Quit && a != ModeInsert && a != ModeNormal {
      MovedInRange(a, s.view);
    }
  }

  /** Every cursor action keeps a cursor within its line there. */
  lemma MovedInRange(a: Action, v: Motion.View)
    requires Motion.InRange(v) && Motion.CountsKnown(v)
    ensures Motion.InRange(Moved(a, v))
  {
    Motion.MotionsKeepInRange(v);
  }

  /** Reads that all come back as ASCII bytes. */
  predicate AsciiInput(input: seq<int>)
  {
    forall i :: 0 <= i < |input| ==> ToChar(input[i]) < 0x80
  }

  /** Over ASCII reads every pass of the loop can go ahead, and the state
      stays ASCII throughout. */
  lemma {:induction false} AsciiFeasible(s: Snapshot, input: seq<int>)
    requires AsciiState(s) && AsciiInput(input)
    ensures Feasible(s, input) && AsciiState(Run(s, input))
    decreases |input|
  {
    if Running(s.status) && |input| > 0 {
      RunStep(s, input);
      AsciiFeasible(Handled(s, Keystroke(input)), input[1..]);
    }
  }

  /** The keystroke of an ASCII read is an ASCII keystroke. */
  lemma KeystrokeIsAscii(input: seq<int>)
    requires |input| > 0 && ToChar(input[0]) < 0x80
    ensures !ReadsAsErr(ReadAt(input, 0)) && AsciiKey(Keystroke(input))
  {
    KeystrokeAscii(input);
  }

  /** The bytes the reads deliver. */
  function Bytes(input: seq<int>): (r: seq<byte>)
    ensures |r| == |input| && forall i :: 0 <= i < |input| ==> r[i] == ToChar(input[i])
  {
    seq(|input|, i requires 0 <= i < |input| => ToChar(input[i]))
  }

  /** The bytes of a read sequence are those of its first read followed
      by those of the rest. */
  lemma BytesCons(input: seq<int>)
    requires |input| > 0
    ensures Bytes(input) == [ToChar(input[0])] + Bytes(input[1..])
  {
    var r := [ToChar(input[0])] + Bytes(input[1..]);
    forall i | 0 <= i < |input|
      ensures Bytes(input)[i] == r[i]
    {
      if i > 0 {
        assert r[i] == Bytes(input[1..])[i - 1];
      }
    }
  }

  /** Bytes that Insert mode inserts as they come: printable, not ESC, not
      a newline. */
  predicate Plain(input: seq<int>)
  {
    forall i :: 0 <= i < |input| ==> 0 < ToChar(input[i]) < 0x80 && ToChar(input[i]) != 0x1B && ToChar(input[i]) != NL
  }

  /** r is s with the text t typed at the cursor, within the cursor's
      line: that line A becomes A[0:o] + t + A[o:], the cursor moves past
      t, and no other line changes. */
  predicate TypedInto(s: Snapshot, r: Snapshot, t: seq<byte>)
  {
    var k, o := s.view.line, s.view.offset;
    && 0 <= k < |s.lines| && 0 <= o <= |s.lines[k].c|
    && |r.lines| == |s.lines| && r.lines[..k] == s.lines[..k] && r.lines[k + 1..] == s.lines[k + 1..]
    && r.lines[k].c == s.lines[k].c[..o] + t + s.lines[k].c[o..]
    && r.view.line == k && r.view.offset == o + |t|
  }

  /** Typing t1 and then t2 types t1 + t2. */
  lemma TypedIntoTwice(s: Snapshot, s1: Snapshot, r: Snapshot, t1: seq<byte>, t2: seq<byte>)
    requires TypedInto(s, s1, t1) && TypedInto(s1, r, t2)
    ensures TypedInto(s, r, t1 + t2)
  {
    var k, o, a := s.view.line, s.view.offset, s.lines[s.view.line].c;
    var a1 := s1.lines[k].c;
    assert a1[..o + |t1|] == a[..o] + t1 && a1[o + |t1|..] == a[o..];
    assert a1[..o + |t1|] + t2 + a1[o + |t1|..] == a[..o] + (t1 + t2) + a[o..];
    assert r.lines[..k] == s1.lines[..k];
    assert r.lines[k + 1..] == s1.lines[k + 1..];
  }

  /** Typing plain ASCII in Insert mode inserts it at the cursor: the
      cursor's line A becomes A[0:o] + typed + A[o:], the cursor moves past
      the typed bytes, no other line changes, and the editor stays in
      Insert mode and running. */
  lemma {:induction false} TypingInserts(s: Snapshot, input: seq<int>)
    requires AsciiState(s) && AsciiInput(input) && Plain(input)
    requires s.mode == Insert && Running(s.status)
    ensures Feasible(s, input)
    ensures var r := Run(s, input);
      TypedInto(s, r, Bytes(input)) && r.mode == Insert && Running(r.status)
    decreases |input|
  {
    AsciiFeasible(s, input);
    if |input| == 0 {
      var k, o, a := s.view.line, s.view.offset, s.lines[s.view.line].c;
      CharactersAscii(a);
      assert a[..o] + Bytes(input) + a[o..] == a;
    } else {
      RunStep(s, input);
      var key := Keystroke(input);
      var b := key[0];
      HandledTyped(s, key);
      TypedStep(s, b);
      var s1 := Typed(s, [b]);
      DirtiedBits(s.status);
      TypingInserts(s1, input[1..]);
      BytesCons(input);
      AsciiFeasible(s1, input[1..]);
      TypedIntoTwice(s, s1, Run(s1, input[1..]), [b], Bytes(input[1..]));
    }
  }

  /** One pass of the loop over a running editor and an ASCII read
      consumes that one read and handles its keystroke. */
  lemma RunStep(s: Snapshot, input: seq<int>)
    requires AsciiState(s) && AsciiInput(input) && Running(s.status) && |input| > 0
    ensures !ReadsAsErr(ReadAt(input, 0)) && AsciiKey(Keystroke(input)) && Consumed(input) == 1
    ensures KeyReady(s, Keystroke(input)) && AsciiState(Handled(s, Keystroke(input)))
    ensures Feasible(s, input) <==> Feasible(Handled(s, Keystroke(input)), input[1..])
    ensures Feasible(s, input) ==> Run(s, input) == Run(Handled(s, Keystroke(input)), input[1..])
  {
    KeystrokeIsAscii(input);
    KeystrokeAscii(input);
    HandledAscii(s, Keystroke(input));
  }

  /** In Insert mode a keystroke of one ASCII byte other than ESC is typed. */
  lemma HandledTyped(s: Snapshot, key: seq<byte>)
    requires AsciiState(s) && AsciiKey(key) && s.mode == Insert && key[0] != 0 && key[0] != 0x1B
    ensures KeyReady(s, key) && InsertsKey(s, key)
    ensures Insertion.Insertable(s.lines, s.view.line, s.view.offset, [key[0]])
    ensures Handled(s, key) == Typed(s, [key[0]])
  {
    AsciiKeyReady(s, key);
    AsciiKeyText(key);
    InsertsKeyIff(s, key);
    InsertsKeyRunsNothing(s, key);
  }

  /** One plain byte typed: the line gets it at the cursor and the cursor
      moves one on. */
  lemma TypedStep(s: Snapshot, b: byte)
    requires AsciiState(s) && 0 < b < 0x80 && b != NL
    ensures Insertion.Insertable(s.lines, s.view.line, s.view.offset, [b])
    ensures TypedInto(s, Typed(s, [b]), [b]) && AsciiState(Typed(s, [b])) && Typed(s, [b]).mode == s.mode
  {
    var k, o := s.view.line, s.view.offset;
    CharactersAscii(s.lines[k].c);
    Insertion.InsertWithinLine(s.lines, k, o, [b]);
    Insertion.SegmentsWithoutNewline([b]);
    TypedAscii(s, b);
  }

  /** The key bindings, as the table gives them, agree with the edit loop:
      in Normal mode no keystroke changes the lines. */
  lemma NormalModeKeepsLines(s: Snapshot, key: seq<byte>)
    requires KeyReady(s, key) && s.mode == Normal
    ensures Handled(s, key).lines == s.lines
  {
    InsertsKeyIff(s, key);
    HandledKeepsLines(s, key);
  }

  /** The editor after internal_setup is in an ASCII state. */
  lemma InitialAscii()
    ensures AsciiState(Initial)
  {
    assert Buffers.VisualLengths(Initial.lines) == [0];
  }

  // ---------------------------------------------------------------------
  // The editor on the heap

  /** The globals of src/snack.h:84, 91-93 that the core uses; the windows,
      the title and the terminal size belong to painting. */
  class Editor {
    const c: array<byte>
    var currentBuffer: Buffers.Buffer
    var currentMode: Mode
    var currentStatus: Status

    /** c is the 7-byte input buffer, whose last byte stays NUL, and the
        current buffer is valid. */
    ghost predicate Valid()
      reads this`currentBuffer, c, currentBuffer, currentBuffer.lines, currentBuffer.cursor
    {
      c.Length == 7 && c[6] == 0 && currentBuffer.Valid() && Fits(currentBuffer.Values(), currentBuffer.View())
    }

    /** The editor's state as a value. */
    ghost function Snap(): Snapshot
      reads this, currentBuffer, currentBuffer.lines, currentBuffer.cursor
    {
      Snapshot(currentMode, currentStatus, currentBuffer.Values(), currentBuffer.View())
    }

    /** A valid buffer makes the editor coherent. */
    lemma SnapCoherent()
      requires currentBuffer.Valid()
      ensures Coherent(Snap())
    {
      currentBuffer.ViewOfValues();
    }

    /** internal_setup without the terminal (src/snack.c:327-345); c is
        zeroed like the static array it models. */
    constructor ()
      ensures Valid() && fresh(currentBuffer) && c[..] == [0, 0, 0, 0, 0, 0, 0]
      ensures Snap() == Initial
    {
      c := new byte[7](_ => 0);
      currentBuffer := new Buffers.Buffer();
      currentMode := Normal;
      currentStatus := StatusRunning;
      new;
      assert c[..] == [0, 0, 0, 0, 0, 0, 0];
      SnapCoherent();
    }

    /** action_quit (src/snack.c:433-436): clear Status_running. */
    method ActionQuit() returns (b: bool)
      requires Valid()
      modifies this`currentStatus
      ensures Valid() && b && Snap() == Performed(old(Snap()), Quit)
    {
      ghost var s := Snap();
      currentStatus := Stopped(currentStatus);
      assert currentBuffer.Values() == s.lines;
      assert currentBuffer.View() == s.view;
      assert Snap() == s.(status := Stopped(s.status));
      b := true;
    }

    /** action_mode_insert (src/snack.c:438-441). */
    method ActionModeInsert() returns (b: bool)
      requires Valid()
      modifies this`currentMode
      ensures Valid() && !b && Snap() == Performed(old(Snap()), ModeInsert)
    {
      currentMode := Insert;
      b := false;
    }

    /** action_mode_normal (src/snack.c:443-446). */
    method ActionModeNormal() returns (b: bool)
      requires Valid()
      modifies this`currentMode
      ensures Valid() && !b && Snap() == Performed(old(Snap()), ModeNormal)
    {
      currentMode := Normal;
      b := false;
    }

    /** The cursor actions that move across lines
        (src/snack.c:448-482, 503-529): each moves the cursor of the
        current buffer and returns true. */
    method ActionMoveLine(a: Action) returns (b: bool)
      requires Valid() && (a.MoveNextLine? || a.MovePrevLine? || a.MoveBof? || a.MoveEof?)
      modifies currentBuffer`offsetPrev, currentBuffer`cursorIndex, currentBuffer.cursor
      ensures Valid() && b && Snap() == Performed(old(Snap()), a)
    {
      ghost var s := Snap();
      match a {
        case MoveNextLine => currentBuffer.MoveNextLine();
        case MovePrevLine => currentBuffer.MovePrevLine();
        case MoveBof => currentBuffer.MoveBof();
        case MoveEof => currentBuffer.MoveEof();
      }
      assert currentBuffer.View() == Moved(a, s.view);
      b := true;
    }

    /** The cursor actions that stay on the cursor's line
        (src/snack.c:484-501, 531-539): each moves the cursor of the current
        buffer and returns true. */
    method ActionMoveChar(a: Action) returns (b: bool)
      requires Valid() && (a.MovePrevChar? || a.MoveNextChar? || a.MoveBol? || a.MoveEol?)
      modifies currentBuffer`offsetPrev, currentBuffer.cursor
      ensures Valid() && b && Snap() == Performed(old(Snap()), a)
    {
      ghost var s := Snap();
      match a {
        case MovePrevChar => currentBuffer.MovePrevChar();
        case MoveNextChar => currentBuffer.MoveNextChar();
        case MoveBol => currentBuffer.MoveBol();
        case MoveEol => currentBuffer.MoveEol();
      }
      assert currentBuffer.View() == Moved(a, s.view);
      b := true;
    }

    /** `cursor = internal_insert(cursor, t, size)` followed by
        `current_status |= Status_dirty` (src/snack.c:84-86, 544-546). */
    method TypeText(t: seq<byte>, size: nat)
      requires Valid() && size < |t| && t[size] == 0
      requires Insertion.Insertable(Snap().lines, Snap().view.line, Snap().view.offset, t[..size])
      modifies this`currentStatus, currentBuffer, currentBuffer.lines
      ensures Valid() && Snap() == Typed(old(Snap()), t[..size])
      ensures fresh(currentBuffer.cursor)
      ensures forall m :: m in currentBuffer.lines ==> m in old(currentBuffer.lines) || fresh(m)
    {
      ghost var s := Snap();
      TypedCoherent(s, t[..size]);
      // The status update and the insertion touch disjoint state, so
      // their order does not matter.
      currentStatus := Dirtied(currentStatus);
      currentBuffer.InsertAtCursor(t, size);
    }

    /** action_insert_line (src/snack.c:541-554); clearing the screen
        below the cursor is painting and is left out. */
    method ActionInsertLine() returns (b: bool)
      requires Valid() && CanInsertLine(Snap())
      modifies this`currentStatus, currentBuffer, currentBuffer.cursor, currentBuffer.lines
      ensures Valid() && b && Snap() == LineInserted(old(Snap()))
    {
      ghost var s := Snap();
      ghost var s1 := s.(view := Motion.Eol(s.view));
      currentBuffer.MoveEol();
      assert Snap() == s1;
      Insertion.InsertNewlineAtCount(s.lines, s.view.line);
      var t: seq<byte> := [NL, 0];
      assert t[..1] == [NL];
      TypeText(t, 1);
      currentBuffer.MoveBol();
      b := true;
    }

    /** The call `key_maps[i].action(current_buffer, &s)`. */
    method RunAction(a: Action) returns (b: bool)
      requires Valid() && a != InsertLine
      modifies this`currentMode, this`currentStatus, currentBuffer`offsetPrev, currentBuffer`cursorIndex, currentBuffer.cursor
      ensures Valid() && b == Returns(a) && Snap() == Performed(old(Snap()), a)
    {
      if a == Quit {
        b := ActionQuit();
      } else if a == ModeInsert {
        b := ActionModeInsert();
      } else if a == ModeNormal {
        b := ActionModeNormal();
      } else if a.MoveNextLine? || a.MovePrevLine? || a.MoveBof? || a.MoveEof? {
        b := ActionMoveLine(a);
      } else {
        b := ActionMoveChar(a);
      }
    }

    /** internal_command (src/snack.c:44-61): run the action of the first
        entry of key_maps for the current mode whose operator begins with
        the keystroke in c; true when there is none. */
    method Command() returns (b: bool)
      requires Valid()
      modifies this`currentMode, this`currentStatus, currentBuffer`offsetPrev, currentBuffer`cursorIndex, currentBuffer.cursor
      ensures Valid()
      ensures b == CommandResult(old(currentMode), c[..])
      ensures Snap() == Commanded(old(Snap()), c[..])
    {
      var key := c[..];
      var cLength := Strlen(key);
      LookupIsBound(currentMode, key);
      var i := 0;
      while i < |KeyMaps|
        invariant 0 <= i <= |KeyMaps|
        invariant FirstMatch(KeyMaps, currentMode, key, 0) == FirstMatch(KeyMaps, currentMode, key, i)
      {
        var e := KeyMaps[i];
        if e.mode == currentMode && StrncmpEqual(key, e.operator, cLength) {
          b := RunAction(e.action);
          return;
        }
        i := i + 1;
      }
      b := true;
    }

    /** One pass of internal_edit once a character is in c
        (src/snack.c:80-87). */
    method HandleKey()
      requires Valid() && KeyReady(Snap(), c[..])
      modifies this`currentMode, this`currentStatus, currentBuffer, currentBuffer.lines, currentBuffer.cursor
      ensures Valid() && Snap() == Handled(old(Snap()), c[..])
      ensures currentBuffer.cursor == old(currentBuffer.cursor) || fresh(currentBuffer.cursor)
      ensures forall i :: 0 <= i < |currentBuffer.lines| ==> currentBuffer.lines[i] in old(currentBuffer.lines) || fresh(currentBuffer.lines[i])
    {
      ghost var s := Snap();
      var b := Command();
      if b && currentMode == Insert {
        InsertsKeyRunsNothing(s, c[..]);
        TypeText(c[..], Strlen(c[..]));
      }
    }

    /** internal_edit (src/snack.c:63-88) over the reads input: read a
        character into c, skip a read that comes back ERR, and handle every
        other keystroke, until Status_running is cleared or the reads run
        out. */
    method Edit(input: seq<int>)
      requires Valid() && Feasible(Snap(), input)
      modifies this`currentMode, this`currentStatus, c, currentBuffer, currentBuffer.lines, currentBuffer.cursor
      ensures Valid() && Snap() == Run(old(Snap()), input)
    {
      var rest := input;
      while Running(currentStatus) && |rest| > 0
        invariant Valid() && Feasible(Snap(), rest)
        invariant Run(Snap(), rest) == Run(old(Snap()), input)
        invariant currentBuffer.cursor == old(currentBuffer.cursor) || fresh(currentBuffer.cursor)
        invariant forall i :: 0 <= i < |currentBuffer.lines| ==> currentBuffer.lines[i] in old(currentBuffer.lines) || fresh(currentBuffer.lines[i])
        decreases |rest|
      {
        rest := EditStep(rest);
      }
    }

    /** One pass of internal_edit (src/snack.c:67-87) over the reads input:
        a read that comes back ERR is skipped, and otherwise the keystroke
        read into c is handled. Returns the reads left. */
    method EditStep(input: seq<int>) returns (rest: seq<int>)
      requires Valid() && Feasible(Snap(), input) && Running(Snap().status) && |input| > 0
      modifies this`currentMode, this`currentStatus, c, currentBuffer, currentBuffer.lines, currentBuffer.cursor
      ensures Valid() && Feasible(Snap(), rest) && |rest| < |input|
      ensures Run(Snap(), rest) == Run(old(Snap()), input)
      ensures currentBuffer.cursor == old(currentBuffer.cursor) || fresh(currentBuffer.cursor)
      ensures forall i :: 0 <= i < |currentBuffer.lines| ==> currentBuffer.lines[i] in old(currentBuffer.lines) || fresh(currentBuffer.lines[i])
    {
      ghost var s := Snap();
      RunPass(s, input);
      var w;
      w, rest := Wgetch(c, input);
      assert Snap() == s;
      if w == ERR {
        return;
      }
      assert c[..] == Keystroke(input) && rest == Drop(input, Consumed(input));
      HandleKey();
    }

  }
}
