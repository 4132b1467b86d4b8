/** The editor's line store on the heap (src/snack.h:47-74): Line records in
    a doubly linked list, the cursor Position, and the Buffer that owns
    them, with internal_insert and the cursor actions of src/snack.c as
    methods proved against the value-level models Insertion.Insert and the
    Motion functions. */
module Buffers {
  import opened Utf8
  import opened Snack
  import Insertion
  import Motion

  /** Line (src/snack.h:47-56). The content c holds the first `length`
      bytes of the line's storage; the storage past them is NUL. */
  class Line {
    var c: seq<byte>
    var buckets: nat
    var length: int
    var visualLength: int
    var dirty: bool
    var prev: Line?
    var next: Line?

    /** The record without its links. */
    function Value(): LineValue
      reads this`c, this`buckets, this`length, this`visualLength, this`dirty
    {
      LineValue(c, buckets, length, visualLength, dirty)
    }

    /** A calloc'd line given one bucket of storage, unlinked
        (src/snack.c:158-163, 328-334). */
    constructor (dirty: bool)
      ensures Value() == LineValue([], 1, 0, 0, dirty) && prev == null && next == null
    {
      c := [];
      buckets := 1;
      length := 0;
      visualLength := 0;
      this.dirty := dirty;
      prev := null;
      next := null;
    }

    /** Write one segment at byte pOffset (src/snack.c:131-155). */
    method WriteSegment(pOffset: int, seg: seq<byte>) returns (tail: Option<seq<byte>>)
      requires Consistent(Value()) && 0 <= pOffset <= length
      modifies this`c, this`buckets, this`length, this`visualLength, this`dirty
      ensures Value() == Insertion.WriteSegment(old(Value()), pOffset, seg).line
      ensures tail == Insertion.WriteSegment(old(Value()), pOffset, seg).tail
    {
      ghost var w := Insertion.WriteSegment(Value(), pOffset, seg);
      var need := Buckets(length + |seg|);
      if buckets < need {
        buckets := need;
      }
      tail := None;
      if pOffset != visualLength {
        var appendLength := length - pOffset;
        tail := Some(c[pOffset..]);
        c := c[..pOffset];
        length := length - appendLength;
      }
      c := Insertion.Overwrite(c, pOffset, seg, length + |seg|);
      length := length + |seg|;
      assert c == w.line.c;
      visualLength := CountCharacters(c);
      dirty := true;
      assert buckets == w.line.buckets && length == w.line.length;
    }

    /** Append the detached rest at byte pOffset (src/snack.c:180-195). */
    method AppendTail(pOffset: int, tail: seq<byte>)
      requires Consistent(Value()) && 0 <= pOffset
      modifies this`c, this`buckets, this`length, this`visualLength, this`dirty
      ensures Value() == Insertion.AppendTail(old(Value()), pOffset, tail)
    {
      ghost var r := Insertion.AppendTail(Value(), pOffset, tail);
      var need := Buckets(length + |tail|);
      if need < buckets {
        buckets := need;
        c := Insertion.ZeroRange(c, pOffset, |tail| + 1);
      }
      c := Insertion.Overwrite(c, pOffset, tail, length + |tail|);
      length := length + |tail|;
      assert c == r.c;
      visualLength := CountCharacters(c);
      dirty := true;
      assert buckets == r.buckets && length == r.length;
    }
    /** Link the unlinked line n in right after this one
        (src/snack.c:164-167). */
    method LinkAfter(n: Line)
      requires n != this && n != next && this != next
      modifies this`next, n`next, n`prev, {next}`prev
      ensures next == n && n.prev == this && n.next == old(next)
      ensures old(next) != null ==> old(next).prev == n
    {
      n.prev := this;
      n.next := next;
      next := n;
      if n.next != null {
        n.next.prev := n;
      }
    }
  }

  /** Position (src/snack.h:58-61): an offset in a line. */
  class Position {
    var offset: int
    var line: Line

    constructor (line: Line, offset: int)
      ensures this.line == line && this.offset == offset
    {
      this.line := line;
      this.offset := offset;
    }
  }

  /** The visual lengths of a sequence of lines. */
  function VisualLengths(vs: seq<LineValue>): (r: seq<int>)
    ensures |r| == |vs| && forall i :: 0 <= i < |vs| ==> r[i] == vs[i].visualLength
  {
    seq(|vs|, i requires 0 <= i < |vs| => vs[i].visualLength)
  }

  /** The visual lengths of the lines ls, in order. */
  ghost function VisualLengthsOf(ls: seq<Line>): seq<int>
    reads ls
  {
    seq(|ls|, i requires 0 <= i < |ls| reads ls => ls[i].visualLength)
  }

  /** The visual lengths read off the lines are those of their records. */
  lemma VisualLengthsOfValues(ls: seq<Line>)
    ensures VisualLengthsOf(ls) == VisualLengths(ValuesOf(ls))
  {
  }

  /** Where last_line is after an insertion at line k that added n lines:
      internal_insert never updates it, so it is the same line, n further
      down when it lay below line k. */
  function LastAfter(last: nat, k: nat, n: nat): nat
  {
    if last > k then last + n else last
  }

  /** The records of the lines ls, in order. */
  ghost function ValuesOf(ls: seq<Line>): (vs: seq<LineValue>)
    reads ls
    ensures |vs| == |ls|
  {
    seq(|ls|, i requires 0 <= i < |ls| reads ls => ls[i].Value())
  }

  /** Line i of ls is linked to its neighbours in ls, or to null at the
      ends. */
  ghost predicate LinkedAt(ls: seq<Line>, i: int)
    requires 0 <= i < |ls|
    reads ls`next, ls`prev
  {
    && ls[i].next == (if i + 1 < |ls| then ls[i + 1] else null)
    && ls[i].prev == (if i > 0 then ls[i - 1] else null)
  }

  /** The next and prev links of ls go along ls, ending in null. */
  ghost predicate Linked(ls: seq<Line>)
    reads ls`next, ls`prev
  {
    forall i :: 0 <= i < |ls| ==> LinkedAt(ls, i)
  }

  /** Lines i and j of ls are different objects. */
  ghost predicate Apart(ls: seq<Line>, i: int, j: int)
    requires 0 <= i < |ls| && 0 <= j < |ls|
  {
    ls[i] != ls[j]
  }

  /** No line occurs twice. */
  ghost predicate Distinct(ls: seq<Line>)
  {
    forall i, j :: 0 <= i < |ls| && 0 <= j < |ls| && i != j ==> Apart(ls, i, j)
  }

  /** The cached lengths of line i agree with its content. */
  ghost predicate ConsistentAt(ls: seq<Line>, i: int)
    requires 0 <= i < |ls|
    reads ls`c, ls`buckets, ls`length, ls`visualLength, ls`dirty
  {
    Consistent(ls[i].Value())
  }

  /** Line n spliced into ls after line cur. */
  function Splice(ls: seq<Line>, cur: nat, n: Line): (r: seq<Line>)
    requires cur < |ls|
    ensures |r| == |ls| + 1
    ensures forall i {:trigger r[i]} :: 0 <= i < |r| ==> r[i] == if i <= cur then ls[i] else if i == cur + 1 then n else ls[i - 1]
  {
    ls[..cur + 1] + [n] + ls[cur + 1..]
  }

  /** The lines of ls0 with mid put in after line k. */
  function Widen(ls0: seq<Line>, k: nat, mid: seq<Line>): (r: seq<Line>)
    requires k < |ls0|
    ensures |r| == |ls0| + |mid|
    ensures r[..k + 1] == ls0[..k + 1] && r[k + |mid| + 1..] == ls0[k + 1..]
    ensures |mid| == 0 ==> r[k] == ls0[k]
    ensures k + |mid| + 1 < |r| ==> r[k + |mid| + 1] == ls0[k + 1]
  {
    ls0[..k + 1] + mid + ls0[k + 1..]
  }

  /** Splicing a line in after the last line of mid widens mid by it. */
  lemma SpliceWiden(ls0: seq<Line>, k: nat, mid: seq<Line>, n: Line)
    requires k < |ls0|
    ensures Splice(Widen(ls0, k, mid), k + |mid|, n) == Widen(ls0, k, mid + [n])
  {
    assert Widen(ls0, k, mid)[..k + |mid| + 1] == ls0[..k + 1] + mid;
  }

  /** The records of a splice are the records spliced. */
  lemma SpliceValues(ls: seq<Line>, cur: nat, n: Line)
    requires cur < |ls|
    ensures ValuesOf(Splice(ls, cur, n)) == ValuesOf(ls)[..cur + 1] + [n.Value()] + ValuesOf(ls)[cur + 1..]
  {
  }

  /** A splice of consistent lines is consistent. */
  lemma SpliceConsistent(ls: seq<Line>, cur: nat, n: Line)
    requires cur < |ls| && Consistent(n.Value())
    requires AllConsistent(ls)
    ensures AllConsistent(Splice(ls, cur, n))
  {
    var r := Splice(ls, cur, n);
    forall i | 0 <= i < |r| ensures ConsistentAt(r, i) {
      if i != cur + 1 {
        assert ConsistentAt(ls, if i <= cur then i else i - 1);
      }
    }
  }

  /** Splicing a line that is not in ls into it after line cur keeps every
      line distinct. */
  lemma SpliceDistinct(ls: seq<Line>, cur: nat, n: Line)
    requires cur < |ls| && Distinct(ls) && n !in ls
    ensures Distinct(Splice(ls, cur, n))
  {
    var r := Splice(ls, cur, n);
    forall i, j | 0 <= i < |r| && 0 <= j < |r| && i != j ensures Apart(r, i, j) {
      if i != cur + 1 && j != cur + 1 {
        assert Apart(ls, if i <= cur then i else i - 1, if j <= cur then j else j - 1);
      }
    }
  }

  /** Every line's cached lengths agree with its content. */
  ghost predicate AllConsistent(ls: seq<Line>)
    reads ls`c, ls`buckets, ls`length, ls`visualLength, ls`dirty
  {
    forall i :: 0 <= i < |ls| ==> ConsistentAt(ls, i)
  }

  /** A consistent line that is not in ls, spliced into it, keeps the lines
      distinct and consistent, and puts its record among theirs. */
  lemma SpliceKeeps(ls: seq<Line>, cur: nat, n: Line)
    requires cur < |ls| && Distinct(ls) && n !in ls && AllConsistent(ls) && Consistent(n.Value())
    ensures Distinct(Splice(ls, cur, n)) && AllConsistent(Splice(ls, cur, n))
    ensures ValuesOf(Splice(ls, cur, n)) == ValuesOf(ls)[..cur + 1] + [n.Value()] + ValuesOf(ls)[cur + 1..]
  {
    SpliceDistinct(ls, cur, n);
    SpliceValues(ls, cur, n);
    SpliceConsistent(ls, cur, n);
  }

  /** Linking n in after line cur of ls (src/snack.c:164-167), when every
      other line of ls is still linked along ls, links the splice. */
  lemma SpliceLinked(ls: seq<Line>, cur: nat, n: Line)
    requires cur < |ls|
    requires forall i :: 0 <= i < |ls| && i != cur && i != cur + 1 ==> LinkedAt(ls, i)
    requires ls[cur].next == n && ls[cur].prev == (if cur > 0 then ls[cur - 1] else null)
    requires n.prev == ls[cur] && n.next == (if cur + 1 < |ls| then ls[cur + 1] else null)
    requires cur + 1 < |ls| ==> ls[cur + 1].prev == n && ls[cur + 1].next == (if cur + 2 < |ls| then ls[cur + 2] else null)
    ensures Linked(Splice(ls, cur, n))
  {
    var r := Splice(ls, cur, n);
    forall i | 0 <= i < |r| ensures LinkedAt(r, i) {
      if i < cur {
        assert LinkedAt(ls, i);
      } else if i > cur + 2 {
        assert LinkedAt(ls, i - 1);
      }
    }
  }

  /** Link the unlinked line n in after l, line cur of a linked list ls of
      distinct lines, that n is not in: the links then go along the
      splice. */
  method LinkIn(ghost ls: seq<Line>, ghost cur: nat, l: Line, n: Line)
    requires cur < |ls| && l == ls[cur] && Linked(ls) && Distinct(ls) && n !in ls
    modifies l`next, n`next, n`prev, {l.next}`prev
    ensures Linked(Splice(ls, cur, n))
    ensures ValuesOf(ls) == old(ValuesOf(ls)) && n.Value() == old(n.Value())
    ensures AllConsistent(ls) == old(AllConsistent(ls))
  {
    assert LinkedAt(ls, cur);
    var after := l.next;
    assert after != null ==> LinkedAt(ls, cur + 1) && Apart(ls, cur + 1, cur);
    l.LinkAfter(n);
    forall i | 0 <= i < |ls| && i != cur && i != cur + 1 ensures LinkedAt(ls, i) {
      assert old(LinkedAt(ls, i)) && Apart(ls, i, cur) && (after != null ==> Apart(ls, i, cur + 1));
    }
    SpliceLinked(ls, cur, n);
  }

  /** The lines form a well linked list, each line once, and every line's
      cached lengths agree with its content. */
  ghost predicate ListValid(ls: seq<Line>)
    reads ls`next, ls`prev, ls`c, ls`buckets, ls`length, ls`visualLength, ls`dirty
  {
    0 < |ls| && Linked(ls) && Distinct(ls) && AllConsistent(ls)
  }

  /** A calloc'd line with one bucket, not dirty, linked in after l, line
      cur of the list ls (src/snack.c:157-167). */
  method NewLineAfter(ghost ls: seq<Line>, ghost cur: nat, l: Line) returns (n: Line)
    requires cur < |ls| && l == ls[cur] && ListValid(ls)
    modifies l`next, {l.next}`prev
    ensures fresh(n) && ListValid(Splice(ls, cur, n)) && n.Value() == EmptyLine
    ensures ValuesOf(Splice(ls, cur, n)) == old(ValuesOf(ls))[..cur + 1] + [EmptyLine] + old(ValuesOf(ls))[cur + 1..]
  {
    n := new Line(false);
    LinkIn(ls, cur, l, n);
    EmptyLineConsistent();
    SpliceKeeps(ls, cur, n);
  }

  /** Buffer (src/snack.h:68-74), without the file name. `lines` is the
      list from first_line along the next links; cursorIndex and lastIndex
      say where the cursor's line and last_line are in it. */
  class Buffer {
    var cursor: Position
    var offsetPrev: int
    var firstLine: Line
    var lastLine: Line
    ghost var lines: seq<Line>
    ghost var cursorIndex: nat
    ghost var lastIndex: nat

    /** The list starts at first_line, and the cursor and last_line are on
        it. */
    ghost predicate Valid()
      reads this`lines, this`firstLine, this`lastLine, this`lastIndex, this`cursorIndex, this`cursor
      reads lines`next, lines`prev, lines`c, lines`buckets, lines`length, lines`visualLength, lines`dirty, cursor`line
    {
      && ListValid(lines) && firstLine == lines[0]
      && lastIndex < |lines| && lastLine == lines[lastIndex]
      && cursorIndex < |lines| && cursor.line == lines[cursorIndex]
    }

    /** The line records in list order. */
    ghost function Values(): seq<LineValue>
      reads this`lines, lines
    {
      ValuesOf(lines)
    }

    /** What the cursor actions read and write. */
    ghost function View(): Motion.View
      reads this, lines, cursor
    {
      Motion.View(VisualLengthsOf(lines), lastIndex, cursorIndex, cursor.offset, offsetPrev)
    }

    /** The buffer internal_setup creates (src/snack.c:327-343): one dirty
        empty line, which is first and last line, and the cursor at its
        start. */
    constructor ()
      ensures Valid() && fresh(cursor) && fresh(lines[0])
      ensures Values() == [LineValue([], 1, 0, 0, true)]
      ensures View() == Motion.View([0], 0, 0, 0, 0)
    {
      var l := new Line(true);
      cursor := new Position(l, 0);
      offsetPrev := 0;
      firstLine := l;
      lastLine := l;
      lines := [l];
      cursorIndex := 0;
      lastIndex := 0;
    }

    /** Write one segment into the line `l`, the cur-th of the list, at
        byte pOffset (src/snack.c:131-155); no other line changes. */
    method WriteLine(ghost cur: nat, l: Line, pOffset: int, seg: seq<byte>) returns (tail: Option<seq<byte>>)
      requires Valid() && cur < |lines| && l == lines[cur] && Consistent(l.Value()) && 0 <= pOffset <= l.length
      modifies l`c, l`buckets, l`length, l`visualLength, l`dirty
      ensures Valid()
      ensures var w := Insertion.WriteSegment(old(Values())[cur], pOffset, seg);
        Values() == old(Values())[cur := w.line] && tail == w.tail
    {
      ghost var vs := Values();
      tail := l.WriteSegment(pOffset, seg);
      forall i | 0 <= i < |lines| && i != cur
        ensures lines[i].Value() == vs[i] && ConsistentAt(lines, i)
      {
        assert Apart(lines, i, cur);
        assert old(ConsistentAt(lines, i));
      }
      assert Values() == vs[cur := l.Value()];
    }

    /** Append the detached rest to the line `l`, the cur-th of the list,
        at byte pOffset (src/snack.c:180-195); no other line changes. */
    method AppendLine(ghost cur: nat, l: Line, pOffset: int, tail: seq<byte>)
      requires Valid() && cur < |lines| && l == lines[cur] && Consistent(l.Value()) && 0 <= pOffset
      modifies l`c, l`buckets, l`length, l`visualLength, l`dirty
      ensures Valid()
      ensures Values() == old(Values())[cur := Insertion.AppendTail(old(Values())[cur], pOffset, tail)]
    {
      ghost var vs := Values();
      l.AppendTail(pOffset, tail);
      forall i | 0 <= i < |lines| && i != cur
        ensures lines[i].Value() == vs[i] && ConsistentAt(lines, i)
      {
        assert Apart(lines, i, cur);
        assert old(ConsistentAt(lines, i));
      }
      assert Values() == vs[cur := l.Value()];
    }

    /** The newline case of internal_insert (src/snack.c:157-167): a
        calloc'd line with one bucket, not dirty, is linked in right after
        `l`, the cur-th of the list. first_line and last_line stay the same
        objects, so their indices move along when they lie further down. */
    method SplitAfter(ghost cur: nat, l: Line) returns (n: Line)
      requires Valid() && cur < |lines| && l == lines[cur]
      modifies this`lines, this`cursorIndex, this`lastIndex, l`next, {l.next}`prev
      ensures Valid() && fresh(n) && n.Value() == EmptyLine
      ensures lines == Splice(old(lines), cur, n)
      ensures Values() == old(Values())[..cur + 1] + [EmptyLine] + old(Values())[cur + 1..]
      ensures cursorIndex == if old(cursorIndex) > cur then old(cursorIndex) + 1 else old(cursorIndex)
      ensures lastIndex == if old(lastIndex) > cur then old(lastIndex) + 1 else old(lastIndex)
    {
      n := NewLineAfter(lines, cur, l);
      Reindex(cur, n);
    }

    /** Make the ghost list the splice of n after line cur, moving the
        indices of the cursor's line and last_line along. */
    method Reindex(ghost cur: nat, ghost n: Line)
      requires cur < |lines| && ListValid(Splice(lines, cur, n))
      requires firstLine == lines[0] && lastIndex < |lines| && lastLine == lines[lastIndex]
      requires cursorIndex < |lines| && cursor.line == lines[cursorIndex]
      modifies this`lines, this`cursorIndex, this`lastIndex
      ensures Valid() && lines == Splice(old(lines), cur, n)
      ensures cursorIndex == if old(cursorIndex) > cur then old(cursorIndex) + 1 else old(cursorIndex)
      ensures lastIndex == if old(lastIndex) > cur then old(lastIndex) + 1 else old(lastIndex)
    {
      lines, cursorIndex, lastIndex := Splice(lines, cur, n),
        if cursorIndex > cur then cursorIndex + 1 else cursorIndex,
        if lastIndex > cur then lastIndex + 1 else lastIndex;
    }

    /** The loop state of internal_insert over this buffer. */
    ghost function InsertState(cur: nat, pOffset: int, tail: Option<seq<byte>>): Insertion.State
      reads this`lines, lines
    {
      Insertion.State(Values(), cur, pOffset, tail)
    }

    /** One pass of the segment loop at a newline or at the terminating
        NUL (src/snack.c:129-176): write the segment into `l`, the cur-th
        line; at a newline link a fresh line in after it and go on there;
        take the visual length of the line gone on with as the next
        insertion offset. st is the loop state before the pass. */
    method WriteStep(ghost cur: nat, l: Line, pOffset: int, tail: Option<seq<byte>>, ghost st: Insertion.State,
                     seg: seq<byte>, newline: bool)
      returns (next: Line, nextOffset: int, nextTail: Option<seq<byte>>, ghost nextCur: nat)
      requires Valid() && cur < |lines| && l == lines[cur]
      requires InsertState(cur, pOffset, tail) == st && Insertion.Ready(st)
      modifies this`lines, this`cursorIndex, this`lastIndex, l`c, l`buckets, l`length, l`visualLength, l`dirty, l`next, {l.next}`prev
      ensures Valid() && nextCur < |lines| && next == lines[nextCur]
      ensures var w := Insertion.Segment(st, seg);
        InsertState(nextCur, nextOffset, nextTail) == if newline then Insertion.Advance(w) else Insertion.Reposition(w)
      ensures newline ==> fresh(next) && lines == Splice(old(lines), cur, next) && nextCur == cur + 1
      ensures !newline ==> next == l && lines == old(lines) && nextCur == cur
    {
      ghost var w := Insertion.Segment(st, seg);
      assert Values()[cur] == l.Value();
      var t := WriteLine(cur, l, pOffset, seg);
      nextTail := if t.Some? then t else tail;
      assert InsertState(cur, pOffset, nextTail) == w;
      next, nextCur := l, cur;
      if newline {
        next := SplitAfter(cur, l);
        nextCur := cur + 1;
        Insertion.AdvanceIs(w);
      }
      nextOffset := next.visualLength;
      assert Values()[nextCur] == next.Value();
    }

    /** The heap side of the loop invariant of internal_insert: the lines
        are those of ls0 with the lines in mid linked in after line k, `l`
        is the last of them, the cur-th, and the loop state over this
        buffer is st. */
    ghost predicate Threaded(ls0: seq<Line>, k: nat, mid: seq<Line>, cur: nat, l: Line, pOffset: int,
                             tail: Option<seq<byte>>, st: Insertion.State)
      reads this, lines, cursor
    {
      && Valid() && k < |ls0| && lines == Widen(ls0, k, mid) && cur == k + |mid| && l == lines[cur]
      && InsertState(cur, pOffset, tail) == st
    }

    /** The line being written and the line after it are lines of ls0
        unless they were linked in since. */
    lemma ThreadedFrame(ls0: seq<Line>, k: nat, mid: seq<Line>, cur: nat, l: Line, pOffset: int,
                        tail: Option<seq<byte>>, st: Insertion.State)
      requires Threaded(ls0, k, mid, cur, l, pOffset, tail, st)
      ensures l.next == null || l.next in ls0
      ensures |mid| == 0 ==> l in ls0
    {
      assert LinkedAt(lines, cur);
      if cur + 1 < |lines| {
        assert lines[cur + 1] == ls0[k + 1];
      }
      if |mid| == 0 {
        assert l == ls0[k];
      }
    }

    /** The loop body of internal_insert at a newline or at the terminating
        NUL (src/snack.c:130-176): write the segment seg, and at a newline
        link in a fresh line and go on there. */
    method SegmentEnd(ghost ls0: seq<Line>, ghost k: nat, ghost mid: seq<Line>, ghost cur: nat, l: Line, pOffset: int,
                      tail: Option<seq<byte>>, ghost st: Insertion.State, seg: seq<byte>, newline: bool)
      returns (next: Line, nextOffset: int, nextTail: Option<seq<byte>>, ghost mid2: seq<Line>, ghost nextCur: nat)
      requires Threaded(ls0, k, mid, cur, l, pOffset, tail, st) && Insertion.Ready(st)
      modifies this`lines, this`cursorIndex, this`lastIndex, l`c, l`buckets, l`length, l`visualLength, l`dirty, l`next, {l.next}`prev
      ensures var w := Insertion.Segment(st, seg);
        Threaded(ls0, k, mid2, nextCur, next, nextOffset, nextTail, if newline then Insertion.Advance(w) else Insertion.Reposition(w))
      ensures newline ==> fresh(next) && mid2 == mid + [next]
      ensures !newline ==> next == l && mid2 == mid
    {
      assert LinkedAt(lines, cur);
      next, nextOffset, nextTail, nextCur := WriteStep(cur, l, pOffset, tail, st, seg, newline);
      if newline {
        mid2 := mid + [next];
        assert lines == Widen(ls0, k, mid2) by {
          SpliceWiden(ls0, k, mid, next);
        }
      } else {
        mid2 := mid;
      }
    }

    /** The final append of internal_insert (src/snack.c:179-196): a
        detached rest goes to the end of `l`, the cur-th line, at the
        insertion offset; no other line changes. */
    method AppendRest(ghost cur: nat, l: Line, pOffset: int, tail: Option<seq<byte>>, ghost st: Insertion.State)
      requires Valid() && cur < |lines| && l == lines[cur] && InsertState(cur, pOffset, tail) == st
      requires Consistent(st.lines[cur]) && (tail.Some? ==> pOffset >= 0)
      modifies l`c, l`buckets, l`length, l`visualLength, l`dirty
      ensures Valid() && Values() == Insertion.Finish(st).lines
    {
      assert Values()[cur] == l.Value();
      if tail.Some? {
        AppendLine(cur, l, pOffset, tail.value);
      }
    }

    /** The byte loop of internal_insert (src/snack.c:129-177) from line k
        at offset o: every segment of the text c up to its NUL is written,
        a fresh line is linked in at every newline, and the loop ends in
        the state R that the scan leads to. */
    method SplitLines(ghost k: nat, l0: Line, o: int, c: seq<byte>, size: nat, ghost R: Insertion.State)
      returns (l: Line, pOffset: int, tail: Option<seq<byte>>, ghost mid: seq<Line>, ghost cur: nat)
      requires Valid() && k < |lines| && l0 == lines[k]
      requires Insertion.Scanning(InsertState(k, o, None), c, size, 0, 0, R)
      modifies this`lines, this`cursorIndex, this`lastIndex, lines
      ensures Threaded(old(lines), k, mid, cur, l, pOffset, tail, R)
      ensures l in old(lines) || fresh(l)
      ensures forall m :: m in mid ==> fresh(m)
    {
      ghost var ls0 := lines;
      l, pOffset, tail := l0, o, None;
      mid, cur := [], k;
      ghost var st := InsertState(k, o, None);
      assert lines == Widen(ls0, k, mid);
      var i: nat, iPrev: nat := 0, 0;
      while i <= size
        invariant Threaded(ls0, k, mid, cur, l, pOffset, tail, st) && (|mid| == 0 || fresh(l))
        invariant forall m :: m in mid ==> fresh(m)
        invariant i <= size ==> Insertion.Scanning(st, c, size, iPrev, i, R)
        invariant i > size ==> st == R
      {
        if c[i] == NL || c[i] == 0 {
          var newline := c[i] == NL;
          ghost var w := Insertion.Segment(st, c[iPrev..i]);
          Insertion.ScanStop(st, c, size, iPrev, i, R);
          ThreadedFrame(ls0, k, mid, cur, l, pOffset, tail, st);
          ghost var mid0 := mid;
          l, pOffset, tail, mid, cur := SegmentEnd(ls0, k, mid, cur, l, pOffset, tail, st, c[iPrev..i], newline);
          if newline {
            FreshAppend(mid0, l);
          }
          st := if newline then Insertion.Advance(w) else Insertion.Reposition(w);
          iPrev := if newline then i + 1 else iPrev;
        } else {
          Insertion.ScanByte(st, c, size, iPrev, i, R);
        }
        i := i + 1;
      }
      ThreadedFrame(ls0, k, mid, cur, l, pOffset, tail, st);
    }

    /** Lines linked in since the method began stay fresh when one more
        is added. */
    static twostate lemma FreshAppend(new mid: seq<Line>, new l: Line)
      requires fresh(l) && forall m :: m in mid ==> fresh(m)
      ensures forall m :: m in mid + [l] ==> fresh(m)
    {
    }

    /** Widening a sequence of lines by fresh lines adds only fresh lines. */
    static twostate lemma FreshWiden(new ls: seq<Line>, new ls0: seq<Line>, k: nat, new mid: seq<Line>)
      requires k < |ls0| && ls == Widen(ls0, k, mid) && forall m :: m in mid ==> fresh(m)
      ensures forall m :: m in ls ==> m in ls0 || fresh(m)
    {
    }

    /** internal_insert (src/snack.c:110-202): insert the text c, size
        bytes before its terminating NUL, at p, which lies on line k. The
        text is written segment by segment, a fresh line is linked in at
        every newline, and the detached rest of the insertion line goes to
        the end of the last line written, where the returned position is.
        The lines before the insertion line and after it stay the same
        objects, in the same order, and so do first_line and last_line. */
    method Insert(p: Position, ghost k: nat, c: seq<byte>, size: nat) returns (endP: Position)
      requires Valid() && k < |lines| && p.line == lines[k]
      requires size < |c| && c[size] == 0
      requires Insertion.Insertable(Values(), k, p.offset, c[..size])
      modifies this`lines, this`cursorIndex, this`lastIndex, lines
      ensures Valid() && fresh(endP)
      ensures var r := Insertion.Insert(old(Values()), k, p.offset, c[..size]);
        Values() == r.lines && endP.line == lines[r.endLine] && endP.offset == r.endOffset
      ensures var n := Insertion.Newlines(c[..size]);
        && |lines| == |old(lines)| + n
        && lines[..k + 1] == old(lines)[..k + 1] && lines[k + n + 1..] == old(lines)[k + 1..]
      ensures forall m :: m in lines ==> m in old(lines) || fresh(m)
    {
      ghost var vs0, ls0 := Values(), lines;
      ghost var R := Insertion.Run(Insertion.State(vs0, k, p.offset, None), c[..size]);
      Insertion.ScanStart(vs0, k, p.offset, c, size);
      var l, pOffset, tail;
      ghost var mid, cur;
      l, pOffset, tail, mid, cur := SplitLines(k, p.line, p.offset, c, size, R);
      AppendRest(cur, l, pOffset, tail, R);
      endP := EndPosition(l, pOffset);
      ghost var ls1 := lines;
      FreshWiden(ls1, ls0, k, mid);
      Insertion.InsertShape(vs0, k, p.offset, c[..size]);
    }

    /** The position internal_insert returns: the last line written, at
        p_offset (src/snack.c:200-201). Allocating it changes nothing of
        the buffer. */
    method EndPosition(l: Line, pOffset: int) returns (endP: Position)
      requires Valid()
      ensures Valid() && Values() == old(Values()) && fresh(endP) && endP.line == l && endP.offset == pOffset
    {
      endP := new Position(l, pOffset);
    }

    /** What the cursor actions see agrees with the line records, and
        every record is consistent. */
    lemma ViewOfValues()
      requires Valid()
      ensures Motion.Wellformed(View()) && View().vls == VisualLengths(Values())
      ensures forall i :: 0 <= i < |lines| ==> Consistent(Values()[i])
    {
      VisualLengthsOfValues(lines);
      forall i | 0 <= i < |lines|
        ensures Consistent(Values()[i])
      {
        assert ConsistentAt(lines, i);
      }
    }

    /** `b->cursor = internal_insert(b->cursor, c, size)`
        (src/snack.c:85, 544): the cursor becomes the end position of the
        insertion. offset_prev is left alone, and so is last_line, whose
        index moves down by the lines added when it lies below the
        cursor's line. */
    method InsertAtCursor(c: seq<byte>, size: nat)
      requires Valid() && size < |c| && c[size] == 0
      requires Insertion.Insertable(Values(), cursorIndex, cursor.offset, c[..size])
      modifies this`lines, this`cursorIndex, this`lastIndex, this`cursor, lines
      ensures Valid()
      ensures var r := Insertion.Insert(old(Values()), old(cursorIndex), old(cursor.offset), c[..size]);
        && Values() == r.lines
        && View() == Motion.View(VisualLengths(r.lines), LastAfter(old(lastIndex), old(cursorIndex), Insertion.Newlines(c[..size])),
                                 r.endLine, r.endOffset, offsetPrev)
      ensures offsetPrev == old(offsetPrev) && fresh(cursor)
      ensures forall m :: m in lines ==> m in old(lines) || fresh(m)
    {
      ghost var k, ls0, last0 := cursorIndex, lines, lastIndex;
      ghost var r := Insertion.Insert(Values(), k, cursor.offset, c[..size]);
      var endP := Insert(cursor, k, c, size);
      LastMoves(ls0, k, Insertion.Newlines(c[..size]), last0);
      VisualLengthsOfValues(lines);
      PlaceCursor(endP, r.endLine);
    }

    /** The cursor becomes p, which lies on line j. */
    method PlaceCursor(p: Position, ghost j: nat)
      requires Valid() && j < |lines| && p.line == lines[j]
      modifies this`cursor, this`cursorIndex
      ensures Valid() && cursor == p && cursorIndex == j
    {
      cursor := p;
      cursorIndex := j;
    }

    /** The assignments that end internal_loadfile (src/snack.c:228-230):
        last_line becomes the line of p, the last position the loaded text
        was inserted at, and the cursor object moves to the start of
        first_line. The lines are left alone. */
    method LoadedAt(p: Position, ghost j: nat)
      requires Valid() && j < |lines| && p.line == lines[j]
      modifies this`lastLine, this`lastIndex, this`cursorIndex, cursor
      ensures Valid() && Values() == old(Values()) && cursor == old(cursor)
      ensures lastLine == old(p.line) && cursor.line == firstLine && cursor.offset == 0
      ensures View() == Motion.View(old(View()).vls, j, 0, 0, offsetPrev)
    {
      lastLine := p.line;
      lastIndex := j;
      cursor.line := firstLine;
      cursor.offset := 0;
      cursorIndex := 0;
    }

    /** last_line stays the same object while the lines around line k are
        kept: its index is LastAfter of the old one. */
    lemma LastMoves(ls0: seq<Line>, k: nat, n: nat, last0: nat)
      requires Valid() && k < |ls0| && last0 < |ls0| && ls0[last0] == lastLine
      requires |lines| == |ls0| + n && lines[..k + 1] == ls0[..k + 1] && lines[k + n + 1..] == ls0[k + 1..]
      ensures lastIndex == LastAfter(last0, k, n)
    {
      var j := LastAfter(last0, k, n);
      if last0 > k {
        assert lines[j] == lines[k + n + 1..][last0 - k - 1];
      } else {
        assert lines[j] == lines[..k + 1][last0];
      }
      assert Apart(lines, j, lastIndex) ==> false;
    }

    /** action_move_nextline (src/snack.c:448-464). */
    method MoveNextLine()
      requires Valid()
      modifies cursor, this`offsetPrev, this`cursorIndex
      ensures Valid()
      ensures View() == Motion.NextLine(old(View())) && Values() == old(Values())
    {
      var c := cursor;
      var l := c.line;
      ghost var v := View();
      assert Motion.Wellformed(v) && v.vls[v.line] == cursor.line.visualLength && v.offset == cursor.offset;
      assert LinkedAt(lines, cursorIndex);
      assert l.next != null ==> v.vls[v.line + 1] == l.next.visualLength;
      if l.next != null {
        c.line := l.next;
        cursorIndex := cursorIndex + 1;
        if l.next.visualLength < c.offset || l.next.visualLength < offsetPrev {
          c.offset := l.next.visualLength;
        } else if offsetPrev != c.offset {
          c.offset := offsetPrev;
        }
      } else {
        c.offset := l.visualLength;
        offsetPrev := c.offset;
      }
    }

    /** action_move_prevline (src/snack.c:466-482). */
    method MovePrevLine()
      requires Valid()
      modifies cursor, this`offsetPrev, this`cursorIndex
      ensures Valid()
      ensures View() == Motion.PrevLine(old(View())) && Values() == old(Values())
    {
      var c := cursor;
      var l := c.line;
      ghost var v := View();
      assert Motion.Wellformed(v) && v.vls[v.line] == cursor.line.visualLength && v.offset == cursor.offset;
      assert LinkedAt(lines, cursorIndex);
      assert l.prev != null ==> v.vls[v.line - 1] == l.prev.visualLength;
      if l.prev != null {
        c.line := l.prev;
        cursorIndex := cursorIndex - 1;
        if l.prev.visualLength < c.offset || l.prev.visualLength < offsetPrev {
          c.offset := l.prev.visualLength;
        } else if offsetPrev != c.offset {
          c.offset := offsetPrev;
        }
      } else {
        c.offset := 0;
        offsetPrev := c.offset;
      }
    }

    /** action_move_nextchar (src/snack.c:484-492). */
    method MoveNextChar()
      requires Valid()
      modifies cursor, this`offsetPrev
      ensures Valid()
      ensures View() == Motion.NextChar(old(View())) && Values() == old(Values())
    {
      var c := cursor;
      var l := c.line;
      ghost var v := View();
      assert Motion.Wellformed(v) && v.vls[v.line] == cursor.line.visualLength && v.offset == cursor.offset;
      if c.offset < l.visualLength {
        c.offset := c.offset + 1;
        offsetPrev := c.offset;
      }
    }

    /** action_move_prevchar (src/snack.c:494-501). */
    method MovePrevChar()
      requires Valid()
      modifies cursor, this`offsetPrev
      ensures Valid()
      ensures View() == Motion.PrevChar(old(View())) && Values() == old(Values())
    {
      var c := cursor;
      ghost var v := View();
      assert Motion.Wellformed(v) && v.vls[v.line] == cursor.line.visualLength && v.offset == cursor.offset;
      if c.offset > 0 {
        c.offset := c.offset - 1;
        offsetPrev := c.offset;
      }
    }

    /** action_move_bof (src/snack.c:503-515). */
    method MoveBof()
      requires Valid()
      modifies cursor, this`cursorIndex
      ensures Valid()
      ensures View() == Motion.Bof(old(View())) && Values() == old(Values())
    {
      var c := cursor;
      var l := firstLine;
      ghost var v := View();
      assert Motion.Wellformed(v) && v.vls[v.line] == cursor.line.visualLength && v.offset == cursor.offset;
      assert v.vls[0] == l.visualLength;
      c.line := l;
      cursorIndex := 0;
      if l.visualLength < c.offset || l.visualLength < offsetPrev {
        c.offset := l.visualLength;
      } else if offsetPrev != c.offset {
        c.offset := offsetPrev;
      }
    }

    /** action_move_eof (src/snack.c:517-529). */
    method MoveEof()
      requires Valid()
      modifies cursor, this`cursorIndex
      ensures Valid()
      ensures View() == Motion.Eof(old(View())) && Values() == old(Values())
    {
      var c := cursor;
      var l := lastLine;
      ghost var v := View();
      assert Motion.Wellformed(v) && v.vls[v.line] == cursor.line.visualLength && v.offset == cursor.offset;
      assert v.vls[v.last] == l.visualLength;
      c.line := l;
      cursorIndex := lastIndex;
      if l.visualLength < c.offset || l.visualLength < offsetPrev {
        c.offset := l.visualLength;
      } else if offsetPrev != c.offset {
        c.offset := offsetPrev;
      }
    }

    /** action_move_bol (src/snack.c:531-534). */
    method MoveBol()
      requires Valid()
      modifies cursor, this`offsetPrev
      ensures Valid()
      ensures View() == Motion.Bol(old(View())) && Values() == old(Values())
    {
      cursor.offset := 0;
      offsetPrev := 0;
    }

    /** action_move_eol (src/snack.c:536-539). */
    method MoveEol()
      requires Valid()
      modifies cursor, this`offsetPrev
      ensures Valid()
      ensures View() == Motion.Eol(old(View())) && Values() == old(Values())
    {
      cursor.offset := cursor.line.visualLength;
      offsetPrev := cursor.offset;
    }
  }
}
