/** internal_insert (src/snack.c) as a function on line values. The input
    text is cut at each newline into segments; each segment is written into
    the current line at the insertion offset (detaching the rest of the line
    first when the offset is not the line's visual end), a fresh line is
    spliced in after every newline, and the detached rest is re-appended to
    the last line. Offsets are character counts used as byte indices, as in
    the source, so the content equations below are stated for ASCII text. */
module Insertion {
  import opened Utf8
  import opened Snack

  predicate NulFree(t: seq<byte>)
  {
    forall i :: 0 <= i < |t| ==> t[i] != 0
  }

  /** memcpy of s to byte `at` of a line's storage (whose bytes past the
      content c are NUL), after which the first n bytes are the content. */
  function Overwrite(c: seq<byte>, at: nat, s: seq<byte>, n: nat): (r: seq<byte>)
    ensures |r| == n
  {
    seq(n, i requires 0 <= i < n => if at <= i < at + |s| then s[i - at] else At(c, i))
  }

  /** Writing at the end of the content appends. */
  lemma OverwriteAtEnd(c: seq<byte>, s: seq<byte>)
    ensures Overwrite(c, |c|, s, |c| + |s|) == c + s
  {
    var r := Overwrite(c, |c|, s, |c| + |s|);
    forall i | 0 <= i < |r| ensures r[i] == (c + s)[i] {
    }
  }

  /** memset(c + at, 0, k) on the content. */
  function ZeroRange(c: seq<byte>, at: nat, k: nat): (r: seq<byte>)
    ensures |r| == |c|
  {
    seq(|c|, i requires 0 <= i < |c| => if at <= i < at + k then 0 else c[i])
  }

  /** Clearing from the end of the content changes no content byte. */
  lemma ZeroPastEnd(c: seq<byte>, k: nat)
    ensures ZeroRange(c, |c|, k) == c
  {
  }

  /** The outcome of writing one segment: the new line and, when the rest of
      the line was detached, that rest. */
  datatype Written = Written(line: LineValue, tail: Option<seq<byte>>)

  /** One segment written into line v at offset pOffset
      (src/snack.c:131-155): grow the storage to BUCKETS(length + segment)
      when that is more than allocated; when pOffset is not the visual
      length, detach the bytes from pOffset on; copy the segment in at
      pOffset; recount the characters; mark the line dirty. */
  function WriteSegment(v: LineValue, pOffset: int, seg: seq<byte>): (w: Written)
    requires Consistent(v) && 0 <= pOffset <= v.length
    ensures Consistent(w.line) && w.line.dirty
    ensures w.line.buckets >= v.buckets && w.line.buckets >= Buckets(v.length + |seg|)
    ensures w.line.buckets == v.buckets || w.line.buckets == Buckets(v.length + |seg|)
    ensures w.line.length <= w.line.buckets * LINSIZ
    ensures w.tail.Some? <==> pOffset != v.visualLength
    ensures w.tail.Some? ==> w.tail.value == v.c[pOffset..] && w.line.c == v.c[..pOffset] + seg
    ensures w.tail.None? ==> w.line.length == v.length + |seg|
    ensures w.tail.None? && pOffset == v.length ==> w.line.c == v.c + seg
  {
    var need := Buckets(v.length + |seg|);
    var buckets := if v.buckets < need then need else v.buckets;
    var cut := pOffset != v.visualLength;
    var tail := if cut then Some(v.c[pOffset..]) else None;
    var kept := if cut then v.c[..pOffset] else v.c;
    var length := |kept| + |seg|;
    var c := Overwrite(kept, pOffset, seg, length);
    BucketsIsCeiling(v.length + |seg|);
    OverwriteAtEnd(kept, seg);
    Written(LineValue(c, buckets, length, Characters(c), true), tail)
  }

  /** The final append (src/snack.c:180-195): the detached rest is copied
      back in at pOffset. The storage is reallocated only when it needs
      FEWER buckets than allocated (then the bytes from pOffset are cleared
      first), so the bucket count is never raised here and the content can
      outgrow the storage. */
  function AppendTail(v: LineValue, pOffset: int, tail: seq<byte>): (r: LineValue)
    requires Consistent(v) && 0 <= pOffset
    ensures Consistent(r) && r.dirty
    ensures r.buckets <= v.buckets
    ensures r.buckets == Min(v.buckets, Buckets(v.length + |tail|))
    ensures r.length == v.length + |tail|
    ensures pOffset == v.length ==> r.c == v.c + tail
  {
    var need := Buckets(v.length + |tail|);
    var shrink := need < v.buckets;
    var kept := if shrink then ZeroRange(v.c, pOffset, |tail| + 1) else v.c;
    var length := v.length + |tail|;
    var c := Overwrite(kept, pOffset, tail, length);
    ZeroPastEnd(v.c, |tail| + 1);
    OverwriteAtEnd(kept, tail);
    LineValue(c, if shrink then need else v.buckets, length, Characters(c), true)
  }

  /** The loop state of internal_insert: the lines in list order, the index
      of the line `l` being written, `p_offset`, and `append_buffer`. */
  datatype State = State(lines: seq<LineValue>, cur: nat, pOffset: int, tail: Option<seq<byte>>)

  /** The current line exists, is consistent, and the offset lies in it. */
  predicate Ready(st: State)
  {
    st.cur < |st.lines| && Consistent(st.lines[st.cur]) && 0 <= st.pOffset <= st.lines[st.cur].length
  }

  /** Write one segment into the current line; a detached rest replaces
      `append_buffer`. */
  function Segment(st: State, seg: seq<byte>): (r: State)
    requires Ready(st)
    ensures r.cur == st.cur && |r.lines| == |st.lines| && Consistent(r.lines[r.cur])
  {
    var w := WriteSegment(st.lines[st.cur], st.pOffset, seg);
    st.(lines := st.lines[st.cur := w.line], tail := if w.tail.Some? then w.tail else st.tail)
  }

  /** The newline case (src/snack.c:157-171): a fresh empty line spliced in
      right after the current one becomes the current line. */
  function Split(st: State): (r: State)
    requires st.cur < |st.lines|
    ensures r.cur == st.cur + 1 && |r.lines| == |st.lines| + 1
  {
    st.(lines := st.lines[..st.cur + 1] + [EmptyLine] + st.lines[st.cur + 1..], cur := st.cur + 1)
  }

  /** `p_offset = l->visual_length` (src/snack.c:175). */
  function Reposition(st: State): State
    requires st.cur < |st.lines|
  {
    st.(pOffset := st.lines[st.cur].visualLength)
  }

  /** The index of the first newline of t, or |t| if there is none. */
  function NewlineIndex(t: seq<byte>): (j: nat)
    ensures j <= |t|
    ensures j < |t| ==> t[j] == NL
  {
    if |t| == 0 || t[0] == NL then 0 else 1 + NewlineIndex(t[1..])
  }

  /** No newline comes before the first one. */
  lemma {:induction false} BeforeNewlineIndex(t: seq<byte>)
    ensures forall i :: 0 <= i < NewlineIndex(t) ==> t[i] != NL
    decreases |t|
  {
    if |t| > 0 && t[0] != NL {
      BeforeNewlineIndex(t[1..]);
      assert forall i :: 1 <= i < NewlineIndex(t) ==> t[i] == t[1..][i - 1];
    }
  }

  /** The number of newlines in t. */
  function Newlines(t: seq<byte>): nat
    decreases |t|
  {
    var j := NewlineIndex(t);
    if j == |t| then 0 else 1 + Newlines(t[j + 1..])
  }

  /** Newlines counts the newline bytes: there are none iff no byte of t
      is a newline. */
  lemma NoNewlines(t: seq<byte>)
    ensures Newlines(t) == 0 <==> forall i :: 0 <= i < |t| ==> t[i] != NL
  {
  }

  /** The text cut at its newlines: one segment more than there are
      newlines. */
  function Segments(t: seq<byte>): (segs: seq<seq<byte>>)
    ensures |segs| == Newlines(t) + 1
    decreases |t|
  {
    var j := NewlineIndex(t);
    if j == |t| then [t] else [t[..j]] + Segments(t[j + 1..])
  }

  /** The segment loop (src/snack.c:129-177) over the segments left: write
      the first one into the current line; if another follows (a newline
      ended this one), split and go on with the rest. */
  function RunSegments(st: State, segs: seq<seq<byte>>): (r: State)
    requires Ready(st) && |segs| >= 1
    ensures r.cur < |r.lines| && Consistent(r.lines[r.cur])
    ensures r.pOffset == r.lines[r.cur].visualLength
    decreases |segs|
  {
    var written := Segment(st, segs[0]);
    if |segs| == 1 then Reposition(written)
    else RunSegments(Advance(written), segs[1..])
  }

  /** The segment loop over the text t. */
  function Run(st: State, t: seq<byte>): State
    requires Ready(st)
  {
    RunSegments(st, Segments(t))
  }

  /** After a segment ended by a newline: split, and continue at the start
      of the new line. */
  function Advance(st: State): (r: State)
    requires st.cur < |st.lines|
    ensures Ready(r)
  {
    Reposition(Split(st))
  }

  /** Advancing, in one equation. */
  lemma AdvanceIs(st: State)
    requires st.cur < |st.lines|
    ensures Advance(st) == State(st.lines[..st.cur + 1] + [EmptyLine] + st.lines[st.cur + 1..], st.cur + 1, 0, st.tail)
  {
    var r := Split(st);
    assert r.lines[r.cur] == EmptyLine;
  }

  /** Advancing keeps the lines up to the current one, puts an empty line
      after it and makes that current at offset 0, and shifts the rest by
      one. */
  lemma AdvanceFrame(st: State)
    requires st.cur < |st.lines|
    ensures var r := Advance(st);
      && r.cur == st.cur + 1
      && |r.lines| == |st.lines| + 1
      && r.lines[..st.cur + 1] == st.lines[..st.cur + 1]
      && r.lines[st.cur + 1] == EmptyLine
      && r.lines[st.cur + 2..] == st.lines[st.cur + 1..]
      && r.pOffset == 0
      && r.tail == st.tail
  {
  }

  /** What internal_insert demands: the line exists and is consistent, the
      offset lies within its bytes, the text has no NUL before its
      terminator, and, when a rest was detached, the final line's visual
      length is not ERR (the source would otherwise copy the rest to byte
      (unsigned) -1 of the line). */
  predicate Insertable(lines: seq<LineValue>, k: nat, o: int, t: seq<byte>)
  {
    && k < |lines| && Consistent(lines[k]) && 0 <= o <= lines[k].length && NulFree(t)
    && var r := Run(State(lines, k, o, None), t); r.tail.Some? ==> r.pOffset >= 0
  }

  /** The lines after the insertion and the returned end position. */
  datatype Inserted = Inserted(lines: seq<LineValue>, endLine: nat, endOffset: int)

  /** The end of internal_insert (src/snack.c:179-201): append the
      detached rest, if any, to the last line written, and return that line
      with p_offset as the end position. */
  function Finish(st: State): (r: Inserted)
    requires st.cur < |st.lines| && Consistent(st.lines[st.cur]) && (st.tail.Some? ==> st.pOffset >= 0)
    ensures r.endLine < |r.lines| && Consistent(r.lines[r.endLine])
  {
    var last := if st.tail.Some? then AppendTail(st.lines[st.cur], st.pOffset, st.tail.value) else st.lines[st.cur];
    Inserted(st.lines[st.cur := last], st.cur, st.pOffset)
  }

  /** internal_insert(p, t, |t|) on the lines of a buffer, p being
      (line k, offset o). */
  function Insert(lines: seq<LineValue>, k: nat, o: int, t: seq<byte>): (r: Inserted)
    requires Insertable(lines, k, o, t)
    ensures r.endLine < |r.lines| && Consistent(r.lines[r.endLine])
  {
    Finish(Run(State(lines, k, o, None), t))
  }

  /** The first newline is where no newline precedes. */
  lemma {:induction false} NewlineIndexIs(u: seq<byte>, j: nat)
    requires j <= |u| && (j < |u| ==> u[j] == NL) && forall h :: 0 <= h < j ==> u[h] != NL
    ensures NewlineIndex(u) == j
    decreases j
  {
    if j > 0 {
      NewlineIndexIs(u[1..], j - 1);
    }
  }

  /** Text without a newline is a single segment. */
  lemma SegmentsWithoutNewline(u: seq<byte>)
    requires forall h :: 0 <= h < |u| ==> u[h] != NL
    ensures Segments(u) == [u]
  {
    NewlineIndexIs(u, |u|);
  }

  /** The segment loop at the terminating NUL: the last segment is
      written and p_offset moves to the line's visual length. */
  lemma RunAtEnd(st: State, u: seq<byte>)
    requires Ready(st) && forall h :: 0 <= h < |u| ==> u[h] != NL
    ensures RunSegments(st, Segments(u)) == Reposition(Segment(st, u))
  {
    SegmentsWithoutNewline(u);
  }

  /** The byte loop of internal_insert (src/snack.c:129-130) at byte i of
      the NUL-terminated text c, whose segment began at byte iPrev: no
      newline since, and the segments of what is left lead from st to r. */
  predicate Scanning(st: State, c: seq<byte>, size: nat, iPrev: nat, i: nat, r: State)
  {
    && Ready(st) && iPrev <= i <= size < |c| && c[size] == 0
    && (forall h :: 0 <= h < size ==> c[h] != 0)
    && (forall h :: iPrev <= h < i ==> c[h] != NL)
    && RunSegments(st, Segments(c[iPrev..size])) == r
  }

  /** At the start of the loop the whole text is left. */
  lemma ScanStart(lines: seq<LineValue>, k: nat, o: int, c: seq<byte>, size: nat)
    requires size < |c| && c[size] == 0 && Insertable(lines, k, o, c[..size])
    ensures Scanning(State(lines, k, o, None), c, size, 0, 0, Run(State(lines, k, o, None), c[..size]))
  {
    assert c[0..size] == c[..size];
    forall h | 0 <= h < size
      ensures c[h] != 0
    {
      assert c[..size][h] == c[h];
    }
  }

  /** An ordinary byte: the loop moves on. */
  lemma ScanByte(st: State, c: seq<byte>, size: nat, iPrev: nat, i: nat, r: State)
    requires Scanning(st, c, size, iPrev, i, r) && c[i] != NL && c[i] != 0
    ensures Scanning(st, c, size, iPrev, i + 1, r)
  {
  }

  /** A newline: the segment before it is written, the line split, and the
      next segment begins after it. */
  lemma ScanNewline(st: State, c: seq<byte>, size: nat, iPrev: nat, i: nat, r: State)
    requires Scanning(st, c, size, iPrev, i, r) && c[i] == NL
    ensures Scanning(Advance(Segment(st, c[iPrev..i])), c, size, i + 1, i + 1, r)
  {
    ScanNewlineRun(st, c, size, iPrev, i, r);
  }

  /** The segments left after the newline at i lead on from the split. */
  lemma ScanNewlineRun(st: State, c: seq<byte>, size: nat, iPrev: nat, i: nat, r: State)
    requires Scanning(st, c, size, iPrev, i, r) && c[i] == NL
    ensures i < size
    ensures RunSegments(Advance(Segment(st, c[iPrev..i])), Segments(c[i + 1..size])) == r
  {
    SegmentsSplit(c, iPrev, i, size);
    RunCons(st, c[iPrev..i], Segments(c[i + 1..size]));
  }

  /** The slice c[a..b] with its first newline at i cuts into c[a..i] and
      the segments of c[i + 1..b]. */
  lemma SegmentsSplit(c: seq<byte>, a: nat, i: nat, b: nat)
    requires a <= i < b <= |c| && c[i] == NL && forall h :: a <= h < i ==> c[h] != NL
    ensures Segments(c[a..b]) == [c[a..i]] + Segments(c[i + 1..b])
  {
    var u, j := c[a..b], i - a;
    forall h | 0 <= h < j
      ensures u[h] != NL
    {
      assert u[h] == c[a + h];
    }
    NewlineIndexIs(u, j);
    assert u[..j] == c[a..i] && u[j + 1..] == c[i + 1..b];
  }

  /** The segment loop over a segment followed by more: write it, split,
      and go on. */
  lemma RunCons(st: State, s: seq<byte>, segs: seq<seq<byte>>)
    requires Ready(st) && |segs| >= 1
    ensures RunSegments(st, [s] + segs) == RunSegments(Advance(Segment(st, s)), segs)
  {
    assert ([s] + segs)[0] == s && ([s] + segs)[1..] == segs;
  }

  /** The terminating NUL: the last segment is written and the loop is
      done. */
  lemma ScanEnd(st: State, c: seq<byte>, size: nat, iPrev: nat, i: nat, r: State)
    requires Scanning(st, c, size, iPrev, i, r) && c[i] == 0
    ensures i == size && Reposition(Segment(st, c[iPrev..i])) == r
  {
    RunAtEnd(st, c[iPrev..size]);
  }

  /** A newline or the terminating NUL ends the segment begun at iPrev:
      after a newline the scan goes on at the next line and byte, after
      the NUL it is done. */
  lemma ScanStop(st: State, c: seq<byte>, size: nat, iPrev: nat, i: nat, r: State)
    requires Scanning(st, c, size, iPrev, i, r) && (c[i] == NL || c[i] == 0)
    ensures var w := Segment(st, c[iPrev..i]);
      if c[i] == NL then Scanning(Advance(w), c, size, i + 1, i + 1, r)
      else i == size && Reposition(w) == r
  {
    if c[i] == NL {
      ScanNewline(st, c, size, iPrev, i, r);
    } else {
      ScanEnd(st, c, size, iPrev, i, r);
    }
  }

  /** The segment loop keeps every line before the insertion line and
      every line after it in place, and adds one line per segment after the
      first right after the insertion line. */
  lemma {:induction false} RunFrame(st: State, segs: seq<seq<byte>>)
    requires Ready(st) && |segs| >= 1
    ensures var r := RunSegments(st, segs);
      && r.cur == st.cur + |segs| - 1
      && |r.lines| == |st.lines| + |segs| - 1
      && r.lines[..st.cur] == st.lines[..st.cur]
      && r.lines[r.cur + 1..] == st.lines[st.cur + 1..]
    decreases |segs|
  {
    var written := Segment(st, segs[0]);
    SegmentFrame(st, segs[0]);
    if |segs| > 1 {
      var next := Advance(written);
      AdvanceFrame(written);
      RunFrame(next, segs[1..]);
      var r := RunSegments(next, segs[1..]);
      assert r.lines[..next.cur][..st.cur] == r.lines[..st.cur];
      assert next.lines[..next.cur][..st.cur] == next.lines[..st.cur];
    }
  }

  /** Each line the segment loop wrote is consistent and dirty. */
  lemma {:induction false} RunWrites(st: State, segs: seq<seq<byte>>)
    requires Ready(st) && |segs| >= 1
    ensures var r := RunSegments(st, segs);
      forall i :: st.cur <= i <= r.cur ==> r.lines[i].dirty && Consistent(r.lines[i])
    decreases |segs|
  {
    var written := Segment(st, segs[0]);
    SegmentFrame(st, segs[0]);
    RunFrame(st, segs);
    if |segs| > 1 {
      var next := Advance(written);
      AdvanceFrame(written);
      RunWrites(next, segs[1..]);
      RunFrame(next, segs[1..]);
      var r := RunSegments(next, segs[1..]);
      assert r.lines[st.cur] == r.lines[..next.cur][st.cur];
    }
  }

  /** Both together: the shape of the lines after the segment loop. */
  lemma RunShape(st: State, segs: seq<seq<byte>>)
    requires Ready(st) && |segs| >= 1
    ensures var r := RunSegments(st, segs);
      && r.cur == st.cur + |segs| - 1
      && |r.lines| == |st.lines| + |segs| - 1
      && r.lines[..st.cur] == st.lines[..st.cur]
      && r.lines[r.cur + 1..] == st.lines[st.cur + 1..]
      && forall i :: st.cur <= i <= r.cur ==> r.lines[i].dirty && Consistent(r.lines[i])
  {
    RunFrame(st, segs);
    RunWrites(st, segs);
  }

  /** Writing a segment changes the current line only. */
  lemma SegmentFrame(st: State, seg: seq<byte>)
    requires Ready(st)
    ensures var r := Segment(st, seg);
      && r.lines[..st.cur] == st.lines[..st.cur]
      && r.lines[st.cur + 1..] == st.lines[st.cur + 1..]
      && r.lines[st.cur] == WriteSegment(st.lines[st.cur], st.pOffset, seg).line
      && r.pOffset == st.pOffset
  {
  }

  /** The final append changes the last line written only, and keeps it
      consistent and dirty when it was. */
  lemma FinishFrame(st: State)
    requires st.cur < |st.lines| && Consistent(st.lines[st.cur]) && (st.tail.Some? ==> st.pOffset >= 0)
    ensures var r := Finish(st);
      && |r.lines| == |st.lines|
      && r.endLine == st.cur
      && r.lines[..st.cur] == st.lines[..st.cur]
      && r.lines[st.cur + 1..] == st.lines[st.cur + 1..]
      && (forall i :: 0 <= i < |st.lines| && i != st.cur ==> r.lines[i] == st.lines[i])
      && (st.lines[st.cur].dirty ==> r.lines[st.cur].dirty)
  {
  }

  /** The final append keeps the shape the segment loop left: n lines
      spliced in after line k of `lines`, the others in place, every line
      written dirty and consistent. */
  lemma FinishShape(lines: seq<LineValue>, k: nat, n: nat, st: State)
    requires k < |lines| && st.cur == k + n && |st.lines| == |lines| + n
    requires Consistent(st.lines[st.cur]) && (st.tail.Some? ==> st.pOffset >= 0)
    requires st.lines[..k] == lines[..k] && st.lines[st.cur + 1..] == lines[k + 1..]
    requires forall i :: k <= i <= st.cur ==> st.lines[i].dirty && Consistent(st.lines[i])
    ensures var r := Finish(st);
      && |r.lines| == |lines| + n
      && r.endLine == k + n
      && r.lines[..k] == lines[..k]
      && r.lines[r.endLine + 1..] == lines[k + 1..]
      && forall i :: k <= i <= r.endLine ==> r.lines[i].dirty && Consistent(r.lines[i])
  {
    FinishFrame(st);
    var r := Finish(st);
    assert r.lines[..k] == r.lines[..st.cur][..k];
    assert st.lines[..k] == st.lines[..st.cur][..k];
  }

  /** Inserting adds exactly one line per newline in the text, right after
      the insertion line; every other line keeps its value and its place,
      and every line written ends up dirty. */
  lemma InsertShape(lines: seq<LineValue>, k: nat, o: int, t: seq<byte>)
    requires Insertable(lines, k, o, t)
    ensures var r := Insert(lines, k, o, t);
      && |r.lines| == |lines| + Newlines(t)
      && r.endLine == k + Newlines(t)
      && r.lines[..k] == lines[..k]
      && r.lines[r.endLine + 1..] == lines[k + 1..]
      && forall i :: k <= i <= r.endLine ==> r.lines[i].dirty && Consistent(r.lines[i])
  {
    var st0 := State(lines, k, o, None);
    RunShape(st0, Segments(t));
    FinishShape(lines, k, Newlines(t), Run(st0, t));
    assert Insert(lines, k, o, t) == Finish(Run(st0, t));
  }

  // ---------------------------------------------------------------------
  // Content for ASCII text

  lemma AsciiSlices(s: seq<byte>, i: nat, j: nat)
    requires IsAscii(s) && i <= j <= |s|
    ensures IsAscii(s[i..j]) && IsAscii(s[..j]) && IsAscii(s[i..])
  {
  }

  lemma AsciiConcat(a: seq<byte>, b: seq<byte>)
    requires IsAscii(a) && IsAscii(b)
    ensures IsAscii(a + b)
  {
  }

  /** The segments of ASCII text are ASCII. */
  lemma {:induction false} SegmentsAscii(t: seq<byte>)
    requires IsAscii(t)
    ensures forall j :: 0 <= j < |Segments(t)| ==> IsAscii(Segments(t)[j])
    decreases |t|
  {
    var j := NewlineIndex(t);
    if j < |t| {
      AsciiSlices(t, j + 1, |t|);
      SegmentsAscii(t[j + 1..]);
    }
  }

  /** One ASCII segment written into an ASCII line at offset p: the line
      becomes A[0:p] + the segment, its visual length its byte length, and
      A[p:] is detached exactly when p is before the end of A. */
  lemma SegmentAscii(st: State, seg: seq<byte>)
    requires Ready(st) && IsAscii(st.lines[st.cur].c) && IsAscii(seg)
    ensures var r := Segment(st, seg);
      var x := st.lines[st.cur].c;
      var p := st.pOffset;
      && r.lines[st.cur].c == x[..p] + seg
      && IsAscii(r.lines[st.cur].c)
      && r.lines[st.cur].visualLength == p + |seg|
      && r.tail == (if p < |x| then Some(x[p..]) else st.tail)
      && r.lines[st.cur].buckets == Max(st.lines[st.cur].buckets, Buckets(|x| + |seg|))
  {
    var x := st.lines[st.cur].c;
    var p := st.pOffset;
    CharactersAscii(x);
    AsciiSlices(x, 0, p);
    var w := WriteSegment(st.lines[st.cur], p, seg);
    assert w.line.c == x[..p] + seg;
    AsciiConcat(x[..p], seg);
    CharactersAscii(w.line.c);
  }

  /** Each segment after the first is the content of its own line, in
      order, right after line k. */
  predicate LaterSegments(ls: seq<LineValue>, k: nat, segs: seq<seq<byte>>)
  {
    forall j :: 1 <= j < |segs| ==> LaterAt(ls, k, segs, j)
  }

  /** Segment j is the content of line k + j. */
  predicate LaterAt(ls: seq<LineValue>, k: nat, segs: seq<seq<byte>>, j: nat)
    requires j < |segs|
  {
    k + j < |ls| && ls[k + j].c == segs[j]
  }

  /** The line the loop starts on is written once, with the first
      segment; later segments go to lines after it. */
  lemma RunFirstLine(st: State, segs: seq<seq<byte>>)
    requires Ready(st) && |segs| >= 1
    ensures var r := RunSegments(st, segs);
      st.cur < |r.lines| && r.lines[st.cur] == WriteSegment(st.lines[st.cur], st.pOffset, segs[0]).line
  {
    var written := Segment(st, segs[0]);
    RunFrame(st, segs);
    if |segs| > 1 {
      var next := Advance(written);
      AdvanceFrame(written);
      RunFrame(next, segs[1..]);
      var r := RunSegments(next, segs[1..]);
      assert r.lines[..next.cur][st.cur] == r.lines[st.cur];
      assert next.lines[..next.cur][st.cur] == next.lines[st.cur];
    }
  }

  /** Every segment after the first lands, alone, in a fresh line of its
      own: the j-th in line k + j. */
  lemma {:induction false} RunLater(st: State, segs: seq<seq<byte>>)
    requires Ready(st) && |segs| >= 1
    ensures LaterSegments(RunSegments(st, segs).lines, st.cur, segs)
    decreases |segs|
  {
    if |segs| > 1 {
      var written := Segment(st, segs[0]);
      var next := Advance(written);
      AdvanceFrame(written);
      var rest := segs[1..];
      var r := RunSegments(next, rest);
      assert RunSegments(st, segs) == r;
      RunLater(next, rest);
      RunFirstLine(next, rest);
      assert next.lines[next.cur] == EmptyLine && next.pOffset == 0;
      WriteEmpty(rest[0]);
      assert r.lines[st.cur + 1].c == segs[1];
      LaterShift(r.lines, st.cur, segs);
    }
  }

  /** A segment written at offset 0 of an empty line is its content. */
  lemma WriteEmpty(seg: seq<byte>)
    ensures WriteSegment(EmptyLine, 0, seg).line.c == seg
  {
  }

  /** LaterSegments for k from line k + 1 holding the second segment and
      LaterSegments for k + 1 with the segments after the first. */
  lemma LaterShift(ls: seq<LineValue>, k: nat, segs: seq<seq<byte>>)
    requires |segs| > 1 && k + 1 < |ls| && ls[k + 1].c == segs[1]
    requires LaterSegments(ls, k + 1, segs[1..])
    ensures LaterSegments(ls, k, segs)
  {
    forall i | 1 <= i < |segs| ensures LaterAt(ls, k, segs, i) {
      if i > 1 {
        assert LaterAt(ls, k + 1, segs[1..], i - 1);
      }
    }
  }

  /** For ASCII segments the loop writes A[0:p] + the first segment into
      the insertion line and each later segment into a line of its own
      (A being the insertion line's content and p the offset). */
  lemma RunAsciiLines(st: State, segs: seq<seq<byte>>)
    requires Ready(st) && IsAscii(st.lines[st.cur].c)
    requires |segs| >= 1 && forall j :: 0 <= j < |segs| ==> IsAscii(segs[j])
    ensures var r := RunSegments(st, segs);
      var x := st.lines[st.cur].c;
      && r.cur == st.cur + |segs| - 1
      && r.lines[st.cur].c == x[..st.pOffset] + segs[0]
      && LaterSegments(r.lines, st.cur, segs)
  {
    SegmentAscii(st, segs[0]);
    RunFirstLine(st, segs);
    RunFrame(st, segs);
    RunLater(st, segs);
  }

  /** For ASCII segments the loop detaches A[p:] exactly when p is before
      the end of A, and leaves p_offset at the end of the last line
      written, whose buckets are those the last segment needs. */
  lemma {:induction false} RunAsciiEnd(st: State, segs: seq<seq<byte>>)
    requires Ready(st) && IsAscii(st.lines[st.cur].c)
    requires |segs| >= 1 && forall j :: 0 <= j < |segs| ==> IsAscii(segs[j])
    ensures var r := RunSegments(st, segs);
      var x := st.lines[st.cur].c;
      var m := |segs| - 1;
      && r.tail == (if st.pOffset < |x| then Some(x[st.pOffset..]) else st.tail)
      && r.pOffset == |r.lines[r.cur].c|
      && (m == 0 ==> r.lines[r.cur].buckets == Max(st.lines[st.cur].buckets, Buckets(|x| + |segs[0]|)))
      && (m > 0 ==> r.lines[r.cur].buckets == Max(1, Buckets(|segs[m]|)))
    decreases |segs|
  {
    var written := Segment(st, segs[0]);
    SegmentFrame(st, segs[0]);
    SegmentAscii(st, segs[0]);
    if |segs| > 1 {
      var next := Advance(written);
      AdvanceFrame(written);
      RunAsciiEnd(next, segs[1..]);
      assert RunSegments(st, segs) == RunSegments(next, segs[1..]);
    }
  }

  /** Both halves together. */
  lemma RunAscii(st: State, segs: seq<seq<byte>>)
    requires Ready(st) && IsAscii(st.lines[st.cur].c)
    requires |segs| >= 1 && forall j :: 0 <= j < |segs| ==> IsAscii(segs[j])
    ensures var r := RunSegments(st, segs);
      var x := st.lines[st.cur].c;
      var p := st.pOffset;
      var m := |segs| - 1;
      && r.cur == st.cur + m
      && r.lines[st.cur].c == x[..p] + segs[0]
      && LaterSegments(r.lines, st.cur, segs)
      && (forall i :: st.cur <= i <= r.cur ==> IsAscii(r.lines[i].c))
      && r.tail == (if p < |x| then Some(x[p..]) else st.tail)
      && r.pOffset == |r.lines[r.cur].c|
      && (m == 0 ==> r.lines[r.cur].buckets == Max(st.lines[st.cur].buckets, Buckets(|x| + |segs[0]|)))
      && (m > 0 ==> r.lines[r.cur].buckets == Max(1, Buckets(|segs[m]|)))
  {
    RunAsciiLines(st, segs);
    RunAsciiEnd(st, segs);
    var r := RunSegments(st, segs);
    var x := st.lines[st.cur].c;
    AsciiSlices(x, 0, st.pOffset);
    AsciiConcat(x[..st.pOffset], segs[0]);
    LinesAscii(r.lines, st.cur, segs);
  }

  /** Line k and the lines holding the later segments are ASCII when the
      segments are. */
  lemma LinesAscii(ls: seq<LineValue>, k: nat, segs: seq<seq<byte>>)
    requires |segs| >= 1 && k < |ls| && IsAscii(ls[k].c) && LaterSegments(ls, k, segs)
    requires forall j :: 0 <= j < |segs| ==> IsAscii(segs[j])
    ensures k + |segs| - 1 < |ls|
    ensures forall i :: k <= i < k + |segs| ==> IsAscii(ls[i].c)
  {
    if |segs| > 1 {
      assert LaterAt(ls, k, segs, |segs| - 1);
    }
    forall i | k < i < k + |segs| ensures IsAscii(ls[i].c) {
      assert LaterAt(ls, k, segs, i - k);
    }
  }

  /** The insertion line is an ASCII line: consistent, all bytes ASCII. */
  predicate AsciiLine(v: LineValue)
  {
    Consistent(v) && IsAscii(v.c)
  }

  /** ASCII text can always be inserted into an ASCII line at any offset
      from 0 to its length. */
  lemma AsciiInsertable(lines: seq<LineValue>, k: nat, o: int, t: seq<byte>)
    requires k < |lines| && AsciiLine(lines[k]) && 0 <= o <= lines[k].length && IsAscii(t)
    ensures Insertable(lines, k, o, t)
  {
    SegmentsAscii(t);
    RunAscii(State(lines, k, o, None), Segments(t));
  }

  /** The final append of an ASCII rest onto the end of an ASCII line. */
  lemma AppendAscii(v: LineValue, tail: seq<byte>)
    requires AsciiLine(v) && IsAscii(tail)
    ensures var r := AppendTail(v, v.length, tail);
      r.c == v.c + tail && AsciiLine(r)
  {
    AsciiConcat(v.c, tail);
    CharactersAscii(v.c + tail);
  }

  /** The state the segment loop leaves after inserting the ASCII
      segments segs at offset o of the ASCII line a, which was line k: the
      line a[0:o] + the first segment, one line per later segment, every
      line written a dirty ASCII line, the rest a[o:] detached when o was
      before the end of a, and p_offset at the end of the last line. */
  predicate AsciiRun(st: State, k: nat, a: seq<byte>, o: nat, segs: seq<seq<byte>>)
  {
    && |segs| >= 1 && o <= |a| && IsAscii(a)
    && st.cur == k + |segs| - 1 && st.cur < |st.lines| && Consistent(st.lines[st.cur])
    && st.lines[k].c == a[..o] + segs[0]
    && LaterSegments(st.lines, k, segs)
    && (forall i :: k <= i <= st.cur ==> AsciiLine(st.lines[i]) && st.lines[i].dirty)
    && st.tail == (if o < |a| then Some(a[o..]) else None)
    && st.pOffset == |st.lines[st.cur].c|
  }

  /** The final append for the state the loop leaves after ASCII
      segments changes the last line written only, and ends on it. */
  lemma FinishAsciiShape(st: State, k: nat, a: seq<byte>, o: nat, segs: seq<seq<byte>>)
    requires AsciiRun(st, k, a, o, segs)
    ensures var r := Finish(st);
      && |r.lines| == |st.lines|
      && r.endLine == k + |segs| - 1
      && r.endOffset == |st.lines[st.cur].c|
      && forall i :: 0 <= i < |st.lines| && i != st.cur ==> r.lines[i] == st.lines[i]
  {
    FinishFrame(st);
  }

  /** The final append for the state the loop leaves after ASCII
      segments: the rest A[o:] lands after the last segment. */
  lemma FinishAsciiLast(st: State, k: nat, a: seq<byte>, o: nat, segs: seq<seq<byte>>)
    requires AsciiRun(st, k, a, o, segs)
    ensures var r := Finish(st);
      var m := |segs| - 1;
      && r.lines[k + m].c == st.lines[k + m].c + a[o..]
      && r.lines[k + m].buckets == (if o < |a| then Min(st.lines[k + m].buckets, Buckets(r.lines[k + m].length))
                                    else st.lines[k + m].buckets)
      && (m == 0 ==> r.lines[k].c == a[..o] + segs[0] + a[o..] && r.endOffset == o + |segs[0]|)
      && (m > 0 ==> r.lines[k + m].c == segs[m] + a[o..] && r.endOffset == |segs[m]|)
  {
    if o < |a| {
      AsciiSlices(a, o, |a|);
      AppendAscii(st.lines[st.cur], a[o..]);
    } else {
      assert a[o..] == [];
    }
    if |segs| > 1 {
      assert LaterAt(st.lines, k, segs, |segs| - 1);
    }
  }

  /** After the final append every line written is a dirty ASCII line. */
  lemma FinishAsciiLines(st: State, k: nat, a: seq<byte>, o: nat, segs: seq<seq<byte>>)
    requires AsciiRun(st, k, a, o, segs)
    ensures var r := Finish(st);
      forall i :: k <= i < k + |segs| ==> AsciiLine(r.lines[i]) && r.lines[i].dirty
  {
    if o < |a| {
      AsciiSlices(a, o, |a|);
      AppendAscii(st.lines[st.cur], a[o..]);
    }
    FinishFrame(st);
  }

  /** What the segment loop leaves for ASCII text in an ASCII line: the
      state the final append starts from. */
  lemma RunAsciiState(lines: seq<LineValue>, k: nat, o: int, t: seq<byte>)
    requires k < |lines| && AsciiLine(lines[k]) && 0 <= o <= lines[k].length && IsAscii(t)
    ensures Insertable(lines, k, o, t)
    ensures var st := Run(State(lines, k, o, None), t);
      var segs := Segments(t);
      var a := lines[k].c;
      && AsciiRun(st, k, a, o, segs)
      && |st.lines| == |lines| + |segs| - 1
      && Insert(lines, k, o, t) == Finish(st)
  {
    var st0 := State(lines, k, o, None);
    var segs := Segments(t);
    SegmentsAscii(t);
    RunAscii(st0, segs);
    RunFrame(st0, segs);
    RunWrites(st0, segs);
    CharactersAscii(lines[k].c);
  }

  /** Inserting ASCII text with m newlines into an ASCII line adds m lines
      and ends on line k + m; every line written is a dirty ASCII line. */
  lemma InsertAsciiLines(lines: seq<LineValue>, k: nat, o: int, t: seq<byte>)
    requires k < |lines| && AsciiLine(lines[k]) && 0 <= o <= lines[k].length && IsAscii(t)
    ensures Insertable(lines, k, o, t)
    ensures var r := Insert(lines, k, o, t);
      var m := |Segments(t)| - 1;
      && |r.lines| == |lines| + m
      && r.endLine == k + m
      && forall i :: k <= i <= k + m ==> AsciiLine(r.lines[i]) && r.lines[i].dirty
  {
    RunAsciiState(lines, k, o, t);
    var st := Run(State(lines, k, o, None), t);
    FinishAsciiShape(st, k, lines[k].c, o, Segments(t));
    FinishAsciiLines(st, k, lines[k].c, o, Segments(t));
  }

  /** Without a newline, the line becomes A[0:o] + T + A[o:] and the end
      position is o + |T| on the same line. */
  lemma InsertAsciiSingle(lines: seq<LineValue>, k: nat, o: int, t: seq<byte>)
    requires k < |lines| && AsciiLine(lines[k]) && 0 <= o <= lines[k].length && IsAscii(t)
    requires |Segments(t)| == 1
    ensures Insertable(lines, k, o, t)
    ensures var r := Insert(lines, k, o, t);
      var a := lines[k].c;
      r.lines[k].c == a[..o] + t + a[o..] && r.endOffset == o + |t|
  {
    RunAsciiState(lines, k, o, t);
    var st := Run(State(lines, k, o, None), t);
    var a := lines[k].c;
    FinishAsciiLast(st, k, a, o, Segments(t));
    assert Segments(t)[0] == t;
  }

  /** With m > 0 newlines, the insertion line becomes A[0:o] + the first
      segment and each middle segment becomes a line of its own. */
  lemma InsertAsciiFirst(lines: seq<LineValue>, k: nat, o: int, t: seq<byte>)
    requires k < |lines| && AsciiLine(lines[k]) && 0 <= o <= lines[k].length && IsAscii(t)
    requires |Segments(t)| > 1
    ensures Insertable(lines, k, o, t)
    ensures var r := Insert(lines, k, o, t);
      var a := lines[k].c;
      var segs := Segments(t);
      && |r.lines| == |lines| + |segs| - 1
      && r.lines[k].c == a[..o] + segs[0]
      && forall j :: 0 < j < |segs| - 1 ==> r.lines[k + j].c == segs[j]
  {
    RunAsciiState(lines, k, o, t);
    var st := Run(State(lines, k, o, None), t);
    var segs := Segments(t);
    FinishAsciiShape(st, k, lines[k].c, o, segs);
    var r := Insert(lines, k, o, t);
    assert r.lines[k] == st.lines[k];
    forall j | 0 < j < |segs| - 1 ensures r.lines[k + j].c == segs[j] {
      assert LaterAt(st.lines, k, segs, j);
      assert r.lines[k + j] == st.lines[k + j];
    }
  }

  /** With m > 0 newlines, the last line is the last segment + A[o:] and
      the end position is the last segment's length on that line. */
  lemma InsertAsciiLast(lines: seq<LineValue>, k: nat, o: int, t: seq<byte>)
    requires k < |lines| && AsciiLine(lines[k]) && 0 <= o <= lines[k].length && IsAscii(t)
    requires |Segments(t)| > 1
    ensures Insertable(lines, k, o, t)
    ensures var r := Insert(lines, k, o, t);
      var a := lines[k].c;
      var segs := Segments(t);
      var m := |segs| - 1;
      && |r.lines| == |lines| + m
      && r.lines[k + m].c == segs[m] + a[o..] && r.endOffset == |segs[m]|
  {
    RunAsciiState(lines, k, o, t);
    var st := Run(State(lines, k, o, None), t);
    FinishAsciiShape(st, k, lines[k].c, o, Segments(t));
    FinishAsciiLast(st, k, lines[k].c, o, Segments(t));
  }

  /** With m > 0 newlines, the last line keeps the storage sized for the
      last segment alone, whatever rest is appended to it: the final append
      never raises the bucket count. */
  lemma InsertSplitBuckets(lines: seq<LineValue>, k: nat, o: int, t: seq<byte>)
    requires k < |lines| && AsciiLine(lines[k]) && 0 <= o <= lines[k].length && IsAscii(t)
    requires |Segments(t)| > 1
    ensures Insertable(lines, k, o, t)
    ensures var r := Insert(lines, k, o, t);
      var segs := Segments(t);
      var m := |segs| - 1;
      && |r.lines| == |lines| + m
      && r.lines[k + m].buckets == Max(1, Buckets(|segs[m]|))
  {
    RunAsciiState(lines, k, o, t);
    var st0 := State(lines, k, o, None);
    var segs := Segments(t);
    SegmentsAscii(t);
    RunAsciiEnd(st0, segs);
    var st := Run(st0, t);
    var a := lines[k].c;
    var m := |segs| - 1;
    FinishAsciiShape(st, k, a, o, segs);
    FinishAsciiLast(st, k, a, o, segs);
    var n := |segs[m]| + |a| - o;
    BucketsMonotone(|segs[m]|, n);
    BucketsIsCeiling(n);
  }

  /** Where the pieces land for ASCII text with m newlines, A being the
      insertion line's content and o the offset: with no newline the line
      becomes A[0:o] + T + A[o:] and the end position is (same line,
      o + |T|); otherwise the insertion line becomes A[0:o] + the first
      segment, the middle segments become lines of their own, the last line
      is the last segment + A[o:], and the end position is (last line,
      length of the last segment). All written lines are dirty ASCII
      lines. */
  lemma InsertAscii(lines: seq<LineValue>, k: nat, o: int, t: seq<byte>)
    requires k < |lines| && AsciiLine(lines[k]) && 0 <= o <= lines[k].length && IsAscii(t)
    ensures Insertable(lines, k, o, t)
    ensures var r := Insert(lines, k, o, t);
      var a := lines[k].c;
      var segs := Segments(t);
      var m := |segs| - 1;
      && |r.lines| == |lines| + m
      && r.endLine == k + m
      && (m == 0 ==> r.lines[k].c == a[..o] + t + a[o..] && r.endOffset == o + |t|)
      && (m > 0 ==>
            && r.lines[k].c == a[..o] + segs[0]
            && (forall j :: 0 < j < m ==> r.lines[k + j].c == segs[j])
            && r.lines[k + m].c == segs[m] + a[o..]
            && r.endOffset == |segs[m]|)
      && forall i :: k <= i <= k + m ==> AsciiLine(r.lines[i]) && r.lines[i].dirty
  {
    InsertAsciiLines(lines, k, o, t);
    if |Segments(t)| == 1 {
      InsertAsciiSingle(lines, k, o, t);
    } else {
      InsertAsciiFirst(lines, k, o, t);
      InsertAsciiLast(lines, k, o, t);
    }
  }

  /** The bucket count after a newline-free ASCII insertion: raised to
      BUCKETS(|A| + |T|) when that is more; when a rest was detached
      (o < |A|) the final append then also lowers it to exactly that. */
  lemma InsertSingleBuckets(lines: seq<LineValue>, k: nat, o: int, t: seq<byte>)
    requires k < |lines| && AsciiLine(lines[k]) && 0 <= o <= lines[k].length && IsAscii(t)
    requires |Segments(t)| == 1
    ensures Insertable(lines, k, o, t)
    ensures var r := Insert(lines, k, o, t);
      var a := lines[k];
      var n := |a.c| + |t|;
      r.lines[k].buckets == if o < |a.c| then Buckets(n) else Max(a.buckets, Buckets(n))
  {
    RunAsciiState(lines, k, o, t);
    var st0 := State(lines, k, o, None);
    SegmentsAscii(t);
    assert Segments(t)[0] == t;
    RunAsciiEnd(st0, Segments(t));
    FinishSingleBuckets(Run(st0, t), k, lines[k], o, Segments(t));
  }

  /** The final append after a newline-free ASCII segment loop: the
      bucket count is lowered to exactly BUCKETS(|A| + |T|) when a rest
      was detached. */
  lemma FinishSingleBuckets(st: State, k: nat, a: LineValue, o: nat, segs: seq<seq<byte>>)
    requires AsciiRun(st, k, a.c, o, segs) && |segs| == 1
    requires st.lines[k].buckets == Max(a.buckets, Buckets(|a.c| + |segs[0]|))
    ensures var n := |a.c| + |segs[0]|;
      Finish(st).lines[k].buckets == if o < |a.c| then Buckets(n) else Max(a.buckets, Buckets(n))
  {
    FinishAsciiLast(st, k, a.c, o, segs);
  }

  /** A newline-free ASCII insertion into an ASCII line changes only that
      line: content A[0:o] + T + A[o:], both lengths |A| + |T|, buckets as
      InsertSingleBuckets says, dirty; the end position is (same line,
      o + |T|). */
  lemma InsertWithinLine(lines: seq<LineValue>, k: nat, o: int, t: seq<byte>)
    requires k < |lines| && AsciiLine(lines[k]) && 0 <= o <= lines[k].length && IsAscii(t)
    requires forall i :: 0 <= i < |t| ==> t[i] != NL
    ensures Insertable(lines, k, o, t)
    ensures var r := Insert(lines, k, o, t);
      var a := lines[k];
      var n := |a.c| + |t|;
      && |r.lines| == |lines|
      && r.lines[..k] == lines[..k]
      && r.lines[k + 1..] == lines[k + 1..]
      && r.lines[k].c == a.c[..o] + t + a.c[o..]
      && r.lines[k].buckets == (if o < |a.c| then Buckets(n) else Max(a.buckets, Buckets(n)))
      && r.lines[k].length == n
      && r.lines[k].visualLength == n
      && r.lines[k].dirty
      && r.endLine == k
      && r.endOffset == o + |t|
  {
    NoNewlines(t);
    assert Segments(t) == [t];
    InsertAsciiLines(lines, k, o, t);
    InsertAsciiSingle(lines, k, o, t);
    InsertSingleBuckets(lines, k, o, t);
    InsertShape(lines, k, o, t);
    CharactersAscii(Insert(lines, k, o, t).lines[k].c);
  }

  /** The final append never grows the storage: when the text has a newline
      and the detached rest plus the last segment is longer than the
      storage of the freshly split last line, that line's length exceeds its
      capacity (the source copies past the end of its allocation). */
  lemma TailOutgrowsSplitLine(lines: seq<LineValue>, k: nat, o: int, t: seq<byte>)
    requires k < |lines| && AsciiLine(lines[k]) && 0 <= o <= lines[k].length && IsAscii(t)
    requires Newlines(t) > 0
    requires var last := Segments(t)[Newlines(t)];
      |last| + lines[k].length - o > Max(1, Buckets(|last|)) * LINSIZ
    ensures Insertable(lines, k, o, t)
    ensures var r := Insert(lines, k, o, t);
      r.lines[r.endLine].length > r.lines[r.endLine].buckets * LINSIZ
  {
    InsertAsciiLines(lines, k, o, t);
    InsertAsciiLast(lines, k, o, t);
    InsertSplitBuckets(lines, k, o, t);
  }

  /** Concretely: inserting "\n" at offset 0 of a line of 65 'a's moves
      the 65 bytes to a new line that has one 64-byte bucket. */
  lemma TailOutgrowsExample(a: seq<byte>, t: seq<byte>)
    requires |a| == 65 && (forall i :: 0 <= i < |a| ==> a[i] == 97) && t == [NL]
    ensures var lines := [LineValue(a, 2, 65, 65, true)];
      Insertable(lines, 0, 0, t)
      && var r := Insert(lines, 0, 0, t);
      r.endLine == 1 && r.lines[1].length == 65 && r.lines[1].buckets == 1
  {
    CharactersAscii(a);
    var lines := [LineValue(a, 2, 65, 65, true)];
    SegmentsOfNewline(t);
    InsertAsciiLines(lines, 0, 0, t);
    InsertAsciiLast(lines, 0, 0, t);
    InsertSplitBuckets(lines, 0, 0, t);
  }

  /** A lone newline cuts into two empty segments. */
  lemma SegmentsOfNewline(t: seq<byte>)
    requires t == [NL]
    ensures Segments(t) == [[], []] && Newlines(t) == 1
  {
    assert NewlineIndex(t) == 0;
    assert t[1..] == [];
  }

  /** A newline inserted at the character count of line k (where
      action_insert_line puts it) keeps the line's bytes, raises its
      storage to BUCKETS(length) when that is more, marks it dirty, and
      puts a dirty empty line after it, at whose start the end position
      is. Nothing is detached, since the offset is the visual length, even
      where that count lies before the line's last byte. */
  lemma InsertNewlineAtCount(lines: seq<LineValue>, k: nat)
    requires k < |lines| && Consistent(lines[k]) && lines[k].visualLength >= 0
    ensures Insertable(lines, k, lines[k].visualLength, [NL])
    ensures var v := lines[k];
      var r := Insert(lines, k, v.visualLength, [NL]);
      && r.lines == lines[..k] + [v.(buckets := Max(v.buckets, Buckets(v.length)), dirty := true), LineValue([], 1, 0, 0, true)] + lines[k + 1..]
      && r.endLine == k + 1 && r.endOffset == 0
  {
    var v := lines[k];
    var st0 := State(lines, k, v.visualLength, None);
    SegmentsOfNewline([NL]);
    var w0 := WriteSegment(v, v.visualLength, []);
    assert w0.line.c == v.c;
    var s1 := Segment(st0, []);
    var a := Advance(s1);
    AdvanceIs(s1);
    assert a.lines[a.cur] == EmptyLine;
    var s2 := Segment(a, []);
    assert WriteSegment(EmptyLine, 0, []).line == LineValue([], 1, 0, 0, true);
    RunCons(st0, [], [[]]);
    assert [[]] + [[]] == Segments([NL]);
    assert s1.lines == lines[k := w0.line];
    assert s2.lines == a.lines[k + 1 := LineValue([], 1, 0, 0, true)];
    assert s2.lines == lines[..k] + [w0.line, LineValue([], 1, 0, 0, true)] + lines[k + 1..];
  }

  /** The worked example: "ab\ncd" inserted into a single empty line gives
      the lines "ab" and "cd" and the end position (line 1, offset 2). */
  lemma TwoLineExample(t: seq<byte>)
    requires t == [97, 98, NL, 99, 100]
    ensures Insertable([EmptyLine], 0, 0, t)
    ensures var r := Insert([EmptyLine], 0, 0, t);
      && |r.lines| == 2 && r.lines[0].c == [97, 98] && r.lines[1].c == [99, 100]
      && r.endLine == 1 && r.endOffset == 2
  {
    assert NewlineIndex(t) == 2 by {
      assert NewlineIndex(t[1..]) == 1 by {
        assert t[1..][1..] == t[2..];
      }
    }
    var rest := t[3..];
    assert NewlineIndex(rest) == 2 by {
      assert rest[1..][1..] == [];
    }
    assert Segments(rest) == [rest];
    assert Segments(t) == [t[..2], rest];
    InsertAsciiLines([EmptyLine], 0, 0, t);
    InsertAsciiFirst([EmptyLine], 0, 0, t);
    InsertAsciiLast([EmptyLine], 0, 0, t);
  }

  /** Offsets are character counts used as byte indices: inserting the
      two-byte character U+00E9 in the middle of "abcd" writes the detached
      "cd" over its second byte, so the line ends up malformed (its visual
      length is ERR) and 6 bytes long, ending in a NUL. */
  lemma MultiByteMiddleInsert()
    ensures var a: seq<byte> := [97, 98, 99, 100];
      var lines := [LineValue(a, 1, 4, 4, false)];
      var t: seq<byte> := [0xC3, 0xA9];
      Insertable(lines, 0, 2, t)
      && var r := Insert(lines, 0, 2, t);
      && r.lines[0].c == [97, 98, 0xC3, 99, 100, 0]
      && r.lines[0].visualLength == ERR
      && r.endOffset == 3
  {
    var a: seq<byte> := [97, 98, 99, 100];
    var t: seq<byte> := [0xC3, 0xA9];
    var m: seq<byte> := [97, 98, 0xC3, 0xA9];
    var rest: seq<byte> := [99, 100];
    MultiByteRun(a, t, m, rest);
    MultiByteAppend(m, rest, [97, 98, 0xC3, 99, 100, 0]);
  }

  /** The segment loop of that insertion: "ab" + the character, 4 bytes
      and 3 characters, p_offset 3, and "cd" detached. */
  lemma MultiByteRun(a: seq<byte>, t: seq<byte>, m: seq<byte>, rest: seq<byte>)
    requires a == [97, 98, 99, 100] && t == [0xC3, 0xA9]
    requires m == [97, 98, 0xC3, 0xA9] && rest == [99, 100]
    ensures Characters(a) == 4 && Characters(m) == 3
    ensures var st0 := State([LineValue(a, 1, 4, 4, false)], 0, 2, None);
      Run(st0, t) == State([LineValue(m, 1, 4, 3, true)], 0, 3, Some(rest))
  {
    CharactersAscii(a);
    MultiBytePrefix(m);
    MultiByteSegments(t);
    MultiByteWrite(a, t, m, rest);
  }

  lemma MultiByteSegments(t: seq<byte>)
    requires t == [0xC3, 0xA9]
    ensures Segments(t) == [t]
  {
    assert NewlineIndex(t) == 2 by {
      assert t[1..][1..] == [];
    }
  }

  lemma MultiByteWrite(a: seq<byte>, t: seq<byte>, m: seq<byte>, rest: seq<byte>)
    requires a == [97, 98, 99, 100] && t == [0xC3, 0xA9]
    requires m == [97, 98, 0xC3, 0xA9] && rest == [99, 100]
    requires Characters(a) == 4 && Characters(m) == 3
    ensures WriteSegment(LineValue(a, 1, 4, 4, false), 2, t) == Written(LineValue(m, 1, 4, 3, true), Some(rest))
  {
    var w := WriteSegment(LineValue(a, 1, 4, 4, false), 2, t);
    assert w.line.c == m;
  }

  /** The final append of that insertion: "cd" is copied to byte 3. */
  lemma MultiByteAppend(m: seq<byte>, rest: seq<byte>, f: seq<byte>)
    requires m == [97, 98, 0xC3, 0xA9] && rest == [99, 100] && f == [97, 98, 0xC3, 99, 100, 0]
    requires Characters(m) == 3
    ensures var r := AppendTail(LineValue(m, 1, 4, 3, true), 3, rest);
      r.c == f && r.visualLength == ERR
  {
    assert AppendTail(LineValue(m, 1, 4, 3, true), 3, rest).c == f;
    MultiByteBroken(f);
  }

  lemma MultiBytePrefix(s: seq<byte>)
    requires s == [97, 98, 0xC3, 0xA9]
    ensures Characters(s) == 3
  {
    var x := s[2..];
    assert Characters(x) == 1 by {
      assert At(x, 1) == 0xA9;
      assert x[2..] == [];
    }
    CharactersAsciiCons(98, x);
    assert [98] + x == s[1..];
    CharactersAsciiCons(97, s[1..]);
    assert [97] + s[1..] == s;
  }

  lemma MultiByteBroken(s: seq<byte>)
    requires s == [97, 98, 0xC3, 99, 100, 0]
    ensures Characters(s) == ERR
  {
    CharactersMissingContinuation(s[2..]);
    CharactersAsciiCons(98, s[2..]);
    assert [98] + s[2..] == s[1..];
    CharactersAsciiCons(97, s[1..]);
    assert [97] + s[1..] == s;
  }
}
