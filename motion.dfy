/** The cursor actions of src/snack.c on what they read of a buffer: the
    visual length of every line in list order, which line `last_line` is,
    the cursor's line and offset, and `offset_prev`, the remembered column
    that vertical moves try to return to. */
module Motion {
  import opened Snack

  /** What the motion actions read and write of a Buffer: `vls[i]` is the
      visual_length of the i-th line from `first_line`, `last` the index of
      `last_line`, (line, offset) the cursor and offsetPrev `offset_prev`. */
  datatype View = View(vls: seq<int>, last: nat, line: nat, offset: int, offsetPrev: int)

  /** The buffer has a line, and the cursor and `last_line` are among its
      lines. */
  predicate Wellformed(v: View)
  {
    0 < |v.vls| && v.last < |v.vls| && v.line < |v.vls|
  }

  /** Every line's visual length is a character count, not ERR. */
  predicate CountsKnown(v: View)
  {
    forall i :: 0 <= i < |v.vls| ==> v.vls[i] >= 0
  }

  /** The column taken on arriving at a line of visual length vl
      (src/snack.c:455-458): the line's end when it is shorter than the
      current offset or the remembered column, otherwise the remembered
      column. It stays within the line when vl and the remembered column
      are counts. */
  function Reconcile(vl: int, offset: int, offsetPrev: int): (r: int)
    ensures r == if vl < Max(offset, offsetPrev) then vl else offsetPrev
    ensures 0 <= vl && 0 <= offsetPrev ==> 0 <= r <= vl
    ensures r <= offsetPrev || r == vl
  {
    if vl < offset || vl < offsetPrev then vl
    else if offsetPrev != offset then offsetPrev
    else offset
  }

  /** Arrive at line `target`, reconciling the column; `offset_prev` is
      kept. */
  function Arrive(v: View, target: nat): (r: View)
    requires target < |v.vls|
    ensures r.vls == v.vls && r.last == v.last && r.line == target && r.offsetPrev == v.offsetPrev
  {
    v.(line := target, offset := Reconcile(v.vls[target], v.offset, v.offsetPrev))
  }

  /** action_move_nextline (src/snack.c:448-464). */
  function NextLine(v: View): (r: View)
    requires Wellformed(v)
    ensures Wellformed(r) && r.vls == v.vls && r.last == v.last
    ensures v.line + 1 < |v.vls| ==> r == Arrive(v, v.line + 1)
    ensures v.line + 1 == |v.vls| ==> r.line == v.line && r.offset == r.offsetPrev == v.vls[v.line]
  {
    if v.line + 1 < |v.vls| then Arrive(v, v.line + 1)
    else v.(offset := v.vls[v.line], offsetPrev := v.vls[v.line])
  }

  /** action_move_prevline (src/snack.c:466-482). */
  function PrevLine(v: View): (r: View)
    requires Wellformed(v)
    ensures Wellformed(r) && r.vls == v.vls && r.last == v.last
    ensures v.line > 0 ==> r == Arrive(v, v.line - 1)
    ensures v.line == 0 ==> r.line == 0 && r.offset == r.offsetPrev == 0
  {
    if v.line > 0 then Arrive(v, v.line - 1)
    else v.(offset := 0, offsetPrev := 0)
  }

  /** action_move_nextchar (src/snack.c:484-492): one step right unless at
      the line's visual end; the remembered column follows. */
  function NextChar(v: View): (r: View)
    requires Wellformed(v)
    ensures Wellformed(r) && r.vls == v.vls && r.last == v.last && r.line == v.line
    ensures v.offset < v.vls[v.line] ==> r.offset == r.offsetPrev == v.offset + 1
    ensures v.offset >= v.vls[v.line] ==> r == v
  {
    if v.offset < v.vls[v.line] then v.(offset := v.offset + 1, offsetPrev := v.offset + 1) else v
  }

  /** action_move_prevchar (src/snack.c:494-501). */
  function PrevChar(v: View): (r: View)
    requires Wellformed(v)
    ensures Wellformed(r) && r.vls == v.vls && r.last == v.last && r.line == v.line
    ensures v.offset > 0 ==> r.offset == r.offsetPrev == v.offset - 1
    ensures v.offset <= 0 ==> r == v
  {
    if v.offset > 0 then v.(offset := v.offset - 1, offsetPrev := v.offset - 1) else v
  }

  /** action_move_bof (src/snack.c:503-515): arrive at `first_line`. */
  function Bof(v: View): (r: View)
    requires Wellformed(v)
    ensures Wellformed(r) && r == Arrive(v, 0)
  {
    Arrive(v, 0)
  }

  /** action_move_eof (src/snack.c:517-529): arrive at `last_line`, which
      need not be the final line of the list. */
  function Eof(v: View): (r: View)
    requires Wellformed(v)
    ensures Wellformed(r) && r == Arrive(v, v.last)
  {
    Arrive(v, v.last)
  }

  /** action_move_bol (src/snack.c:531-534). */
  function Bol(v: View): (r: View)
    requires Wellformed(v)
    ensures Wellformed(r) && r.vls == v.vls && r.last == v.last && r.line == v.line
    ensures r.offset == 0 && r.offsetPrev == 0
  {
    v.(offset := 0, offsetPrev := 0)
  }

  /** action_move_eol (src/snack.c:536-539). */
  function Eol(v: View): (r: View)
    requires Wellformed(v)
    ensures Wellformed(r) && r.vls == v.vls && r.last == v.last && r.line == v.line
    ensures r.offset == v.vls[v.line] && r.offsetPrev == v.vls[v.line]
  {
    v.(offset := v.vls[v.line], offsetPrev := v.vls[v.line])
  }

  /** The cursor lies within its line and the remembered column is not
      negative. */
  predicate InRange(v: View)
  {
    Wellformed(v) && 0 <= v.offset <= v.vls[v.line] && 0 <= v.offsetPrev
  }

  /** Every motion keeps the cursor within its line, when no line's visual
      length is ERR. */
  lemma MotionsKeepInRange(v: View)
    requires InRange(v) && CountsKnown(v)
    ensures InRange(NextLine(v)) && InRange(PrevLine(v))
    ensures InRange(NextChar(v)) && InRange(PrevChar(v))
    ensures InRange(Bof(v)) && InRange(Eof(v))
    ensures InRange(Bol(v)) && InRange(Eol(v))
  {
    assert v.vls[v.line] >= 0 && v.vls[0] >= 0 && v.vls[v.last] >= 0;
    if v.line + 1 < |v.vls| {
      assert v.vls[v.line + 1] >= 0;
    }
    if v.line > 0 {
      assert v.vls[v.line - 1] >= 0;
    }
  }

  /** The cursor is not to the right of the remembered column. This holds
      after every motion (only an insertion, which moves the cursor without
      touching `offset_prev`, breaks it). */
  predicate Settled(v: View)
  {
    v.offset <= v.offsetPrev
  }

  /** Every motion keeps a settled cursor settled. */
  lemma MotionsSettle(v: View)
    requires Wellformed(v) && Settled(v)
    ensures Settled(NextLine(v)) && Settled(PrevLine(v))
    ensures Settled(NextChar(v)) && Settled(PrevChar(v))
    ensures Settled(Bof(v)) && Settled(Eof(v))
    ensures Settled(Bol(v)) && Settled(Eol(v))
  {
  }

  /** One vertical move of a settled cursor that has a neighbour to go to
      takes the column min(remembered column, destination length) and
      keeps the remembered column (the sticky column). */
  lemma StickyStep(v: View, target: nat)
    requires target < |v.vls| && Settled(v)
    ensures Arrive(v, target).offset == Min(v.vls[target], v.offsetPrev)
    ensures Settled(Arrive(v, target))
  {
  }

  /** A vertical move: up (k) or down (j). */
  datatype Vertical = Up | Down

  /** The number of lines a sequence of vertical moves goes down, net. */
  function Net(ms: seq<Vertical>): int
  {
    if |ms| == 0 then 0 else (if ms[0] == Down then 1 else -1) + Net(ms[1..])
  }

  /** The moves ms, applied in order. */
  function Moves(v: View, ms: seq<Vertical>): (r: View)
    requires Wellformed(v)
    ensures Wellformed(r) && r.vls == v.vls && r.last == v.last
    decreases |ms|
  {
    if |ms| == 0 then v
    else Moves(if ms[0] == Down then NextLine(v) else PrevLine(v), ms[1..])
  }

  /** None of the moves runs into the first or last line of the list. */
  predicate WithinList(line: int, ms: seq<Vertical>, n: nat)
    decreases |ms|
  {
    |ms| == 0 || (
      var next := if ms[0] == Down then line + 1 else line - 1;
      0 <= next < n && WithinList(next, ms[1..], n))
  }

  /** The sticky column over any sequence of vertical moves that stays
      inside the list: the remembered column never changes, the cursor ends
      Net(ms) lines further down, and after at least one move its column
      is min(remembered column, length of the line it ends on). */
  lemma {:induction false} StickyColumn(v: View, ms: seq<Vertical>)
    requires Wellformed(v) && Settled(v) && WithinList(v.line, ms, |v.vls|)
    ensures Moves(v, ms).offsetPrev == v.offsetPrev
    ensures Moves(v, ms).line == v.line + Net(ms)
    ensures |ms| > 0 ==> Moves(v, ms).offset == Min(v.vls[Moves(v, ms).line], v.offsetPrev)
    decreases |ms|
  {
    if |ms| > 0 {
      var next := if ms[0] == Down then v.line + 1 else v.line - 1;
      var w := if ms[0] == Down then NextLine(v) else PrevLine(v);
      assert w == Arrive(v, next);
      StickyStep(v, next);
      StickyColumn(w, ms[1..]);
      if |ms| == 1 {
        assert ms[1..] == [];
      }
    }
  }

  /** A step right then a step left, away from the line's end, puts the
      cursor back and makes the remembered column the cursor's column. */
  lemma NextCharPrevChar(v: View)
    requires Wellformed(v) && 0 <= v.offset < v.vls[v.line]
    ensures PrevChar(NextChar(v)) == v.(offsetPrev := v.offset)
  {
  }

  /** A step down then a step up, from a settled cursor, returns to the
      line and column it started at when the column is the remembered one
      and fits both lines. */
  lemma NextLinePrevLine(v: View)
    requires Wellformed(v) && v.line + 1 < |v.vls|
    requires v.offset == v.offsetPrev && v.offset <= v.vls[v.line] && v.offset <= v.vls[v.line + 1]
    ensures PrevLine(NextLine(v)) == v
  {
  }

  /** Going to the line's end and then its start leaves the cursor at
      column 0 with that column remembered. */
  lemma EolBol(v: View)
    requires Wellformed(v)
    ensures Bol(Eol(v)) == Bol(v)
  {
  }

  /** Bof and Eof agree when `last_line` is the first line. */
  lemma BofEofSingleLine(v: View)
    requires Wellformed(v) && v.last == 0
    ensures Bof(v) == Eof(v)
  {
  }
}
