/** The declarations of the editor's header: the line storage constant and
    its bucket arithmetic, the editor modes and status bits, and the value
    held by one line (its content and storage metadata). */
module Snack {
  import opened Utf8

  /** A modelling helper with no counterpart in the header: an optional
      value (a detached rest of a line, the action bound to a key). */
  datatype Option<T> = None | Some(value: T)

  /** LINSIZ: the size of one storage bucket of a line. */
  const LINSIZ: nat := 64

  /** BUCKETS(length): the number of LINSIZ buckets that hold `length` bytes. */
  function Buckets(length: nat): nat
  {
    length / LINSIZ + (if length % LINSIZ != 0 then 1 else 0)
  }

  /** BUCKETS is the ceiling of length / LINSIZ: enough buckets, and no
      bucket more than needed. */
  lemma BucketsIsCeiling(n: nat)
    ensures Buckets(n) * LINSIZ >= n
    ensures n > 0 ==> (Buckets(n) - 1) * LINSIZ < n
    ensures n == 0 <==> Buckets(n) == 0
  {
  }

  lemma BucketsExamples()
    ensures Buckets(0) == 0 && Buckets(1) == 1 && Buckets(64) == 1 && Buckets(65) == 2 && Buckets(128) == 2
  {
  }

  /** BUCKETS is monotone. */
  lemma BucketsMonotone(m: nat, n: nat)
    requires m <= n
    ensures Buckets(m) <= Buckets(n)
  {
    BucketsIsCeiling(m);
    BucketsIsCeiling(n);
  }

  // Modelling helpers with no counterpart in the header.
  function Max(a: int, b: int): int { if a < b then b else a }

  function Min(a: int, b: int): int { if a < b then a else b }

  /** Mode: Mode_normal, Mode_insert, Mode_replace. */
  datatype Mode = Normal | Insert | Replace

  lemma ExactlyThreeModes(m: Mode)
    ensures m == Normal || m == Insert || m == Replace
    ensures Normal != Insert && Insert != Replace && Normal != Replace
  {
  }

  /** The editor status word (a C `long`) and its two flags. */
  type Status = bv64

  const StatusRunning: Status := 1
  const StatusDirty: Status := 2

  /** `status & ~Status_running`. */
  function Stopped(st: Status): Status
  {
    st & !StatusRunning
  }

  /** `status | Status_dirty`. */
  function Dirtied(st: Status): Status
  {
    st | StatusDirty
  }

  /** `status & Status_running`, as a condition. */
  predicate Running(st: Status)
  {
    st & StatusRunning != 0
  }

  /** `status & Status_dirty`, as a condition. */
  predicate Dirty(st: Status)
  {
    st & StatusDirty != 0
  }

  /** Status_running and Status_dirty are distinct bits: clearing
      Status_running leaves Status_dirty as it was. */
  lemma StoppedBits(st: Status)
    ensures !Running(Stopped(st)) && Dirty(Stopped(st)) == Dirty(st)
  {
  }

  /** Setting Status_dirty leaves Status_running as it was. */
  lemma DirtiedBits(st: Status)
    ensures Dirty(Dirtied(st)) && Running(Dirtied(st)) == Running(st)
  {
  }

  /** The newline byte that ends a line segment. */
  const NL: byte := 10

  /** What one Line record holds besides its links: the content bytes c
      (the first `length` bytes of its storage; the storage past them is
      NUL), the number of LINSIZ buckets allocated, the byte length, the
      visual length cached from utf8_characters, and the dirty flag. */
  datatype LineValue = LineValue(c: seq<byte>, buckets: nat, length: int, visualLength: int, dirty: bool)

  /** The cached fields agree with the content: `length` is its byte count
      and `visualLength` what utf8_characters reports for it (possibly ERR). */
  predicate Consistent(v: LineValue)
  {
    v.length == |v.c| && v.visualLength == Characters(v.c)
  }

  /** A line as calloc'd by internal_setup and by the newline split:
      empty, one bucket, not dirty. */
  const EmptyLine: LineValue := LineValue([], 1, 0, 0, false)

  lemma EmptyLineConsistent()
    ensures Consistent(EmptyLine) && EmptyLine.length <= EmptyLine.buckets * LINSIZ
  {
  }
}
