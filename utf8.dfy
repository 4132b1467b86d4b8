/** The editor's UTF-8 helpers: the width of a character from its lead byte,
    the character count of a NUL-terminated string, and reading one possibly
    multi-byte character from the key input into the 7-byte input buffer.
    Lead bytes follow the scheme of RFC 3629 section 3 and also admit the
    obsolete 5- and 6-byte forms of RFC 2279 section 2; there is no check for
    overlong forms or surrogates. */
module Utf8 {

  newtype byte = x: int | 0 <= x < 256

  /** The curses ERR value; utf8_characters returns it for malformed text. */
  const ERR: int := -1

  /** Byte i of the NUL-terminated string whose bytes before the terminator
      are s: every byte from |s| on reads as NUL. */
  function At(s: seq<byte>, i: nat): byte
  {
    if i < |s| then s[i] else 0
  }

  /** strlen: the index of the first NUL byte of s, or |s| if there is none. */
  function Strlen(s: seq<byte>): (n: nat)
    ensures n <= |s|
    ensures forall i :: 0 <= i < n ==> s[i] != 0
    ensures n < |s| ==> s[n] == 0
  {
    if |s| == 0 || s[0] == 0 then 0 else 1 + Strlen(s[1..])
  }

  /** True when the single bit `mask` (a power of two) is clear in b:
      the C test `~ch & mask`. */
  predicate BitClear(b: byte, mask: int)
    requires mask in {0x80, 0x40, 0x20, 0x10, 0x08, 0x04, 0x02, 0x01}
  {
    (b as int / mask) % 2 == 0
  }

  /** utf8_width: the byte count announced by a lead byte. Bits 7, 5, 4, 3,
      2 and 1 are tested in turn; bit 6 is never looked at. */
  function WidthBits(b: byte): (w: nat)
    ensures 1 <= w <= 6
  {
    if BitClear(b, 0x80) then 1
    else if BitClear(b, 0x20) then 2
    else if BitClear(b, 0x10) then 3
    else if BitClear(b, 0x08) then 4
    else if BitClear(b, 0x04) then 5
    else if BitClear(b, 0x02) then 6
    else 1
  }

  /** The same width read off the byte's range: one for ASCII, and
      otherwise given by the six low bits; since bit 6 is ignored, the
      stray continuation bytes 0x80-0xBF get the widths of 0xC0-0xFF. The
      rest of the model uses this form (WidthBitsIsWidth: they agree). */
  function Width(b: byte): (w: nat)
    ensures 1 <= w <= 6
  {
    if b < 0x80 then 1
    else
      var lo := if b < 0xC0 then b as int - 0x80 else b as int - 0xC0;
      if lo < 0x20 then 2 else if lo < 0x30 then 3 else if lo < 0x38 then 4
      else if lo < 0x3C then 5 else if lo < 0x3E then 6 else 1
  }

  /** The test `(ch & 0xC0) == 0x80` of a continuation byte 10xxxxxx: the
      top two bits are 1 and 0. */
  predicate IsContinuation(b: byte)
  {
    0x80 <= b < 0xC0
  }

  /** The bit tests of utf8_width on a byte with the top bit set, from its
      six low bits (bit 6, which they ignore, picks the block base). */
  lemma WidthLow(b: byte, base: int)
    requires base == 0x80 || base == 0xC0
    requires base <= b as int < base + 0x40
    ensures var lo := b as int - base;
      WidthBits(b) == (if lo < 0x20 then 2 else if lo < 0x30 then 3 else if lo < 0x38 then 4
                   else if lo < 0x3C then 5 else if lo < 0x3E then 6 else 1)
  {
    var q := base / 0x20;
    assert b as int / 0x80 == 1;
    var lo := b as int - base;
    if lo < 0x20 {
      assert b as int / 0x20 == q;
    } else if lo < 0x30 {
      assert b as int / 0x20 == q + 1 && b as int / 0x10 == 2 * q + 2;
    } else if lo < 0x38 {
      assert b as int / 0x20 == q + 1 && b as int / 0x10 == 2 * q + 3 && b as int / 0x08 == 4 * q + 6;
    } else if lo < 0x3C {
      assert b as int / 0x20 == q + 1 && b as int / 0x10 == 2 * q + 3 && b as int / 0x08 == 4 * q + 7;
      assert b as int / 0x04 == 8 * q + 14;
    } else if lo < 0x3E {
      assert b as int / 0x20 == q + 1 && b as int / 0x10 == 2 * q + 3 && b as int / 0x08 == 4 * q + 7;
      assert b as int / 0x04 == 8 * q + 15 && b as int / 0x02 == 16 * q + 30;
    } else {
      assert b as int / 0x20 == q + 1 && b as int / 0x10 == 2 * q + 3 && b as int / 0x08 == 4 * q + 7;
      assert b as int / 0x04 == 8 * q + 15 && b as int / 0x02 == 16 * q + 31;
    }
  }
  /** utf8_width's bit tests and the range form agree on every byte. */
  lemma WidthBitsIsWidth(b: byte)
    ensures WidthBits(b) == Width(b)
  {
    if 0x80 <= b < 0xC0 {
      WidthLow(b, 0x80);
    } else if 0xC0 <= b {
      WidthLow(b, 0xC0);
    }
  }

  /** The width of every byte, by range. The lead-byte ranges of RFC 3629
      and RFC 2279 get their announced widths; since bit 6 is ignored, a
      stray continuation byte gets the width of the byte 0x40 above it. */
  lemma WidthByRange(b: byte)
    ensures b < 0x80 ==> WidthBits(b) == 1
    ensures 0xC0 <= b <= 0xDF ==> WidthBits(b) == 2
    ensures 0xE0 <= b <= 0xEF ==> WidthBits(b) == 3
    ensures 0xF0 <= b <= 0xF7 ==> WidthBits(b) == 4
    ensures 0xF8 <= b <= 0xFB ==> WidthBits(b) == 5
    ensures 0xFC <= b <= 0xFD ==> WidthBits(b) == 6
    ensures 0xFE <= b ==> WidthBits(b) == 1
    ensures 0x80 <= b < 0xC0 ==> WidthBits(b) == WidthBits(b + 0x40)
  {
    WidthBitsIsWidth(b);
    if 0x80 <= b < 0xC0 {
      WidthBitsIsWidth(b + 0x40);
    }
  }

  /** All width-1 bytes other than the two above 0xFD are exactly the ASCII
      bytes: a byte with the top bit set announces more than one byte unless
      its six low bits are all ones or end in 111110. */
  lemma WidthOneBytes(b: byte)
    ensures WidthBits(b) == 1 <==> (b < 0x80 || b as int % 0x40 >= 0x3E)
  {
    WidthBitsIsWidth(b);
  }

  /** The next `w - 1` bytes after the lead byte s[0] are continuation bytes. */
  predicate ContinuationsFollow(s: seq<byte>, w: nat)
  {
    forall j :: 1 <= j < w ==> IsContinuation(At(s, j))
  }

  /** If the continuation bytes are all there, they lie inside s (a NUL is
      never a continuation byte). */
  lemma ContinuationsInside(s: seq<byte>, w: nat)
    requires |s| >= 1 && ContinuationsFollow(s, w)
    ensures w <= |s|
  {
    assert !IsContinuation(At(s, |s|));
  }

  /** utf8_characters over the NUL-terminated string whose bytes before the
      terminator are s: walk lead byte by lead byte, each lead byte of width
      w demanding w - 1 continuation bytes; ERR on the first one missing,
      otherwise the number of lead bytes visited. */
  function Characters(s: seq<byte>): (r: int)
    ensures r == ERR || 0 <= r <= |s|
    ensures |s| == 0 ==> r == 0
    decreases |s|
  {
    if |s| == 0 || s[0] == 0 then 0
    else
      var w := Width(s[0]);
      if !ContinuationsFollow(s, w) then ERR
      else
        ContinuationsInside(s, w);
        var rest := Characters(s[w..]);
        if rest == ERR then ERR else 1 + rest
  }

  /** The inner loop of utf8_characters (src/utf8.c:28-31): after the lead
      byte at index lead, check the `Width - 1` bytes that must be
      continuation bytes. On success i is the index after them. */
  method SkipContinuations(s: seq<byte>, lead: nat) returns (ok: bool, i: nat)
    requires lead < |s| && s[lead] != 0
    ensures ok <==> ContinuationsFollow(s[lead..], Width(s[lead]))
    ensures ok ==> i == lead + Width(s[lead]) <= |s|
  {
    i := lead + 1;
    var offset := WidthBits(s[lead]);
    WidthBitsIsWidth(s[lead]);
    if offset > 1 {
      offset := offset - 1;
      while offset > 0
        invariant lead < i <= |s|
        invariant i - lead + offset == Width(s[lead])
        invariant forall j :: 1 <= j < i - lead ==> IsContinuation(At(s[lead..], j))
      {
        if !IsContinuation(At(s, i)) {
          assert At(s[lead..], i - lead) == At(s, i);
          return false, i + 1;
        }
        assert At(s[lead..], i - lead) == At(s, i);
        i := i + 1;
        offset := offset - 1;
      }
    }
    ok := true;
  }

  /** The outer loop of utf8_characters (src/utf8.c:21-34), lead byte by
      lead byte. */
  method CountCharacters(s: seq<byte>) returns (r: int)
    ensures r == Characters(s)
  {
    var i: nat := 0;
    var length := 0;
    while At(s, i) != 0
      invariant i <= |s|
      invariant Characters(s) == (var rest := Characters(s[i..]); if rest == ERR then ERR else length + rest)
      decreases |s| - i
    {
      var lead := i;
      length := length + 1;
      var ok;
      ok, i := SkipContinuations(s, lead);
      if !ok {
        return ERR;
      }
      assert s[lead..][Width(s[lead])..] == s[i..];
    }
    assert Characters(s[i..]) == 0;
    r := length;
  }

  /** All bytes are nonzero ASCII. */
  predicate IsAscii(s: seq<byte>)
  {
    forall i :: 0 <= i < |s| ==> 0 < s[i] < 0x80
  }

  /** For NUL-free ASCII text the character count is the byte length. */
  lemma {:induction false} CharactersAscii(s: seq<byte>)
    requires IsAscii(s)
    ensures Characters(s) == |s|
    decreases |s|
  {
    if |s| > 0 {
      assert IsAscii(s[1..]);
      CharactersAscii(s[1..]);
    }
  }

  /** An ASCII byte in front adds one character, and keeps an ERR. */
  lemma CharactersAsciiCons(b: byte, s: seq<byte>)
    requires 0 < b < 0x80
    ensures Characters([b] + s) == if Characters(s) == ERR then ERR else 1 + Characters(s)
  {
    assert ([b] + s)[1..] == s;
  }

  /** A lead byte announcing two or more bytes that is not followed by a
      continuation byte makes the text malformed. */
  lemma CharactersMissingContinuation(s: seq<byte>)
    requires |s| >= 2 && s[0] != 0 && Width(s[0]) >= 2 && !IsContinuation(s[1])
    ensures Characters(s) == ERR
  {
    assert At(s, 1) == s[1];
  }

  /** One encoded character: a non-NUL lead byte followed by exactly the
      continuation bytes its width announces. */
  predicate IsChunk(x: seq<byte>)
  {
    && |x| >= 1
    && x[0] != 0
    && |x| == Width(x[0])
    && forall j :: 1 <= j < |x| ==> IsContinuation(x[j])
  }

  function Flatten(xs: seq<seq<byte>>): seq<byte>
  {
    if |xs| == 0 then [] else xs[0] + Flatten(xs[1..])
  }

  /** xs cuts the string held in s, up to its terminator, into characters. */
  ghost predicate Decomposes(xs: seq<seq<byte>>, s: seq<byte>)
  {
    && (forall k :: 0 <= k < |xs| ==> IsChunk(xs[k]))
    && Flatten(xs) == s[..Strlen(s)]
  }

  /** A whole character in front adds one to the count, and keeps an ERR. */
  lemma CharactersChunkCons(x: seq<byte>, rest: seq<byte>)
    requires IsChunk(x)
    ensures Characters(x + rest) == if Characters(rest) == ERR then ERR else 1 + Characters(rest)
  {
    var s := x + rest;
    assert s[0] == x[0];
    forall j | 1 <= j < |x| ensures IsContinuation(At(s, j)) {
      assert At(s, j) == x[j];
    }
    assert s[|x|..] == rest;
  }

  /** A string that is a run of whole characters, followed by its terminator
      or the end, counts one per character. */
  lemma {:induction false} CharactersOfChunks(xs: seq<seq<byte>>, tail: seq<byte>)
    requires forall k :: 0 <= k < |xs| ==> IsChunk(xs[k])
    requires tail == [] || tail[0] == 0
    ensures Characters(Flatten(xs) + tail) == |xs|
    decreases |xs|
  {
    if |xs| > 0 {
      var rest := Flatten(xs[1..]) + tail;
      assert Flatten(xs) + tail == xs[0] + rest;
      CharactersChunkCons(xs[0], rest);
      CharactersOfChunks(xs[1..], tail);
    } else {
      assert Flatten(xs) + tail == tail;
    }
  }

  /** A count other than ERR comes with the cut of the string into that many
      characters. */
  lemma {:induction false} CharactersSound(s: seq<byte>) returns (xs: seq<seq<byte>>)
    requires Characters(s) != ERR
    ensures Decomposes(xs, s) && |xs| == Characters(s)
    decreases |s|
  {
    if |s| == 0 || s[0] == 0 {
      xs := [];
    } else {
      var w := Width(s[0]);
      var x := LeadChunk(s);
      assert Characters(s) == 1 + Characters(s[w..]);
      var ys := CharactersSound(s[w..]);
      xs := [x] + ys;
      DecomposesCons(s, x, ys);
    }
  }

  /** A leading character followed by a cut of the rest is a cut of the
      whole string. */
  lemma DecomposesCons(s: seq<byte>, x: seq<byte>, ys: seq<seq<byte>>)
    requires IsChunk(x) && |x| <= |s| && x == s[..|x|]
    requires Decomposes(ys, s[|x|..])
    ensures Decomposes([x] + ys, s)
  {
    var w := |x|;
    var xs := [x] + ys;
    assert xs[1..] == ys;
    assert Flatten(xs) == x + Flatten(ys);
    forall j | 0 <= j < w ensures s[j] != 0 {
      assert s[j] == x[j];
    }
    StrlenAfterChunk(s, w);
    assert s[..Strlen(s)] == x + s[w..][..Strlen(s[w..])];
  }

  /** The first character of a string whose count is not ERR. */
  lemma LeadChunk(s: seq<byte>) returns (x: seq<byte>)
    requires |s| > 0 && s[0] != 0 && ContinuationsFollow(s, Width(s[0]))
    ensures Width(s[0]) <= |s| && x == s[..Width(s[0])] && IsChunk(x)
    ensures forall j :: 0 <= j < |x| ==> s[j] != 0
  {
    var w := Width(s[0]);
    ContinuationsInside(s, w);
    x := s[..w];
    forall j | 1 <= j < w ensures IsContinuation(x[j]) && x[j] != 0 {
      assert x[j] == At(s, j);
    }
  }

  lemma StrlenAfterChunk(s: seq<byte>, w: nat)
    requires 1 <= w <= |s| && forall j :: 0 <= j < w ==> s[j] != 0
    ensures Strlen(s) == w + Strlen(s[w..])
    decreases w
  {
    if w > 1 {
      assert s[1..][w - 1..] == s[w..];
      StrlenAfterChunk(s[1..], w - 1);
    }
  }

  /** utf8_characters reports ERR exactly when the string held in s cannot
      be cut into whole characters, i.e. when some lead byte is not followed
      by as many continuation bytes as it announces. */
  lemma MalformedIff(s: seq<byte>)
    ensures Characters(s) == ERR <==> !exists xs :: Decomposes(xs, s)
  {
    if Characters(s) != ERR {
      var xs := CharactersSound(s);
    } else if xs: seq<seq<byte>> :| Decomposes(xs, s) {
      var n := Strlen(s);
      assert s == s[..n] + s[n..];
      CharactersOfChunks(xs, s[n..]);
      assert false;
    }
  }

  /** The RFC 3629 encoding of one Unicode scalar value. */
  function EncodeScalar(cp: int): (x: seq<byte>)
    requires IsScalar(cp)
  {
    if cp < 0x80 then [cp as byte]
    else if cp < 0x800 then [(0xC0 + cp / 0x40) as byte, (0x80 + cp % 0x40) as byte]
    else if cp < 0x10000 then
      [(0xE0 + cp / 0x1000) as byte, (0x80 + cp / 0x40 % 0x40) as byte, (0x80 + cp % 0x40) as byte]
    else
      [(0xF0 + cp / 0x40000) as byte, (0x80 + cp / 0x1000 % 0x40) as byte,
       (0x80 + cp / 0x40 % 0x40) as byte, (0x80 + cp % 0x40) as byte]
  }

  /** A Unicode scalar value other than NUL (a NUL would end the string). */
  predicate IsScalar(cp: int)
  {
    0 < cp <= 0x10FFFF && !(0xD800 <= cp <= 0xDFFF)
  }

  function EncodeAll(cps: seq<int>): seq<seq<byte>>
    requires forall k :: 0 <= k < |cps| ==> IsScalar(cps[k])
  {
    seq(|cps|, k requires 0 <= k < |cps| => EncodeScalar(cps[k]))
  }

  lemma EncodeIsChunk(cp: int)
    requires IsScalar(cp)
    ensures IsChunk(EncodeScalar(cp))
  {
    var x := EncodeScalar(cp);
  }

  /** For well-formed, NUL-free UTF-8 text, utf8_characters counts the
      Unicode scalar values that were encoded. */
  lemma CharactersOfEncoding(cps: seq<int>)
    requires forall k :: 0 <= k < |cps| ==> IsScalar(cps[k])
    ensures Characters(Flatten(EncodeAll(cps))) == |cps|
  {
    var xs := EncodeAll(cps);
    forall k | 0 <= k < |xs| ensures IsChunk(xs[k]) {
      EncodeIsChunk(cps[k]);
    }
    CharactersOfChunks(xs, []);
    assert Flatten(xs) + [] == Flatten(xs);
  }

  // ---------------------------------------------------------------------
  // utf8_wgetch

  /** The result of one wgetch call stored into a `char`: only the low eight
      bits survive (the platform's char is taken to be signed). */
  function ToChar(r: int): byte
  {
    (r % 256) as byte
  }

  /** `ch == ERR` after the store: ERR itself, and also every key code whose
      low byte is 0xFF, since that char is -1. */
  predicate ReadsAsErr(r: int)
  {
    ToChar(r) == 0xFF
  }

  /** The j-th read result of the input; an exhausted input reads as ERR. */
  function ReadAt(input: seq<int>, j: nat): int
  {
    if j < |input| then input[j] else ERR
  }

  /** The slot at which the byte-collecting loop of utf8_wgetch stops,
      scanning slots j .. w - 1: the first read that comes back ERR, or w. */
  function FirstFail(input: seq<int>, j: nat, w: nat): (n: nat)
    requires 1 <= j <= w
    ensures j <= n <= w
    ensures forall k :: j <= k < n ==> !ReadsAsErr(ReadAt(input, k))
    ensures n < w ==> ReadsAsErr(ReadAt(input, n))
    decreases w - j
  {
    if j == w || ReadsAsErr(ReadAt(input, j)) then j else FirstFail(input, j + 1, w)
  }

  /** How many read results one utf8_wgetch call consumes when its first read
      succeeds: the bytes collected plus the failing read, if any. */
  function Consumed(input: seq<int>): (k: nat)
    ensures 1 <= k <= Width(ToChar(ReadAt(input, 0)))
  {
    var w := Width(ToChar(ReadAt(input, 0)));
    var n := if w > 1 then FirstFail(input, 1, w) else 1;
    if n < w then n + 1 else n
  }

  /** The input left after k reads. */
  function Drop(input: seq<int>, k: nat): seq<int>
  {
    if k <= |input| then input[k..] else []
  }

  /** The seven bytes utf8_wgetch leaves in the input buffer when its first
      read succeeds: the lead byte, the bytes read before the first read
      that fails, and NULs after them. */
  function Keystroke(input: seq<int>): (key: seq<byte>)
    requires !ReadsAsErr(ReadAt(input, 0))
    ensures |key| == 7 && key[0] == ToChar(input[0]) && key[6] == 0
  {
    var w := Width(ToChar(input[0]));
    var n := if w > 1 then FirstFail(input, 1, w) else 1;
    seq(7, k requires 0 <= k < 7 => if k == 0 then ToChar(input[0]) else if k < n then ToChar(ReadAt(input, k)) else 0)
  }

  /** An ASCII read is a one-byte keystroke that consumes one read. */
  lemma KeystrokeAscii(input: seq<int>)
    requires |input| > 0 && ToChar(input[0]) < 0x80
    ensures !ReadsAsErr(ReadAt(input, 0))
    ensures Keystroke(input) == [ToChar(input[0]), 0, 0, 0, 0, 0, 0]
    ensures Consumed(input) == 1
    ensures Strlen(Keystroke(input)) == if ToChar(input[0]) == 0 then 0 else 1
  {
    var key := Keystroke(input);
    assert key == [ToChar(input[0]), 0, 0, 0, 0, 0, 0];
    if ToChar(input[0]) != 0 {
      assert key[1..][0] == 0;
    }
  }

  /** The multi-byte branch of utf8_wgetch (src/utf8.c:50-55): read the
      continuation bytes of a character of width w into c[1..], stopping
      at the first read that comes back ERR, then clear the rest of the
      buffer. Returns the number of reads made, the lead byte's included. */
  method ReadContinuations(c: array<byte>, input: seq<int>, w: nat) returns (nread: nat)
    requires c.Length == 7 && 1 < w <= 6
    modifies c
    ensures c[0] == old(c[0])
    ensures var n := FirstFail(input, 1, w);
      && (forall k :: 1 <= k < n ==> c[k] == ToChar(ReadAt(input, k)) && c[k] != 0xFF)
      && (forall k :: n <= k < 7 ==> c[k] == 0)
      && nread == (if n < w then n + 1 else n)
  {
    nread := 1;
    var i := 1;
    while i < w
      invariant 1 <= i <= w
      invariant FirstFail(input, 1, w) == FirstFail(input, i, w)
      invariant nread == i
      invariant c[0] == old(c[0])
      invariant forall k :: 1 <= k < i ==> c[k] == ToChar(ReadAt(input, k)) && c[k] != 0xFF
    {
      c[i] := ToChar(ReadAt(input, i));
      nread := nread + 1;
      if c[i] == 0xFF {
        break;
      }
      i := i + 1;
    }
    ghost var n := i;
    while i < 7
      invariant n <= i <= 7
      invariant c[0] == old(c[0])
      invariant forall k :: 1 <= k < n ==> c[k] == ToChar(ReadAt(input, k)) && c[k] != 0xFF
      invariant forall k :: n <= k < i ==> c[k] == 0
    {
      c[i] := 0;
      i := i + 1;
    }
  }

  /** utf8_wgetch: read one character into the 7-byte buffer c. Returns ERR
      (leaving c alone) when the first read fails, and otherwise the width
      announced by c[0], even if fewer bytes arrived. */
  method Wgetch(c: array<byte>, input: seq<int>) returns (r: int, rest: seq<int>)
    requires c.Length == 7
    modifies c
    ensures ReadsAsErr(ReadAt(input, 0)) ==>
      r == ERR && c[..] == old(c[..]) && rest == Drop(input, 1)
    ensures !ReadsAsErr(ReadAt(input, 0)) ==>
      var w := Width(ToChar(input[0]));
      var n := if w > 1 then FirstFail(input, 1, w) else 1;
      && r == w
      && c[0] == ToChar(input[0])
      && (forall k :: 1 <= k < n ==> c[k] == ToChar(ReadAt(input, k)) && c[k] != 0xFF)
      && (forall k :: n <= k < 7 ==> c[k] == 0)
      && rest == Drop(input, Consumed(input))
    ensures !ReadsAsErr(ReadAt(input, 0)) ==> c[..] == Keystroke(input)
  {
    var nread := 1;
    var ch := ToChar(ReadAt(input, 0));
    if ch == 0xFF {
      return ERR, Drop(input, nread);
    }
    c[0] := ch;
    var cWidth := WidthBits(ch);
    WidthBitsIsWidth(ch);
    if cWidth > 1 {
      nread := ReadContinuations(c, input, cWidth);
    } else {
      c[1], c[2], c[3], c[4], c[5], c[6] := 0, 0, 0, 0, 0, 0;
    }
    r := cWidth;
    rest := Drop(input, nread);
    assert c[..] == Keystroke(input);
  }
}
