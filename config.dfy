/** The key bindings of src/config.h and the table lookup of
    internal_command (src/snack.c:44-61): the first entry whose mode is the
    current one and whose operator begins with the keystroke. */
module Config {
  import opened Utf8
  import opened Snack

  /** The actions a key mapping can name (the bool action_* functions of
      src/snack.c). */
  datatype Action =
    | Quit | ModeInsert | ModeNormal
    | MovePrevChar | MoveNextLine | MovePrevLine | MoveNextChar
    | MoveBof | MoveEof | MoveBol | MoveEol
    | InsertLine

  /** KeyMapping: the mode it applies to, the operator string (its bytes
      before the NUL terminator) and the action. */
  datatype KeyMapping = KeyMapping(mode: Mode, operator: seq<byte>, action: Action)

  /** key_maps, in table order (src/config.h:96-112). */
  const KeyMaps: seq<KeyMapping> := [
    KeyMapping(Normal, [113], Quit),          // "q"
    KeyMapping(Normal, [105], ModeInsert),    // "i"
    KeyMapping(Insert, [0x1B], ModeNormal),   // "\033"
    KeyMapping(Normal, [104], MovePrevChar),  // "h"
    KeyMapping(Normal, [106], MoveNextLine),  // "j"
    KeyMapping(Normal, [107], MovePrevLine),  // "k"
    KeyMapping(Normal, [108], MoveNextChar),  // "l"
    KeyMapping(Normal, [72], MoveBof),        // "H"
    KeyMapping(Normal, [76], MoveEof),        // "L"
    KeyMapping(Normal, [71], MoveEof),        // "G"
    KeyMapping(Normal, [48], MoveBol),        // "0"
    KeyMapping(Normal, [36], MoveEol)         // "$"
  ]

  /** strncmp(s1, s2, n) == 0 for the NUL-terminated strings s1 and s2,
      looking from byte i on: the bytes agree up to index n or up to a
      common NUL, whichever comes first. */
  function StrncmpEqualFrom(s1: seq<byte>, s2: seq<byte>, n: nat, i: nat): (r: bool)
    ensures r <==> forall j :: i <= j < n && (forall h :: i <= h < j ==> At(s1, h) != 0) ==> At(s1, j) == At(s2, j)
    decreases n - i
  {
    if i >= n then true
    else if At(s1, i) != At(s2, i) then false
    else if At(s1, i) == 0 then true
    else StrncmpEqualFrom(s1, s2, n, i + 1)
  }

  /** strncmp(s1, s2, n) == 0. */
  function StrncmpEqual(s1: seq<byte>, s2: seq<byte>, n: nat): bool
  {
    StrncmpEqualFrom(s1, s2, n, 0)
  }

  /** The test of src/snack.c:53-54 for one entry: same mode, and the
      operator begins with the keystroke (strncmp over strlen(c) bytes). */
  predicate Matches(e: KeyMapping, mode: Mode, key: seq<byte>)
  {
    e.mode == mode && StrncmpEqual(key, e.operator, Strlen(key))
  }

  /** The index of the first entry of `maps` from i on that matches, or
      |maps| if none does. */
  function FirstMatch(maps: seq<KeyMapping>, mode: Mode, key: seq<byte>, i: nat): (j: nat)
    requires i <= |maps|
    ensures i <= j <= |maps|
    ensures j < |maps| ==> Matches(maps[j], mode, key)
    ensures forall h :: i <= h < j ==> !Matches(maps[h], mode, key)
    decreases |maps| - i
  {
    if i == |maps| then i
    else if Matches(maps[i], mode, key) then i
    else FirstMatch(maps, mode, key, i + 1)
  }

  /** The action internal_command runs for a keystroke in a mode, if any. */
  function Lookup(mode: Mode, key: seq<byte>): Option<Action>
  {
    var j := FirstMatch(KeyMaps, mode, key, 0);
    if j < |KeyMaps| then Some(KeyMaps[j].action) else None
  }

  /** Every operator in the table is a single non-NUL byte. */
  lemma OperatorsAreOneByte()
    ensures forall h :: 0 <= h < |KeyMaps| ==> |KeyMaps[h].operator| == 1 && KeyMaps[h].operator[0] != 0
  {
  }

  /** Against a one-byte operator, the prefix test of a non-empty
      keystroke is exact equality: the keystroke must be that one byte. */
  lemma PrefixTestIsEquality(key: seq<byte>, op: seq<byte>)
    requires |op| == 1 && op[0] != 0 && Strlen(key) >= 1
    ensures StrncmpEqual(key, op, Strlen(key)) <==> key[..Strlen(key)] == op
  {
    var n := Strlen(key);
    if StrncmpEqual(key, op, n) {
      assert At(key, 0) == At(op, 0);
      var j: nat := if n > 1 then 1 else 0;
      assert At(key, j) == At(op, j) && At(key, j) != 0;
      assert key[..n] == [key[0]];
    }
    if key[..n] == op {
      assert At(key, 0) == At(op, 0) by {
        assert key[0] == key[..n][0];
      }
    }
  }

  /** Against a one-byte operator, an empty keystroke always passes the
      prefix test. */
  lemma EmptyKeyMatchesAll(key: seq<byte>, op: seq<byte>)
    requires Strlen(key) == 0
    ensures StrncmpEqual(key, op, Strlen(key))
  {
  }

  /** A non-empty keystroke selects the entry for its mode whose operator
      is exactly the keystroke. */
  lemma {:induction false} LookupExact(mode: Mode, key: seq<byte>, i: nat)
    requires Strlen(key) >= 1 && i <= |KeyMaps|
    ensures forall h :: i <= h < |KeyMaps| ==>
        (Matches(KeyMaps[h], mode, key) <==> KeyMaps[h].mode == mode && KeyMaps[h].operator == key[..Strlen(key)])
  {
    OperatorsAreOneByte();
    forall h | i <= h < |KeyMaps|
      ensures Matches(KeyMaps[h], mode, key) <==> KeyMaps[h].mode == mode && KeyMaps[h].operator == key[..Strlen(key)]
    {
      PrefixTestIsEquality(key, KeyMaps[h].operator);
    }
  }

  /** The bindings of Normal and Insert mode (src/config.h:98-111), for the
      one-byte keystroke b. */
  function Binding(mode: Mode, b: byte): Option<Action>
  {
    match mode
    case Normal =>
      if b == 113 then Some(Quit)
      else if b == 105 then Some(ModeInsert)
      else if b == 104 then Some(MovePrevChar)
      else if b == 106 then Some(MoveNextLine)
      else if b == 107 then Some(MovePrevLine)
      else if b == 108 then Some(MoveNextChar)
      else if b == 72 then Some(MoveBof)
      else if b == 76 || b == 71 then Some(MoveEof)
      else if b == 48 then Some(MoveBol)
      else if b == 36 then Some(MoveEol)
      else None
    case Insert => if b == 0x1B then Some(ModeNormal) else None
    case Replace => None
  }

  /** A one-byte keystroke matches exactly the entries of its mode whose
      operator byte it is. */
  lemma MatchesOneByte(mode: Mode, key: seq<byte>)
    requires Strlen(key) == 1
    ensures forall h :: 0 <= h < |KeyMaps| ==>
      (Matches(KeyMaps[h], mode, key) <==> KeyMaps[h].mode == mode && KeyMaps[h].operator[0] == key[0])
  {
    LookupExact(mode, key, 0);
    OperatorsAreOneByte();
    assert key[..1] == [key[0]];
  }

  /** A one-byte keystroke gets its binding in Normal mode. */
  lemma LookupNormalByte(key: seq<byte>)
    requires Strlen(key) == 1
    ensures Lookup(Normal, key) == Binding(Normal, key[0])
  {
    MatchesOneByte(Normal, key);
  }

  /** A one-byte keystroke gets its binding in Insert mode. */
  lemma LookupInsertByte(key: seq<byte>)
    requires Strlen(key) == 1
    ensures Lookup(Insert, key) == Binding(Insert, key[0])
  {
    MatchesOneByte(Insert, key);
  }

  /** A one-byte keystroke gets its binding. */
  lemma LookupOneByte(mode: Mode, key: seq<byte>)
    requires Strlen(key) == 1
    ensures Lookup(mode, key) == Binding(mode, key[0])
  {
    match mode
    case Normal => LookupNormalByte(key);
    case Insert => LookupInsertByte(key);
    case Replace => NoReplaceNoInsertLine(mode, key);
  }

  /** A keystroke of more than one byte (a multi-byte character) matches
      nothing. */
  lemma LookupLong(mode: Mode, key: seq<byte>)
    requires Strlen(key) > 1
    ensures Lookup(mode, key) == None
  {
    var n := Strlen(key);
    LookupExact(mode, key, 0);
    OperatorsAreOneByte();
    forall h | 0 <= h < |KeyMaps|
      ensures !Matches(KeyMaps[h], mode, key)
    {
      assert |key[..n]| == n;
    }
  }

  /** The empty keystroke gets the first entry of the mode. */
  lemma LookupEmpty(mode: Mode, key: seq<byte>)
    requires Strlen(key) == 0
    ensures Lookup(mode, key) == match mode
      case Normal => Some(Quit)
      case Insert => Some(ModeNormal)
      case Replace => None
  {
    assert Matches(KeyMaps[0], Normal, key);
    if mode == Insert {
      assert !Matches(KeyMaps[0], mode, key) && !Matches(KeyMaps[1], mode, key);
      assert Matches(KeyMaps[2], mode, key);
    } else if mode == Replace {
      NoReplaceNoInsertLine(mode, key);
    }
  }

  /** The lookup of a keystroke: a one-byte keystroke gets its binding, a
      longer one matches nothing, and the empty keystroke gets the first
      entry of the mode (so a NUL key quits in Normal mode). */
  lemma LookupTable(mode: Mode, key: seq<byte>)
    ensures Strlen(key) == 1 ==> Lookup(mode, key) == Binding(mode, key[0])
    ensures Strlen(key) > 1 ==> Lookup(mode, key) == None
    ensures Strlen(key) == 0 ==> Lookup(mode, key) == match mode
      case Normal => Some(Quit)
      case Insert => Some(ModeNormal)
      case Replace => None
  {
    var n := Strlen(key);
    if n == 1 {
      LookupOneByte(mode, key);
    } else if n > 1 {
      LookupLong(mode, key);
    } else {
      LookupEmpty(mode, key);
    }
  }

  /** The action bound to a keystroke, read off the table once and for
      all: a one-byte keystroke gets its binding, a longer one nothing, and
      the empty keystroke the first entry of the mode. */
  function Bound(mode: Mode, key: seq<byte>): Option<Action>
  {
    var n := Strlen(key);
    if n == 1 then Binding(mode, key[0])
    else if n > 1 then None
    else match mode
      case Normal => Some(Quit)
      case Insert => Some(ModeNormal)
      case Replace => None
  }

  /** internal_command's lookup is the binding. */
  lemma LookupIsBound(mode: Mode, key: seq<byte>)
    ensures Lookup(mode, key) == Bound(mode, key)
  {
    LookupTable(mode, key);
  }

  /** No entry is for Replace mode and none names action_insert_line. */
  lemma TableModesActions()
    ensures forall h :: 0 <= h < |KeyMaps| ==> KeyMaps[h].mode != Replace && KeyMaps[h].action != InsertLine
  {
  }

  /** Neither the keys of Replace mode nor action_insert_line are
      reachable by dispatch. */
  lemma NoReplaceNoInsertLine(mode: Mode, key: seq<byte>)
    ensures Lookup(Replace, key) == None
    ensures Lookup(mode, key) != Some(InsertLine)
  {
    TableModesActions();
    var j := FirstMatch(KeyMaps, mode, key, 0);
    assert j < |KeyMaps| ==> KeyMaps[j].action != InsertLine;
  }

  /** No two entries share a mode and an operator, so for a non-empty
      keystroke the order of the table does not matter. */
  lemma DistinctPairs()
    ensures forall i, j :: 0 <= i < j < |KeyMaps| ==>
      KeyMaps[i].mode != KeyMaps[j].mode || KeyMaps[i].operator != KeyMaps[j].operator
  {
  }
}
