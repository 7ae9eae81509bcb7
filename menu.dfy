/**
 The menu edit rules of the main loop: A and B rotate the picture by a quarter turn,
 UP and DOWN pick the host or the port field, LEFT and RIGHT move that field's
 cursor with wrap-around, L and R cycle the character under the cursor (host:
 '.', '0'..'9'; port: the digits), SELECT toggles the byte swap.
 */
module Menu {

  /** `(rotation + 1) & 3`; `& 3` keeps the two low bits, which for every integer in
      two's complement is the non-negative remainder modulo 4. */
  function RotateCw(rotation: int): (r: int)
    ensures 0 <= r < 4
  {
    (rotation + 1) % 4
  }

  /** `(rotation + 3) & 3` */
  function RotateCcw(rotation: int): (r: int)
    ensures 0 <= r < 4
  {
    (rotation + 3) % 4
  }

  /** A quarter turn either way from rotation 0..3, without wrap-around arithmetic. */
  lemma RotateStep(rotation: int)
    requires 0 <= rotation < 4
    ensures RotateCw(rotation) == if rotation == 3 then 0 else rotation + 1
    ensures RotateCcw(rotation) == if rotation == 0 then 3 else rotation - 1
  {
  }

  /** A and B undo each other, and four presses of A are a full turn. */
  lemma {:induction false} RotationInverses(rotation: int)
    requires 0 <= rotation < 4
    ensures RotateCcw(RotateCw(rotation)) == rotation
    ensures RotateCw(RotateCcw(rotation)) == rotation
    ensures RotateCw(RotateCw(RotateCw(RotateCw(rotation)))) == rotation
  {
    var r1 := RotateCw(rotation);
    var r2 := RotateCw(r1);
    var r3 := RotateCw(r2);
    RotateStep(rotation);
    RotateStep(r1);
    RotateStep(r2);
    RotateStep(r3);
    RotateStep(RotateCcw(rotation));
  }

  /** LEFT: one position back, from the first position to the last. */
  function CursorLeft(cursor: int, len: int): (c: int)
    requires 0 < len && 0 <= cursor < len
    ensures 0 <= c < len
  {
    if cursor > 0 then cursor - 1 else len - 1
  }

  /** RIGHT: one position on, from the last position to the first. */
  function CursorRight(cursor: int, len: int): (c: int)
    requires 0 < len && 0 <= cursor < len
    ensures 0 <= c < len
  {
    if cursor < len - 1 then cursor + 1 else 0
  }

  lemma CursorInverses(cursor: int, len: int)
    requires 0 < len && 0 <= cursor < len
    ensures CursorLeft(CursorRight(cursor, len), len) == cursor
    ensures CursorRight(CursorLeft(cursor, len), len) == cursor
  {
  }

  /** The characters a host field holds. */
  predicate HostChar(c: char)
  {
    c == '.' || '0' <= c <= '9'
  }

  predicate Digit(c: char)
  {
    '0' <= c <= '9'
  }

  /** L on the host field: '.' -> '0' -> ... -> '9' -> '.'; anything else becomes '.'. */
  function HostUp(c: char): (d: char)
    ensures HostChar(d)
  {
    if c == '.' then '0'
    else if '0' <= c < '9' then (c as int + 1) as char
    else '.'
  }

  /** R on the host field: the same cycle backwards; anything else becomes '.'. */
  function HostDown(c: char): (d: char)
    ensures HostChar(d)
  {
    if c == '.' then '9'
    else if '0' < c <= '9' then (c as int - 1) as char
    else '.'
  }

  /** On host characters L and R undo each other. */
  lemma HostInverses(c: char)
    requires HostChar(c)
    ensures HostDown(HostUp(c)) == c
    ensures HostUp(HostDown(c)) == c
  {
  }

  /** Position of a host character in the cycle '.', '0', ..., '9'. */
  function HostIndex(c: char): (i: int)
    requires HostChar(c)
    ensures 0 <= i < 11
  {
    if c == '.' then 0 else c as int - '0' as int + 1
  }

  /** L and R turn the eleven-character cycle one step forwards and backwards, and the
      position determines the character. */
  lemma HostCycle(c: char, d: char)
    requires HostChar(c) && HostChar(d)
    ensures HostIndex(HostUp(c)) == (HostIndex(c) + 1) % 11
    ensures HostIndex(HostDown(c)) == (HostIndex(c) + 10) % 11
    ensures HostIndex(c) == HostIndex(d) ==> c == d
  {
  }

  /** L on the port field: the next digit modulo 10; a non-digit stays. */
  function PortUp(c: char): (d: char)
    ensures Digit(c) <==> Digit(d)
    ensures !Digit(c) ==> d == c
  {
    if '0' <= c <= '9' then ('0' as int + ((c as int - '0' as int + 1) % 10)) as char else c
  }

  /** R on the port field: the previous digit, as +9 modulo 10. */
  function PortDown(c: char): (d: char)
    ensures Digit(c) <==> Digit(d)
    ensures !Digit(c) ==> d == c
  {
    if '0' <= c <= '9' then ('0' as int + ((c as int - '0' as int + 9) % 10)) as char else c
  }

  lemma PortInverses(c: char)
    ensures PortDown(PortUp(c)) == c
    ensures PortUp(PortDown(c)) == c
  {
    if Digit(c) {
      var v := c as int - '0' as int;
      var up := if v == 9 then 0 else v + 1;
      var down := if v == 0 then 9 else v - 1;
      assert PortUp(c) == ('0' as int + up) as char;
      assert PortDown(c) == ('0' as int + down) as char;
    }
  }

  /** The keys pressed in one pass, by the bits the loop tests. */
  datatype Keys = Keys(select: bool, up: bool, down: bool, left: bool, right: bool,
                       a: bool, b: bool, l: bool, r: bool)

  /** The menu's locals; focus 0 is the host field, 1 the port field. */
  datatype State = State(host: string, hostCursor: int, port: string, portCursor: int,
                         focus: int, rotation: int, swap: bool)

  /** What the loop keeps true between passes. */
  ghost predicate Valid(m: State)
  {
    && 0 <= m.hostCursor < |m.host|
    && 0 <= m.portCursor < |m.port|
    && (m.focus == 0 || m.focus == 1)
    && 0 <= m.rotation < 4
    && (forall i :: 0 <= i < |m.host| ==> HostChar(m.host[i]))
    && (forall i :: 0 <= i < |m.port| ==> Digit(m.port[i]))
  }

  /** The state before the first pass. */
  function Initial(): (m: State)
    ensures Valid(m)
    ensures |m.host| == 13 && |m.port| == 4
  {
    State("192.168.2.198", 0, "8080", 0, 0, 0, false)
  }

  function MoveLeft(m: State): (m': State)
    requires Valid(m)
    ensures Valid(m') && |m'.host| == |m.host| && |m'.port| == |m.port|
    ensures m'.host == m.host && m'.port == m.port && m'.focus == m.focus && m'.rotation == m.rotation && m'.swap == m.swap
    ensures m.focus == 0 ==> m'.portCursor == m.portCursor
    ensures m.focus == 1 ==> m'.hostCursor == m.hostCursor
  {
    if m.focus == 0 then m.(hostCursor := CursorLeft(m.hostCursor, |m.host|))
    else m.(portCursor := CursorLeft(m.portCursor, |m.port|))
  }

  function MoveRight(m: State): (m': State)
    requires Valid(m)
    ensures Valid(m') && |m'.host| == |m.host| && |m'.port| == |m.port|
    ensures m'.host == m.host && m'.port == m.port && m'.focus == m.focus && m'.rotation == m.rotation && m'.swap == m.swap
    ensures m.focus == 0 ==> m'.portCursor == m.portCursor
    ensures m.focus == 1 ==> m'.hostCursor == m.hostCursor
  {
    if m.focus == 0 then m.(hostCursor := CursorRight(m.hostCursor, |m.host|))
    else m.(portCursor := CursorRight(m.portCursor, |m.port|))
  }

  function EditUp(m: State): (m': State)
    requires Valid(m)
    ensures Valid(m') && |m'.host| == |m.host| && |m'.port| == |m.port|
    ensures m'.(host := m.host, port := m.port) == m
    ensures m.focus == 0 ==> m'.port == m.port
    ensures m.focus == 0 ==> forall i :: 0 <= i < |m.host| && i != m.hostCursor ==> m'.host[i] == m.host[i]
    ensures m.focus == 1 ==> m'.host == m.host
    ensures m.focus == 1 ==> forall i :: 0 <= i < |m.port| && i != m.portCursor ==> m'.port[i] == m.port[i]
  {
    if m.focus == 0 then m.(host := m.host[m.hostCursor := HostUp(m.host[m.hostCursor])])
    else m.(port := m.port[m.portCursor := PortUp(m.port[m.portCursor])])
  }

  function EditDown(m: State): (m': State)
    requires Valid(m)
    ensures Valid(m') && |m'.host| == |m.host| && |m'.port| == |m.port|
    ensures m'.(host := m.host, port := m.port) == m
    ensures m.focus == 0 ==> m'.port == m.port
    ensures m.focus == 0 ==> forall i :: 0 <= i < |m.host| && i != m.hostCursor ==> m'.host[i] == m.host[i]
    ensures m.focus == 1 ==> m'.host == m.host
    ensures m.focus == 1 ==> forall i :: 0 <= i < |m.port| && i != m.portCursor ==> m'.port[i] == m.port[i]
  {
    if m.focus == 0 then m.(host := m.host[m.hostCursor := HostDown(m.host[m.hostCursor])])
    else m.(port := m.port[m.portCursor := PortDown(m.port[m.portCursor])])
  }

  /** SELECT, UP, DOWN, LEFT and RIGHT. */
  function Navigate(m: State, k: Keys): (m': State)
    requires Valid(m)
    ensures Valid(m') && |m'.host| == |m.host| && |m'.port| == |m.port|
    ensures m'.host == m.host && m'.port == m.port && m'.rotation == m.rotation
    ensures m'.swap == (m.swap != k.select)
    ensures m'.focus == if k.down then 1 else if k.up then 0 else m.focus
  {
    var m1 := if k.select then m.(swap := !m.swap) else m;
    var m2 := if k.up then m1.(focus := 0) else m1;
    var m3 := if k.down then m2.(focus := 1) else m2;
    var m4 := if k.left then MoveLeft(m3) else m3;
    if k.right then MoveRight(m4) else m4
  }

  /** A, B, L and R. */
  function Edit(m: State, k: Keys): (m': State)
    requires Valid(m)
    ensures Valid(m') && |m'.host| == |m.host| && |m'.port| == |m.port|
    ensures m'.hostCursor == m.hostCursor && m'.portCursor == m.portCursor && m'.focus == m.focus
    ensures m'.swap == m.swap
    ensures m'.rotation ==
      if k.a == k.b then m.rotation else if k.a then RotateCw(m.rotation) else RotateCcw(m.rotation)
    ensures !k.l && !k.r ==> m'.host == m.host && m'.port == m.port
  {
    RotationInverses(m.rotation);
    var m6 := if k.a then m.(rotation := RotateCw(m.rotation)) else m;
    var m7 := if k.b then m6.(rotation := RotateCcw(m6.rotation)) else m6;
    var m8 := if k.l then EditUp(m7) else m7;
    if k.r then EditDown(m8) else m8
  }

  /** One pass's menu handling, in the order the loop tests the keys: SELECT, UP,
      DOWN, LEFT, RIGHT, A, B, L, R. */
  function HandleKeys(m: State, k: Keys): (m': State)
    requires Valid(m)
    ensures Valid(m')
    ensures |m'.host| == |m.host| && |m'.port| == |m.port|
  {
    Edit(Navigate(m, k), k)
  }

  /** Pressing L and R together changes nothing, nor do A and B together, nor LEFT and
      RIGHT together: each pair's second key undoes the first. */
  lemma {:induction false} PairsCancel(m: State, k: Keys)
    requires Valid(m)
    requires !k.select && !k.up && !k.down
    requires k.left == k.right && k.a == k.b && k.l == k.r
    ensures HandleKeys(m, k) == m
  {
    var m4 := if k.left then MoveLeft(m) else m;
    var m5 := if k.right then MoveRight(m4) else m4;
    if k.left {
      CursorInverses(m.hostCursor, |m.host|);
      CursorInverses(m.portCursor, |m.port|);
    }
    assert m5 == m;
    RotationInverses(m.rotation);
    if k.l {
      if m.focus == 0 {
        HostInverses(m.host[m.hostCursor]);
        assert m.host[m.hostCursor := HostUp(m.host[m.hostCursor])][m.hostCursor := HostDown(HostUp(m.host[m.hostCursor]))] == m.host;
      } else {
        PortInverses(m.port[m.portCursor]);
        assert m.port[m.portCursor := PortUp(m.port[m.portCursor])][m.portCursor := PortDown(PortUp(m.port[m.portCursor]))] == m.port;
      }
    }
  }
}
