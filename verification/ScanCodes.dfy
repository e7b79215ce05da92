/** The PS/2 scan-code decoder of kernel/keyboard.c as values, and its closed form over any history. */
module ScanCodes {
  import opened MachineTypes

  const SHIFT_MAKE: set<byte> := {0x2A, 0x36}
  const SHIFT_BREAK: set<byte> := {0xAA, 0xB6}
  const CTRL_MAKE: byte := 0x1D
  const CTRL_BREAK: byte := 0x9D
  const CAPS: byte := 0x3A
  const NUM: byte := 0x45
  const SCROLL: byte := 0xC6
  const EXTENDED: byte := 0xE0

  const KEY_RIGHT: byte := 4
  const KEY_LEFT: byte := 5
  const KEY_DOWN: byte := 6
  const KEY_UP: byte := 7

  /** The character of a scan code without shift; 0 for none, and for every code beyond the table's 59. */
  function PlainChar(code: byte): byte {
    match code
    case 2 => 49 case 3 => 50 case 4 => 51 case 5 => 52 case 6 => 53 case 7 => 54 case 8 => 55
    case 9 => 56 case 10 => 57 case 11 => 48 case 12 => 45 case 13 => 61 case 14 => 8 case 15 => 9
    case 16 => 113 case 17 => 119 case 18 => 101 case 19 => 114 case 20 => 116 case 21 => 121 case 22 => 117
    case 23 => 105 case 24 => 111 case 25 => 112 case 26 => 91 case 27 => 93 case 28 => 10 case 30 => 97
    case 31 => 115 case 32 => 100 case 33 => 102 case 34 => 103 case 35 => 104 case 36 => 106 case 37 => 107
    case 38 => 108 case 39 => 59 case 40 => 39 case 41 => 96 case 43 => 92 case 44 => 122 case 45 => 120
    case 46 => 99 case 47 => 118 case 48 => 98 case 49 => 110 case 50 => 109 case 51 => 44 case 52 => 46
    case 53 => 47 case 55 => 42 case 57 => 32
    case _ => 0
  }

  /** The character of a scan code with shift; letters are not yet in upper case. */
  function ShiftedChar(code: byte): byte {
    match code
    case 2 => 33 case 3 => 64 case 4 => 35 case 5 => 36 case 6 => 37 case 7 => 94 case 8 => 38
    case 9 => 42 case 10 => 40 case 11 => 41 case 12 => 95 case 13 => 43 case 14 => 8 case 15 => 9
    case 16 => 113 case 17 => 119 case 18 => 101 case 19 => 114 case 20 => 116 case 21 => 121 case 22 => 117
    case 23 => 105 case 24 => 111 case 25 => 112 case 26 => 123 case 27 => 125 case 28 => 10 case 30 => 97
    case 31 => 115 case 32 => 100 case 33 => 102 case 34 => 103 case 35 => 104 case 36 => 106 case 37 => 107
    case 38 => 108 case 39 => 58 case 40 => 34 case 41 => 126 case 43 => 124 case 44 => 122 case 45 => 120
    case 46 => 99 case 47 => 118 case 48 => 98 case 49 => 110 case 50 => 109 case 51 => 60 case 52 => 62
    case 53 => 63 case 55 => 42 case 57 => 32
    case _ => 0
  }

  function CharOf(code: byte, shift: bool): byte {
    if shift then ShiftedChar(code) else PlainChar(code)
  }

  predicate IsLower(c: byte) { 97 <= c <= 122 }

  predicate IsUpper(c: byte) { 65 <= c <= 90 }

  datatype Modifiers = Modifiers(
    shift: bool, ctrl: bool, numLock: bool, scrollLock: bool, capsLock: bool, extended: bool)

  const NO_MODIFIERS := Modifiers(false, false, false, false, false, false)

  /** The arrow that a code stands for after the prefix byte; 0 for other codes. */
  function Arrow(code: byte): byte {
    if code == 0x48 then KEY_UP else if code == 0x50 then KEY_DOWN
    else if code == 0x4B then KEY_LEFT else if code == 0x4D then KEY_RIGHT else 0
  }

  /** Codes that only change modifiers. */
  predicate IsModifier(code: byte) {
    code in SHIFT_MAKE || code in SHIFT_BREAK || code == CTRL_MAKE || code == CTRL_BREAK
    || code == CAPS || code == NUM || code == SCROLL || code == EXTENDED
  }

  /** The key that a code produces; 0 for none. */
  function KeyOf(m: Modifiers, code: byte): byte {
    if IsModifier(code) then 0
    else if m.extended && Arrow(code) != 0 then Arrow(code)
    else
      var c := CharOf(code, m.shift);
      if IsLower(c) && (m.shift || m.capsLock) then c - 32 else c
  }

  function NextModifiers(m: Modifiers, code: byte): Modifiers {
    Modifiers(
      if code in SHIFT_MAKE then true else if code in SHIFT_BREAK then false else m.shift,
      if code == CTRL_MAKE then true else if code == CTRL_BREAK then false else m.ctrl,
      if code == NUM then !m.numLock else m.numLock,
      if code == SCROLL then !m.scrollLock else m.scrollLock,
      if code == CAPS then !m.capsLock else m.capsLock,
      code == EXTENDED)
  }

  /** The decoder after a history of codes. */
  function After(codes: seq<byte>): Modifiers {
    if codes == [] then NO_MODIFIERS
    else NextModifiers(After(codes[..|codes| - 1]), codes[|codes| - 1])
  }

  /** The key that the i-th code of a history produces. */
  function KeyAt(codes: seq<byte>, i: nat): byte
    requires i < |codes|
  {
    KeyOf(After(codes[..i]), codes[i])
  }

  // ----- Closed form over any history -----

  /** Some make code has come that no break code has followed. */
  ghost predicate Held(codes: seq<byte>, make: set<byte>, release: set<byte>) {
    exists i | 0 <= i < |codes| :: codes[i] in make && forall j | i < j < |codes| :: codes[j] !in release
  }

  lemma HeldSnoc(codes: seq<byte>, code: byte, make: set<byte>, release: set<byte>)
    requires make !! release
    ensures Held(codes + [code], make, release)
       <==> code in make || (code !in release && Held(codes, make, release))
  {
    var all := codes + [code];
    if code in make {
      assert all[|codes|] in make;
    }
    if code !in release && Held(codes, make, release) {
      var i :| 0 <= i < |codes| && codes[i] in make && forall j | i < j < |codes| :: codes[j] !in release;
      assert all[i] in make;
    }
    if code !in make && Held(all, make, release) {
      var i :| 0 <= i < |all| && all[i] in make && forall j | i < j < |all| :: all[j] !in release;
      assert i < |codes| && codes[i] == all[i] && code == all[|codes|];
      assert forall j | i < j < |codes| :: codes[j] == all[j];
    }
  }

  lemma CountSnoc(codes: seq<byte>, code: byte, x: byte)
    ensures multiset(codes + [code])[x] % 2 == 1 <==> (multiset(codes)[x] % 2 == 1) != (code == x)
  {
    var m: multiset<byte> := multiset(codes);
    assert multiset(codes + [code]) == m + multiset{code};
  }

  lemma {:induction false} LocksClosedForm(codes: seq<byte>)
    ensures var m := After(codes);
      && (m.capsLock <==> multiset(codes)[CAPS] % 2 == 1)
      && (m.numLock <==> multiset(codes)[NUM] % 2 == 1)
      && (m.scrollLock <==> multiset(codes)[SCROLL] % 2 == 1)
  {
    if codes != [] {
      var n := |codes| - 1;
      var prev, code := codes[..n], codes[n];
      assert codes == prev + [code];
      LocksClosedForm(prev);
      CountSnoc(prev, code, CAPS);
      CountSnoc(prev, code, NUM);
      CountSnoc(prev, code, SCROLL);
    }
  }

  /** The state of the decoder is: a shift or ctrl key that was pressed and not released since, an odd
      number of presses of each lock key, and whether the very last code was the prefix byte. */
  lemma {:induction false} AfterClosedForm(codes: seq<byte>)
    ensures var m := After(codes);
      && (m.shift <==> Held(codes, {0x2A, 0x36}, {0xAA, 0xB6}))
      && (m.ctrl <==> Held(codes, {0x1D}, {0x9D}))
      && (m.capsLock <==> multiset(codes)[0x3A] % 2 == 1)
      && (m.numLock <==> multiset(codes)[0x45] % 2 == 1)
      && (m.scrollLock <==> multiset(codes)[0xC6] % 2 == 1)
      && (m.extended <==> codes != [] && codes[|codes| - 1] == 0xE0)
  {
    if codes != [] {
      var n := |codes| - 1;
      var prev, code := codes[..n], codes[n];
      assert codes == prev + [code];
      AfterClosedForm(prev);
      HeldSnoc(prev, code, SHIFT_MAKE, SHIFT_BREAK);
      HeldSnoc(prev, code, {CTRL_MAKE}, {CTRL_BREAK});
    }
    LocksClosedForm(codes);
  }

  /** What the tables contain: no arrow keys, no capitals, and the same letters shifted or not. */
  lemma TableFacts(code: byte)
    ensures var p, q := PlainChar(code), ShiftedChar(code);
      && !(4 <= p <= 7) && !IsUpper(p)
      && !(4 <= q <= 7) && !IsUpper(q)
      && (IsLower(p) || IsLower(q) ==> p == q)
  {
  }

  /** Arrow keys come from nothing but an arrow code directly after the prefix byte. */
  lemma ArrowsNeedPrefix(codes: seq<byte>, i: nat)
    requires i < |codes|
    ensures KEY_RIGHT <= KeyAt(codes, i) <= KEY_UP
       <==> i > 0 && codes[i - 1] == EXTENDED && Arrow(codes[i]) != 0
    ensures i > 0 && codes[i - 1] == EXTENDED && Arrow(codes[i]) != 0 ==> KeyAt(codes, i) == Arrow(codes[i])
  {
    AfterClosedForm(codes[..i]);
    TableFacts(codes[i]);
  }

  /** A letter comes out in upper case if and only if shift is held or caps lock is on. */
  lemma LettersFollowShiftOrCaps(codes: seq<byte>, i: nat)
    requires i < |codes| && !IsModifier(codes[i]) && IsLower(CharOf(codes[i], false))
    ensures var upper := Held(codes[..i], SHIFT_MAKE, SHIFT_BREAK) || multiset(codes[..i])[CAPS] % 2 == 1;
      KeyAt(codes, i) == CharOf(codes[i], false) - if upper then 32 else 0
  {
    AfterClosedForm(codes[..i]);
    TableFacts(codes[i]);
  }

  /** An upper-case key is never produced without shift or caps lock, nor a lower-case one with them. */
  lemma CaseOfKeys(codes: seq<byte>, i: nat)
    requires i < |codes|
    ensures var upper := Held(codes[..i], SHIFT_MAKE, SHIFT_BREAK) || multiset(codes[..i])[CAPS] % 2 == 1;
      && (IsUpper(KeyAt(codes, i)) ==> upper)
      && (IsLower(KeyAt(codes, i)) ==> !upper)
  {
    AfterClosedForm(codes[..i]);
    TableFacts(codes[i]);
  }

  // ----- The keyboard in numbers -----

  /** From one code on, the table holds a row of keys. */
  predicate RowIs(first: byte, keys: string, shift: bool) {
    first as int + |keys| <= 0x100 && forall i | 0 <= i < |keys| :: CharOf(first + i, shift) == keys[i] as int
  }

  lemma DigitRow()
    ensures RowIs(2, "1234567890-=", false) && RowIs(2, "!@#$%^&*()_+", true)
  {
  }

  lemma TopRow()
    ensures RowIs(16, "qwertyuiop[]", false) && RowIs(16, "qwertyuiop{}", true)
  {
  }

  lemma HomeRow()
    ensures RowIs(30, "asdfghjkl;'`", false) && RowIs(30, "asdfghjkl:\"~", true)
  {
  }

  lemma BottomRow()
    ensures RowIs(43, "\\zxcvbnm,./", false) && RowIs(43, "|zxcvbnm<>?", true)
  {
  }

  /** The codes of the keys outside the four rows, and those that stand for no key. */
  lemma OtherKeys(code: byte, shift: bool)
    ensures !(2 <= code <= 13 || 16 <= code <= 27 || 30 <= code <= 41 || 43 <= code <= 53) ==>
      CharOf(code, shift) ==
        if code == 14 then 8 else if code == 15 then 9 else if code == 28 then 10
        else if code == 55 then 42 else if code == 57 then 32 else 0
  {
  }

  /** The four rows of keys, without and with shift; letters with shift are made upper case later. */
  lemma KeyRows()
    ensures RowIs(2, "1234567890-=", false) && RowIs(2, "!@#$%^&*()_+", true)
    ensures RowIs(16, "qwertyuiop[]", false) && RowIs(16, "qwertyuiop{}", true)
    ensures RowIs(30, "asdfghjkl;'`", false) && RowIs(30, "asdfghjkl:\"~", true)
    ensures RowIs(43, "\\zxcvbnm,./", false) && RowIs(43, "|zxcvbnm<>?", true)
  {
    DigitRow();
    TopRow();
    HomeRow();
    BottomRow();
  }

  /** Which code makes which key: the arrows after the prefix; modifiers none; all others by the tables, the
      prefix notwithstanding, with small letters made upper case by shift or caps lock. */
  lemma KeysInNumbers(m: Modifiers, code: byte)
    ensures m.extended ==>
      && KeyOf(m, 0x48) == 7 && KeyOf(m, 0x50) == 6 && KeyOf(m, 0x4B) == 5 && KeyOf(m, 0x4D) == 4
    ensures code in {0x2A, 0x36, 0xAA, 0xB6, 0x1D, 0x9D, 0x3A, 0x45, 0xC6, 0xE0} ==> KeyOf(m, code) == 0
    ensures code !in {0x2A, 0x36, 0xAA, 0xB6, 0x1D, 0x9D, 0x3A, 0x45, 0xC6, 0xE0} ==>
      !(m.extended && code in {0x48, 0x50, 0x4B, 0x4D}) ==>
      var c := CharOf(code, m.shift);
      KeyOf(m, code) == if 97 <= c <= 122 && (m.shift || m.capsLock) then c - 32 else c
  {
  }
}
