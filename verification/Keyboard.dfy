/**
 device/keyboard.c: the interrupt handler as a state machine over scan-code bytes, and the keyboard
 feeding one reader through the queue.
 */
module Keyboard {
  import opened Common
  import opened IoQueue

  type Byte = b: nat | b < 256

  /** ctrl_status, shift_status, alt_status, caps_lock_status, ext_scancode */
  datatype Keys = Keys(ctrl: bool, shift: bool, alt: bool, caps: bool, ext: bool)

  const RELEASED := Keys(false, false, false, false, false)

  const PREFIX: nat := 0xe0
  const KEYS: nat := 0x3b   // rows of keymap

  /** keymap: the character of a make code without and with shift; '\0' for none. */
  function KeyMap(i: nat): (char, char)
    requires i < KEYS
  {
    match i
    case 0x01 => (27 as char, 27 as char)
    case 0x02 => ('1', '!')
    case 0x03 => ('2', '@')
    case 0x04 => ('3', '#')
    case 0x05 => ('4', '$')
    case 0x06 => ('5', '%')
    case 0x07 => ('6', '^')
    case 0x08 => ('7', '&')
    case 0x09 => ('8', '*')
    case 0x0a => ('9', '(')
    case 0x0b => ('0', ')')
    case 0x0c => ('-', '_')
    case 0x0d => ('=', '+')
    case 0x0e => (8 as char, 8 as char)
    case 0x0f => (9 as char, 9 as char)
    case 0x10 => ('q', 'Q')
    case 0x11 => ('w', 'W')
    case 0x12 => ('e', 'E')
    case 0x13 => ('r', 'R')
    case 0x14 => ('t', 'T')
    case 0x15 => ('y', 'Y')
    case 0x16 => ('u', 'U')
    case 0x17 => ('i', 'I')
    case 0x18 => ('o', 'O')
    case 0x19 => ('p', 'P')
    case 0x1a => ('[', '{')
    case 0x1b => (']', '}')
    case 0x1c => (13 as char, 13 as char)
    case 0x1e => ('a', 'A')
    case 0x1f => ('s', 'S')
    case 0x20 => ('d', 'D')
    case 0x21 => ('f', 'F')
    case 0x22 => ('g', 'G')
    case 0x23 => ('h', 'H')
    case 0x24 => ('j', 'J')
    case 0x25 => ('k', 'K')
    case 0x26 => ('l', 'L')
    case 0x27 => (';', ':')
    case 0x28 => ('\'', '"')
    case 0x29 => ('`', '~')
    case 0x2b => ('\\', '|')
    case 0x2c => ('z', 'Z')
    case 0x2d => ('x', 'X')
    case 0x2e => ('c', 'C')
    case 0x2f => ('v', 'V')
    case 0x30 => ('b', 'B')
    case 0x31 => ('n', 'N')
    case 0x32 => ('m', 'M')
    case 0x33 => (',', '<')
    case 0x34 => ('.', '>')
    case 0x35 => ('/', '?')
    case 0x37 => ('*', '*')
    case 0x39 => (' ', ' ')
    case _ => ('\0', '\0')
  }

  /** The keys that carry two symbols and ignore caps lock. */
  predicate TwoSymbols(code: nat) {
    code < 0x0e || code == 0x29 || code == 0x1a || code == 0x1b || code == 0x2b || code == 0x27 ||
    code == 0x28 || code == 0x33 || code == 0x34 || code == 0x35
  }

  predicate Handled(code: nat) { 0 < code < KEYS || code == 0xe038 || code == 0xe01d }

  /** The character a make code stands for before the ctrl shortcuts. */
  function CharOf(k: Keys, code: nat): char
    requires Handled(code)
  {
    Column(k, code, KeyMap(code % 256))
  }

  function Column(k: Keys, code: nat, row: (char, char)): char {
    var shifted := if TwoSymbols(code) then k.shift else k.shift != k.caps;
    if shifted then row.1 else row.0
  }

  function Release(k: Keys, make: nat): Keys {
    if make == 0x1d || make == 0xe01d then k.(ctrl := false)
    else if make == 0x2a || make == 0x36 then k.(shift := false)
    else if make == 0x38 || make == 0xe038 then k.(alt := false)
    else k
  }

  function Modify(k: Keys, code: nat): Keys {
    if code == 0x1d then k.(ctrl := true)
    else if code == 0x2a || code == 0x36 then k.(shift := true)
    else if code == 0x38 then k.(alt := true)
    else if code == 0x3a then k.(caps := !k.caps)
    else k
  }

  /** One interrupt: the new flags and the character offered to the queue, if any. */
  function Press(k: Keys, b: Byte): (Keys, Option<char>) {
    if b == PREFIX then (k.(ext := true), None)
    else
      var code := if k.ext then 0xe000 + b else b;
      var k' := k.(ext := false);
      if b >= 0x80 then (Release(k', code - 0x80), None)
      else if !Handled(code) then (k', None)
      else Keyed(k', code, CharOf(k, code))
  }

  /** A make code with its character: offered, with the shortcuts ctrl+l and ctrl+u, or a modifier. */
  function Keyed(k: Keys, code: nat, c: char): (Keys, Option<char>) {
    if c == '\0' then (Modify(k, code % 256), None)
    else if k.ctrl && (c == 'l' || c == 'u') then (k, Some((c as int - 'a' as int) as char))
    else (k, Some(c))
  }

  // -------------------------------------------------------------- the handler

  class Handler {
    var ctrl: bool
    var shift: bool
    var alt: bool
    var caps: bool
    var ext: bool
    const queue: Queue

    ghost function Flags(): Keys
      reads this
    {
      Keys(ctrl, shift, alt, caps, ext)
    }

    constructor (q: Queue)
      ensures Flags() == RELEASED && queue == q
    {
      ctrl, shift, alt, caps, ext := false, false, false, false, false;
      queue := q;
    }

    /** intr_keyboard_handler: it never waits; a character that finds the queue full is dropped. */
    method Interrupt(b: Byte)
      requires RingOk(queue.Value())
      modifies this, queue, queue.buf
      ensures RingOk(queue.Value())
      ensures var (k, c) := Press(old(Flags()), b);
              var before := old(Contents(queue.Value()));
              Flags() == k &&
              Contents(queue.Value()) == if c.Some? && |before| < SIZE - 1 then before + [c.value] else before
    {
      var ctrlLast, shiftLast, capsLast := ctrl, shift, caps;
      var code: nat := b;
      if code == PREFIX {
        ext := true;
        return;
      }
      if ext {
        code := 0xe000 + code;
        ext := false;
      }
      if b >= 0x80 {
        KeyUp(code - 0x80);
        return;
      }
      if !(0 < code < KEYS || code == 0xe038 || code == 0xe01d) {
        return;
      }
      var shifted := ShiftColumn(code, shiftLast, capsLast);
      var row := KeyMap(code % 256);
      var c := if shifted then row.1 else row.0;
      KeyPressed(code, c, ctrlLast);
    }

    method KeyPressed(code: nat, cur: char, ctrlLast: bool)
      requires RingOk(queue.Value()) && ctrlLast == ctrl
      modifies this, queue, queue.buf
      ensures RingOk(queue.Value())
      ensures var (k, c) := Keyed(old(Flags()), code, cur);
              var before := old(Contents(queue.Value()));
              Flags() == k &&
              Contents(queue.Value()) == if c.Some? && |before| < SIZE - 1 then before + [c.value] else before
    {
      var c := cur;
      if c != '\0' {
        if (ctrlLast && c == 'l') || (ctrlLast && c == 'u') {
          c := (c as int - 'a' as int) as char;
        }
        OfferChar(c);
        return;
      }
      KeyDown(code % 256);
    }

    method ShiftColumn(code: nat, shiftLast: bool, capsLast: bool) returns (shifted: bool)
      ensures shifted <==> if TwoSymbols(code) then shiftLast else shiftLast != capsLast
    {
      shifted := false;
      if TwoSymbols(code) {
        if shiftLast {
          shifted := true;
        }
      } else if shiftLast && capsLast {
        shifted := false;
      } else if shiftLast || capsLast {
        shifted := true;
      }
    }

    method OfferChar(c: char)
      requires RingOk(queue.Value())
      modifies queue, queue.buf
      ensures RingOk(queue.Value())
      ensures var before := old(Contents(queue.Value()));
              Contents(queue.Value()) == if |before| < SIZE - 1 then before + [c] else before
    {
      CapacityExact(queue.Value());
      var full := queue.IsFull();
      if !full {
        queue.Put(c);
      }
    }

    method KeyUp(make: nat)
      modifies this
      ensures Flags() == Release(old(Flags()), make)
    {
      if make == 0x1d || make == 0xe01d {
        ctrl := false;
      } else if make == 0x2a || make == 0x36 {
        shift := false;
      } else if make == 0x38 || make == 0xe038 {
        alt := false;
      }
    }

    method KeyDown(code: nat)
      modifies this
      ensures Flags() == Modify(old(Flags()), code)
    {
      if code == 0x1d {
        ctrl := true;
      } else if code == 0x2a || code == 0x36 {
        shift := true;
      } else if code == 0x38 {
        alt := true;
      } else if code == 0x3a {
        caps := !caps;
      }
    }
  }

  // ------------------------------------------------------ flags from history

  /** The flags after a whole history of bytes, from all keys released. */
  function After(h: seq<Byte>): Keys {
    if h == [] then RELEASED else Press(After(h[..|h| - 1]), h[|h| - 1]).0
  }

  predicate Prefixed(h: seq<Byte>, i: nat)
    requires i < |h|
  {
    i > 0 && h[i - 1] == PREFIX
  }

  /** The bytes that press or release a modifier; ctrl and alt also count with the 0xe0 prefix. */
  datatype Modifier = Ctrl | Shift | Alt

  predicate Makes(h: seq<Byte>, i: nat, m: Modifier)
    requires i < |h|
  {
    match m
    case Ctrl => h[i] == 0x1d
    case Shift => !Prefixed(h, i) && (h[i] == 0x2a || h[i] == 0x36)
    case Alt => h[i] == 0x38
  }

  predicate Breaks(h: seq<Byte>, i: nat, m: Modifier)
    requires i < |h|
  {
    match m
    case Ctrl => h[i] == 0x9d
    case Shift => !Prefixed(h, i) && (h[i] == 0xaa || h[i] == 0xb6)
    case Alt => h[i] == 0xb8
  }

  /** The last event of the modifier was a make. */
  ghost predicate Held(h: seq<Byte>, m: Modifier) {
    exists i :: 0 <= i < |h| && Makes(h, i, m) && forall j :: i < j < |h| ==> !Breaks(h, j, m)
  }

  /** Caps lock presses so far. */
  function CapsPresses(h: seq<Byte>): nat {
    if h == [] then 0
    else CapsPresses(h[..|h| - 1]) + if h[|h| - 1] == 0x3a && !Prefixed(h, |h| - 1) then 1 else 0
  }

  ghost function FlagsOf(h: seq<Byte>): Keys {
    Keys(Held(h, Ctrl), Held(h, Shift), Held(h, Alt), CapsPresses(h) % 2 == 1, h != [] && h[|h| - 1] == PREFIX)
  }

  lemma HeldSnoc(h: seq<Byte>, m: Modifier)
    requires h != []
    ensures var n := |h| - 1; Held(h, m) <==> Makes(h, n, m) || (Held(h[..n], m) && !Breaks(h, n, m))
  {
    var n := |h| - 1;
    var g := h[..n];
    assert forall i :: 0 <= i < n ==> g[i] == h[i];
    assert forall i :: 0 <= i < n ==> (Makes(g, i, m) <==> Makes(h, i, m)) && (Breaks(g, i, m) <==> Breaks(h, i, m));
    if Held(g, m) && !Breaks(h, n, m) {
      var i :| 0 <= i < n && Makes(g, i, m) && forall j :: i < j < n ==> !Breaks(g, j, m);
      assert Makes(h, i, m);
    }
    if Held(h, m) && !Makes(h, n, m) {
      var i :| 0 <= i <= n && Makes(h, i, m) && forall j :: i < j <= n ==> !Breaks(h, j, m);
      assert Makes(g, i, m);
    }
  }

  predicate IsModifierRow(i: nat) { i == 0x1d || i == 0x2a || i == 0x36 || i == 0x38 || i == 0x3a }

  /** The row of a code that is not a character is one of the five modifier keys. */
  lemma Characterless(k: Keys, code: nat)
    requires Handled(code)
    ensures CharOf(k, code) == '\0' <==> IsModifierRow(code % 256)
  {
  }

  /** What one byte does to the flags, without the key map. */
  lemma PressFlags(k: Keys, b: Byte)
    ensures var k' := Press(k, b).0;
            k'.ext == (b == PREFIX) &&
            k'.ctrl == (b == 0x1d || (k.ctrl && b != 0x9d)) &&
            k'.alt == (b == 0x38 || (k.alt && b != 0xb8)) &&
            k'.shift == ((!k.ext && (b == 0x2a || b == 0x36)) || (k.shift && (k.ext || (b != 0xaa && b != 0xb6)))) &&
            k'.caps == (k.caps != (!k.ext && b == 0x3a))
  {
    var code := if k.ext then 0xe000 + b else b;
    if b < 0x80 && Handled(code) {
      Characterless(k, code);
      KeyedFlags(k.(ext := false), code, CharOf(k, code));
    }
  }

  lemma KeyedFlags(k: Keys, code: nat, c: char)
    requires Handled(code)
    requires c == '\0' <==> IsModifierRow(code % 256)
    ensures var k' := Keyed(k, code, c).0;
            k'.ext == k.ext && k'.ctrl == (k.ctrl || code % 256 == 0x1d) && k'.alt == (k.alt || code % 256 == 0x38) &&
            k'.shift == (k.shift || code == 0x2a || code == 0x36) && k'.caps == (k.caps != (code == 0x3a))
  {
  }

  /** After every byte stream the handler's flags are this function of the history. */
  lemma {:induction false} FlagsFromHistory(h: seq<Byte>)
    ensures After(h) == FlagsOf(h)
  {
    if h != [] {
      var n := |h| - 1;
      FlagsFromHistory(h[..n]);
      HeldSnoc(h, Ctrl);
      HeldSnoc(h, Shift);
      HeldSnoc(h, Alt);
      PressFlags(After(h[..n]), h[n]);
      assert After(h[..n]).ext == Prefixed(h, n);
    }
  }

  predicate IsLetterKey(code: nat) { 0x10 <= code <= 0x19 || 0x1e <= code <= 0x26 || 0x2c <= code <= 0x32 }

  lemma LetterColumns(code: nat)
    requires IsLetterKey(code)
    ensures var (low, up) := KeyMap(code);
            'a' <= low <= 'z' && low as int - 'a' as int == up as int - 'A' as int
  {
  }

  /** Letters are upper case exactly if shift differs from caps lock; it is the same letter. */
  lemma LetterCase(k: Keys, code: nat)
    requires IsLetterKey(code)
    ensures var c, (low, _) := CharOf(k, code), KeyMap(code);
            if k.shift != k.caps then 'A' <= c <= 'Z' && c as int - 'A' as int == low as int - 'a' as int
            else 'a' <= c <= 'z' && c == low
  {
    LetterColumns(code);
  }

  // ------------------------------------------------------------- the keyboard

  /** What is printed on the keys, row by row, without and with shift; '\0' for modifiers and no key. */
  function Legend(i: nat): (char, char) {
    if 0x02 <= i < 0x0e then ("1234567890-="[i - 0x02], "!@#$%^&*()_+"[i - 0x02])
    else if 0x10 <= i < 0x1c then ("qwertyuiop[]"[i - 0x10], "QWERTYUIOP{}"[i - 0x10])
    else if 0x1e <= i < 0x2a then ("asdfghjkl;'`"[i - 0x1e], "ASDFGHJKL:\"~"[i - 0x1e])
    else if 0x2b <= i < 0x36 then ("\\zxcvbnm,./"[i - 0x2b], "|ZXCVBNM<>?"[i - 0x2b])
    else Single(i)
  }

  /** Esc, backspace, tab, enter, the keypad's star, space. */
  function Single(i: nat): (char, char) {
    var c := if i == 0x01 then 27 as char else if i == 0x0e then 8 as char else if i == 0x0f then '\t'
             else if i == 0x1c then '\r' else if i == 0x37 then '*' else if i == 0x39 then ' ' else '\0';
    (c, c)
  }

  lemma KeyMapIsTheKeyboard(i: nat)
    requires i < KEYS
    ensures KeyMap(i) == Legend(i)
  {
  }

  predicate IsLower(c: char) { 'a' <= c <= 'z' }

  /** The two-symbol keys are no letters, and what is on neither list has one symbol. */
  lemma LegendFacts(i: nat)
    requires 0 < i < KEYS
    ensures var (p, s) := Legend(i); (IsLower(p) ==> !TwoSymbols(i)) && (IsLower(p) || TwoSymbols(i) || p == s)
  {
  }

  /** The character a byte puts out: none for prefixed keys, releases and modifiers; caps lock turns
      letters only; ctrl turns l and u into 11 and 20. */
  function Offered(k: Keys, b: Byte): Option<char> {
    var (plain, other) := Legend(b);
    if k.ext || plain == '\0' then None
    else
      var shifted := if IsLower(plain) then k.shift != k.caps else k.shift;
      var c := if shifted then other else plain;
      Some(if k.ctrl && c == 'l' then 11 as char else if k.ctrl && c == 'u' then 20 as char else c)
  }

  lemma ColumnExact(k: Keys, b: nat)
    requires 0 < b < KEYS
    ensures var (plain, other) := Legend(b);
            CharOf(k, b) == if (if IsLower(plain) then k.shift != k.caps else k.shift) then other else plain
  {
    KeyMapIsTheKeyboard(b);
    LegendFacts(b);
    ColumnOf(k, b, Legend(b).0, Legend(b).1);
  }

  lemma ColumnOf(k: Keys, b: nat, plain: char, other: char)
    requires (IsLower(plain) ==> !TwoSymbols(b)) && (IsLower(plain) || TwoSymbols(b) || plain == other)
    ensures Column(k, b, (plain, other)) == if (if IsLower(plain) then k.shift != k.caps else k.shift) then other else plain
  {
  }

  lemma NoCharacter(k: Keys, b: Byte)
    requires k.ext || b == 0 || b >= KEYS
    ensures Press(k, b).1 == None
  {
    if k.ext && b < 0x80 && Handled(0xe000 + b) {
      Characterless(k, 0xe000 + b);
    }
  }

  lemma NoLegend(b: nat)
    requires b == 0 || b >= KEYS
    ensures Legend(b).0 == '\0'
  {
  }

  lemma PressOffers(k: Keys, b: Byte)
    ensures Press(k, b).1 == Offered(k, b)
  {
    if k.ext || b == 0 || b >= KEYS {
      NoCharacter(k, b);
      if !k.ext {
        NoLegend(b);
      }
    } else {
      ColumnExact(k, b);
      KeyOffers(k, b);
    }
  }

  lemma KeyOffers(k: Keys, b: Byte)
    requires !k.ext && 0 < b < KEYS
    requires var (plain, other) := Legend(b);
             CharOf(k, b) == if (if IsLower(plain) then k.shift != k.caps else k.shift) then other else plain
    ensures Press(k, b).1 == Offered(k, b)
  {
    Characterless(k, b);
    LegendPairs(b);
  }

  lemma LegendPairs(i: nat)
    ensures var (p, s) := Legend(i); p == '\0' <==> s == '\0'
  {
  }

  /** The character of the next byte, from the whole history of bytes. */
  lemma OfferedFromHistory(h: seq<Byte>, b: Byte)
    ensures Press(After(h), b).1 == Offered(FlagsOf(h), b)
  {
    FlagsFromHistory(h);
    PressOffers(After(h), b);
  }

  // ----------------------------------------------------- keyboard and reader

  /** Every character the history offers, in order. */
  function Translate(h: seq<Byte>): seq<char> {
    if h == [] then []
    else
      var c := Press(After(h[..|h| - 1]), h[|h| - 1]).1;
      Translate(h[..|h| - 1]) + if c.Some? then [c.value] else []
  }

  datatype Event = Scan(b: Byte) | ReaderCalls | ReaderRuns

  /** The queue with thread 0 as its only user, the scan codes so far, and which offers fitted. */
  datatype System = System(q: State, h: seq<Byte>, kept: seq<bool>)

  predicate CanHappen(s: System, e: Event) {
    match e
    case Scan(_) => true
    case ReaderCalls => Enabled(s.q, Call(0, Get))
    case ReaderRuns => Enabled(s.q, Run(0))
  }

  function Happen(s: System, e: Event): System
    requires CanHappen(s, e) && RingOk(s.q.ring)
  {
    match e
    case Scan(b) =>
      var c := Press(After(s.h), b).1;
      if c.None? then s.(h := s.h + [b])
      else System(Step(s.q, Offer(c.value)), s.h + [b], s.kept + [!Full(s.q.ring)])
    case ReaderCalls => s.(q := Step(s.q, Call(0, Get)))
    case ReaderRuns => s.(q := Step(s.q, Run(0)))
  }

  /** The offered characters that were kept. */
  function Kept(cs: seq<char>, kept: seq<bool>): seq<char>
    requires |cs| == |kept|
  {
    if cs == [] then []
    else Kept(cs[..|cs| - 1], kept[..|cs| - 1]) + if kept[|cs| - 1] then [cs[|cs| - 1]] else []
  }

  ghost predicate SystemInv(s: System) {
    Inv(s.q) && s.q.at.Keys == {0} && !s.q.at[0].WantLock? &&
    (!s.q.at[0].Outside? ==> s.q.at[0].k == Get) && NoLostWakeup(s.q) &&
    |s.kept| == |Translate(s.h)| && s.q.accepted == Kept(Translate(s.h), s.kept)
  }

  lemma TranslateSnoc(h: seq<Byte>, b: Byte)
    ensures var c := Press(After(h), b).1; Translate(h + [b]) == Translate(h) + if c.Some? then [c.value] else []
  {
    assert (h + [b])[..|h|] == h;
  }

  lemma KeptSnoc(cs: seq<char>, kept: seq<bool>, c: char, k: bool)
    requires |cs| == |kept|
    ensures Kept(cs + [c], kept + [k]) == Kept(cs, kept) + if k then [c] else []
  {
    assert (cs + [c])[..|cs|] == cs && (kept + [k])[..|cs|] == kept;
  }

  lemma HappenKeepsInv(s: System, e: Event)
    requires SystemInv(s) && CanHappen(s, e)
    ensures SystemInv(Happen(s, e))
  {
    match e
    case Scan(b) =>
      TranslateSnoc(s.h, b);
      var c := Press(After(s.h), b).1;
      if c.Some? {
        ScanKeepsInv(s, b, c.value);
      } else {
        assert Translate(s.h + [b]) == Translate(s.h);
      }
    case ReaderCalls => ReaderKeepsInv(s, Call(0, Get));
    case ReaderRuns => ReaderKeepsInv(s, Run(0));
  }

  lemma ScanKeepsInv(s: System, b: Byte, c: char)
    requires SystemInv(s) && Press(After(s.h), b).1 == Some(c)
    ensures SystemInv(Happen(s, Scan(b)))
  {
    StepKeepsInv(s.q, Offer(c));
    NoLostWakeupIff(s.q, Offer(c));
    TranslateSnoc(s.h, b);
    KeptSnoc(Translate(s.h), s.kept, c, !Full(s.q.ring));
  }

  lemma ReaderKeepsInv(s: System, a: Action)
    requires SystemInv(s) && (a == Run(0) || a == Call(0, Get)) && Enabled(s.q, a)
    ensures SystemInv(s.(q := Step(s.q, a)))
  {
    StepKeepsInv(s.q, a);
    NoLostWakeupIff(s.q, a);
    assert 0 in s.q.at;
  }

  ghost predicate IsHistory(trace: seq<System>, events: seq<Event>) {
    |trace| == |events| + 1 && Initial(trace[0].q) && trace[0].q.at.Keys == {0} && trace[0].h == [] && trace[0].kept == [] &&
    forall i :: 0 <= i < |events| ==>
      CanHappen(trace[i], events[i]) && (RingOk(trace[i].q.ring) ==> trace[i + 1] == Happen(trace[i], events[i]))
  }

  lemma {:induction false} HistoryInv(trace: seq<System>, events: seq<Event>)
    requires IsHistory(trace, events)
    ensures SystemInv(trace[|events|])
  {
    if events == [] {
      assert 0 in trace[0].q.at;
    } else {
      var k := |events| - 1;
      HistoryInv(trace[..|events|], events[..k]);
      HappenKeepsInv(trace[k], events[k]);
    }
  }

  /** Over every history of scan codes and reader steps: a sleeping reader means an empty queue, and
      what the reader got, followed by what waits in the ring, is the pure translation of the scan
      codes without the characters that came while the ring was full. */
  lemma ReaderGetsTheTranslation(trace: seq<System>, events: seq<Event>)
    requires IsHistory(trace, events)
    ensures var s := trace[|events|];
            RingOk(s.q.ring) && (s.q.consumer.Some? ==> Empty(s.q.ring)) && |s.kept| == |Translate(s.h)| &&
            s.q.returned + Contents(s.q.ring) == Kept(Translate(s.h), s.kept) &&
            (false !in s.kept ==> s.q.returned + Contents(s.q.ring) == Translate(s.h))
  {
    HistoryInv(trace, events);
    var s := trace[|events|];
    if false !in s.kept {
      AllKept(Translate(s.h), s.kept);
    }
  }

  lemma {:induction false} AllKept(cs: seq<char>, kept: seq<bool>)
    requires |cs| == |kept| && false !in kept
    ensures Kept(cs, kept) == cs
  {
    if cs != [] {
      var n := |cs| - 1;
      AllKept(cs[..n], kept[..n]);
      assert kept[n] in kept;
      assert cs == cs[..n] + [cs[n]];
    }
  }

  // ------------------------------------------- the system as a run of the queue

  /** The scan codes among the events. */
  function Scans(events: seq<Event>): seq<Byte> {
    if events == [] then []
    else
      var e := events[|events| - 1];
      Scans(events[..|events| - 1]) + if e.Scan? then [e.b] else []
  }

  /** What an event is to the queue: the offer of a character, or a step of the reader. */
  ghost function ActionOf(h: seq<Byte>, e: Event): Option<Action> {
    match e
    case Scan(b) => (match Offered(FlagsOf(h), b) case Some(c) => Some(Offer(c)) case None => None)
    case ReaderCalls => Some(Call(0, Get))
    case ReaderRuns => Some(Run(0))
  }

  ghost function ActionsOf(events: seq<Event>): seq<Action> {
    if events == [] then []
    else
      var before := events[..|events| - 1];
      var a := ActionOf(Scans(before), events[|events| - 1]);
      ActionsOf(before) + if a.Some? then [a.value] else []
  }

  lemma EventStep(s: System, e: Event)
    requires RingOk(s.q.ring) && CanHappen(s, e)
    ensures var a := ActionOf(s.h, e);
            Happen(s, e).h == s.h + (if e.Scan? then [e.b] else []) &&
            if a.Some? then Enabled(s.q, a.value) && Happen(s, e).q == Step(s.q, a.value) else Happen(s, e).q == s.q
  {
    if e.Scan? {
      OfferedFromHistory(s.h, e.b);
    }
  }

  lemma LastEvent(trace: seq<System>, events: seq<Event>)
    requires IsHistory(trace, events) && events != []
    ensures var n := |events| - 1;
            IsHistory(trace[..n + 1], events[..n]) && RingOk(trace[n].q.ring) && CanHappen(trace[n], events[n]) &&
            trace[n + 1] == Happen(trace[n], events[n])
  {
    HistoryInv(trace[..|events|], events[..|events| - 1]);
  }

  /** Every history is a run of the queue with the keyboard's characters as offers, so all that holds
      of runs, the byte each returning call gets among it, holds of keyboard and reader. */
  lemma {:induction false} HistoryIsRun(trace: seq<System>, events: seq<Event>) returns (qtrace: seq<State>)
    requires IsHistory(trace, events)
    ensures IsRun(qtrace, ActionsOf(events)) && qtrace[|ActionsOf(events)|] == trace[|events|].q
    ensures trace[|events|].h == Scans(events)
  {
    if events == [] {
      qtrace := [trace[0].q];
    } else {
      var n := |events| - 1;
      LastEvent(trace, events);
      qtrace := HistoryIsRun(trace[..n + 1], events[..n]);
      EventStep(trace[n], events[n]);
      var a := ActionOf(trace[n].h, events[n]);
      if a.Some? {
        qtrace := OneMore(qtrace, ActionsOf(events[..n]), a.value);
      }
    }
  }

  lemma OneMore(trace: seq<State>, actions: seq<Action>, a: Action) returns (trace': seq<State>)
    requires IsRun(trace, actions) && RingOk(trace[|actions|].ring) && Enabled(trace[|actions|], a)
    ensures IsRun(trace', actions + [a]) && trace'[|actions| + 1] == Step(trace[|actions|], a)
  {
    trace' := trace + [Step(trace[|actions|], a)];
  }

  /** A character is dropped exactly if it comes while 63 bytes wait. */
  lemma DroppedIffFull(trace: seq<System>, events: seq<Event>, i: nat)
    requires IsHistory(trace, events) && i < |events|
    ensures RingOk(trace[i].q.ring)
    ensures trace[i + 1].kept == trace[i].kept +
              if events[i].Scan? && Offered(FlagsOf(trace[i].h), events[i].b).Some?
              then [|Contents(trace[i].q.ring)| < SIZE - 1] else []
  {
    HistoryInv(trace[..i + 1], events[..i]);
    CapacityExact(trace[i].q.ring);
    if events[i].Scan? {
      OfferedFromHistory(trace[i].h, events[i].b);
    }
  }
}
