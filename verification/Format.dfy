/**
 itoa and vsprintf of lib/stdio.c: the format interpreter that writes into a buffer refines a
 pure renderer, and the digits it writes parse back to the number.
 */
module Format {
  import opened Common
  import opened CStrings

  // ------------------------------------------------------------------- digits

  function DigitChar(m: nat): char
    requires m < 16
  {
    if m < 10 then '0' + m as char else 'A' + (m - 10) as char
  }

  function DigitValue(c: char): nat {
    if '0' <= c <= '9' then (c - '0') as nat else if 'A' <= c <= 'F' then (c - 'A') as nat + 10 else 0
  }

  /** The two bases vsprintf asks itoa for. */
  datatype Base = Dec | Hex

  function Radix(b: Base): nat { if b.Dec? then 10 else 16 }

  function Times(x: nat, b: Base): nat { if b.Dec? then 10 * x else 16 * x }

  function Quot(value: nat, b: Base): nat { if b.Dec? then value / 10 else value / 16 }

  function Rem(value: nat, b: Base): (m: nat)
    ensures m < Radix(b)
  {
    if b.Dec? then value % 10 else value % 16
  }

  function Digits(value: nat, b: Base): (s: string)
    ensures |s| >= 1
  {
    (if Quot(value, b) != 0 then Digits(Quot(value, b), b) else "") + [DigitChar(Rem(value, b))]
  }

  function Parse(s: string, b: Base): nat {
    if s == "" then 0 else Times(Parse(s[..|s| - 1], b), b) + DigitValue(s[|s| - 1])
  }

  lemma DigitBack(m: nat)
    requires m < 16
    ensures DigitValue(DigitChar(m)) == m && DigitChar(m) != '-' && DigitChar(m) != '\0'
  {
  }

  lemma ParseSnoc(s: string, c: char, b: Base)
    ensures Parse(s + [c], b) == Times(Parse(s, b), b) + DigitValue(c)
  {
    assert (s + [c])[..|s|] == s;
  }

  predicate IsDigit(c: char, b: Base) { '0' <= c <= '9' || (b.Hex? && 'A' <= c <= 'F') }

  /** Digits of that base, upper case, no leading zero. */
  predicate IsNumeral(s: string, b: Base) {
    s != "" && (forall i :: 0 <= i < |s| ==> IsDigit(s[i], b)) && (|s| > 1 ==> s[0] != '0')
  }

  /** The digits of a number are a numeral and parse back to it. */
  lemma {:induction false} DigitsParse(value: nat, b: Base)
    ensures Parse(Digits(value, b), b) == value && IsNumeral(Digits(value, b), b) && (value > 0 ==> Digits(value, b)[0] != '0')
    decreases value
  {
    var m, i := Rem(value, b), Quot(value, b);
    DigitBack(m);
    assert value == Times(i, b) + m;
    if i != 0 {
      DigitsParse(i, b);
    }
    ParseSnoc(if i != 0 then Digits(i, b) else "", DigitChar(m), b);
  }

  // --------------------------------------------------------- 32-bit integers

  type Int32 = v: int | -0x8000_0000 <= v < 0x8000_0000

  function Wrap32(v: int): Int32 {
    var m := v % 0x1_0000_0000;
    if m < 0x8000_0000 then m else m - 0x1_0000_0000
  }

  function AsUnsigned(v: Int32): nat { if v < 0 then v + 0x1_0000_0000 else v }

  /** What %d writes: a sign and the digits of the negated value, negated in 32 bits. */
  function Decimal(v: Int32): string {
    if v < 0 then "-" + Digits(AsUnsigned(Wrap32(0 - v)), Dec) else Digits(v, Dec)
  }

  /** A numeral, with a minus sign in front if it is negative. */
  predicate IsDecimal(s: string) { IsNumeral(s, Dec) || (s != "" && s[0] == '-' && IsNumeral(s[1..], Dec)) }

  function ParseDecimal(s: string): int {
    if s != "" && s[0] == '-' then -(Parse(s[1..], Dec) as int) else Parse(s, Dec)
  }

  /** Every 32-bit integer reads back, the least one included although its negation wraps to itself. */
  lemma DecimalRoundTrip(v: Int32)
    ensures ParseDecimal(Decimal(v)) == v && IsDecimal(Decimal(v))
  {
    if v < 0 {
      var m := 0 - (v as int);
      assert AsUnsigned(Wrap32(0 - v)) == m;
      DigitsParse(m, Dec);
      assert ("-" + Digits(m, Dec))[1..] == Digits(m, Dec);
    } else {
      DigitsParse(v, Dec);
    }
  }

  lemma WrapBack(v: Int32)
    ensures Wrap32(AsUnsigned(v)) == v
  {
  }

  /** %x writes the two's complement bit pattern, in upper case; it too reads back. */
  lemma HexRoundTrip(v: Int32)
    ensures Wrap32(Parse(Digits(AsUnsigned(v), Hex), Hex)) == v && IsNumeral(Digits(AsUnsigned(v), Hex), Hex)
  {
    DigitsParse(AsUnsigned(v), Hex);
    WrapBack(v);
  }

  // ----------------------------------------------------------- the pure render

  datatype Arg = Str(s: string) | Chr(c: char) | Int(v: Int32)

  /** Each directive finds an argument of its kind on the stack. */
  predicate Fits(f: string, args: seq<Arg>)
    decreases |f|
  {
    if f == "" then true
    else if f[0] != '%' then Fits(f[1..], args)
    else if |f| == 1 then true
    else if f[1] == 's' then args != [] && args[0].Str? && NoNul(args[0].s) && Fits(f[2..], args[1..])
    else if f[1] == 'c' then args != [] && args[0].Chr? && Fits(f[2..], args[1..])
    else if f[1] == 'd' || f[1] == 'x' then args != [] && args[0].Int? && Fits(f[2..], args[1..])
    else Fits(f[1..], args)
  }

  function Text(d: char, a: Arg): string {
    match a
    case Str(s) => s
    case Chr(c) => [c]
    case Int(v) => if d == 'd' then Decimal(v) else Digits(AsUnsigned(v), Hex)
  }

  predicate IsDirective(d: char) { d == 's' || d == 'c' || d == 'd' || d == 'x' }

  /** An unknown directive drops its '%' only: the character after it is looked at again, so "%%d"
      prints a number and a final '%' prints nothing. */
  function Render(f: string, args: seq<Arg>): string
    requires Fits(f, args)
    decreases |f|
  {
    if f == "" then ""
    else if f[0] != '%' then [f[0]] + Render(f[1..], args)
    else if |f| == 1 then ""
    else if IsDirective(f[1]) then Text(f[1], args[0]) + Render(f[2..], args[1..])
    else Render(f[1..], args)
  }

  // ------------------------------------------------------------- laws of the render

  /** What each directive prints. */
  lemma RenderDirectives(v: Int32, t: string, c: char)
    requires NoNul(t)
    ensures Fits("%d", [Int(v)]) && ParseDecimal(Render("%d", [Int(v)])) == v && IsDecimal(Render("%d", [Int(v)]))
    ensures Fits("%x", [Int(v)]) && Wrap32(Parse(Render("%x", [Int(v)]), Hex)) == v && IsNumeral(Render("%x", [Int(v)]), Hex)
    ensures Fits("%s", [Str(t)]) && Render("%s", [Str(t)]) == t
    ensures Fits("%c", [Chr(c)]) && Render("%c", [Chr(c)]) == [c]
  {
    DecimalRoundTrip(v);
    HexRoundTrip(v);
    OneDirective('d', Int(v));
    OneDirective('x', Int(v));
    OneDirective('s', Str(t));
    OneDirective('c', Chr(c));
  }

  lemma OneDirective(d: char, a: Arg)
    requires match a { case Str(t) => d == 's' && NoNul(t) case Chr(_) => d == 'c' case Int(_) => d == 'd' || d == 'x' }
    ensures Fits(['%', d], [a]) && Render(['%', d], [a]) == Text(d, a)
  {
    var f := ['%', d];
    assert f[2..] == "" && [a][1..] == [];
    assert Text(d, a) + "" == Text(d, a);
  }

  /** Text without '%' is printed as it is. */
  lemma {:induction false} RenderLiteral(f: string)
    requires '%' !in f
    ensures Fits(f, []) && Render(f, []) == f
  {
    if f != "" {
      RenderLiteral(f[1..]);
    }
  }

  /** A '%' before anything that is no directive is dropped, as is a final one. */
  lemma RenderUnknown(f: string, args: seq<Arg>)
    requires Fits(f, args) && (f == "" || !IsDirective(f[0]))
    ensures Fits("%" + f, args) && Render("%" + f, args) == Render(f, args)
  {
    assert ("%" + f)[1..] == f;
  }

  /** How many arguments a format takes. */
  function Takes(f: string): nat {
    if |f| < 2 then 0
    else if f[0] == '%' && IsDirective(f[1]) then 1 + Takes(f[2..])
    else Takes(f[1..])
  }

  lemma {:induction false} AfterDirective(f: string, g: string, a: seq<Arg>, b: seq<Arg>)
    requires |f| >= 2 && f[0] == '%' && IsDirective(f[1]) && Fits(f, a) && Fits(g, b) && Fits(f[2..] + g, a[1..] + b)
    requires Render(f[2..] + g, a[1..] + b) == Render(f[2..], a[1..]) + Render(g, b)
    ensures Fits(f + g, a + b) && Render(f + g, a + b) == Render(f, a) + Render(g, b)
  {
    assert (f + g)[2..] == f[2..] + g && (a + b)[1..] == a[1..] + b;
    Assoc(Text(f[1], a[0]), Render(f[2..], a[1..]), Render(g, b));
  }

  /** Formats printed one after the other: each takes its own arguments, the texts follow each other. */
  lemma {:induction false} RenderConcat(f: string, g: string, a: seq<Arg>, b: seq<Arg>)
    requires Fits(f, a) && Takes(f) == |a| && Fits(g, b) && (f != "" ==> f[|f| - 1] != '%')
    ensures Fits(f + g, a + b) && Render(f + g, a + b) == Render(f, a) + Render(g, b)
    decreases |f|
  {
    if f == "" {
      assert f + g == g && a + b == b;
    } else if f[0] == '%' && IsDirective(f[1]) {
      RenderConcat(f[2..], g, a[1..], b);
      AfterDirective(f, g, a, b);
    } else {
      assert (f + g)[1..] == f[1..] + g;
      RenderConcat(f[1..], g, a, b);
      if f[0] != '%' {
        Assoc([f[0]], Render(f[1..], a), Render(g, b));
      }
    }
  }

  /** The last thing the format writes is a string: "%s" with nothing behind it but dropped '%'. */
  predicate EndsInString(f: string) {
    |f| >= 2 && if f[|f| - 1] == '%' then EndsInString(f[..|f| - 1]) else f[|f| - 2..] == "%s"
  }

  /** A terminator is left behind "%s", survives a dropped '%', and is overwritten by anything else. */
  lemma {:induction false} EndsInStringExact(f: string, c: char)
    ensures EndsInString(f + [c]) <==> if c == '%' then EndsInString(f) else c == 's' && f != "" && f[|f| - 1] == '%'
  {
    var g := f + [c];
    assert g[..|f|] == f;
    if f != "" {
      assert g[|f| - 1..] == [f[|f| - 1], c];
    }
  }

  // ---------------------------------------------------------------- the buffer

  /** The buffer, which was `was`, begins with `done`. Behind that it is unchanged, except for the
      terminator if the last write was a strcpy. */
  ghost predicate Written(buf: array<char>, done: string, was: string, ended: bool)
    reads buf
  {
    |done| <= buf.Length == |was| && (forall i :: 0 <= i < |done| ==> buf[i] == done[i]) &&
    (|done| < buf.Length ==> buf[|done|] == if ended then '\0' else was[|done|]) &&
    forall i :: |done| < i < buf.Length ==> buf[i] == was[i]
  }

  /** *(buf_ptr++) = c */
  method PutChar(buf: array<char>, ptr: nat, c: char, ghost done: string, ghost was: string, ghost ended: bool)
    returns (next: nat)
    requires Written(buf, done, was, ended) && ptr == |done| < buf.Length
    modifies buf
    ensures Written(buf, done + [c], was, false) && next == |done| + 1
  {
    buf[ptr] := c;
    next := ptr + 1;
  }

  /** itoa: most significant digit first, through the advancing pointer. */
  method Itoa(value: nat, b: Base, buf: array<char>, ptr: nat, ghost done: string, ghost was: string, ghost ended: bool)
    returns (next: nat)
    requires Written(buf, done, was, ended) && ptr == |done| && |done| + |Digits(value, b)| <= buf.Length
    modifies buf
    ensures Written(buf, done + Digits(value, b), was, false) && next == |done| + |Digits(value, b)|
    decreases value
  {
    var m, i := Rem(value, b), Quot(value, b);
    next := ptr;
    ghost var head, e := "", ended;
    if i != 0 {
      head, e := Digits(i, b), false;
      next := Itoa(i, b, buf, next, done, was, ended);
    }
    DigitsSplit(value, b, m, head, done);
    next := PutDigit(buf, next, m, done + head, was, e);
  }

  method PutDigit(buf: array<char>, ptr: nat, m: nat, ghost done: string, ghost was: string, ghost ended: bool)
    returns (next: nat)
    requires m < 16 && Written(buf, done, was, ended) && ptr == |done| < buf.Length
    modifies buf
    ensures Written(buf, done + [DigitChar(m)], was, false) && next == |done| + 1
  {
    if m < 10 {
      next := PutChar(buf, ptr, '0' + m as char, done, was, ended);
    } else {
      next := PutChar(buf, ptr, 'A' + (m - 10) as char, done, was, ended);
    }
  }

  lemma DigitsSplit(value: nat, b: Base, m: nat, head: string, done: string)
    requires m == Rem(value, b) && head == if Quot(value, b) != 0 then Digits(Quot(value, b), b) else ""
    ensures done + Digits(value, b) == done + head + [DigitChar(m)] && (head == "" ==> done + head == done)
    ensures |Digits(value, b)| == |head| + 1
  {
    assert Digits(value, b) == head + [DigitChar(m)];
  }

  /** strcpy and the advance by strlen. */
  method PutString(buf: array<char>, ptr: nat, s: string, ghost done: string, ghost was: string, ghost ended: bool)
    returns (next: nat)
    requires Written(buf, done, was, ended) && ptr == |done| && |done| + |s| < buf.Length
    modifies buf
    ensures Written(buf, done + s, was, true) && next == |done| + |s|
  {
    var i := 0;
    ghost var e := ended;
    while i < |s|
      invariant i <= |s| && Written(buf, done + s[..i], was, e)
    {
      buf[ptr + i] := s[i];
      i, e := i + 1, false;
    }
    buf[ptr + i] := '\0';
    assert s[..i] == s;
    next := ptr + |s|;
  }

  /** One directive. */
  method PutArg(buf: array<char>, ptr: nat, d: char, arg: Arg, ghost done: string, ghost was: string, ghost ended: bool)
    returns (next: nat)
    requires Written(buf, done, was, ended) && ptr == |done| && IsDirective(d) && |done| + |Text(d, arg)| < buf.Length
    requires match arg { case Str(_) => d == 's' case Chr(_) => d == 'c' case Int(_) => d == 'd' || d == 'x' }
    modifies buf
    ensures Written(buf, done + Text(d, arg), was, d == 's') && next == |done| + |Text(d, arg)|
  {
    match arg
    case Str(s) => next := PutString(buf, ptr, s, done, was, ended);
    case Chr(c) => next := PutChar(buf, ptr, c, done, was, ended);
    case Int(v) =>
      if d == 'd' {
        next := PutDecimal(buf, ptr, v, done, was, ended);
      } else {
        next := Itoa(AsUnsigned(v), Hex, buf, ptr, done, was, ended);
      }
  }

  method PutDecimal(buf: array<char>, ptr: nat, v: Int32, ghost done: string, ghost was: string, ghost ended: bool)
    returns (next: nat)
    requires Written(buf, done, was, ended) && ptr == |done| && |done| + |Decimal(v)| < buf.Length
    modifies buf
    ensures Written(buf, done + Decimal(v), was, false) && next == |done| + |Decimal(v)|
  {
    if v < 0 {
      var m := AsUnsigned(Wrap32(0 - v));
      next := PutChar(buf, ptr, '-', done, was, ended);
      next := Itoa(m, Dec, buf, next, done + "-", was, false);
      Assoc(done, "-", Digits(m, Dec));
    } else {
      next := Itoa(v, Dec, buf, ptr, done, was, ended);
    }
  }

  /** Where strlen stops. */
  predicate FirstNul(s: string, n: nat) { n < |s| && s[n] == '\0' && NoNul(s[..n]) }

  /** strlen finds a terminator: in the text, put there by the format, or left in the buffer. */
  predicate Terminates(f: string, text: string, was: string) {
    !NoNul(text) || EndsInString(f) || exists i :: |text| <= i < |was| && was[i] == '\0'
  }

  /** vsprintf into any buffer with room: the buffer begins with the render and is unchanged behind
      it, and the result is the length of the string in it. The function writes no terminator of its
      own, so that string is the render exactly if a %s came last or a zero stood behind it. */
  method Vsprintf(buf: array<char>, f: string, args: seq<Arg>) returns (n: nat)
    requires NoNul(f) && Fits(f, args) && |Render(f, args)| < buf.Length && Terminates(f, Render(f, args), buf[..])
    modifies buf
    ensures Written(buf, Render(f, args), old(buf[..]), EndsInString(f)) && FirstNul(buf[..], n)
    ensures NoNul(Render(f, args)) ==>
              |Render(f, args)| <= n &&
              (n == |Render(f, args)| <==> EndsInString(f) || old(buf[..])[|Render(f, args)|] == '\0')
  {
    ghost var all, was := Render(f, args), buf[..];
    Interpret(buf, f, args);
    NulThere(buf, f, all, was);
    n := LengthOf(buf);
    StopsAt(buf[..], all, n);
  }

  /** The loop over the format. */
  method Interpret(buf: array<char>, f: string, args: seq<Arg>)
    requires Fits(f, args) && |Render(f, args)| < buf.Length
    modifies buf
    ensures Written(buf, Render(f, args), old(buf[..]), EndsInString(f))
  {
    var ptr, i, used := 0, 0, 0;
    ghost var done, all, was := "", Render(f, args), buf[..];
    assert f[0..] == f && args[0..] == args;
    while i < |f|
      invariant i <= |f| && used <= |args| && Fits(f[i..], args[used..])
      invariant ptr == |done| && all == done + Render(f[i..], args[used..])
      invariant Written(buf, done, was, EndsInString(f[..i])) && PercentSeen(f, i)
    {
      assert f[i..][1..] == f[i + 1..];
      EndsStep(f, i);
      if f[i] != '%' {
        Assoc(done, [f[i]], Render(f[i + 1..], args[used..]));
        ptr := PutChar(buf, ptr, f[i], done, was, EndsInString(f[..i]));
        done := done + [f[i]];
        i := i + 1;
      } else if i + 1 == |f| {
        i := i + 1;
      } else if IsDirective(f[i + 1]) {
        assert f[i..][2..] == f[i + 2..] && args[used..][1..] == args[used + 1..];
        ghost var text := Text(f[i + 1], args[used]);
        Assoc(done, text, Render(f[i + 2..], args[used + 1..]));
        ptr := PutArg(buf, ptr, f[i + 1], args[used], done, was, EndsInString(f[..i]));
        done := done + text;
        i, used := i + 2, used + 1;
      } else {
        i := i + 1;
      }
    }
    assert all == done && f[..i] == f;
  }

  /** A '%' just passed was not followed by a directive. */
  predicate PercentSeen(f: string, i: nat)
    requires i <= |f|
  {
    0 < i < |f| && f[i - 1] == '%' ==> !IsDirective(f[i])
  }

  lemma EndsStep(f: string, i: nat)
    requires i < |f| && PercentSeen(f, i)
    ensures EndsInString(f[..i + 1]) == (f[i] == '%' && EndsInString(f[..i]))
    ensures i + 1 < |f| && f[i] == '%' && IsDirective(f[i + 1]) ==> EndsInString(f[..i + 2]) == (f[i + 1] == 's')
  {
    var g := f[..i + 1];
    assert g[..i] == f[..i];
    if i > 0 {
      assert g[i - 1..] == [f[i - 1], f[i]];
    }
    if i + 1 < |f| {
      assert f[..i + 2][i..] == [f[i], f[i + 1]];
    }
  }

  lemma NulThere(buf: array<char>, f: string, text: string, was: string)
    requires |text| < buf.Length && Written(buf, text, was, EndsInString(f)) && Terminates(f, text, was)
    ensures '\0' in buf[..]
  {
    if !NoNul(text) {
      var i :| 0 <= i < |text| && text[i] == '\0';
      assert buf[..][i] == '\0';
    } else if EndsInString(f) {
      assert buf[..][|text|] == '\0';
    } else {
      var i :| |text| <= i < |was| && was[i] == '\0';
      assert buf[..][i] == '\0';
    }
  }

  /** Text without a NUL ends where strlen stops exactly if the next character is one. */
  lemma StopsAt(s: string, text: string, n: nat)
    requires |text| < |s| && s[..|text|] == text && FirstNul(s, n)
    ensures NoNul(text) ==> |text| <= n && (n == |text| <==> s[|text|] == '\0')
  {
    if n < |text| {
      assert text[n] == s[..|text|][n] == '\0';
    } else if n > |text| {
      assert s[..n][|text|] == s[|text|];
    }
  }

  method LengthOf(buf: array<char>) returns (n: nat)
    requires '\0' in buf[..]
    ensures FirstNul(buf[..], n)
  {
    n := 0;
    ghost var stop :| 0 <= stop < buf.Length && buf[..][stop] == '\0';
    while buf[n] != '\0'
      invariant n <= stop && NoNul(buf[..n])
      decreases stop - n
    {
      n := n + 1;
    }
    assert buf[..][..n] == buf[..n];
  }
}
