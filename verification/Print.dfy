/** libc/usr/print.c: num2str and vsprintf. */
module Print {
  import opened Machine
  import opened Numerals

  type Int32 = x: int | -0x8000_0000 <= x < 0x8000_0000

  datatype Flags = HexFmt | IntFmt | UintFmt

  // (uint32_t)num
  function Unsigned(num: Int32): (n: nat)
    ensures n == num || n == num + 0x1_0000_0000
    ensures n < U32
  {
    if num < 0 then num + U32 else num
  }

  // The decimal loop runs while num > 0, so a negative number comes out like 0; UINT_FMT writes nothing.
  function NumberText(num: Int32, flags: Flags): string {
    match flags
    case HexFmt => "0" + "x" + Numeral(Unsigned(num), 16)
    case IntFmt => Numeral(if num > 0 then num else 0, 10)
    case UintFmt => ""
  }

  lemma Powers()
    ensures Power(16, 8) == U32 && 0x8000_0000 <= Power(10, 10)
  {
  }

  // Eight digits hold every 32-bit number in hexadecimal, ten every positive int in decimal.
  lemma FewDigits(num: Int32)
    ensures |Digits(Unsigned(num), 16)| <= 8
    ensures |Digits(if num > 0 then num else 0, 10)| <= 10
  {
    Powers();
    DigitsBound(Unsigned(num), 16, 8);
    if num > 0 {
      DigitsBound(num, 10, 10);
    }
  }

  lemma NumeralLength(n: nat, base: nat)
    requires 2 <= base <= 16
    ensures |Numeral(n, base)| == if n == 0 then 1 else |Digits(n, base)|
  {
  }

  /** Reading the digits back gives the number: in hexadecimal every 32-bit number, in decimal exactly the
      non-negative ones. */
  lemma NumberReadsBackIff(num: Int32)
    ensures var hex := NumberText(num, HexFmt);
            |hex| > 2 && hex[..2] == "0x" && Canonical(hex[2..], 16) && Value(hex[2..], 16) == Unsigned(num)
    ensures Canonical(NumberText(num, IntFmt), 10)
    ensures Value(NumberText(num, IntFmt), 10) == num <==> num >= 0
    ensures num <= 0 ==> NumberText(num, IntFmt) == "0"
  {
    NothingBelowZero(num);
    hide Numeral, Canonical, Value;
    NumeralReadsBack(Unsigned(num), 16);
    NumeralReadsBack(if num > 0 then num else 0, 10);
    var digits := Numeral(Unsigned(num), 16);
    NotEmpty(digits, 16);
    assert ("0" + "x" + digits)[2..] == digits && ("0" + "x" + digits)[..2] == "0x";
  }

  lemma NothingBelowZero(num: Int32)
    ensures num <= 0 ==> NumberText(num, IntFmt) == "0"
  {
  }

  lemma NotEmpty(s: string, base: nat)
    requires Canonical(s, base)
    ensures s != ""
  {
  }

  function Reversed(s: string): string {
    if s == "" then "" else Reversed(s[1..]) + [s[0]]
  }

  lemma ReversedPush(s: string, c: char)
    ensures Reversed(s + [c]) == [c] + Reversed(s)
  {
    if s != "" {
      assert (s + [c])[1..] == s[1..] + [c];
    }
  }

  // The digit a loop takes off a number, and the number it goes on with.
  function LowDigit(n: nat, base: nat): (d: nat)
    requires base > 0
    ensures d < base
  {
    n % base
  }

  function Shifted(n: nat, base: nat): nat
    requires base > 0
  {
    n / base
  }

  // One digit moves from the number to the buffer.
  lemma DigitMoves(n: nat, base: nat, tmp: string)
    requires 2 <= base <= 16 && n > 0
    ensures var c, rest := ASCIINUM[LowDigit(n, base)], Shifted(n, base);
            && Digits(n, base) + Reversed(tmp) == Digits(rest, base) + Reversed(tmp + [c])
            && |Digits(n, base)| == |Digits(rest, base)| + 1 && rest < n
  {
    ReversedPush(tmp, ASCIINUM[n % base]);
    LastDigit(n, base, n / base, n % base);
    hide Reversed, Digits;
    var front := Digits(n / base, base);
    assert front + [ASCIINUM[n % base]] + Reversed(tmp) == front + ([ASCIINUM[n % base]] + Reversed(tmp));
  }

  lemma NoDigits(base: nat)
    requires 2 <= base <= 16
    ensures Digits(0, base) == ""
  {
  }

  lemma ReversedOne(c: char)
    ensures Reversed([c]) == [c]
  {
  }

  // The two loops of num2str: in hexadecimal & 0xF and >> 4 on an unsigned number, in decimal % 10 and / 10.
  method FillDigits(tmpbuf: array<char>, n: nat, base: nat) returns (i: nat)
    requires 2 <= base <= 16 && |Digits(n, base)| < tmpbuf.Length
    modifies tmpbuf
    ensures i <= tmpbuf.Length && Reversed(tmpbuf[..i]) == Numeral(n, base)
    ensures i == if n == 0 then 1 else |Digits(n, base)|
  {
    var num: nat := n;
    i := 0;
    assert Reversed(tmpbuf[..0]) == "";
    NoDigits(base);
    if n > 0 { DigitMoves(n, base, ""); }
    hide Digits, Reversed, LowDigit, Shifted;
    while num > 0
      invariant |Digits(num, base)| + i == |Digits(n, base)|
      invariant Digits(num, base) + Reversed(tmpbuf[..i]) == Digits(n, base)
    {
      hide Digits, Reversed, LowDigit, Shifted;
      DigitMoves(num, base, tmpbuf[..i]);
      ghost var before := tmpbuf[..i];
      var tmp := LowDigit(num, base);
      num := Shifted(num, base);
      tmpbuf[i] := ASCIINUM[tmp];
      i := i + 1;
      assert tmpbuf[..i] == before + [ASCIINUM[tmp]];
    }
    assert "" + Reversed(tmpbuf[..i]) == Reversed(tmpbuf[..i]);
    if i == 0 {
      ReversedOne('0');
      tmpbuf[0] := '0';
      i := 1;
      assert tmpbuf[..1] == ['0'];
    }
  }

  // ----- Writing into a buffer -----

  // The text has been written at a position and nothing else has changed.
  ghost predicate Written(before: string, after: string, at: nat, text: string) {
    at + |text| <= |before| && after == before[..at] + text + before[at + |text|..]
  }

  lemma WrittenNothing(b: string, at: nat)
    requires at <= |b|
    ensures Written(b, b, at, "")
  {
  }

  lemma WrittenMore(b: string, c: string, d: string, at: nat, s: string, t: string)
    requires Written(b, c, at, s) && Written(c, d, at + |s|, t)
    ensures Written(b, d, at, s + t)
  {
  }

  // *buf++ = c
  method PutChar(buf: array<char>, at: nat, c: char, ghost start: string, ghost from: nat, ghost text: string)
    returns (next: nat)
    requires at < buf.Length && at == from + |text| && Written(start, buf[..], from, text)
    modifies buf
    ensures next == at + 1 && Written(start, buf[..], from, text + [c])
  {
    ghost var before := buf[..];
    buf[at] := c;
    next := at + 1;
    assert buf[..] == before[..at] + [c] + before[at + 1..];
    WrittenMore(start, before, buf[..], from, text, [c]);
  }

  // num2str: the text goes to the buffer at `at`, behind what has been written since `from`.
  method Num2Str(buf: array<char>, at: nat, num: Int32, flags: Flags, ghost start: string, ghost from: nat, ghost text: string)
    returns (next: nat)
    requires at + |NumberText(num, flags)| <= buf.Length && at == from + |text| && Written(start, buf[..], from, text)
    modifies buf
    ensures next == at + |NumberText(num, flags)| && Written(start, buf[..], from, text + NumberText(num, flags))
  {
    hide Digits, Reversed, Numeral, Unsigned, Written;
    next := at;
    var tmpbuf := new char[30];
    FewDigits(num);
    if flags == HexFmt {
      NumeralLength(Unsigned(num), 16);
      next := PutChar(buf, next, '0', start, from, text);
      next := PutChar(buf, next, 'x', start, from, text + ['0']);
      Associate(text, "0", "x", Numeral(Unsigned(num), 16));
      var i := FillDigits(tmpbuf, Unsigned(num), 16);
      next := Unload(buf, next, tmpbuf, i, start, from, text + ['0'] + ['x']);
    } else if flags == IntFmt {
      var n := if num > 0 then num else 0;
      NumeralLength(n, 10);
      var i := FillDigits(tmpbuf, n, 10);
      next := Unload(buf, next, tmpbuf, i, start, from, text);
    } else {
      assert text + "" == text;
    }
  }

  lemma Associate(a: string, b: string, c: string, d: string)
    ensures a + b + c + d == a + (b + c + d)
  {
  }

  // The last loop of num2str.
  method Unload(buf: array<char>, at: nat, tmpbuf: array<char>, count: nat, ghost start: string, ghost from: nat,
                ghost text: string)
    returns (next: nat)
    requires count <= tmpbuf.Length && at + count <= buf.Length && buf != tmpbuf
    requires at == from + |text| && Written(start, buf[..], from, text)
    modifies buf
    ensures next == at + count && Written(start, buf[..], from, text + Reversed(tmpbuf[..count]))
  {
    hide Written, Reversed;
    var i := count;
    next := at;
    ghost var done := text;
    while i > 0
      invariant 0 <= i <= count && next == at + count - i == from + |done| && Written(start, buf[..], from, done)
      invariant done + Reversed(tmpbuf[..i]) == text + Reversed(tmpbuf[..count])
    {
      hide Written, Reversed;
      i := i - 1;
      MoveOne(done, tmpbuf[..i], tmpbuf[i]);
      assert tmpbuf[..i + 1] == tmpbuf[..i] + [tmpbuf[i]];
      next := PutChar(buf, next, tmpbuf[i], start, from, done);
      done := done + [tmpbuf[i]];
    }
    ReversedNothing(tmpbuf[..0]);
    assert done + "" == done;
  }

  lemma MoveOne(done: string, s: string, c: char)
    ensures done + Reversed(s + [c]) == done + [c] + Reversed(s)
  {
    ReversedPush(s, c);
    assert done + ([c] + Reversed(s)) == done + [c] + Reversed(s);
  }

  lemma ReversedNothing(s: string)
    requires s == ""
    ensures Reversed(s) == ""
  {
  }
}
