/** vsprintf of libc/usr/print.c. */
module Formatting {
  import opened Machine
  import opened Numerals
  import opened Print

  const NUL: char := '\0'

  datatype Arg = IntArg(num: Int32) | CharArg(c: char) | StrArg(s: string)

  // The kind of argument a directive takes; an unknown directive takes none.
  predicate Takes(c: char, args: seq<Arg>) {
    if c in "xXdi" then args != [] && args[0].IntArg?
    else if c == 'c' then args != [] && args[0].CharArg?
    else if c == 's' then args != [] && args[0].StrArg?
    else true
  }

  function Left(c: char, args: seq<Arg>): seq<Arg>
    requires Takes(c, args)
  {
    if c in "xXdics" then args[1..] else args
  }

  function Directive(c: char, args: seq<Arg>): string
    requires Takes(c, args)
  {
    if c in "xX" then NumberText(args[0].num, HexFmt)
    else if c in "di" then NumberText(args[0].num, IntFmt)
    else if c == 'c' then [args[0].c]
    else if c == 's' then args[0].s
    else ""
  }

  // The caller passes the arguments the format asks for.
  predicate Fits(fmt: string, args: seq<Arg>)
    decreases |fmt|
  {
    if fmt == "" || fmt == "%" then true
    else if fmt[0] != '%' then Fits(fmt[1..], args)
    else Takes(fmt[1], args) && Fits(fmt[2..], Left(fmt[1], args))
  }

  function Format(fmt: string, args: seq<Arg>): string
    requires Fits(fmt, args)
    decreases |fmt|
  {
    if fmt == "" || fmt == "%" then ""
    else if fmt[0] != '%' then [fmt[0]] + Format(fmt[1..], args)
    else Directive(fmt[1], args) + Format(fmt[2..], Left(fmt[1], args))
  }

  ghost predicate Plain(s: string) {
    '%' !in s
  }

  // Text without directives is copied.
  lemma {:induction false} PlainIsCopied(p: string, rest: string, args: seq<Arg>)
    requires Plain(p) && Fits(rest, args)
    ensures Fits(p + rest, args) && Format(p + rest, args) == p + Format(rest, args)
  {
    hide Fits, Format;
    if p == "" {
      assert p + rest == rest;
    } else {
      var tail := p[1..];
      PlainIsCopied(tail, rest, args);
      CharIsCopied(p[0], tail + rest, args);
      assert p + rest == [p[0]] + (tail + rest) && p == [p[0]] + tail;
      assert [p[0]] + (tail + Format(rest, args)) == p + Format(rest, args);
    }
  }

  lemma CharIsCopied(c: char, rest: string, args: seq<Arg>)
    requires c != '%' && Fits(rest, args)
    ensures Fits([c] + rest, args) && Format([c] + rest, args) == [c] + Format(rest, args)
  {
  }

  /** Up to its first directive a format is copied; then comes what the directive prints, and the rest is formatted with
      the arguments left.  An unknown directive prints nothing and takes no argument. */
  lemma OneDirective(prefix: string, c: char, rest: string, args: seq<Arg>)
    requires Plain(prefix) && Takes(c, args) && Fits(rest, Left(c, args))
    ensures c in "xXdics" ==> args != [] && Fits(rest, args[1..])
    ensures c !in "xXdics" ==> Fits(rest, args)
    ensures var fmt := prefix + ("%" + [c] + rest);
            && Fits(fmt, args)
            && (c in "xX" ==> args[0].IntArg? &&
                              Format(fmt, args) == prefix + (NumberText(args[0].num, HexFmt) + Format(rest, args[1..])))
            && (c in "di" ==> args[0].IntArg? &&
                              Format(fmt, args) == prefix + (NumberText(args[0].num, IntFmt) + Format(rest, args[1..])))
            && (c == 'c' ==> args[0].CharArg? && Format(fmt, args) == prefix + ([args[0].c] + Format(rest, args[1..])))
            && (c == 's' ==> args[0].StrArg? && Format(fmt, args) == prefix + (args[0].s + Format(rest, args[1..])))
            && (c !in "xXdics" ==> Format(fmt, args) == prefix + Format(rest, args))
  {
    hide NumberText, Plain;
    var middle := "%" + [c] + rest;
    assert middle[2..] == rest && middle[0] == '%' && middle[1] == c;
    assert "" + Format(rest, Left(c, args)) == Format(rest, Left(c, args));
    PlainIsCopied(prefix, middle, args);
  }

  /** Nothing is printed for the end of the format, nor for a % with nothing behind it. */
  lemma FormatEnds(args: seq<Arg>)
    ensures Fits("", args) && Format("", args) == "" && Fits("%", args) && Format("%", args) == ""
  {
  }

  /** A number printed with %x or %d between two literal texts can be read back from between them: with %x
      always, with %d exactly when it is not negative. */
  lemma PrintedNumberReadsBackIff(prefix: string, suffix: string, num: Int32)
    requires Plain(prefix) && Plain(suffix)
    ensures var hex := prefix + ("%x" + suffix);
            && Fits(hex, [IntArg(num)])
            && exists digits :: (Canonical(digits, 16) && Value(digits, 16) == Unsigned(num) &&
                                 Format(hex, [IntArg(num)]) == prefix + ("0x" + digits + suffix))
    ensures var dec := prefix + ("%d" + suffix);
            && Fits(dec, [IntArg(num)])
            && exists digits :: (Canonical(digits, 10) && (Value(digits, 10) == num <==> num >= 0) &&
                                 Format(dec, [IntArg(num)]) == prefix + (digits + suffix))
  {
    hide Canonical, Value, Fits, Format, Plain, NumberText;
    var args := [IntArg(num)];
    SuffixCopied(suffix, args[1..]);
    OneDirective(prefix, 'x', suffix, args);
    OneDirective(prefix, 'd', suffix, args);
    NumberReadsBackIff(num);
    assert "%" + ['x'] == "%x" && "%" + ['d'] == "%d";
    var hex, dec := NumberText(num, HexFmt), NumberText(num, IntFmt);
    assert hex == "0x" + hex[2..];
  }

  lemma SuffixCopied(suffix: string, args: seq<Arg>)
    requires Plain(suffix)
    ensures Fits(suffix, args) && Format(suffix, args) == suffix
  {
    FormatEnds(args);
    PlainIsCopied(suffix, "", args);
    assert suffix + "" == suffix;
  }

  // What is still to come, in either mode of the loop.
  predicate RestFits(formatting: bool, fmt: string, args: seq<Arg>) {
    if formatting then fmt != "" ==> Takes(fmt[0], args) && Fits(fmt[1..], Left(fmt[0], args)) else Fits(fmt, args)
  }

  function Rest(formatting: bool, fmt: string, args: seq<Arg>): string
    requires RestFits(formatting, fmt, args)
  {
    if !formatting then Format(fmt, args)
    else if fmt == "" then ""
    else Directive(fmt[0], args) + Format(fmt[1..], Left(fmt[0], args))
  }

  // What has been written and what is still to come make up the whole.
  ghost predicate Halfway(formatting: bool, fmt: string, args: seq<Arg>, done: string, whole: string) {
    RestFits(formatting, fmt, args) && done + Rest(formatting, fmt, args) == whole
  }

  lemma AtStart(fmt: string, args: seq<Arg>)
    requires Fits(fmt, args)
    ensures Halfway(false, fmt, args, "", Format(fmt, args))
  {
    hide Fits, Format;
    assert "" + Format(fmt, args) == Format(fmt, args);
  }

  lemma AtEnd(formatting: bool, args: seq<Arg>, done: string, whole: string)
    requires Halfway(formatting, "", args, done, whole)
    ensures done == whole
  {
  }

  lemma CopyStep(fmt: string, args: seq<Arg>, done: string, whole: string)
    requires fmt != "" && Halfway(false, fmt, args, done, whole)
    ensures fmt[0] == '%' ==> Halfway(true, fmt[1..], args, done, whole)
    ensures fmt[0] != '%' ==> Halfway(false, fmt[1..], args, done + [fmt[0]], whole) && |done| < |whole|
  {
  }

  lemma ConvertStep(fmt: string, args: seq<Arg>, done: string, whole: string)
    requires fmt != "" && Halfway(true, fmt, args, done, whole)
    ensures Takes(fmt[0], args)
    ensures Halfway(false, fmt[1..], Left(fmt[0], args), done + Directive(fmt[0], args), whole)
    ensures |done| + |Directive(fmt[0], args)| <= |whole|
  {
    hide Takes, Left, Directive, Fits, Format, Rest, RestFits;
    FitsAfter(fmt, args);
    RestAfter(fmt, args);
    var text, rest := Directive(fmt[0], args), Rest(false, fmt[1..], Left(fmt[0], args));
    assert (done + text) + rest == done + (text + rest);
  }

  lemma FitsAfter(fmt: string, args: seq<Arg>)
    requires fmt != "" && RestFits(true, fmt, args)
    ensures Takes(fmt[0], args) && RestFits(false, fmt[1..], Left(fmt[0], args))
  {
    hide Takes, Left, Fits;
  }

  lemma RestAfter(fmt: string, args: seq<Arg>)
    requires fmt != "" && RestFits(true, fmt, args) && Takes(fmt[0], args)
    requires RestFits(false, fmt[1..], Left(fmt[0], args))
    ensures Rest(true, fmt, args) == Directive(fmt[0], args) + Rest(false, fmt[1..], Left(fmt[0], args))
  {
    hide Takes, Left, Directive, Fits, Format;
  }

  // vsprintf.  The buffer has to be large enough; nothing checks it.
  method Vsprintf(buf: array<char>, fmt: string, args: seq<Arg>)
    requires Fits(fmt, args) && |Format(fmt, args)| < buf.Length
    modifies buf
    ensures Written(old(buf[..]), buf[..], 0, Format(fmt, args) + [NUL])
  {
    ghost var start, done, whole := buf[..], "", Format(fmt, args);
    WrittenNothing(start, 0);
    var formatting, at: nat, k: nat, i := false, 0, 0, 0;
    AtStart(fmt, args);
    assert fmt[0..] == fmt && args[0..] == args;
    hide Written, Format, Fits, Halfway;
    while i < |fmt|
      invariant i <= |fmt| && k <= |args| && at == |done| && Written(start, buf[..], 0, done)
      invariant Halfway(formatting, fmt[i..], args[k..], done, whole)
    {
      hide Written, Format, Fits, Halfway;
      formatting, at, k, done := Turn(buf, formatting, at, fmt, i, args, k, start, done, whole);
      i := i + 1;
    }
    assert fmt[i..] == "";
    AtEnd(formatting, args[k..], done, whole);
    at := PutChar(buf, at, NUL, start, 0, done);
  }

  // One turn of vsprintf's loop.
  method Turn(buf: array<char>, mode: bool, at: nat, fmt: string, i: nat, args: seq<Arg>, k: nat,
              ghost start: string, ghost done: string, ghost whole: string)
    returns (mode': bool, at': nat, k': nat, ghost done': string)
    requires i < |fmt| && k <= |args| && at == |done| && Written(start, buf[..], 0, done)
    requires Halfway(mode, fmt[i..], args[k..], done, whole) && |whole| < buf.Length
    modifies buf
    ensures k' <= |args| && at' == |done'| && Written(start, buf[..], 0, done')
    ensures Halfway(mode', fmt[i + 1..], args[k'..], done', whole)
  {
    hide Written, Format, Fits, Halfway, Takes, Left, Directive;
    assert fmt[i..][1..] == fmt[i + 1..] && fmt[i..][0] == fmt[i];
    var c := fmt[i];
    mode', at', k', done' := false, at, k, done;
    if !mode {
      CopyStep(fmt[i..], args[k..], done, whole);
      if c == '%' {
        mode' := true;
      } else {
        at' := PutChar(buf, at, c, start, 0, done);
        done' := done + [c];
      }
    } else {
      ConvertStep(fmt[i..], args[k..], done, whole);
      done' := done + Directive(c, args[k..]);
      at', k' := Convert(buf, at, c, args, k, start, done);
    }
  }

  // The switch of vsprintf.
  method Convert(buf: array<char>, at: nat, c: char, args: seq<Arg>, k: nat, ghost start: string, ghost done: string)
    returns (next: nat, rest: nat)
    requires k <= |args| && Takes(c, args[k..]) && at + |Directive(c, args[k..])| <= buf.Length
    requires at == |done| && Written(start, buf[..], 0, done)
    modifies buf
    ensures next == at + |Directive(c, args[k..])| && Written(start, buf[..], 0, done + Directive(c, args[k..]))
    ensures k <= rest <= |args| && args[rest..] == Left(c, args[k..])
  {
    hide Written;
    next, rest := at, k;
    if c == 'X' || c == 'x' {
      next := Num2Str(buf, at, args[k].num, HexFmt, start, 0, done);
      rest := k + 1;
    } else if c == 'd' || c == 'i' {
      next := Num2Str(buf, at, args[k].num, IntFmt, start, 0, done);
      rest := k + 1;
    } else if c == 'c' {
      next := PutChar(buf, at, args[k].c, start, 0, done);
      rest := k + 1;
    } else if c == 's' {
      next := PutString(buf, at, args[k].s, start, done);
      rest := k + 1;
    } else {
      assert done + "" == done;
    }
  }

  // The inner loop for %s.
  method PutString(buf: array<char>, at: nat, src: string, ghost start: string, ghost done: string) returns (next: nat)
    requires at + |src| <= buf.Length && at == |done| && Written(start, buf[..], 0, done)
    modifies buf
    ensures next == at + |src| && Written(start, buf[..], 0, done + src)
  {
    hide Written;
    next := at;
    var j := 0;
    assert done + src[..0] == done;
    while j < |src|
      invariant j <= |src| && next == at + j && Written(start, buf[..], 0, done + src[..j])
    {
      hide Written;
      next := PutChar(buf, next, src[j], start, 0, done + src[..j]);
      assert done + src[..j] + [src[j]] == done + src[..j + 1];
      j := j + 1;
    }
    assert src[..j] == src;
  }
}
