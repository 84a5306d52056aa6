/** The text routines of the BeMicroCV-A9 demo firmware: upper-case
    hexadecimal output, string output and the `readline` line editor,
    over the serial device of the `Console` module.  The device polling
    and `main` are not modelled. */
module Demo {
  import opened Words
  import opened Strtol
  import opened Console

  /** The character `serial_out_nibble` sends for `v`: `v + '0'` below 10,
      otherwise `v - 10 + 'A'`, truncated to a `char`.  For a digit value it
      is the upper-case digit of the table, which `strtol` reads back. */
  function Nibble(v: u32): (c: char)
    ensures c as int < 256
    ensures v < 16 ==> c == HexDigitChar(v, true) && DigitValue(c) == v
  {
    if v < 10 then (v + '0' as int) as char
    else ((v - 10 + 'A' as int) % 256) as char
  }

  /** The low `n` hexadecimal digits of `v` in upper case, most
      significant first. */
  function HexUpper(v: u32, n: nat): (s: seq<char>)
    ensures |s| == n
  {
    seq(n, k requires 0 <= k < n => HexDigitChar(Digit(v, n - 1 - k), true))
  }

  /** `serial_out_string(s)`: the characters of `s` up to its NUL. */
  method OutString(uart: Uart, s: seq<char>)
    requires '\0' in s
    modifies uart
    ensures uart.out == old(uart.out) + CString(s) && uart.input == old(uart.input)
  {
    var i := 0;
    while s[i] != '\0'
      invariant i <= |CString(s)|
      invariant uart.out == old(uart.out) + s[..i] && uart.input == old(uart.input)
      decreases |s| - i
    {
      uart.Put(s[i]);
      i := i + 1;
    }
  }

  /** `serial_out_hex(len, v)`: the nibbles `v >> (28 - 4*i) & 15` for `i`
      from `8 - len` to 7, that is the low `len` digits of `v`, most
      significant first; nothing when `len` is not positive.  A `len`
      above 8 would shift a 32-bit `unsigned long` by 32 or more, which C
      leaves undefined. */
  method OutHex(uart: Uart, len: int, v: u32)
    requires len <= 8
    modifies uart
    ensures uart.out == old(uart.out) + HexUpper(v, if len < 0 then 0 else len)
    ensures uart.input == old(uart.input)
  {
    var i := 8 - len;
    while i < 8
      invariant len <= 0 ==> i == 8 - len && uart.out == old(uart.out)
      invariant len > 0 ==> 8 - len <= i <= 8 && uart.out == old(uart.out) + HexUpper(v, len)[..i - (8 - len)]
      invariant uart.input == old(uart.input)
    {
      assert 4 * (7 - i) == 28 - i * 4;
      ghost var d := v / Pow2(28 - i * 4) % 16;
      assert d == Digit(v, 7 - i);
      assert HexUpper(v, len)[i - (8 - len)] == HexDigitChar(Digit(v, 7 - i), true);
      uart.Put(Nibble(v / Pow2(28 - i * 4) % 16));
      assert HexUpper(v, len)[..i + 1 - (8 - len)] == HexUpper(v, len)[..i - (8 - len)] + [HexUpper(v, len)[i - (8 - len)]];
      i := i + 1;
    }
    assert len > 0 ==> HexUpper(v, len)[..8 - (8 - len)] == HexUpper(v, len);
  }

  /** For 1 <= len <= 8 what `serial_out_hex(len, v)` prints is read back by
      `strtol` as `v` modulo 16^len. */
  lemma HexUpperParses(v: u32, len: nat)
    requires 1 <= len <= 8
    ensures ParseHex32(HexUpper(v, len)) == Some(v % Pow16(len))
  {
    HexUpperValue(v, len);
    Pow16Below(len, 8);
    Pow16Eight();
    ParseWord(HexUpper(v, len), v % Pow16(len));
  }

  lemma HexUpperValue(v: u32, len: nat)
    ensures AllHexDigits(HexUpper(v, len))
    ensures DigitsValue(DigitValues(HexUpper(v, len))) == v % Pow16(len)
  {
    var s := HexUpper(v, len);
    assert AllHexDigits(s) by {
      forall i | 0 <= i < len ensures IsHexDigit(s[i]) {
        assert s[i] == HexDigitChar(Digit(v, len - 1 - i), true);
      }
    }
    assert DigitValues(s) == LowDigits(v, len) by {
      forall i | 0 <= i < len ensures DigitValues(s)[i] == LowDigits(v, len)[i] {
        assert s[i] == HexDigitChar(Digit(v, len - 1 - i), true);
      }
    }
    LowDigitsValue(v, len);
  }

  lemma {:induction false} Pow16Below(a: nat, b: nat)
    requires a <= b
    ensures Pow16(a) <= Pow16(b)
    decreases b
  {
    if a < b {
      Pow16Below(a, b - 1);
    }
  }

  const Newline: byte := 10
  const Delete: byte := 127

  /** The echo that erases the last character on a terminal: back, blank,
      back. */
  const Erase: seq<char> := [8 as char, ' ', 8 as char]

  predicate Printable(s: seq<char>)
  {
    forall k :: 0 <= k < |s| ==> ' ' <= s[k] <= '~'
  }

  /** What a terminal shows after `screen` receives `echo`: an erase
      sequence removes the last character, anything else is appended. */
  function Shown(screen: seq<char>, echo: seq<char>): seq<char>
    decreases |echo|
  {
    if echo == [] then screen
    else if |echo| >= 3 && echo[..3] == Erase then
      Shown(if screen == [] then [] else screen[..|screen| - 1], echo[3..])
    else Shown(screen + [echo[0]], echo[1..])
  }

  /** The line as stored so far and everything echoed for it. */
  datatype Edited = Edited(line: seq<char>, echo: seq<char>)

  /** `readline`'s reaction to one byte other than the newline, with line
      `line` stored and room for `size` characters: DEL removes the last
      character and erases it on the terminal, or does nothing on an empty
      line; a printable byte is stored and echoed while there is room;
      anything else is ignored without echo.  A terminal showing the line
      before shows the line after once it has received the echo. */
  function Key(line: seq<char>, ch: byte, size: nat): (r: Edited)
    requires ch != Newline
    ensures |line| <= size ==> |r.line| <= size
    ensures Printable(line) ==> Printable(r.line)
    ensures Shown(line, r.echo) == r.line
  {
    if ch == Delete then
      if line != [] then Edited(line[..|line| - 1], Erase) else Edited(line, [])
    else if ' ' as int <= ch < Delete as int && |line| != size then
      Edited(line + [ch as char], [ch as char])
    else Edited(line, [])
  }

  /** A key's echo is taken in by the terminal before whatever follows. */
  lemma KeyShown(line: seq<char>, ch: byte, size: nat, more: seq<char>)
    requires ch != Newline
    ensures Shown(line, Key(line, ch, size).echo + more) == Shown(Key(line, ch, size).line, more)
  {
    var k := Key(line, ch, size);
    if k.echo == Erase {
      assert (k.echo + more)[..3] == Erase && (k.echo + more)[3..] == more;
    } else if k.echo != [] {
      assert (k.echo + more)[1..] == more;
    } else {
      assert k.echo + more == more;
    }
  }

  /** DEL takes back the last character stored, whatever it is, and echoes
      the erase sequence; on an empty line it stores and echoes nothing. */
  lemma DeleteLast(line: seq<char>, c: char, size: nat)
    ensures Key(line + [c], Delete, size) == Edited(line, Erase)
    ensures Key([], Delete, size) == Edited([], [])
  {
    assert (line + [c])[..|line|] == line;
  }

  /** DEL undoes a printable key that found room: the line is back to what
      it was, and the terminal, which showed the key's echo, shows the old
      line again. */
  lemma DeleteUndoes(line: seq<char>, ch: byte, size: nat)
    requires ' ' as int <= ch < Delete as int && |line| < size
    ensures Key(line, ch, size) == Edited(line + [ch as char], [ch as char])
    ensures Key(Key(line, ch, size).line, Delete, size) == Edited(line, Erase)
    ensures Shown(line, Key(line, ch, size).echo + Key(Key(line, ch, size).line, Delete, size).echo) == line
  {
    DeleteLast(line, ch as char, size);
    KeyShown(line, ch, size, Erase);
  }

  /** The index of the first newline in `input`. */
  function NewlineAt(input: seq<byte>): (i: nat)
    requires Newline in input
    ensures i < |input| && input[i] == Newline
    ensures forall k :: 0 <= k < i ==> input[k] != Newline
  {
    if input[0] == Newline then 0
    else
      assert Newline in input[1..];
      1 + NewlineAt(input[1..])
  }

  /** What `readline` does with the bytes up to the first newline, starting
      from `line`: the line it stores and what it echoes before the final
      newline.  The line never exceeds `size` characters, holds only
      printable ones, and a terminal that showed `line` shows the final
      line once it has received the echo. */
  function Edit(line: seq<char>, input: seq<byte>, size: nat): (r: Edited)
    requires Newline in input
    ensures |line| <= size ==> |r.line| <= size
    ensures Printable(line) ==> Printable(r.line)
    ensures Shown(line, r.echo) == r.line
    decreases |input|
  {
    if input[0] == Newline then Edited(line, [])
    else
      var k := Key(line, input[0], size);
      assert Newline in input[1..];
      var rest := Edit(k.line, input[1..], size);
      KeyShown(line, input[0], size, rest.echo);
      Edited(rest.line, k.echo + rest.echo)
  }

  /** Bytes that are neither DEL, newline nor printable change nothing and
      are not echoed; nor is a printable byte once the line is full. */
  lemma Ignored(line: seq<char>, ch: byte, size: nat)
    requires ch != Newline && ch != Delete
    requires !(' ' as int <= ch < Delete as int) || |line| == size
    ensures Key(line, ch, size) == Edited(line, [])
  {
  }

  /** A full line of printable text followed by a newline is stored whole,
      so the NUL goes to index `size`, one past the last character. */
  lemma {:induction false} FullLine(line: seq<char>, text: seq<byte>, size: nat)
    requires |line| + |text| == size
    requires forall k :: 0 <= k < |text| ==> ' ' as int <= text[k] < Delete as int
    ensures Newline in text + [Newline]
    ensures Edit(line, text + [Newline], size).line == line + seq(|text|, k requires 0 <= k < |text| => text[k] as char)
    decreases |text|
  {
    var input := text + [Newline];
    assert input[|text|] == Newline;
    if text != [] {
      assert input[0] == text[0] && input[1..] == text[1..] + [Newline];
      FullLine(line + [text[0] as char], text[1..], size);
      assert [text[0] as char] + seq(|text| - 1, k requires 0 <= k < |text| - 1 => text[1..][k] as char)
        == seq(|text|, k requires 0 <= k < |text| => text[k] as char);
    }
  }

  /** `readline(buf, size)`: take bytes until a newline, editing the line
      in `buf` as `Edit` describes, then store a NUL after the line and
      echo the newline.  The NUL can land on `buf[size]`, so the buffer
      needs `size + 1` places; nothing past that index is touched.  A
      newline must eventually arrive (the device is polled forever). */
  method ReadLine(uart: Uart, buf: array<char>, size: nat)
    requires size < buf.Length && Newline in uart.input
    modifies uart, buf
    ensures var r := Edit([], old(uart.input), size);
            |r.line| <= size && buf[..|r.line|] == r.line && buf[|r.line|] == '\0' &&
            uart.out == old(uart.out) + r.echo + ['\n']
    ensures uart.input == old(uart.input)[NewlineAt(old(uart.input)) + 1..]
    ensures buf[size + 1..] == old(buf[size + 1..])
  {
    ghost var in0, out0, r0 := uart.input, uart.out, Edit([], uart.input, size);
    ghost var line: seq<char> := [];
    var p: nat := 0;
    while true
      invariant p == |line| <= size && buf[..p] == line && Newline in uart.input
      invariant Edit(line, uart.input, size).line == r0.line
      invariant out0 + r0.echo == uart.out + Edit(line, uart.input, size).echo
      invariant in0[NewlineAt(in0) + 1..] == uart.input[NewlineAt(uart.input) + 1..]
      invariant buf[size + 1..] == old(buf[size + 1..])
      decreases |uart.input|
    {
      ghost var input, out := uart.input, uart.out;
      var next, done := Take(uart, buf, p, size);
      if done {
        return;
      }
      EditStep(line, input, size, out, uart.out, buf[..next]);
      line := buf[..next];
      p := next;
    }
  }

  /** One pass of `readline`'s loop over a line of `p` characters: take a
      byte and react to it.  A newline stores the NUL at `p` and is echoed;
      any other byte acts as `Key` says. */
  method Take(uart: Uart, buf: array<char>, p: nat, size: nat) returns (next: nat, done: bool)
    requires p <= size < buf.Length && uart.input != []
    modifies uart, buf
    ensures uart.input == old(uart.input)[1..]
    ensures done <==> old(uart.input)[0] == Newline
    ensures done ==> buf[..p] == old(buf[..p]) && buf[p] == '\0' && uart.out == old(uart.out) + ['\n']
    ensures !done ==> next <= size && buf[..next] == Key(old(buf[..p]), old(uart.input)[0], size).line
    ensures !done ==> uart.out == old(uart.out) + Key(old(buf[..p]), old(uart.input)[0], size).echo
    ensures buf[size + 1..] == old(buf[size + 1..])
  {
    ghost var line := buf[..p];
    next, done := p, false;
    var ch := uart.Get();
    if ch == Delete {
      if p != 0 {
        next := p - 1;
        LiteralText(Erase, []);
        OutString(uart, Erase + ['\0']);
      }
    } else if ch == Newline {
      buf[p] := '\0';
      uart.Put('\n');
      done := true;
    } else if ' ' as int <= ch < Delete as int && p != size {
      buf[p] := ch as char;
      next := p + 1;
      uart.Put(ch as char);
      assert buf[..next] == line + [ch as char];
    }
  }

  /** One byte other than the newline, taken by `readline`. */
  lemma EditStep(line: seq<char>, input: seq<byte>, size: nat, out: seq<char>, out': seq<char>, line': seq<char>)
    requires Newline in input && input[0] != Newline
    requires line' == Key(line, input[0], size).line
    requires out' == out + Key(line, input[0], size).echo
    ensures Newline in input[1..]
    ensures Edit(line', input[1..], size).line == Edit(line, input, size).line
    ensures out + Edit(line, input, size).echo == out' + Edit(line', input[1..], size).echo
    ensures input[NewlineAt(input) + 1..] == input[1..][NewlineAt(input[1..]) + 1..]
  {
    assert Newline in input[1..];
    Regroup(out, Key(line, input[0], size).echo, Edit(line', input[1..], size).echo);
  }
}
