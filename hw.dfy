/** The text routines of the `hw.c` firmware: lower-case hexadecimal
    output of a whole 32-bit word and string output, over the serial
    device of the `Console` module.  The device polling and `main` are
    not modelled. */
module Hw {
  import opened Words
  import opened Strtol
  import opened Console

  /** The character `serial_out_nibble` sends for `v`: `v + '0'` below 10,
      otherwise `v - 10 + 'a'`, truncated to a `char`.  For a digit value it
      is the lower-case digit of the table, which `strtol` reads back. */
  function Nibble(v: u32): (c: char)
    ensures c as int < 256
    ensures v < 16 ==> c == HexDigitChar(v, false) && DigitValue(c) == v
  {
    if v < 10 then (v + '0' as int) as char
    else ((v - 10 + 'a' as int) % 256) as char
  }

  /** `serial_out_string(s)`: the characters of `s` up to its NUL. */
  method OutString(uart: Uart, s: seq<char>)
    requires '\0' in s
    modifies uart
    ensures uart.out == old(uart.out) + CString(s) && uart.input == old(uart.input)
  {
    var i := 0;
    while s[i] != '\0'
      invariant i <= |CString(s)|
      invariant uart.out == old(uart.out) + s[..i] && uart.input == old(uart.input)
      decreases |s| - i
    {
      uart.Put(s[i]);
      i := i + 1;
    }
  }

  /** `serial_out_hex(v)`: the nibbles `v >> (28 - 4*i) & 15` for `i` from 0
      to 7, that is all eight digits of `v`, most significant first, which
      `strtol` reads back as `v` (`Strtol.HexStringParses`). */
  method OutHex(uart: Uart, v: u32)
    modifies uart
    ensures uart.out == old(uart.out) + HexString(v) && uart.input == old(uart.input)
    ensures |uart.out| == |old(uart.out)| + 8
  {
    for i := 0 to 8
      invariant uart.out == old(uart.out) + HexString(v)[..i] && uart.input == old(uart.input)
    {
      assert 4 * (7 - i) == 28 - i * 4;
      ghost var d := v / Pow2(28 - i * 4) % 16;
      assert d == Digit(v, 7 - i);
      uart.Put(Nibble(v / Pow2(28 - i * 4) % 16));
      assert HexString(v)[..i + 1] == HexString(v)[..i] + [HexString(v)[i]];
    }
    assert HexString(v)[..8] == HexString(v);
  }
}
