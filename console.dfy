/** What the firmware programs share: NUL-terminated C strings and the
    serial device they write to and read from.  The memory-mapped device
    registers (and the busy-waiting on their status bits) are replaced by
    a sequence of characters written and a sequence of bytes still to
    arrive. */
module Console {
  import opened Words

  /** The text of the C string stored in `s`: the characters before the
      first NUL.  `s` must hold a terminating NUL. */
  function CString(s: seq<char>): (t: seq<char>)
    requires '\0' in s
    ensures |t| < |s| && s[..|t|] == t && s[|t|] == '\0'
    ensures '\0' !in t
  {
    if s[0] == '\0' then []
    else
      assert '\0' in s[1..];
      [s[0]] + CString(s[1..])
  }

  /** A string literal is its text followed by the NUL the compiler adds. */
  lemma {:induction false} LiteralText(t: seq<char>, rest: seq<char>)
    requires '\0' !in t
    ensures CString(t + ['\0'] + rest) == t
  {
    if t != [] {
      assert (t + ['\0'] + rest)[1..] == t[1..] + ['\0'] + rest;
      LiteralText(t[1..], rest);
    }
  }

  /** A serial device: the characters written to it so far, and the bytes
      it will deliver, oldest first. */
  class Uart {
    var input: seq<byte>
    var out: seq<char>

    constructor (input: seq<byte>)
      ensures this.input == input && out == []
    {
      this.input := input;
      out := [];
    }

    /** `serial_out_char` / `my_putchar`: once the device has room, the
        character goes out. */
    method Put(c: char)
      modifies this
      ensures out == old(out) + [c] && input == old(input)
    {
      out := out + [c];
    }

    /** `serial_in_char`: once a byte has arrived, it is taken. */
    method Get() returns (b: byte)
      requires input != []
      modifies this
      ensures b == old(input)[0] && input == old(input)[1..] && out == old(out)
    {
      b := input[0];
      input := input[1..];
    }
  }
}
