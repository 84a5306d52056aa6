/** `my_puts` of the `hello_world` firmware: a C string written through
    `my_putchar` to a UART without flow control, each line feed preceded
    by a carriage return. */
module HelloWorld {
  import opened Console

  const Lf: char := '\n'
  const Cr: char := '\r'

  /** Line-feed expansion: every LF becomes CR LF, every other character
      (an existing CR included) stays as it is. */
  function Crlf(t: seq<char>): seq<char>
  {
    if t == [] then [] else (if t[0] == Lf then [Cr, Lf] else [t[0]]) + Crlf(t[1..])
  }

  /** The number of line feeds in `t`. */
  function Lfs(t: seq<char>): nat
  {
    if t == [] then 0 else (if t[0] == Lf then 1 else 0) + Lfs(t[1..])
  }

  /** The reverse of the expansion: a CR directly before an LF is dropped. */
  function Uncrlf(u: seq<char>): seq<char>
    decreases |u|
  {
    if u == [] then []
    else if |u| >= 2 && u[0] == Cr && u[1] == Lf then [Lf] + Uncrlf(u[2..])
    else [u[0]] + Uncrlf(u[1..])
  }

  /** `my_puts(s)`: every character before the NUL goes out in order, an LF
      as CR LF; the NUL itself does not. */
  method MyPuts(uart: Uart, s: seq<char>)
    requires '\0' in s
    modifies uart
    ensures uart.out == old(uart.out) + Crlf(CString(s)) && uart.input == old(uart.input)
  {
    var i := 0;
    while s[i] != '\0'
      invariant i <= |CString(s)|
      invariant uart.out == old(uart.out) + Crlf(s[..i]) && uart.input == old(uart.input)
      decreases |s| - i
    {
      if s[i] == Lf {
        uart.Put(Cr);
      }
      uart.Put(s[i]);
      CrlfAppend(s[..i], [s[i]]);
      assert s[..i + 1] == s[..i] + [s[i]];
      i := i + 1;
    }
  }

  lemma {:induction false} CrlfAppend(a: seq<char>, b: seq<char>)
    ensures Crlf(a + b) == Crlf(a) + Crlf(b)
  {
    if a != [] {
      assert (a + b)[1..] == a[1..] + b;
      CrlfAppend(a[1..], b);
    } else {
      assert a + b == b;
    }
  }

  /** The output is one character longer than the text per line feed. */
  lemma {:induction false} CrlfLength(t: seq<char>)
    ensures |Crlf(t)| == |t| + Lfs(t)
  {
    if t != [] {
      CrlfLength(t[1..]);
    }
  }

  /** The expansion never starts with an LF. */
  lemma CrlfStart(t: seq<char>)
    requires t != []
    ensures Crlf(t)[0] != Lf
  {
  }

  /** Dropping the CR before each LF gives the text back, so nothing but
      those CRs is added and every character keeps its order. */
  lemma {:induction false} UncrlfCrlf(t: seq<char>)
    ensures Uncrlf(Crlf(t)) == t
  {
    if t != [] {
      var rest := Crlf(t[1..]);
      UncrlfCrlf(t[1..]);
      if t[0] == Lf {
        assert Crlf(t) == [Cr, Lf] + rest;
        assert (Crlf(t))[2..] == rest;
      } else {
        assert Crlf(t) == [t[0]] + rest;
        if rest != [] {
          CrlfStart(t[1..]);
        }
        assert Crlf(t)[1..] == rest;
      }
    }
  }

  /** Every LF of the output comes straight after a CR. */
  lemma {:induction false} LfAfterCr(t: seq<char>)
    ensures forall i :: 0 <= i < |Crlf(t)| && Crlf(t)[i] == Lf ==> i > 0 && Crlf(t)[i - 1] == Cr
  {
    if t != [] {
      LfAfterCr(t[1..]);
      var u, head, rest := Crlf(t), if t[0] == Lf then [Cr, Lf] else [t[0]], Crlf(t[1..]);
      assert u == head + rest;
      forall i | 0 <= i < |u| && u[i] == Lf
        ensures i > 0 && u[i - 1] == Cr
      {
        if i >= |head| {
          assert u[i] == rest[i - |head|];
          if i - |head| > 0 {
            assert u[i - 1] == rest[i - |head| - 1];
          }
        }
      }
    }
  }
}
