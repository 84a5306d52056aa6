/** The serial bridge (`sw/htif/htif-serial.c`): the same command set as
    the JTAG bridge, sent over a serial line.  `write ADDR` sends the
    address and one `w` command per complete word of its input;
    `read ADDR LEN` sends the address and a pipeline of read bursts, always
    requesting the next burst before collecting the answer to the current
    one.

    The line is a `Port` object.  What `read` returns is a script fixed in
    advance (data, `EAGAIN`, or a hard error); once the script is used up
    every read returns all the bytes asked for.  Every byte that crosses the
    line is recorded, in order, in the port's log, so the order in which the
    bridge interleaves requests and answers is part of what is proved. */
module HtifSerial {
  import opened Words
  import opened Strtol
  import opened Protocol

  /** A value, or the message the program exits with. */
  datatype Result<+T> = Ok(value: T) | Fatal(message: string)

  /** `fromhex`: the argument must be consumed entirely by `strtol`;
      otherwise the program exits saying so. */
  function FromHex(s: string): (r: Result<u32>)
    ensures r.Ok? <==> HexArgument(s)
    ensures r.Ok? ==> ParseHex32(s) == Some(r.value)
    ensures r.Fatal? ==> r.message == s + " is a hex value"
  {
    match ParseHex32(s)
    case Some(v) => Ok(v)
    case None => Fatal(s + " is a hex value")
  }

  /** Eight hexadecimal digits are accepted as the word they spell. */
  lemma FromHexWord(v: u32)
    ensures FromHex(HexString(v)) == Ok(v)
  {
    HexStringParses(v);
  }

  /** Digits followed by anything else are refused with the message. */
  lemma FromHexJunk(t: string, c: char)
    requires |t| > 0 && AllHexDigits(t) && !IsHexDigit(c)
    ensures FromHex(t + [c]) == Fatal(t + [c] + " is a hex value")
  {
    TrailingJunkRefused(t, c);
  }

  /** One byte crossing the line: sent to the target or received from it. */
  datatype Event = Tx(b: byte) | Rx(b: byte)

  function TxAll(bytes: seq<byte>): (es: seq<Event>)
    ensures |es| == |bytes|
    ensures forall i :: 0 <= i < |bytes| ==> es[i] == Tx(bytes[i])
  {
    seq(|bytes|, i requires 0 <= i < |bytes| => Tx(bytes[i]))
  }

  function RxAll(bytes: seq<byte>): (es: seq<Event>)
    ensures |es| == |bytes|
    ensures forall i :: 0 <= i < |bytes| ==> es[i] == Rx(bytes[i])
  {
    seq(|bytes|, i requires 0 <= i < |bytes| => Rx(bytes[i]))
  }

  lemma TxAllAppend(a: seq<byte>, b: seq<byte>)
    ensures TxAll(a + b) == TxAll(a) + TxAll(b)
  {
  }

  lemma RxAllAppend(a: seq<byte>, b: seq<byte>)
    ensures RxAll(a + b) == RxAll(a) + RxAll(b)
  {
  }

  /** The bytes of a log sent to the target, in order. */
  function Sent(log: seq<Event>): seq<byte>
  {
    if log == [] then [] else (if log[0].Tx? then [log[0].b] else []) + Sent(log[1..])
  }

  /** The bytes of a log received from the target, in order. */
  function Received(log: seq<Event>): seq<byte>
  {
    if log == [] then [] else (if log[0].Rx? then [log[0].b] else []) + Received(log[1..])
  }

  lemma {:induction false} ProjectAppend(a: seq<Event>, b: seq<Event>)
    ensures Sent(a + b) == Sent(a) + Sent(b)
    ensures Received(a + b) == Received(a) + Received(b)
  {
    if a != [] {
      assert (a + b)[1..] == a[1..] + b;
      ProjectAppend(a[1..], b);
    } else {
      assert a + b == b;
    }
  }

  lemma {:induction false} ProjectTx(bytes: seq<byte>)
    ensures Sent(TxAll(bytes)) == bytes && Received(TxAll(bytes)) == []
  {
    if bytes != [] {
      assert TxAll(bytes)[1..] == TxAll(bytes[1..]);
      ProjectTx(bytes[1..]);
    }
  }

  lemma {:induction false} ProjectRx(bytes: seq<byte>)
    ensures Sent(RxAll(bytes)) == [] && Received(RxAll(bytes)) == bytes
  {
    if bytes != [] {
      assert RxAll(bytes)[1..] == RxAll(bytes[1..]);
      ProjectRx(bytes[1..]);
    }
  }

  /** One scripted answer of `read` on the serial line. */
  datatype ReadAnswer =
    | Data(limit: nat)  // up to `limit` of the bytes asked for; 0 when the timeout expires
    | Again             // -1 with `errno == EAGAIN`
    | Failed            // -1 with any other `errno`

  /** The value `read` returns when at most `n` bytes are available. */
  function ReadOutcome(script: seq<ReadAnswer>, n: nat): (r: int)
    ensures -1 <= r <= n
    ensures script == [] ==> r == n
    ensures r < 0 <==> script != [] && !script[0].Data?
  {
    if script == [] then n
    else match script[0]
      case Data(m) => Min(m, n)
      case Again => -1
      case Failed => -1
  }

  /** `s` is what is left of the script `s0` after some answers were used. */
  ghost predicate Remains(s: seq<ReadAnswer>, s0: seq<ReadAnswer>)
  {
    |s| <= |s0| && s == s0[|s0| - |s|..]
  }

  /** The answers of `s0` used up before `s` remained. */
  function Used(s0: seq<ReadAnswer>, s: seq<ReadAnswer>): seq<ReadAnswer>
    requires |s| <= |s0|
  {
    s0[..|s0| - |s|]
  }

  lemma UsedTrans(a: seq<ReadAnswer>, b: seq<ReadAnswer>, c: seq<ReadAnswer>)
    requires Remains(b, a) && Remains(c, b)
    ensures Remains(c, a)
    ensures Used(a, c) == Used(a, b) + Used(b, c)
  {
    assert a[|a| - |b|..][..|b| - |c|] == a[|a| - |b|..|a| - |c|];
  }

  /** The serial port, opened on the device named on the command line. */
  class Port {
    var script: seq<ReadAnswer>
    var rx: seq<byte>      // bytes the target has sent and the host not yet read
    var log: seq<Event>    // every byte that crossed the line, in order

    constructor (script: seq<ReadAnswer>, rx: seq<byte>)
      ensures this.script == script && this.rx == rx && log == []
    {
      this.script := script;
      this.rx := rx;
      log := [];
    }

    /** `write(fd, bytes, |bytes|)`; every byte goes out. */
    method Write(bytes: seq<byte>)
      modifies this
      ensures log == old(log) + TxAll(bytes)
      ensures script == old(script) && rx == old(rx)
    {
      log := log + TxAll(bytes);
    }

    /** `read(fd, buf + at, want)`, with `errno` returned as `again`. */
    method Read(buf: array<byte>, at: nat, want: nat) returns (result: int, again: bool)
      requires at + want <= buf.Length
      modifies this, buf
      ensures result == ReadOutcome(old(script), Min(want, |old(rx)|))
      ensures again <==> old(script) != [] && old(script)[0] == Again
      ensures at + Got(result) <= buf.Length
      ensures buf[..] == old(buf[..])[..at] + old(rx)[..Got(result)] + old(buf[..])[at + Got(result)..]
      ensures rx == old(rx)[Got(result)..]
      ensures script == Rest(old(script))
      ensures log == old(log) + RxAll(old(rx)[..Got(result)])
    {
      result := ReadOutcome(script, Min(want, |rx|));
      again := script != [] && script[0] == Again;
      var k := Got(result);
      assert k <= Min(want, |rx|) <= |rx|;
      forall i | at <= i < at + k {
        buf[i] := rx[i - at];
      }
      assert buf[..] == old(buf[..at]) + rx[..k] + old(buf[at + k..]);
      log := log + RxAll(rx[..k]);
      rx := rx[k..];
      script := Rest(script);
    }
  }

  /** `write4`: the four bytes of `v` in native order. */
  method Write4(port: Port, v: u32)
    modifies port
    ensures port.log == old(port.log) + TxAll(WordBytes(v))
    ensures port.script == old(port.script) && port.rx == old(port.rx)
  {
    port.Write(WordBytes(v));
  }

  /** `read4`: collect four bytes, retrying on `EAGAIN` and on timeouts;
      any other read error ends the program (`None`).  `got` is how many of
      the four bytes had arrived by then. */
  method Read4(port: Port) returns (r: Option<u32>, ghost got: nat)
    requires 4 <= |port.rx|
    modifies port
    ensures got <= 4 && port.rx == old(port.rx)[got..]
    ensures port.log == old(port.log) + RxAll(old(port.rx)[..got])
    ensures r.Some? ==> got == 4 && r.value == WordOf(old(port.rx)[..4])
    ensures Remains(port.script, old(port.script))
    ensures r.None? <==> Failed in Used(old(port.script), port.script)
  {
    ghost var rx0, log0, script0 := port.rx, port.log, port.script;
    var data := new byte[4];
    var n: nat := 4;
    var p: nat := 0;
    while n > 0
      invariant p + n == 4
      invariant data[..p] == rx0[..p]
      invariant port.rx == rx0[p..]
      invariant port.log == log0 + RxAll(rx0[..p])
      invariant Remains(port.script, script0)
      invariant Failed !in Used(script0, port.script)
      decreases |port.script|, n
    {
      ghost var s := port.script;
      var result, again := port.Read(data, p, n);
      UsedTrans(script0, s, port.script);
      assert Used(s, port.script) == if s == [] then [] else [s[0]];
      if result < 0 {
        if !again {
          assert s[0] == Failed;
          return None, p;
        }
      } else {
        GatherStep(rx0, log0, p, result);
        n := n - result;
        p := p + result;
      }
    }
    r, got := Some(WordOf(data[..])), 4;
  }

  /** One `read` of `read4` that brought `result` more bytes after `p`. */
  lemma GatherStep(rx0: seq<byte>, log0: seq<Event>, p: nat, result: nat)
    requires p + result <= |rx0|
    ensures rx0[..p] + rx0[p..][..result] == rx0[..p + result]
    ensures log0 + RxAll(rx0[..p]) + RxAll(rx0[p..][..result]) == log0 + RxAll(rx0[..p + result])
    ensures rx0[p..][result..] == rx0[p + result..]
  {
    Slices(rx0, p, result);
    RxAllAppend(rx0[..p], rx0[p..][..result]);
  }

  /** A length that `read` reported, with an error (-1) counted as none. */
  function Clamp(len: int): nat
  {
    if len < 0 then 0 else len
  }

  /** `write_to_yarvi(fd, data, addr, len)`: the address, then one word
      write per complete word of the first `len` bytes. */
  method WriteToYarvi(port: Port, data: array<byte>, addr: u32, len: int)
    requires len <= data.Length
    modifies port
    ensures port.log == old(port.log) + TxAll(EncodeAll(WriteCommands(addr, data[..Clamp(len)])))
    ensures port.script == old(port.script) && port.rx == old(port.rx)
  {
    ghost var m := Clamp(len);
    ghost var target := old(port.log) + TxAll(EncodeAll(WriteCommands(addr, data[..m])));
    port.Write([OpSetAddress]);
    Write4(port, addr);
    WriteSplit(addr, data[..m]);
    assert data[..m] == data[0..m];
    Chain(old(port.log), TxAll([OpSetAddress]), TxAll(WordBytes(addr)), TxAll(EncodeAll(WordWrites(data[0..m]))));
    var wp: nat := 0;
    var n := len;
    while n >= 4
      invariant wp <= m && (len >= 0 ==> wp + n == len) && (len < 0 ==> n == len)
      invariant port.log + TxAll(EncodeAll(WordWrites(data[wp..m]))) == target
      invariant port.script == old(port.script) && port.rx == old(port.rx)
      decreases n
    {
      ghost var before := port.log;
      var word := WordOf(data[wp..wp + 4]);
      port.Write([OpWriteWord]);
      Write4(port, word);
      WordWriteStep(data[..], wp, m);
      Chain(before, TxAll([OpWriteWord]), TxAll(WordBytes(word)), TxAll(EncodeAll(WordWrites(data[wp + 4..m]))));
      n := n - 4;
      wp := wp + 4;
    }
    assert |data[wp..m]| < 4;
  }


  lemma WriteSplit(addr: u32, data: seq<byte>)
    ensures TxAll(EncodeAll(WriteCommands(addr, data)))
         == TxAll([OpSetAddress]) + TxAll(WordBytes(addr)) + TxAll(EncodeAll(WordWrites(data)))
  {
    var cs := WriteCommands(addr, data);
    assert cs[1..] == WordWrites(data);
    TxAllAppend([OpSetAddress], WordBytes(addr));
    TxAllAppend([OpSetAddress] + WordBytes(addr), EncodeAll(WordWrites(data)));
  }

  /** One `w` frame taken off the front of the remaining words. */
  lemma WordWriteStep(data: seq<byte>, wp: nat, m: nat)
    requires wp + 4 <= m <= |data|
    ensures TxAll(EncodeAll(WordWrites(data[wp..m])))
         == TxAll([OpWriteWord]) + TxAll(WordBytes(WordOf(data[wp..wp + 4]))) + TxAll(EncodeAll(WordWrites(data[wp + 4..m])))
  {
    var d := data[wp..m];
    assert d[..4] == data[wp..wp + 4] && d[4..] == data[wp + 4..m];
    var cs := WordWrites(d);
    assert cs[1..] == WordWrites(data[wp + 4..m]);
    TxAllAppend([OpWriteWord], WordBytes(WordOf(data[wp..wp + 4])));
    TxAllAppend([OpWriteWord] + WordBytes(WordOf(data[wp..wp + 4])), EncodeAll(WordWrites(data[wp + 4..m])));
  }

  /** The bursts for `rem`: the first burst, then the bursts for what is
      left after it. */
  lemma BurstsStep(rem: int)
    requires Choose(rem) > 0
    ensures Bursts(rem) == [Choose(rem)] + Bursts(rem - Choose(rem))
    ensures Sum(Bursts(rem)) == Choose(rem) + Sum(Bursts(rem - Choose(rem)))
  {
    assert Bursts(rem)[1..] == Bursts(rem - Choose(rem));
  }

  /** The request for a burst of `size` bytes; none when no burst is due. */
  function Request(size: nat): (es: seq<Event>)
    ensures |es| <= 1
  {
    if size == 0 then [] else TxAll([BurstOp(size)])
  }

  /** The traffic of `read_from_yarvi` from the point where `rem` bytes are
      still to be read and the burst for the first of them has already been
      requested: request the burst after the current one, then read the
      answer to the current one, and go on with the rest.  `rx` is what the
      target sends, oldest byte first. */
  function Pipe(rem: int, rx: seq<byte>): seq<Event>
    requires Sum(Bursts(rem)) <= |rx|
    decreases rem
  {
    var rs := Choose(rem);
    if rs == 0 then []
    else
      BurstsStep(rem);
      Request(Choose(rem - rs)) + RxAll(rx[..rs]) + Pipe(rem - rs, rx[rs..])
  }

  /** The address and the first burst request. */
  function Opening(addr: u32, len: int): seq<Event>
  {
    TxAll([OpSetAddress]) + TxAll(WordBytes(addr)) + Request(Choose(len))
  }

  /** Everything `read_from_yarvi(fd, data, addr, len)` puts on the line
      and takes off it, in order. */
  function ReadSchedule(addr: u32, len: int, rx: seq<byte>): seq<Event>
    requires len / 4 * 4 <= |rx|
  {
    BurstsShape(len);
    Opening(addr, len) + Pipe(len, rx)
  }

  /** `*wp++ = w`: the word's four bytes stored at `at`. */
  method StoreWord(data: array<byte>, at: nat, w: u32)
    requires at + 4 <= data.Length
    modifies data
    ensures data[..] == old(data[..at]) + WordBytes(w) + old(data[at + 4..])
  {
    var b := WordBytes(w);
    data[at], data[at + 1], data[at + 2], data[at + 3] := b[0], b[1], b[2], b[3];
  }

  /** `*wp++ = read4(fd)`: one word read and stored at `at`. */
  method Fetch(port: Port, data: array<byte>, at: nat) returns (ok: bool, ghost got: nat)
    requires at + 4 <= data.Length && 4 <= |port.rx|
    modifies port, data
    ensures got <= 4 && (ok ==> got == 4)
    ensures port.rx == old(port.rx)[got..]
    ensures port.log == old(port.log) + RxAll(old(port.rx)[..got])
    ensures ok ==> data[..at + 4] == old(data[..at]) + old(port.rx)[..4]
    ensures data[at + 4..] == old(data[at + 4..])
    ensures Remains(port.script, old(port.script))
    ensures ok <==> Failed !in Used(old(port.script), port.script)
  {
    ghost var rx0 := port.rx;
    var w;
    w, got := Read4(port);
    if w.None? {
      return false, got;
    }
    BytesRoundTrip(rx0[..4]);
    StoreWord(data, at, w.value);
    assert data[..at + 4] == old(data[..at]) + rx0[..4];
    ok := true;
  }

  /** The answer to one burst: one word for a 4-byte burst, two for an
      8-byte burst. */
  method Collect(port: Port, data: array<byte>, wp: nat, rs: nat) returns (ok: bool, ghost got: nat)
    requires rs == 4 || rs == 8
    requires wp + rs <= data.Length && rs <= |port.rx|
    modifies port, data
    ensures got <= rs && (ok ==> got == rs)
    ensures port.rx == old(port.rx)[got..]
    ensures port.log == old(port.log) + RxAll(old(port.rx)[..got])
    ensures ok ==> data[..wp + rs] == old(data[..wp]) + old(port.rx)[..rs]
    ensures data[wp + rs..] == old(data[wp + rs..])
    ensures Remains(port.script, old(port.script))
    ensures ok <==> Failed !in Used(old(port.script), port.script)
  {
    ghost var rx0, script0, log0 := port.rx, port.script, port.log;
    ghost var data0 := data[..wp];
    ok, got := Fetch(port, data, wp);
    if ok && rs > 4 {
      ghost var script1 := port.script;
      ghost var g2;
      SuffixFrame(data[..], old(data[..]), wp + 4, wp + 8);
      ok, g2 := Fetch(port, data, wp + 4);
      UsedTrans(script0, script1, port.script);
      SecondWord(log0, data0, rx0, g2);
      got := 4 + g2;
    }
  }

  /** The bookkeeping of two consecutive word reads. */
  lemma SecondWord(log0: seq<Event>, data0: seq<byte>, rx0: seq<byte>, g2: nat)
    requires 8 <= |rx0| && g2 <= 4
    ensures log0 + RxAll(rx0[..4]) + RxAll(rx0[4..][..g2]) == log0 + RxAll(rx0[..4 + g2])
    ensures rx0[4..][g2..] == rx0[4 + g2..]
    ensures (data0 + rx0[..4]) + rx0[4..][..4] == data0 + rx0[..8]
  {
    assert rx0[4..][..g2] == rx0[4..4 + g2];
    assert rx0[..4 + g2] == rx0[..4] + rx0[4..4 + g2];
    RxAllAppend(rx0[..4], rx0[4..4 + g2]);
    Regroup(log0, RxAll(rx0[..4]), RxAll(rx0[4..4 + g2]));
    assert rx0[..8] == rx0[..4] + rx0[4..8];
  }

  /** The burst chooser with its request: `R` while at least 8 bytes are
      left, `r` while at least 4 are, otherwise nothing. */
  method RequestBurst(port: Port, left: int) returns (size: nat)
    modifies port
    ensures size == Choose(left)
    ensures port.log == old(port.log) + Request(size)
    ensures port.script == old(port.script) && port.rx == old(port.rx)
  {
    if left >= 8 {
      port.Write([OpRead8]);
      size := 8;
    } else if left >= 4 {
      port.Write([OpRead4]);
      size := 4;
    } else {
      size := 0;
    }
  }

  /** `read_from_yarvi(fd, data, addr, len)`.  The source leaves the burst
      size unset for `len < 4`, hence the precondition.  On success the
      line carried exactly the pipelined schedule and the first
      `len / 4 * 4` bytes of `data` are what the target sent; after a hard
      read error (the program exits) the line carried a prefix of it. */
  method ReadFromYarvi(port: Port, data: array<byte>, addr: u32, len: int) returns (ok: bool)
    requires 4 <= len <= data.Length
    requires len / 4 * 4 <= |port.rx|
    modifies port, data
    ensures ok ==> port.log == old(port.log) + ReadSchedule(addr, len, old(port.rx))
    ensures ok ==> data[..len / 4 * 4] == old(port.rx)[..len / 4 * 4]
    ensures ok ==> port.rx == old(port.rx)[len / 4 * 4..]
    ensures data[len / 4 * 4..] == old(data[len / 4 * 4..])
    ensures !ok ==> port.log <= old(port.log) + ReadSchedule(addr, len, old(port.rx))
    ensures Remains(port.script, old(port.script))
    ensures ok <==> Failed !in Used(old(port.script), port.script)
  {
    ghost var rx0, log0 := port.rx, port.log;
    BurstsShape(len);
    port.Write([OpSetAddress]);
    Write4(port, addr);
    var rs := RequestBurst(port, len);
    Chain(log0, TxAll([OpSetAddress]), TxAll(WordBytes(addr)), Request(rs));
    ok := Pipeline(port, data, len, rs);
    Regroup(log0, Opening(addr, len), Pipe(len, rx0));
  }

  /** The `while (rs)` loop of `read_from_yarvi`, entered with the burst for
      the first of `len` bytes already requested. */
  method Pipeline(port: Port, data: array<byte>, len: int, rs0: nat) returns (ok: bool)
    requires rs0 == Choose(len) && Sum(Bursts(len)) <= data.Length && Sum(Bursts(len)) <= |port.rx|
    modifies port, data
    ensures ok ==> port.log == old(port.log) + Pipe(len, old(port.rx))
    ensures ok ==> data[..Sum(Bursts(len))] == old(port.rx)[..Sum(Bursts(len))]
    ensures ok ==> port.rx == old(port.rx)[Sum(Bursts(len))..]
    ensures data[Sum(Bursts(len))..] == old(data[Sum(Bursts(len))..])
    ensures !ok ==> port.log <= old(port.log) + Pipe(len, old(port.rx))
    ensures Remains(port.script, old(port.script))
    ensures ok <==> Failed !in Used(old(port.script), port.script)
  {
    ghost var rx0, log0, script0 := port.rx, port.log, port.script;
    ghost var target := log0 + Pipe(len, rx0);
    ghost var total := Sum(Bursts(len));
    var rs := rs0;
    var wp: nat := 0;
    var n := len;
    while rs != 0
      invariant rs == Choose(n)
      invariant wp + Sum(Bursts(n)) == total
      invariant port.rx == rx0[wp..]
      invariant data[..wp] == rx0[..wp]
      invariant data[total..] == old(data[total..])
      invariant port.log + Pipe(n, port.rx) == target
      invariant Remains(port.script, script0) && Failed !in Used(script0, port.script)
      decreases n
    {
      BurstsStep(n);
      ghost var script1 := port.script;
      var nrs;
      ghost var data1 := data[..];
      ok, nrs := Round(port, data, wp, n, rs);
      SuffixFrame(data[..], data1, wp + rs, total);
      UsedTrans(script0, script1, port.script);
      if !ok {
        return;
      }
      DataStep(rx0, wp, rs);
      wp := wp + rs;
      n := n - rs;
      rs := nrs;
    }
    ok := true;
  }

  /** One round of the loop: request the burst after the current one, then
      collect the current one's answer. */
  method Round(port: Port, data: array<byte>, wp: nat, n: int, rs: nat) returns (ok: bool, nrs: nat)
    requires rs == Choose(n) && rs > 0
    requires wp + rs <= data.Length && Sum(Bursts(n)) <= |port.rx|
    modifies port, data
    ensures nrs == Choose(n - rs)
    ensures Sum(Bursts(n - rs)) <= |old(port.rx)[rs..]|
    ensures ok ==> port.rx == old(port.rx)[rs..]
    ensures ok ==> port.log + Pipe(n - rs, port.rx) == old(port.log) + Pipe(n, old(port.rx))
    ensures ok ==> data[..wp + rs] == old(data[..wp]) + old(port.rx)[..rs]
    ensures data[wp + rs..] == old(data[wp + rs..])
    ensures !ok ==> port.log <= old(port.log) + Pipe(n, old(port.rx))
    ensures Remains(port.script, old(port.script))
    ensures ok <==> Failed !in Used(old(port.script), port.script)
  {
    ghost var before, rx1 := port.log, port.rx;
    BurstsStep(n);
    nrs := RequestBurst(port, n - rs);
    ghost var got;
    ok, got := Collect(port, data, wp, rs);
    if ok {
      PipeStep(before, n, rx1);
    } else {
      PipeStop(before, n, rx1, got);
    }
  }

  /** One burst of the pipeline: its successor requested, its answer read. */
  lemma PipeStep(before: seq<Event>, n: int, rx: seq<byte>)
    requires Choose(n) > 0 && Sum(Bursts(n)) <= |rx|
    ensures Sum(Bursts(n - Choose(n))) <= |rx[Choose(n)..]|
    ensures before + Request(Choose(n - Choose(n))) + RxAll(rx[..Choose(n)]) + Pipe(n - Choose(n), rx[Choose(n)..])
         == before + Pipe(n, rx)
  {
    var rs := Choose(n);
    BurstsStep(n);
    Chain(before, Request(Choose(n - rs)), RxAll(rx[..rs]), Pipe(n - rs, rx[rs..]));
  }

  /** A read error part way through a burst leaves a prefix of the traffic. */
  lemma PipeStop(before: seq<Event>, n: int, rx: seq<byte>, got: nat)
    requires Choose(n) > 0 && Sum(Bursts(n)) <= |rx| && got <= Choose(n)
    ensures before + Request(Choose(n - Choose(n))) + RxAll(rx[..got]) <= before + Pipe(n, rx)
  {
    var rs := Choose(n);
    BurstsStep(n);
    var q, tail := Request(Choose(n - rs)), Pipe(n - rs, rx[rs..]);
    var a, b := RxAll(rx[..got]), RxAll(rx[got..rs]);
    assert rx[..rs] == rx[..got] + rx[got..rs];
    RxAllAppend(rx[..got], rx[got..rs]);
    assert Pipe(n, rx) == q + (a + b) + tail;
    Split5(before, q, a, b, tail);
    Prefix(before + q + a, b + tail);
  }

  /** Two arrays that agree from `k` on agree from any later `m` on. */
  lemma SuffixFrame(a: seq<byte>, b: seq<byte>, k: nat, m: nat)
    requires k <= m <= |a| == |b| && a[k..] == b[k..]
    ensures a[m..] == b[m..]
  {
    assert a[m..] == a[k..][m - k..];
    assert b[m..] == b[k..][m - k..];
  }

  lemma DataStep(rx0: seq<byte>, wp: nat, rs: nat)
    requires wp + rs <= |rx0|
    ensures rx0[wp..][rs..] == rx0[wp + rs..]
    ensures rx0[..wp] + rx0[wp..][..rs] == rx0[..wp + rs]
  {
    assert rx0[..wp + rs] == rx0[..wp] + rx0[wp..wp + rs];
  }

  lemma RequestProjects(size: nat)
    ensures Sent(Request(size)) == if size == 0 then [] else [BurstOp(size)]
    ensures Received(Request(size)) == []
  {
    if size != 0 {
      ProjectTx([BurstOp(size)]);
    }
  }

  /** The requests of the pipeline, first one included, are the burst
      commands for `n` bytes, in order. */
  lemma {:induction false} PipeSent(n: int, rx: seq<byte>)
    requires Sum(Bursts(n)) <= |rx|
    ensures Sent(Request(Choose(n)) + Pipe(n, rx)) == EncodeAll(BurstCommands(Bursts(n)))
    decreases n
  {
    var rs := Choose(n);
    if rs != 0 {
      BurstsStep(n);
      var m := n - rs;
      PipeSentStep(n, rx);
      PipeSent(m, rx[rs..]);
      ProjectAppend(Request(rs), Pipe(n, rx));
      RequestProjects(rs);
      BurstCommandsStep(n);
    } else {
      assert Bursts(n) == [];
    }
  }

  /** The requests of a pipeline are the next request and the requests
      of the rest: the answer read in between sends nothing. */
  lemma PipeSentStep(n: int, rx: seq<byte>)
    requires Sum(Bursts(n)) <= |rx| && Choose(n) > 0
    ensures Sum(Bursts(n - Choose(n))) <= |rx[Choose(n)..]|
    ensures Sent(Pipe(n, rx)) == Sent(Request(Choose(n - Choose(n))) + Pipe(n - Choose(n), rx[Choose(n)..]))
  {
    var rs := Choose(n);
    BurstsStep(n);
    var q, r, tail := Request(Choose(n - rs)), RxAll(rx[..rs]), Pipe(n - rs, rx[rs..]);
    assert Pipe(n, rx) == q + r + tail;
    ProjectAppend(q + r, tail);
    ProjectAppend(q, r);
    ProjectAppend(q, tail);
    ProjectRx(rx[..rs]);
    assert Sent(q + r + tail) == Sent(q) + Sent(tail);
    assert Sent(Pipe(n, rx)) == Sent(q + tail);
  }

  /** The encoding of the burst commands for `n` bytes: the first burst's
      opcode, then the encoding of the rest. */
  lemma BurstCommandsStep(n: int)
    requires Choose(n) > 0
    ensures EncodeAll(BurstCommands(Bursts(n))) == [BurstOp(Choose(n))] + EncodeAll(BurstCommands(Bursts(n - Choose(n))))
  {
    BurstsStep(n);
    assert BurstCommands(Bursts(n))[1..] == BurstCommands(Bursts(n - Choose(n)));
  }


  /** The pipeline reads exactly the bytes its bursts ask for, in order. */
  lemma {:induction false} PipeReceived(n: int, rx: seq<byte>)
    requires Sum(Bursts(n)) <= |rx|
    ensures Received(Pipe(n, rx)) == rx[..Sum(Bursts(n))]
    decreases n
  {
    var rs := Choose(n);
    if rs != 0 {
      BurstsStep(n);
      var m := n - rs;
      PipeReceivedStep(n, rx);
      PipeReceived(m, rx[rs..]);
      Slices(rx, rs, Sum(Bursts(m)));
    } else {
      assert Bursts(n) == [];
    }
  }

  /** What a pipeline reads is the answer to its first burst, then what
      the rest reads: the request in between receives nothing. */
  lemma PipeReceivedStep(n: int, rx: seq<byte>)
    requires Sum(Bursts(n)) <= |rx| && Choose(n) > 0
    ensures Sum(Bursts(n - Choose(n))) <= |rx[Choose(n)..]|
    ensures Received(Pipe(n, rx)) == rx[..Choose(n)] + Received(Pipe(n - Choose(n), rx[Choose(n)..]))
  {
    var rs := Choose(n);
    BurstsStep(n);
    var q, r, tail := Request(Choose(n - rs)), RxAll(rx[..rs]), Pipe(n - rs, rx[rs..]);
    assert Pipe(n, rx) == q + r + tail;
    RequestProjects(Choose(n - rs));
    ProjectRx(rx[..rs]);
    ProjectAppend(q, r);
    ProjectAppend(q + r, tail);
    assert Received(q + r) == rx[..rs];
    assert Received(q + r + tail) == rx[..rs] + Received(tail);
    assert Received(Pipe(n, rx)) == rx[..rs] + Received(tail);
  }

  /** What goes out during `read_from_yarvi` is exactly the encoding of
      the serial read commands: the address, then one burst request per
      burst, in order. */
  lemma ScheduleSent(addr: u32, len: int, rx: seq<byte>)
    requires len / 4 * 4 <= |rx|
    ensures Sent(ReadSchedule(addr, len, rx)) == EncodeAll(SerialReadCommands(addr, len))
  {
    BurstsShape(len);
    var head := TxAll([OpSetAddress]) + TxAll(WordBytes(addr));
    var q, p := Request(Choose(len)), Pipe(len, rx);
    Regroup(head, q, p);
    ProjectAppend(head, q + p);
    ProjectAppend(TxAll([OpSetAddress]), TxAll(WordBytes(addr)));
    ProjectTx([OpSetAddress]);
    ProjectTx(WordBytes(addr));
    PipeSent(len, rx);
    var cs := SerialReadCommands(addr, len);
    assert cs[1..] == BurstCommands(Bursts(len));
  }

  /** What comes in during `read_from_yarvi` is exactly the first
      `len / 4 * 4` bytes the target sends (none below 4), in order. */
  lemma ScheduleReceived(addr: u32, len: int, rx: seq<byte>)
    requires len / 4 * 4 <= |rx|
    ensures Received(ReadSchedule(addr, len, rx)) == rx[..if len < 4 then 0 else len / 4 * 4]
  {
    BurstsShape(len);
    var head := TxAll([OpSetAddress]) + TxAll(WordBytes(addr));
    ProjectAppend(head + Request(Choose(len)), Pipe(len, rx));
    ProjectAppend(head, Request(Choose(len)));
    ProjectAppend(TxAll([OpSetAddress]), TxAll(WordBytes(addr)));
    ProjectTx([OpSetAddress]);
    ProjectTx(WordBytes(addr));
    RequestProjects(Choose(len));
    PipeReceived(len, rx);
  }

  /** The response bytes the burst requests among `bytes` ask for. */
  function Asks(bytes: seq<byte>): nat
  {
    if bytes == [] then 0
    else (if bytes[0] == OpRead8 then 8 else if bytes[0] == OpRead4 then 4 else 0) + Asks(bytes[1..])
  }

  lemma {:induction false} AsksAppend(a: seq<byte>, b: seq<byte>)
    ensures Asks(a + b) == Asks(a) + Asks(b)
  {
    if a != [] {
      assert (a + b)[1..] == a[1..] + b;
      AsksAppend(a[1..], b);
    } else {
      assert a + b == b;
    }
  }

  /** The burst chosen for `n` remaining bytes is 8, or everything that is
      still due when that is less. */
  lemma ChooseBursts(n: int)
    ensures Choose(n) == Min(8, Sum(Bursts(n)))
  {
    BurstsShape(n);
  }

  /** The pipelining bounds at one point of a read with `due` bytes to
      read in all, of which `asked` have been requested and `got` have been
      read: never more read than requested, at most two bursts (16 bytes)
      in flight, and while bytes are still due at least the next 8 of them
      (or all, when fewer remain) already requested. */
  predicate InFlight(due: nat, asked: nat, got: nat)
  {
    got <= due && got <= asked <= got + 16 && asked - got >= Min(8, due - got)
  }

  /** The pipelining of `read_from_yarvi`: the bounds of `InFlight` hold at
      every point `k` of the pipeline for `n` bytes, whose first burst
      (`Choose(n)` bytes) was requested before it started.  The next burst
      always goes out before the answer to the current one is read. */
  lemma {:induction false} PipeAhead(n: int, rx: seq<byte>, k: nat)
    requires Sum(Bursts(n)) <= |rx| && k <= |Pipe(n, rx)|
    ensures InFlight(Sum(Bursts(n)), Choose(n) + Asks(Sent(Pipe(n, rx)[..k])), |Received(Pipe(n, rx)[..k])|)
    decreases n
  {
    var rs := Choose(n);
    var p := Pipe(n, rx)[..k];
    ChooseBursts(n);
    if rs == 0 || k == 0 {
      assert p == [];
    } else {
      BurstsStep(n);
      var m := n - rs;
      var nrs := Choose(m);
      ChooseBursts(m);
      var q := Request(nrs);
      if k <= |q| + rs {
        InBurst(n, rx, k);
        InBurstBounds(rs, nrs, Sum(Bursts(m)), k - |q|, Asks(Sent(p)), |Received(p)|);
      } else {
        var k2 := k - |q| - rs;
        var p2 := Pipe(m, rx[rs..])[..k2];
        PipeAhead(m, rx[rs..], k2);
        AfterBurst(n, rx, k, k2);
        AfterBurstBounds(rs, nrs, Sum(Bursts(m)), Asks(Sent(p2)), |Received(p2)|, Asks(Sent(p)), |Received(p)|);
      }
    }
  }

  /** The bounds while `j` bytes of the answer to a burst of `rs` bytes
      have been read and the next burst, `nrs` bytes, has been requested,
      with `sumM` bytes due after the current burst. */
  lemma InBurstBounds(rs: nat, nrs: nat, sumM: nat, j: nat, asks: nat, got: nat)
    requires rs <= 8 && nrs == Min(8, sumM) && j <= rs
    requires asks == nrs && got == j
    ensures InFlight(rs + sumM, rs + asks, got)
  {
  }

  /** The bounds carried from the rest of the pipeline, which has asked
      for `asks2` and read `got2` bytes, to the whole. */
  lemma AfterBurstBounds(rs: nat, nrs: nat, sumM: nat, asks2: nat, got2: nat, asks: nat, got: nat)
    requires InFlight(sumM, nrs + asks2, got2)
    requires asks == nrs + asks2 && got == rs + got2
    ensures InFlight(rs + sumM, rs + asks, got)
  {
  }

  /** A burst request asks for the bytes of its burst. */
  lemma RequestAsks(size: nat)
    requires size == 0 || size == 4 || size == 8
    ensures Asks(Sent(Request(size))) == size
  {
    RequestProjects(size);
  }

  /** A point of the pipeline inside the answer to its first burst: only
      the next request has gone out, and the bytes read are those of the
      current answer so far. */
  lemma InBurst(n: int, rx: seq<byte>, k: nat)
    requires Sum(Bursts(n)) <= |rx| && Choose(n) > 0
    requires 0 < k <= |Request(Choose(n - Choose(n)))| + Choose(n)
    ensures k <= |Pipe(n, rx)|
    ensures Asks(Sent(Pipe(n, rx)[..k])) == Choose(n - Choose(n))
    ensures |Received(Pipe(n, rx)[..k])| == k - |Request(Choose(n - Choose(n)))|
  {
    var rs := Choose(n);
    BurstsStep(n);
    var q, r, tail := Request(Choose(n - rs)), RxAll(rx[..rs]), Pipe(n - rs, rx[rs..]);
    assert Pipe(n, rx) == q + r + tail;
    var j := k - |q|;
    TakeLeft(q + r, tail, k);
    TakeRight(q, r, k);
    assert r[..j] == RxAll(rx[..j]);
    ProjectAppend(q, RxAll(rx[..j]));
    ProjectRx(rx[..j]);
    RequestProjects(Choose(n - rs));
    RequestAsks(Choose(n - rs));
  }

  /** A point of the pipeline past the answer to its first burst: the next
      request and the whole current answer, then a point of the rest. */
  lemma AfterBurst(n: int, rx: seq<byte>, k: nat, k2: nat)
    requires Sum(Bursts(n)) <= |rx| && Choose(n) > 0
    requires |Request(Choose(n - Choose(n)))| + Choose(n) < k <= |Pipe(n, rx)|
    requires k2 == k - |Request(Choose(n - Choose(n)))| - Choose(n)
    ensures Sum(Bursts(n - Choose(n))) <= |rx[Choose(n)..]|
    ensures k2 <= |Pipe(n - Choose(n), rx[Choose(n)..])|
    ensures Asks(Sent(Pipe(n, rx)[..k])) == Choose(n - Choose(n)) + Asks(Sent(Pipe(n - Choose(n), rx[Choose(n)..])[..k2]))
    ensures |Received(Pipe(n, rx)[..k])| == Choose(n) + |Received(Pipe(n - Choose(n), rx[Choose(n)..])[..k2])|
  {
    var rs := Choose(n);
    BurstsStep(n);
    var q, r, tail := Request(Choose(n - rs)), RxAll(rx[..rs]), Pipe(n - rs, rx[rs..]);
    assert Pipe(n, rx) == q + r + tail;
    var pk, p2 := Pipe(n, rx)[..k], tail[..k2];
    PointAfter(q, r, tail, k);
    ProjectRx(rx[..rs]);
    RequestProjects(Choose(n - rs));
    RequestAsks(Choose(n - rs));
    assert Sent(pk) == Sent(q) + Sent(p2);
    AsksAppend(Sent(q), Sent(p2));
    assert Asks(Sent(pk)) == Choose(n - rs) + Asks(Sent(p2));
    assert Received(pk) == rx[..rs] + Received(p2);
  }

  /** The bytes sent and received up to a point `k` of a log that lies
      past its first two parts. */
  lemma PointAfter(q: seq<Event>, r: seq<Event>, tail: seq<Event>, k: nat)
    requires |q| + |r| <= k <= |q| + |r| + |tail|
    ensures Sent((q + r + tail)[..k]) == Sent(q) + Sent(r) + Sent(tail[..k - |q| - |r|])
    ensures Received((q + r + tail)[..k]) == Received(q) + Received(r) + Received(tail[..k - |q| - |r|])
  {
    TakeRight(q + r, tail, k);
    ProjectAppend(q + r, tail[..k - |q| - |r|]);
    ProjectAppend(q, r);
  }

}
