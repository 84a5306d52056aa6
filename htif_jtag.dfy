/** The JTAG host bridge: it copies host data into the target's memory
    (`write ADDR < file`) and target memory to the host (`read ADDR LEN`)
    over the JTAG UART, for each command of its argument list in turn.

    Everything the bridge sends goes through a 16 KiB coalescing buffer that
    is drained into the link when it would fill up or when a flush is asked
    for; every read from the target is preceded by such a flush.  Standard
    input and standard output are byte sequences held by the bridge. */
module HtifJtag {
  import opened Words
  import opened Strtol
  import opened Protocol
  import opened Atlantic

  /** `INT_MAX` for the 32-bit `int` counter of `htif_cmd_read`'s loop. */
  const IntMax: nat := 0x7FFF_FFFF

  /** The largest read length for which that counter, stepping by 8 from 0
      while below `len`, never passes `IntMax`. */
  const MaxReadLength: nat := 0x7FFF_FFF8

  /** `sizeof transmission`. */
  const Capacity: nat := 16 * 1024

  /** When `htif_write` first drains the buffer: a flush with something
      pending, or new data that would reach the end of the buffer. */
  predicate DrainDue(pending: nat, len: nat, flush: bool)
  {
    (flush && pending > 0) || pending + len >= Capacity
  }

  class Bridge {
    const transmission: array<byte>
    var pending: nat
    var total: int
    const link: Link
    var input: seq<byte>
    var output: seq<byte>

    /** The buffer has its fixed size and holds at most that much, and
        `total` counts exactly the bytes the link moved. */
    ghost predicate Valid()
      reads this`pending, this`total, link, transmission
    {
      transmission.Length == Capacity && pending <= Capacity &&
      total == Moved(link.log)
    }

    /** The bytes waiting in the buffer. */
    ghost function Buffered(): seq<byte>
      requires pending <= transmission.Length
      reads this`pending, transmission
    {
      transmission[..pending]
    }

    /** Everything sent towards the target so far: what the link accepted,
        followed by what still waits in the buffer. */
    ghost function Sent(): seq<byte>
      requires Valid()
      reads this`pending, this`total, link, transmission
    {
      Accepted(link.log) + Buffered()
    }

    /** The state after `jtagatlantic_open` succeeded on `link`: nothing
        pending, nothing counted. */
    constructor (link: Link, input: seq<byte>)
      requires link.log == []
      ensures Valid()
      ensures pending == 0 && total == 0 && Sent() == []
      ensures this.link == link && this.input == input && output == []
      ensures fresh(transmission)
    {
      transmission := new byte[Capacity];
      pending := 0;
      total := 0;
      this.link := link;
      this.input := input;
      output := [];
    }

    /** The drain loop of `htif_write`: offer the link the unsent rest of
        the buffer until all of it has been accepted, retrying after 0 and
        reopening after -1.  `calls` are the calls it made. */
    method Drain() returns (ghost calls: seq<Call>)
      requires Valid()
      modifies this, link
      ensures Valid()
      ensures pending == 0 && total == old(total) + old(pending)
      ensures link.log == old(link.log) + calls && Transferred(calls, ToTarget(old(Buffered())))
      ensures Sent() == old(Sent())
      ensures link.incoming == old(link.incoming)
      ensures input == old(input) && output == old(output)
    {
      ghost var data := transmission[..pending];
      ghost var log0 := link.log;
      calls := [];
      var p: nat := 0;
      var n: nat := pending;
      var more := true;
      while more
        invariant Valid() && pending == |data| && transmission[..pending] == data
        invariant link.log == log0 + calls
        invariant p + n == |data|
        invariant total == old(total) + p
        invariant more ==> Going(calls, ToTarget(data), 0, p)
        invariant !more ==> n == 0 && Finishes(calls, ToTarget(data), 0)
        invariant link.incoming == old(link.incoming)
        invariant input == old(input) && output == old(output)
        decreases |link.script|, more
      {
        var wrote, c := WriteOnce(p);
        Iteration(log0, calls, c, ToTarget(data), p);
        calls := calls + StepOf(c);
        n := n - wrote;
        p := p + wrote;
        more := 0 < n;
      }
      pending := 0;
      DrainAccounts(log0, calls, data);
    }

    /** One iteration of the drain loop: offer the link the buffer from
        offset `p` on; after -1 reopen the connection and count nothing.
        `c` is the call made. */
    method WriteOnce(p: nat) returns (wrote: nat, ghost c: Call)
      requires Valid() && p <= pending
      modifies this, link
      ensures Valid() && pending == old(pending)
      ensures c.WriteCall? && c.request == transmission[p..pending] && c.result <= pending - p
      ensures wrote == Got(c.result)
      ensures link.log == old(link.log) + StepOf(c)
      ensures total == old(total) + wrote
      ensures old(link.script) == [] ==> wrote == pending - p && link.script == []
      ensures old(link.script) != [] ==> |link.script| < |old(link.script)|
      ensures link.incoming == old(link.incoming)
      ensures input == old(input) && output == old(output)
    {
      var result := link.Write(transmission[p..pending]);
      c := WriteCall(transmission[p..pending], result);
      StepAccounts(old(link.log), c);
      if result < 0 {
        link.Reopen();
        assert link.log == old(link.log) + StepOf(c);
        result := 0;
      }
      wrote := result;
      total := total + wrote;
    }

    /** `htif_write(data, len, flush)`: drain first when `DrainDue`, then
        append the new bytes, so even a flushing call leaves its own bytes
        pending.  `calls` are the calls made by the drain. */
    method HtifWrite(data: seq<byte>, flush: bool) returns (ghost calls: seq<Call>)
      requires Valid() && |data| <= Capacity
      modifies this, link, transmission
      ensures Valid()
      ensures Sent() == old(Sent()) + data
      ensures link.log == old(link.log) + calls
      ensures DrainDue(old(pending), |data|, flush) ==>
        Transferred(calls, ToTarget(old(Buffered()))) &&
        Buffered() == data && total == old(total) + old(pending)
      ensures !DrainDue(old(pending), |data|, flush) ==>
        calls == [] && Buffered() == old(Buffered()) + data && total == old(total)
      ensures flush ==> Buffered() == data
      ensures |data| < Capacity ==> pending < Capacity
      ensures link.incoming == old(link.incoming)
      ensures input == old(input) && output == old(output)
    {
      calls := [];
      if (flush && pending > 0) || pending + |data| >= Capacity {
        calls := Drain();
      }
      Regroup(Accepted(link.log), Buffered(), data);
      Append(data);
    }

    /** The `memcpy` of `htif_write`: the new bytes go after the pending ones. */
    method Append(data: seq<byte>)
      requires Valid() && pending + |data| <= Capacity
      modifies this, transmission
      ensures Valid()
      ensures Buffered() == old(Buffered()) + data
      ensures total == old(total) && input == old(input) && output == old(output)
    {
      ghost var kept := transmission[..pending];
      for i := 0 to |data|
        modifies transmission
        invariant transmission[..pending] == kept
        invariant transmission[pending..pending + i] == data[..i]
      {
        transmission[pending + i] := data[i];
      }
      assert data[..|data|] == data;
      assert transmission[..pending + |data|] == transmission[..pending] + transmission[pending..pending + |data|];
      pending := pending + |data|;
    }

    /** `htif_read(buf, len)`: flush everything pending, then read until
        exactly `len` bytes have arrived, retrying after 0 and reopening
        after -1.  `flushed` are the calls of the flush, `received` those of
        the read loop.  The target must eventually have sent `len` bytes. */
    method HtifRead(buf: array<byte>, len: nat) returns (ghost flushed: seq<Call>, ghost received: seq<Call>)
      requires Valid() && buf != transmission && len <= buf.Length
      requires len <= |link.incoming|
      modifies this, link, transmission, buf
      ensures Valid() && pending == 0
      ensures Sent() == old(Sent())
      ensures buf[..len] == old(link.incoming)[..len]
      ensures link.incoming == old(link.incoming)[len..]
      ensures total == old(total) + old(pending) + len
      ensures link.log == old(link.log) + flushed + received
      ensures old(pending) > 0 ==> Transferred(flushed, ToTarget(old(Buffered())))
      ensures old(pending) == 0 ==> flushed == []
      ensures Transferred(received, FromTarget(len))
      ensures input == old(input) && output == old(output)
    {
      flushed := HtifWrite([], true);
      ghost var log1 := link.log;
      received := Receive(buf, len);
      ReadAccounts(log1, received, len);
    }

    /** The read loop of `htif_read`: ask for the bytes still missing until
        all `len` have arrived, retrying after 0 and reopening after -1.
        `calls` are the calls it made. */
    method Receive(buf: array<byte>, len: nat) returns (ghost calls: seq<Call>)
      requires Valid() && buf != transmission && len <= buf.Length
      requires len <= |link.incoming|
      modifies this, link, buf
      ensures Valid() && pending == old(pending)
      ensures buf[..len] == old(link.incoming)[..len]
      ensures link.incoming == old(link.incoming)[len..]
      ensures total == old(total) + len
      ensures link.log == old(link.log) + calls && Transferred(calls, FromTarget(len))
      ensures input == old(input) && output == old(output)
    {
      ghost var log0 := link.log;
      ghost var inc := link.incoming;
      ghost var t := FromTarget(len);
      assert Size(t) == len;
      calls := [];
      var p: nat := 0;
      var n: nat := len;
      var more := true;
      while more
        invariant Valid() && pending == old(pending)
        invariant link.log == log0 + calls
        invariant p + n == len
        invariant buf[..p] == inc[..p]
        invariant link.incoming == inc[p..]
        invariant total == old(total) + p
        invariant more ==> Going(calls, t, 0, p)
        invariant !more ==> n == 0 && Finishes(calls, t, 0)
        invariant input == old(input) && output == old(output)
        decreases |link.script|, more
      {
        var q, c := ReadOnce(buf, p, n, inc);
        Iteration(log0, calls, c, t, p);
        calls := calls + StepOf(c);
        n := n - (q - p);
        p := q;
        more := 0 < n;
      }
    }

    /** One iteration of the read loop of `htif_read`: ask for the `n`
        bytes still missing and store what arrives at `buf[p]`; after -1
        reopen the connection and count nothing.  `q` is the position
        after what arrived, `c` the call made. */
    method ReadOnce(buf: array<byte>, p: nat, n: nat, ghost inc: seq<byte>)
      returns (q: nat, ghost c: Call)
      requires Valid() && buf != transmission && p + n <= buf.Length
      requires p + n <= |inc|
      requires link.incoming == inc[p..] && buf[..p] == inc[..p]
      modifies this, link, buf
      ensures Valid() && pending == old(pending)
      ensures c.ReadCall? && c.want == n && c.result <= n && q == p + Got(c.result)
      ensures link.log == old(link.log) + StepOf(c)
      ensures buf[..q] == inc[..q]
      ensures link.incoming == inc[q..]
      ensures total == old(total) + (q - p)
      ensures old(link.script) == [] ==> q == p + n && link.script == []
      ensures old(link.script) != [] ==> |link.script| < |old(link.script)|
      ensures input == old(input) && output == old(output)
    {
      var result := link.Read(buf, p, n);
      c := ReadCall(n, result);
      q := p + Got(result);
      assert inc[..p] + inc[p..][..Got(result)] == inc[..q];
      assert inc[p..][Got(result)..] == inc[q..];
      StepAccounts(old(link.log), c);
      total := total + Got(result);
      if result < 0 {
        link.Reopen();
        assert link.log == old(link.log) + StepOf(c);
      }
    }

    /** `htif_write(data, len, 0)` as the command routines use it: the
        bytes join what has been sent. */
    method Put(data: seq<byte>)
      requires Valid() && |data| <= Capacity
      modifies this, link, transmission
      ensures Valid()
      ensures Sent() == old(Sent()) + data
      ensures link.incoming == old(link.incoming)
      ensures input == old(input) && output == old(output)
    {
      ghost var calls := HtifWrite(data, false);
    }

    /** A one-byte opcode and its 32-bit payload, written by two calls of
        `htif_write`. */
    method PutCommand(op: byte, word: seq<byte>)
      requires Valid() && |word| == 4
      modifies this, link, transmission
      ensures Valid()
      ensures Sent() == old(Sent()) + ([op] + word)
      ensures link.incoming == old(link.incoming)
      ensures input == old(input) && output == old(output)
    {
      Put([op]);
      Put(word);
    }

    /** `htif_cmd_write(addr)`: the address command, then one word write per
        complete 4-byte word of standard input; a trailing partial word is
        consumed but not sent. */
    method CmdWrite(addr: u32)
      requires Valid()
      modifies this, link, transmission
      ensures Valid()
      ensures Sent() == old(Sent()) + EncodeAll(WriteCommands(addr, old(input)))
      ensures input == [] && output == old(output)
      ensures link.incoming == old(link.incoming)
    {
      ghost var s0, in0 := Sent(), input;
      PutCommand(OpSetAddress, WordBytes(addr));
      PutWords();
      WriteEncoding(addr, in0);
      Regroup(s0, [OpSetAddress] + WordBytes(addr), EncodeAll(WordWrites(in0)));
    }

    /** The loop of `htif_cmd_write`: `fread` one word at a time and send
        it behind a `w` opcode, until fewer than four bytes are left. */
    method PutWords()
      requires Valid()
      modifies this, link, transmission
      ensures Valid()
      ensures Sent() == old(Sent()) + EncodeAll(WordWrites(old(input)))
      ensures input == [] && output == old(output)
      ensures link.incoming == old(link.incoming)
    {
      ghost var target := Sent() + EncodeAll(WordWrites(input));
      while |input| >= 4
        invariant Valid()
        invariant Sent() + EncodeAll(WordWrites(input)) == target
        invariant output == old(output) && link.incoming == old(link.incoming)
        decreases |input|
      {
        ghost var before := Sent();
        var word := input[..4];
        WordWritesStep(input);
        input := input[4..];
        PutCommand(OpWriteWord, word);
        Regroup(before, [OpWriteWord] + word, EncodeAll(WordWrites(input)));
      }
      input := [];
    }

    /** The burst loop of `htif_cmd_read`: one `R` per started 8 bytes of
        `len`; the `int` counter `n += 8` stays within `IntMax`. */
    method PutBursts(len: nat)
      requires Valid() && len <= MaxReadLength
      modifies this, link, transmission
      ensures Valid()
      ensures Sent() == old(Sent()) + EncodeAll(Bursts8((len + 7) / 8))
      ensures link.incoming == old(link.incoming)
      ensures input == old(input) && output == old(output)
    {
      var n := 0;
      while n < len
        invariant Valid() && n % 8 == 0 && n <= len + 7
        invariant Sent() == old(Sent()) + EncodeAll(Bursts8(n / 8))
        invariant link.incoming == old(link.incoming)
        invariant input == old(input) && output == old(output)
      {
        Bursts8Step(n / 8);
        Put([OpRead8]);
        assert n + 8 <= IntMax;
        n := n + 8;
      }
      assert n / 8 == (len + 7) / 8;
    }

    /** `htif_cmd_read(addr, len)`: the address command and one 8-byte
        burst per started 8 bytes, then read exactly `len` bytes and copy
        them to standard output.  Above `MaxReadLength` the burst counter
        overflows (see `BurstCounterFits`). */
    method CmdRead(addr: u32, len: nat)
      requires Valid() && len <= MaxReadLength
      requires len <= |link.incoming|
      modifies this, link, transmission
      ensures Valid() && pending == 0
      ensures Sent() == old(Sent()) + EncodeAll(JtagReadCommands(addr, len))
      ensures output == old(output) + old(link.incoming)[..len]
      ensures link.incoming == old(link.incoming)[len..]
      ensures input == old(input)
    {
      ghost var s0 := Sent();
      PutCommand(OpSetAddress, WordBytes(addr));
      PutBursts(len);
      ReadEncoding(addr, len);
      Regroup(s0, [OpSetAddress] + WordBytes(addr), EncodeAll(Bursts8((len + 7) / 8)));
      var buf := new byte[len];
      ghost var flushed, received := HtifRead(buf, len);
      output := output + buf[..len];
    }

    /** One command of `main`'s loop. */
    method RunOp(op: Op)
      requires Valid() && OpFits(op) && OpDemand(op) <= |link.incoming|
      modifies this, link, transmission
      ensures Valid()
      ensures Sent() == old(Sent()) + EncodeAll(OpCommands(op, old(input)))
      ensures input == InputAfter(op, old(input))
      ensures output == old(output) + old(link.incoming)[..OpDemand(op)]
      ensures link.incoming == old(link.incoming)[OpDemand(op)..]
    {
      match op
      case WriteOp(a) =>
        CmdWrite(a);
        assert old(link.incoming)[0..] == old(link.incoming);
      case ReadOp(a, n) =>
        CmdRead(a, n);
    }

    /** The command loop of `main`: run `write ADDR` and `read ADDR LEN`
        from left to right, stop at the first argument that is neither,
        then force a final flush. */
    method Execute(args: seq<string>)
      requires Valid()
      requires ReadsFit(Plan(args)) && Demand(Plan(args)) <= |link.incoming|
      modifies this, link, transmission
      ensures Valid() && pending == 0
      ensures Accepted(link.log) == old(Sent()) + EncodeAll(SessionCommands(Plan(args), old(input)))
      ensures output == old(output) + old(link.incoming)[..Demand(Plan(args))]
      ensures link.incoming == old(link.incoming)[Demand(Plan(args))..]
    {
      ghost var sent := Sent() + EncodeAll(SessionCommands(Plan(args), input));
      ghost var out := output + link.incoming[..Demand(Plan(args))];
      ghost var after := link.incoming[Demand(Plan(args))..];
      var v := args;
      var next := NextOp(v);
      while next.Some?
        invariant Valid() && next == NextOp(v)
        invariant ReadsFit(Plan(v)) && Demand(Plan(v)) <= |link.incoming|
        invariant Sent() + EncodeAll(SessionCommands(Plan(v), input)) == sent
        invariant output + link.incoming[..Demand(Plan(v))] == out
        invariant link.incoming[Demand(Plan(v))..] == after
        decreases |v|
      {
        var op := next.value;
        PlanNext(v);
        Turn(op, Plan(v[Arity(op)..]), sent, out, after);
        v := v[Arity(op)..];
        next := NextOp(v);
      }
      PlanNext(v);
      ghost var calls := HtifWrite([], true);
    }

    /** One turn of the command loop: running the first of the commands
        `[op] + rest` still due leaves `rest` due, with the same final
        bytes sent, output and remaining input in view. */
    method Turn(op: Op, ghost rest: seq<Op>, ghost sent: seq<byte>, ghost out: seq<byte>, ghost after: seq<byte>)
      requires Valid() && ReadsFit([op] + rest) && Demand([op] + rest) <= |link.incoming|
      requires Sent() + EncodeAll(SessionCommands([op] + rest, input)) == sent
      requires output + link.incoming[..Demand([op] + rest)] == out
      requires link.incoming[Demand([op] + rest)..] == after
      modifies this, link, transmission
      ensures Valid() && ReadsFit(rest) && Demand(rest) <= |link.incoming|
      ensures Sent() + EncodeAll(SessionCommands(rest, input)) == sent
      ensures output + link.incoming[..Demand(rest)] == out
      ensures link.incoming[Demand(rest)..] == after
    {
      ghost var s0, in0, out0, inc0 := Sent(), input, output, link.incoming;
      ghost var e, k, d := EncodeAll(OpCommands(op, input)), OpDemand(op), Demand(rest);
      SessionStep(op, rest, input);
      assert s0 + (e + EncodeAll(SessionCommands(rest, InputAfter(op, in0)))) == sent;
      assert out0 + inc0[..k + d] == out && inc0[k + d..] == after;
      RunOp(op);
      SessionAdvance(s0, e, EncodeAll(SessionCommands(rest, input)), Sent(), out0, inc0, k, d, output, link.incoming);
    }
  }

  /** What a finished drain adds to the log: the bytes it handed over,
      after those accepted before. */
  lemma DrainAccounts(log0: seq<Call>, calls: seq<Call>, data: seq<byte>)
    requires Finishes(calls, ToTarget(data), 0)
    ensures Accepted(log0 + calls) == Accepted(log0) + data
  {
    AcceptedAppend(log0, calls);
    FinishedWriteAccepted(calls, data, 0);
    assert data[0..] == data;
  }

  /** A finished read adds nothing to the bytes accepted for sending. */
  lemma ReadAccounts(log0: seq<Call>, calls: seq<Call>, len: nat)
    requires Finishes(calls, FromTarget(len), 0)
    ensures Accepted(log0 + calls) == Accepted(log0)
  {
    AcceptedAppend(log0, calls);
    FinishedReadMoved(calls, len, 0);
  }

  /** Which command `main` runs: `write ADDR` or `read ADDR LEN`. */
  datatype Op = WriteOp(addr: u32) | ReadOp(addr: u32, len: u32)

  /** The number of argument words a command takes up. */
  function Arity(op: Op): nat
  {
    if op.WriteOp? then 2 else 3
  }

  /** The condition of `main`'s loop: the command that the first argument
      words spell, if any; `parse_addr` is `ParseHex32`. */
  function NextOp(args: seq<string>): (r: Option<Op>)
    ensures r.Some? ==> Arity(r.value) <= |args|
  {
    if |args| >= 2 && args[0] == "write" && ParseHex32(args[1]).Some? then
      Some(WriteOp(ParseHex32(args[1]).value))
    else if |args| >= 3 && args[0] == "read" && ParseHex32(args[1]).Some? && ParseHex32(args[2]).Some? then
      Some(ReadOp(ParseHex32(args[1]).value, ParseHex32(args[2]).value))
    else None
  }

  /** The commands `main` runs for an argument list: left to right, up to
      the first argument that does not start a well-formed command. */
  function Plan(args: seq<string>): seq<Op>
    decreases |args|
  {
    match NextOp(args)
    case None => []
    case Some(op) => [op] + Plan(args[Arity(op)..])
  }

  lemma PlanNext(args: seq<string>)
    ensures NextOp(args).None? ==> Plan(args) == []
    ensures NextOp(args).Some? ==> Plan(args) == [NextOp(args).value] + Plan(args[Arity(NextOp(args).value)..])
  {
  }

  /** A read length for which `htif_cmd_read` is defined. */
  predicate OpFits(op: Op)
  {
    op.ReadOp? ==> op.len <= MaxReadLength
  }

  /** For a length that fits the `int32_t` parameter, the burst loop's last
      step `n += 8` lands within `IntMax` iff the length is at most
      `MaxReadLength`; beyond it that step overflows the signed counter. */
  lemma BurstCounterFits(len: nat)
    requires len <= IntMax
    ensures 8 * ((len + 7) / 8) <= IntMax <==> len <= MaxReadLength
  {
  }

  predicate ReadsFit(ops: seq<Op>)
  {
    ops == [] || (OpFits(ops[0]) && ReadsFit(ops[1..]))
  }

  /** The bytes one command reads from the target. */
  function OpDemand(op: Op): nat
  {
    if op.ReadOp? then op.len else 0
  }

  /** The bytes a list of commands reads from the target. */
  function Demand(ops: seq<Op>): nat
  {
    if ops == [] then 0 else OpDemand(ops[0]) + Demand(ops[1..])
  }

  /** The target commands one `main` command sends, given the standard
      input still unread. */
  function OpCommands(op: Op, input: seq<byte>): seq<Command>
  {
    match op
    case WriteOp(a) => WriteCommands(a, input)
    case ReadOp(a, n) => JtagReadCommands(a, n)
  }

  /** A `write` consumes all of standard input; a `read` none of it. */
  function InputAfter(op: Op, input: seq<byte>): seq<byte>
  {
    if op.WriteOp? then [] else input
  }

  /** The target commands of a whole session, in order. */
  function SessionCommands(ops: seq<Op>, input: seq<byte>): seq<Command>
  {
    if ops == [] then [] else OpCommands(ops[0], input) + SessionCommands(ops[1..], InputAfter(ops[0], input))
  }

  lemma SessionStep(op: Op, rest: seq<Op>, input: seq<byte>)
    ensures EncodeAll(SessionCommands([op] + rest, input)) ==
      EncodeAll(OpCommands(op, input)) + EncodeAll(SessionCommands(rest, InputAfter(op, input)))
    ensures Demand([op] + rest) == OpDemand(op) + Demand(rest)
    ensures ReadsFit([op] + rest) <==> OpFits(op) && ReadsFit(rest)
  {
    assert ([op] + rest)[1..] == rest;
    EncodeAllAppend(OpCommands(op, input), SessionCommands(rest, InputAfter(op, input)));
  }

  /** The bookkeeping of one turn of `main`'s loop: what the command sent
      and read is the head of what the session sends and reads. */
  lemma SessionAdvance<T>(s0: seq<T>, e: seq<T>, r: seq<T>, s1: seq<T>,
                          out0: seq<T>, inc0: seq<T>, k: nat, d: nat, out1: seq<T>, inc1: seq<T>)
    requires s1 == s0 + e
    requires k + d <= |inc0| && out1 == out0 + inc0[..k] && inc1 == inc0[k..]
    ensures s1 + r == s0 + (e + r)
    ensures d <= |inc1|
    ensures out1 + inc1[..d] == out0 + inc0[..k + d]
    ensures inc1[d..] == inc0[k + d..]
  {
    assert inc0[..k + d] == inc0[..k] + inc0[k..][..d];
  }

  /** One `w` command and its word at the head of the word writes. */
  lemma WordWritesStep(data: seq<byte>)
    requires |data| >= 4
    ensures EncodeAll(WordWrites(data)) == ([OpWriteWord] + data[..4]) + EncodeAll(WordWrites(data[4..]))
  {
    BytesRoundTrip(data[..4]);
    assert WordWrites(data)[1..] == WordWrites(data[4..]);
  }

  /** `write ADDR`: the address command, then the word writes. */
  lemma WriteEncoding(addr: u32, data: seq<byte>)
    ensures EncodeAll(WriteCommands(addr, data)) == ([OpSetAddress] + WordBytes(addr)) + EncodeAll(WordWrites(data))
  {
    assert WriteCommands(addr, data)[1..] == WordWrites(data);
  }

  /** `read ADDR LEN`: the address command, then the bursts. */
  lemma ReadEncoding(addr: u32, len: nat)
    ensures EncodeAll(JtagReadCommands(addr, len)) == ([OpSetAddress] + WordBytes(addr)) + EncodeAll(Bursts8((len + 7) / 8))
  {
    assert JtagReadCommands(addr, len)[1..] == Bursts8((len + 7) / 8);
  }

  /** The 8-byte bursts of `htif_cmd_read`. */
  function Bursts8(k: nat): (cs: seq<Command>)
    ensures |cs| == k
  {
    seq(k, _ => ReadBurst(8))
  }

  lemma Bursts8Step(k: nat)
    ensures EncodeAll(Bursts8(k + 1)) == EncodeAll(Bursts8(k)) + [OpRead8]
  {
    assert Bursts8(k + 1) == Bursts8(k) + [ReadBurst(8)];
    EncodeAllAppend(Bursts8(k), [ReadBurst(8)]);
  }

  /** Every command list the bridge builds is one the target decodes. */
  lemma {:induction false} SessionWellFormed(ops: seq<Op>, input: seq<byte>)
    ensures AllWellFormed(SessionCommands(ops, input))
  {
    if ops != [] {
      SessionWellFormed(ops[1..], InputAfter(ops[0], input));
      var a := OpCommands(ops[0], input);
      var b := SessionCommands(ops[1..], InputAfter(ops[0], input));
      OpWellFormed(ops[0], input);
      forall i | 0 <= i < |a + b| ensures WellFormed((a + b)[i]) {
        if i >= |a| {
          assert (a + b)[i] == b[i - |a|];
        }
      }
    }
  }

  lemma OpWellFormed(op: Op, input: seq<byte>)
    ensures AllWellFormed(OpCommands(op, input))
  {
    var cs := OpCommands(op, input);
    forall i | 0 <= i < |cs| ensures WellFormed(cs[i]) {
      if op.WriteOp? && i > 0 {
        WordWritesAreWrites(input, i - 1);
        assert cs[i] == WordWrites(input)[i - 1];
      }
    }
  }

  lemma {:induction false} WordWritesAreWrites(data: seq<byte>, i: nat)
    requires i < |data| / 4
    ensures WordWrites(data)[i].WriteWord?
    decreases i
  {
    if i > 0 {
      WordWritesAreWrites(data[4..], i - 1);
      assert WordWrites(data)[i] == WordWrites(data[4..])[i - 1];
    }
  }

  /** The argument words that spell one command. */
  function OpWords(op: Op): seq<string>
  {
    match op
    case WriteOp(a) => ["write", HexString(a)]
    case ReadOp(a, n) => ["read", HexString(a), HexString(n)]
  }

  /** The argument words that spell a list of commands. */
  function Render(ops: seq<Op>): seq<string>
  {
    if ops == [] then [] else OpWords(ops[0]) + Render(ops[1..])
  }

  /** The command loop recovers every command from its argument words and
      then goes on with whatever follows them; in particular it stops after
      them when what follows does not start a well-formed command. */
  lemma {:induction false} PlanRender(ops: seq<Op>, rest: seq<string>)
    ensures Plan(Render(ops) + rest) == ops + Plan(rest)
  {
    if ops == [] {
      assert Render(ops) + rest == rest;
    } else {
      var tail := Render(ops[1..]) + rest;
      assert Render(ops) + rest == OpWords(ops[0]) + tail;
      PlanRender(ops[1..], rest);
      PlanCons(ops, rest, Render(ops) + rest, tail);
    }
  }

  lemma PlanCons(ops: seq<Op>, rest: seq<string>, args: seq<string>, tail: seq<string>)
    requires ops != []
    requires args == OpWords(ops[0]) + tail
    requires Plan(tail) == ops[1..] + Plan(rest)
    ensures Plan(args) == ops + Plan(rest)
  {
    PlanOp(ops[0], args, tail);
    ConsAppend(ops, Plan(rest));
  }

  lemma PlanOp(op: Op, args: seq<string>, tail: seq<string>)
    requires args == OpWords(op) + tail
    ensures Plan(args) == [op] + Plan(tail)
  {
    match op
    case WriteOp(a) => PlanWrite(a, tail);
    case ReadOp(a, n) => PlanRead(a, n, tail);
  }

  lemma ConsAppend<T>(s: seq<T>, t: seq<T>)
    requires s != []
    ensures [s[0]] + (s[1..] + t) == s + t
  {
    assert s == [s[0]] + s[1..];
  }

  lemma PlanWrite(a: u32, tail: seq<string>)
    ensures Plan(["write", HexString(a)] + tail) == [WriteOp(a)] + Plan(tail)
  {
    var args := ["write", HexString(a)] + tail;
    HexStringParses(a);
    assert args[0] == "write" && args[1] == HexString(a);
    assert NextOp(args) == Some(WriteOp(a));
    PlanNext(args);
    assert args[2..] == tail;
  }

  lemma PlanRead(a: u32, n: u32, tail: seq<string>)
    ensures Plan(["read", HexString(a), HexString(n)] + tail) == [ReadOp(a, n)] + Plan(tail)
  {
    var args := ["read", HexString(a), HexString(n)] + tail;
    HexStringParses(a);
    HexStringParses(n);
    assert args[0] == "read" && args[1] == HexString(a) && args[2] == HexString(n);
    assert args[0][0] != "write"[0];
    assert NextOp(args) == Some(ReadOp(a, n));
    PlanNext(args);
    assert args[3..] == tail;
  }

  /** How `main` ends. */
  datatype Exit = Success | Failure

  /** The arguments after the program name, without a leading `-v`. */
  function Arguments(args: seq<string>): seq<string>
  {
    if |args| > 0 && args[0] == "-v" then args[1..] else args
  }

  /** A leading `-v` changes nothing about the commands `main` runs, while
      the word itself would stop the command loop before its first
      command; only one `-v` is taken, and `-v` alone runs no command. */
  lemma VerboseFlag(a: seq<string>)
    ensures Plan(Arguments(["-v"] + a)) == Plan(a)
    ensures Plan(["-v"] + a) == []
    ensures Plan(Arguments(["-v", "-v"] + a)) == []
    ensures Plan(Arguments(["-v"])) == [] && SessionCommands([], []) == []
  {
  }

  /** `main`: no arguments is a usage error, a failed `jtagatlantic_open`
      ends the program, and otherwise the commands run and everything they
      sent reaches the link before the program ends.  `connected` is the
      outcome of the first `jtagatlantic_open`; `script` and `incoming`
      describe the link, `input` standard input. */
  method Htif(args: seq<string>, connected: bool, script: seq<Answer>, incoming: seq<byte>, input: seq<byte>)
    returns (status: Exit, bridge: Bridge?)
    requires ReadsFit(Plan(Arguments(args))) && Demand(Plan(Arguments(args))) <= |incoming|
    ensures status == Failure <==> args == [] || !connected
    ensures status == Failure ==> bridge == null
    ensures status == Success ==>
      bridge != null && bridge.Valid() && bridge.pending == 0 &&
      Accepted(bridge.link.log) == EncodeAll(SessionCommands(Plan(Arguments(args)), input)) &&
      Decode(Accepted(bridge.link.log)) == Some(SessionCommands(Plan(Arguments(args)), input)) &&
      bridge.output == incoming[..Demand(Plan(Arguments(args)))]
  {
    if args == [] {
      return Failure, null;
    }
    var rest := Arguments(args);
    if !connected {
      return Failure, null;
    }
    var link := new Link(script, incoming);
    bridge := new Bridge(link, input);
    bridge.Execute(rest);
    SessionWellFormed(Plan(rest), input);
    DecodeEncode(SessionCommands(Plan(rest), input));
    status := Success;
  }
}
