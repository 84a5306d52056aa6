/** The command set both bridges speak to the target: one-byte opcodes, the
    address and data ones followed by a 32-bit payload in native byte
    order.  Read bursts carry no payload; the target answers each with
    exactly as many raw bytes as the burst asks for, without framing. */
module Protocol {
  import opened Words
  import opened Strtol

  const OpSetAddress: byte := 97  // 'a'
  const OpWriteWord: byte := 119  // 'w'
  const OpRead8: byte := 82       // 'R'
  const OpRead4: byte := 114      // 'r'

  datatype Command =
    | SetAddress(addr: u32)
    | WriteWord(word: u32)
    | ReadBurst(size: nat)

  /** Read bursts come in two sizes: 8 bytes (`R`) and 4 bytes (`r`). */
  predicate WellFormed(c: Command)
  {
    c.ReadBurst? ==> c.size == 8 || c.size == 4
  }

  predicate AllWellFormed(cs: seq<Command>)
  {
    forall i :: 0 <= i < |cs| ==> WellFormed(cs[i])
  }

  function BurstOp(size: nat): byte
  {
    if size == 8 then OpRead8 else OpRead4
  }

  function Encode(c: Command): (b: seq<byte>)
    ensures |b| == if c.ReadBurst? then 1 else 5
  {
    match c
    case SetAddress(a) => [OpSetAddress] + WordBytes(a)
    case WriteWord(w) => [OpWriteWord] + WordBytes(w)
    case ReadBurst(n) => [BurstOp(n)]
  }

  function EncodeAll(cs: seq<Command>): seq<byte>
  {
    if cs == [] then [] else Encode(cs[0]) + EncodeAll(cs[1..])
  }

  lemma {:induction false} EncodeAllAppend(a: seq<Command>, b: seq<Command>)
    ensures EncodeAll(a + b) == EncodeAll(a) + EncodeAll(b)
  {
    if a != [] {
      assert (a + b)[1..] == a[1..] + b;
      EncodeAllAppend(a[1..], b);
    } else {
      assert a + b == b;
    }
  }

  /** How the target splits its input stream into commands; `None` when the
      stream holds an unknown opcode or ends inside a payload. */
  function Decode(b: seq<byte>): Option<seq<Command>>
    decreases |b|
  {
    if b == [] then Some([])
    else if Width(b[0]) > |b| then None
    else
      match (DecodeOne(b), Decode(b[Width(b[0])..]))
      case (Some(cmd), Some(cs)) => Some([cmd] + cs)
      case _ => None
  }

  /** The bytes a command takes up, from its opcode. */
  function Width(op: byte): nat
  {
    if op == OpSetAddress || op == OpWriteWord then 5 else 1
  }

  /** The command at the head of `b`, once its bytes have all arrived. */
  function DecodeOne(b: seq<byte>): Option<Command>
    requires b != [] && Width(b[0]) <= |b|
  {
    if b[0] == OpSetAddress then Some(SetAddress(WordOf(b[1..5])))
    else if b[0] == OpWriteWord then Some(WriteWord(WordOf(b[1..5])))
    else if b[0] == OpRead8 then Some(ReadBurst(8))
    else if b[0] == OpRead4 then Some(ReadBurst(4))
    else None
  }

  /** The target recovers exactly the commands the host encoded. */
  lemma {:induction false} DecodeEncode(cs: seq<Command>)
    requires AllWellFormed(cs)
    ensures Decode(EncodeAll(cs)) == Some(cs)
  {
    if cs != [] {
      var b := EncodeAll(cs);
      assert WellFormed(cs[0]);
      assert AllWellFormed(cs[1..]) by {
        forall i | 0 <= i < |cs[1..]| ensures WellFormed(cs[1..][i]) {
          assert cs[1..][i] == cs[i + 1];
        }
      }
      DecodeEncode(cs[1..]);
      var e := Encode(cs[0]);
      assert b[..|e|] == e && b[|e|..] == EncodeAll(cs[1..]);
      assert cs == [cs[0]] + cs[1..];
      match cs[0]
      case SetAddress(a) =>
        WordRoundTrip(a);
        assert b[1..5] == WordBytes(a);
      case WriteWord(w) =>
        WordRoundTrip(w);
        assert b[1..5] == WordBytes(w);
      case ReadBurst(n) =>
    }
  }

  /** A command decoded at the head of a stream is well formed and encodes
      back to the bytes it was decoded from. */
  lemma DecodeOneEncode(b: seq<byte>)
    requires b != [] && Width(b[0]) <= |b| && DecodeOne(b).Some?
    ensures WellFormed(DecodeOne(b).value) && Encode(DecodeOne(b).value) == b[..Width(b[0])]
  {
    if Width(b[0]) == 5 {
      BytesRoundTrip(b[1..5]);
      assert b[..5] == [b[0]] + b[1..5];
    } else {
      assert b[..1] == [b[0]];
    }
  }

  /** A stream that decodes starts with a whole command, and the rest
      decodes too. */
  lemma DecodeHead(b: seq<byte>)
    requires b != [] && Decode(b).Some?
    ensures Width(b[0]) <= |b| && DecodeOne(b).Some? && Decode(b[Width(b[0])..]).Some?
    ensures Decode(b).value == [DecodeOne(b).value] + Decode(b[Width(b[0])..]).value
  {
  }

  /** Every stream the target accepts is the encoding of what it decoded,
      so encoding and decoding are inverse bijections. */
  lemma {:induction false} EncodeDecode(b: seq<byte>)
    requires Decode(b).Some?
    ensures AllWellFormed(Decode(b).value)
    ensures EncodeAll(Decode(b).value) == b
    decreases |b|
  {
    if b != [] {
      var n := Width(b[0]);
      DecodeHead(b);
      DecodeOneEncode(b);
      EncodeDecode(b[n..]);
      var c, tail := DecodeOne(b).value, Decode(b[n..]).value;
      assert ([c] + tail)[1..] == tail;
      assert EncodeAll([c] + tail) == b[..n] + b[n..];
      assert b[..n] + b[n..] == b;
      forall i | 0 <= i < |tail| + 1 ensures WellFormed(([c] + tail)[i]) {
        if i > 0 {
          assert ([c] + tail)[i] == tail[i - 1];
        }
      }
    }
  }

  /** `w` + word for each complete 4-byte word of `data`, in order; a
      trailing partial word produces nothing. */
  function WordWrites(data: seq<byte>): (cs: seq<Command>)
    ensures |cs| == |data| / 4
    decreases |data|
  {
    if |data| < 4 then [] else [WriteWord(WordOf(data[..4]))] + WordWrites(data[4..])
  }

  /** `write ADDR` over `data`: set the address once, then write the words. */
  function WriteCommands(addr: u32, data: seq<byte>): seq<Command>
  {
    [SetAddress(addr)] + WordWrites(data)
  }

  /** The data bytes carried by the word writes of a command list. */
  function Payload(cs: seq<Command>): seq<byte>
  {
    if cs == [] then []
    else (if cs[0].WriteWord? then WordBytes(cs[0].word) else []) + Payload(cs[1..])
  }

  /** The words written are exactly the complete words of the input, in
      order, and nothing of a trailing partial word. */
  lemma {:induction false} WordWritesPayload(data: seq<byte>)
    ensures Payload(WordWrites(data)) == data[..|data| / 4 * 4]
    ensures |EncodeAll(WordWrites(data))| == 5 * (|data| / 4)
    decreases |data|
  {
    if |data| >= 4 {
      var cs := WordWrites(data);
      WordWritesPayload(data[4..]);
      BytesRoundTrip(data[..4]);
      assert cs[1..] == WordWrites(data[4..]);
      assert |data| / 4 * 4 == 4 + |data[4..]| / 4 * 4;
      assert data[..|data| / 4 * 4] == data[..4] + data[4..][..|data[4..]| / 4 * 4];
    }
  }

  /** The JTAG bridge reads `len` bytes with one 8-byte burst per started
      8 bytes (`for (n = 0; n < len; n += 8)`). */
  function JtagReadCommands(addr: u32, len: nat): seq<Command>
  {
    [SetAddress(addr)] + seq((len + 7) / 8, _ => ReadBurst(8))
  }

  /** The number of response bytes a command list asks the target for. */
  function Owed(cs: seq<Command>): nat
  {
    if cs == [] then 0
    else (if cs[0].ReadBurst? then cs[0].size else 0) + Owed(cs[1..])
  }

  lemma {:induction false} OwedRepeat(k: nat)
    ensures Owed(seq(k, _ => ReadBurst(8))) == 8 * k
  {
    if k > 0 {
      assert seq(k, _ => ReadBurst(8))[1..] == seq(k - 1, _ => ReadBurst(8));
      OwedRepeat(k - 1);
    }
  }

  /** The JTAG bridge asks for the next multiple of 8 but consumes only
      `len` bytes, so a length that is not a multiple of 8 leaves the
      difference unread by this read, ahead of the bytes
      the next read of the session asks for. */
  lemma JtagReadOwes(addr: u32, len: nat)
    ensures Owed(JtagReadCommands(addr, len)) == 8 * ((len + 7) / 8)
    ensures Owed(JtagReadCommands(addr, len)) - len == (8 - len % 8) % 8
  {
    var cs := JtagReadCommands(addr, len);
    assert cs[1..] == seq((len + 7) / 8, _ => ReadBurst(8));
    OwedRepeat((len + 7) / 8);
  }

  /** The serial bridge's burst chooser: an 8-byte burst while at least 8
      bytes remain, otherwise a 4-byte burst while at least 4 remain. */
  function Choose(remaining: int): nat
  {
    if remaining >= 8 then 8 else if remaining >= 4 then 4 else 0
  }

  /** The burst sizes the serial bridge issues for a read of `len` bytes. */
  function Bursts(len: int): seq<nat>
    decreases len
  {
    var b := Choose(len);
    if b == 0 then [] else [b] + Bursts(len - b)
  }

  function Sum(s: seq<nat>): nat
  {
    if s == [] then 0 else s[0] + Sum(s[1..])
  }

  lemma BurstExamples()
    ensures Bursts(20) == [8, 8, 4]
    ensures Bursts(8) == [8]
    ensures Bursts(16) == [8, 8]
    ensures Bursts(4) == [4]
    ensures Bursts(3) == []
  {
  }

  /** Every burst but the last is 8 bytes; the last is 4 bytes exactly when
      the length leaves 4 to 7 bytes over a multiple of 8; the bursts cover
      the length rounded down to a multiple of 4. */
  lemma {:induction false} BurstsShape(len: int)
    ensures Sum(Bursts(len)) == if len < 4 then 0 else len / 4 * 4
    ensures forall i :: 0 <= i < |Bursts(len)| - 1 ==> Bursts(len)[i] == 8
    ensures forall i :: 0 <= i < |Bursts(len)| ==> Bursts(len)[i] == 8 || Bursts(len)[i] == 4
    ensures len >= 4 ==> |Bursts(len)| > 0 && Bursts(len)[|Bursts(len)| - 1] == (if len % 8 >= 4 then 4 else 8)
    decreases len
  {
    var b := Choose(len);
    if b != 0 {
      BurstsShape(len - b);
      var bs := Bursts(len);
      assert bs[1..] == Bursts(len - b);
      if b == 8 {
        assert (len - 8) / 4 * 4 + 8 == len / 4 * 4;
        assert (len - 8) % 8 == len % 8;
      }
    }
  }

  /** One read burst per size, in order. */
  function BurstCommands(bs: seq<nat>): (cs: seq<Command>)
    ensures |cs| == |bs|
  {
    if bs == [] then [] else [ReadBurst(bs[0])] + BurstCommands(bs[1..])
  }

  /** The serial bridge's commands for `read ADDR LEN`. */
  function SerialReadCommands(addr: u32, len: int): seq<Command>
  {
    [SetAddress(addr)] + BurstCommands(Bursts(len))
  }

  /** Every burst command asks for the bytes of its burst, so a list of
      them asks for the sum of the sizes. */
  lemma {:induction false} BurstCommandsOwed(bs: seq<nat>)
    ensures Owed(BurstCommands(bs)) == Sum(bs)
    ensures (forall i :: 0 <= i < |bs| ==> bs[i] == 8 || bs[i] == 4) ==> AllWellFormed(BurstCommands(bs))
  {
    if bs != [] {
      var cs := BurstCommands(bs);
      BurstCommandsOwed(bs[1..]);
      assert cs[1..] == BurstCommands(bs[1..]);
      if forall i :: 0 <= i < |bs| ==> bs[i] == 8 || bs[i] == 4 {
        forall i | 0 <= i < |cs| ensures WellFormed(cs[i]) {
          if i > 0 {
            assert cs[i] == cs[1..][i - 1];
            assert bs[1..][i - 1] == bs[i];
          }
        }
      }
    }
  }

  /** Unlike the JTAG bridge, the serial bridge asks for exactly the bytes
      it stores: `len` rounded down to a multiple of 4, and nothing at all
      below 4.  Its commands are well formed, so the target parses the
      stream back into them. */
  lemma SerialReadOwes(addr: u32, len: int)
    ensures Owed(SerialReadCommands(addr, len)) == if len < 4 then 0 else len / 4 * 4
    ensures AllWellFormed(SerialReadCommands(addr, len))
    ensures Decode(EncodeAll(SerialReadCommands(addr, len))) == Some(SerialReadCommands(addr, len))
  {
    var cs := SerialReadCommands(addr, len);
    BurstsShape(len);
    BurstCommandsOwed(Bursts(len));
    assert cs[1..] == BurstCommands(Bursts(len));
    assert AllWellFormed(cs) by {
      forall i | 0 <= i < |cs| ensures WellFormed(cs[i]) {
        if i > 0 {
          assert cs[i] == BurstCommands(Bursts(len))[i - 1];
        }
      }
    }
    DecodeEncode(cs);
  }
}
