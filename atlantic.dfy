/** The JTAG UART connection as the bridge sees it through the vendor
    library (`jtag_atlantic.h`): `jtagatlantic_write` and `jtagatlantic_read`
    return how many bytes moved (positive), that none could move yet (0),
    or that the connection broke (-1); a broken connection is replaced by
    `jtagatlantic_close` followed by `jtagatlantic_open`.

    The library itself is not modelled.  Its answers are a script fixed in
    advance; once the script is used up the connection moves every byte it
    is asked for (writes) or that the target has sent (reads).  That is the
    "eventually makes progress" assumption under which the bridge's retry
    loops terminate.  Every call the bridge makes is recorded in a log, and
    the predicates below say which logs a retry loop can produce. */
module Atlantic {
  import opened Words

  /** One scripted answer of the library. */
  datatype Answer =
    | Ready(limit: nat)  // moves up to `limit` of the bytes asked for
    | NotReady           // returns 0
    | Broken             // returns -1

  /** One call the bridge made, with the value the library returned. */
  datatype Call =
    | WriteCall(request: seq<byte>, result: int)
    | ReadCall(want: nat, result: int)
    | Reopened

  /** What an exact-length transfer moves: the bytes to send, or the
      number of bytes to receive. */
  datatype Transfer = ToTarget(data: seq<byte>) | FromTarget(len: nat)

  function Size(t: Transfer): nat
  {
    match t
    case ToTarget(data) => |data|
    case FromTarget(len) => len
  }

  /** The value returned for a call that can move at most `n` bytes. */
  function Outcome(script: seq<Answer>, n: nat): (r: int)
    ensures -1 <= r <= n
    ensures script == [] ==> r == n
  {
    if script == [] then n
    else match script[0]
      case Ready(m) => Min(m, n)
      case NotReady => 0
      case Broken => -1
  }

  class Link {
    var script: seq<Answer>
    var incoming: seq<byte>
    var log: seq<Call>

    constructor (script: seq<Answer>, incoming: seq<byte>)
      ensures this.script == script && this.incoming == incoming && log == []
    {
      this.script := script;
      this.incoming := incoming;
      log := [];
    }

    /** `jtagatlantic_write(atlantic, request, |request|)`. */
    method Write(request: seq<byte>) returns (result: int)
      modifies this
      ensures result == Outcome(old(script), |request|)
      ensures script == Rest(old(script)) && incoming == old(incoming)
      ensures log == old(log) + [WriteCall(request, result)]
    {
      result := Outcome(script, |request|);
      script := Rest(script);
      log := log + [WriteCall(request, result)];
    }

    /** `jtagatlantic_read(atlantic, buf + at, want)`: the bytes that
        arrive are the oldest ones the target has sent, and they are stored
        from `buf[at]` on. */
    method Read(buf: array<byte>, at: nat, want: nat) returns (result: int)
      requires at + want <= buf.Length
      modifies this, buf
      ensures result == Outcome(old(script), Min(want, |old(incoming)|))
      ensures at + Got(result) <= buf.Length
      ensures buf[..] == old(buf[..])[..at] + old(incoming)[..Got(result)] + old(buf[..])[at + Got(result)..]
      ensures buf[..at + Got(result)] == old(buf[..at]) + old(incoming)[..Got(result)]
      ensures incoming == old(incoming)[Got(result)..]
      ensures script == Rest(old(script))
      ensures log == old(log) + [ReadCall(want, result)]
    {
      result := Outcome(script, Min(want, |incoming|));
      var k := Got(result);
      assert k <= Min(want, |incoming|) <= |incoming|;
      forall i | at <= i < at + k {
        buf[i] := incoming[i - at];
      }
      assert buf[..] == old(buf[..at]) + incoming[..k] + old(buf[at + k..]);
      assert buf[..at + k] == buf[..][..at + k];
      incoming := incoming[k..];
      script := Rest(script);
      log := log + [ReadCall(want, result)];
    }

    /** `jtagatlantic_close` followed by `jtagatlantic_open`. */
    method Reopen()
      modifies this
      ensures script == old(script) && incoming == old(incoming)
      ensures log == old(log) + [Reopened]
    {
      log := log + [Reopened];
    }
  }

  /** The bytes counted as moved by a call: a write or read result, with a
      broken-connection result counted as 0. */
  function Progress(c: Call): nat
  {
    if c.Reopened? then 0 else Got(c.result)
  }

  /** How many log entries one loop iteration leaves: its call, and the
      reopen that follows a broken-connection result. */
  function Span(c: Call): nat
  {
    if !c.Reopened? && c.result < 0 then 2 else 1
  }

  /** One loop iteration's call asks for everything from offset `p` on:
      the unsent suffix of the data, or the number of bytes still missing. */
  predicate Attempt(c: Call, t: Transfer, p: nat)
    requires p <= Size(t)
  {
    match t
    case ToTarget(data) => c.WriteCall? && c.request == data[p..]
    case FromTarget(len) => c.ReadCall? && c.want == len - p
  }

  /** `calls` starts with one whole iteration of a retry loop at offset
      `p`: a call that asks for everything from `p` on and was answered
      within bounds, followed by a reopen when the answer was -1. */
  predicate Iter(calls: seq<Call>, t: Transfer, p: nat)
  {
    p <= Size(t) && calls != [] &&
    Attempt(calls[0], t, p) && !calls[0].Reopened? && calls[0].result <= Size(t) - p &&
    Span(calls[0]) <= |calls| && (calls[0].result < 0 ==> calls[1] == Reopened)
  }

  /** `calls` are whole iterations of a retry loop that started at offset
      `p` of transfer `t` and left the loop running at offset `q`. */
  predicate Going(calls: seq<Call>, t: Transfer, p: nat, q: nat)
    decreases |calls|
  {
    if calls == [] then p == q && p <= Size(t)
    else
      Iter(calls, t, p) && p + Progress(calls[0]) < Size(t) &&
      Going(calls[Span(calls[0])..], t, p + Progress(calls[0]), q)
  }

  /** `calls` are whole iterations of a retry loop that started at offset
      `p` of transfer `t` and ended it: a do-while loop that stops
      once nothing is left, retrying after 0 and reopening after -1. */
  predicate Finishes(calls: seq<Call>, t: Transfer, p: nat)
    decreases |calls|
  {
    Iter(calls, t, p) &&
    if p + Progress(calls[0]) == Size(t) then |calls| == Span(calls[0])
    else Finishes(calls[Span(calls[0])..], t, p + Progress(calls[0]))
  }

  /** The calls of one complete exact-length transfer. */
  predicate Transferred(calls: seq<Call>, t: Transfer)
  {
    Finishes(calls, t, 0)
  }

  /** An iteration at the head of a log is still at its head after more
      calls are appended. */
  lemma IterAppend(c1: seq<Call>, c2: seq<Call>, t: Transfer, p: nat)
    requires Iter(c1, t, p)
    ensures Iter(c1 + c2, t, p) && (c1 + c2)[0] == c1[0]
    ensures (c1 + c2)[Span(c1[0])..] == c1[Span(c1[0])..] + c2
  {
    assert (c1 + c2)[0] == c1[0];
    if Span(c1[0]) == 2 {
      assert (c1 + c2)[1] == c1[1];
    }
  }

  lemma {:induction false} GoingThenGoing(c1: seq<Call>, c2: seq<Call>, t: Transfer, p: nat, q: nat, s: nat)
    requires Going(c1, t, p, q) && Going(c2, t, q, s)
    ensures Going(c1 + c2, t, p, s)
    decreases |c1|
  {
    if c1 == [] {
      assert c1 + c2 == c2;
    } else {
      IterAppend(c1, c2, t, p);
      GoingThenGoing(c1[Span(c1[0])..], c2, t, p + Progress(c1[0]), q, s);
    }
  }

  lemma {:induction false} GoingThenFinishes(c1: seq<Call>, c2: seq<Call>, t: Transfer, p: nat, q: nat)
    requires Going(c1, t, p, q) && Finishes(c2, t, q)
    ensures Finishes(c1 + c2, t, p)
    decreases |c1|
  {
    if c1 == [] {
      assert c1 + c2 == c2;
    } else {
      IterAppend(c1, c2, t, p);
      GoingThenFinishes(c1[Span(c1[0])..], c2, t, p + Progress(c1[0]), q);
    }
  }

  /** The bytes a write call handed to the library. */
  function Handed(c: Call): seq<byte>
  {
    if c.WriteCall? && 0 < c.result <= |c.request| then c.request[..c.result] else []
  }

  /** The bytes the library accepted for sending, in the order accepted. */
  function Accepted(log: seq<Call>): seq<byte>
  {
    if log == [] then [] else Handed(log[0]) + Accepted(log[1..])
  }

  /** The bytes moved in either direction, as the bridge's `total` counts them. */
  function Moved(log: seq<Call>): nat
  {
    if log == [] then 0 else Progress(log[0]) + Moved(log[1..])
  }

  /** How often the connection broke, and how often it was reopened. */
  function Breaks(log: seq<Call>): nat
  {
    if log == [] then 0 else (if !log[0].Reopened? && log[0].result < 0 then 1 else 0) + Breaks(log[1..])
  }

  function Reopens(log: seq<Call>): nat
  {
    if log == [] then 0 else (if log[0].Reopened? then 1 else 0) + Reopens(log[1..])
  }

  lemma {:induction false} AcceptedAppend(a: seq<Call>, b: seq<Call>)
    ensures Accepted(a + b) == Accepted(a) + Accepted(b)
    decreases |a|
  {
    if a == [] {
      assert a + b == b;
    } else {
      assert (a + b)[0] == a[0];
      assert (a + b)[1..] == a[1..] + b;
      AcceptedAppend(a[1..], b);
    }
  }

  lemma {:induction false} MovedAppend(a: seq<Call>, b: seq<Call>)
    ensures Moved(a + b) == Moved(a) + Moved(b)
    decreases |a|
  {
    if a == [] {
      assert a + b == b;
    } else {
      assert (a + b)[0] == a[0];
      assert (a + b)[1..] == a[1..] + b;
      MovedAppend(a[1..], b);
    }
  }

  /** What the first iteration of a log contributes to the counts. */
  lemma FirstIteration(calls: seq<Call>, t: Transfer, p: nat)
    requires Iter(calls, t, p)
    ensures Accepted(calls) == Handed(calls[0]) + Accepted(calls[Span(calls[0])..])
    ensures Moved(calls) == Progress(calls[0]) + Moved(calls[Span(calls[0])..])
    ensures Reopens(calls) == Span(calls[0]) - 1 + Reopens(calls[Span(calls[0])..])
    ensures Breaks(calls) == Span(calls[0]) - 1 + Breaks(calls[Span(calls[0])..])
  {
    if Span(calls[0]) == 2 {
      assert calls[1..][1..] == calls[2..];
    }
  }

  /** A finished write loop handed the library every byte of the data
      exactly once and in order: bytes accepted before a break are not
      sent again, and `total` grows by the length of the data. */
  lemma {:induction false} FinishedWriteAccepted(calls: seq<Call>, data: seq<byte>, p: nat)
    requires Finishes(calls, ToTarget(data), p)
    ensures Accepted(calls) == data[p..]
    ensures Moved(calls) == |data| - p
    decreases |calls|
  {
    var t := ToTarget(data);
    var c, k := calls[0], Span(calls[0]);
    var q := p + Progress(c);
    FirstIteration(calls, t, p);
    assert Handed(c) == data[p..q];
    if q < |data| {
      FinishedWriteAccepted(calls[k..], data, q);
      assert data[p..] == data[p..q] + data[q..];
    } else {
      assert calls[k..] == [];
    }
  }

  /** A finished read loop counted exactly the requested number of bytes
      and handed nothing to the library. */
  lemma {:induction false} FinishedReadMoved(calls: seq<Call>, len: nat, p: nat)
    requires Finishes(calls, FromTarget(len), p)
    ensures Moved(calls) == len - p
    ensures Accepted(calls) == []
    decreases |calls|
  {
    var t := FromTarget(len);
    var c, k := calls[0], Span(calls[0]);
    FirstIteration(calls, t, p);
    if p + Progress(c) < len {
      FinishedReadMoved(calls[k..], len, p + Progress(c));
    } else {
      assert calls[k..] == [];
    }
  }

  /** Each broken-connection result is followed by exactly one reopen, and
      nothing else reopens the connection. */
  lemma {:induction false} FinishedReopens(calls: seq<Call>, t: Transfer, p: nat)
    requires Finishes(calls, t, p)
    ensures Reopens(calls) == Breaks(calls)
    decreases |calls|
  {
    var c, k := calls[0], Span(calls[0]);
    FirstIteration(calls, t, p);
    if p + Progress(c) < Size(t) {
      FinishedReopens(calls[k..], t, p + Progress(c));
    } else {
      assert calls[k..] == [];
    }
  }

  /** Each call of a finished loop asks for everything not yet moved: a
      write re-offers the suffix of the data after the bytes accepted so far,
      a read asks for the bytes still missing.  So a 0 or -1 result makes the
      next call repeat the same request. */
  lemma {:induction false} FinishedSuffixes(calls: seq<Call>, t: Transfer, p: nat, i: nat)
    requires Finishes(calls, t, p) && i < |calls| && !calls[i].Reopened?
    ensures p + Moved(calls[..i]) <= Size(t) && Attempt(calls[i], t, p + Moved(calls[..i]))
    decreases |calls|
  {
    if i == 0 {
      assert calls[..0] == [];
    } else {
      var k := Span(calls[0]);
      LaterCall(calls, t, p, i);
      FinishedSuffixes(calls[k..], t, p + Progress(calls[0]), i - k);
    }
  }

  /** A call after the first iteration sits in the rest of the log, behind
      what the first iteration moved. */
  lemma LaterCall(calls: seq<Call>, t: Transfer, p: nat, i: nat)
    requires Iter(calls, t, p) && 0 < i < |calls| && !calls[i].Reopened?
    ensures Span(calls[0]) <= i
    ensures calls[i] == calls[Span(calls[0])..][i - Span(calls[0])]
    ensures Moved(calls[..i]) == Progress(calls[0]) + Moved(calls[Span(calls[0])..][..i - Span(calls[0])])
  {
    var k := Span(calls[0]);
    Slices(calls, k, i - k);
    MovedAppend(calls[..k], calls[k..][..i - k]);
    FirstIteration(calls[..k], t, p);
    assert calls[..k][k..] == [];
  }

  /** The calls of one loop iteration that made call `c`: `c` itself, and
      the reopen that follows a broken-connection result. */
  function StepOf(c: Call): (s: seq<Call>)
    ensures |s| == Span(c) && s[0] == c
  {
    if !c.Reopened? && c.result < 0 then [c, Reopened] else [c]
  }

  /** What one iteration adds to the counts kept over the log. */
  lemma StepAccounts(log: seq<Call>, c: Call)
    ensures Moved(log + StepOf(c)) == Moved(log) + Progress(c)
    ensures !c.WriteCall? ==> Accepted(log + StepOf(c)) == Accepted(log)
  {
    MovedAppend(log, StepOf(c));
    AcceptedAppend(log, StepOf(c));
    var s := StepOf(c);
    assert s[1..] == [] || s[1..] == [Reopened];
    assert Accepted([Reopened]) == [] && Moved([Reopened]) == 0;
  }

  /** One more iteration of a retry loop keeps the loop going or finishes
      the transfer. */
  lemma Iteration(log0: seq<Call>, before: seq<Call>, c: Call, t: Transfer, p: nat)
    requires Going(before, t, 0, p) && p <= Size(t)
    requires Attempt(c, t, p) && !c.Reopened? && c.result <= Size(t) - p
    ensures (log0 + before) + StepOf(c) == log0 + (before + StepOf(c))
    ensures p + Got(c.result) <= Size(t)
    ensures p + Got(c.result) < Size(t) ==> Going(before + StepOf(c), t, 0, p + Got(c.result))
    ensures p + Got(c.result) == Size(t) ==> Finishes(before + StepOf(c), t, 0)
  {
    var step := StepOf(c);
    var q := p + Got(c.result);
    assert Iter(step, t, p);
    assert step[Span(c)..] == [];
    if q < Size(t) {
      assert Going(step, t, p, q);
      GoingThenGoing(before, step, t, 0, p, q);
    } else {
      assert Finishes(step, t, p);
      GoingThenFinishes(before, step, t, 0, p);
    }
  }
}
