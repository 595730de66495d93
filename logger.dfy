/** The guest's log encoder (assembly/logger.ts): a message goes out through
    the host's `write` one byte per UTF-16 code unit, newline included, and
    is followed by a single `flush`. The host functions are modelled as the
    events they record in the sink. */
module Logger {
  import opened Wire

  /** The code unit of `"\n"`. */
  const NEWLINE: u16 := 10

  /** A call of the host's `write(b)` (with the byte it carries) or `flush()`. */
  datatype Event = Write(b: u8) | Flush

  /** One `write` per code unit, carrying `charCodeAt(i) as u8`. */
  function WriteAll(units: seq<u16>): seq<Event>
  {
    if units == [] then [] else [Write(AsU8(units[0] as int))] + WriteAll(units[1..])
  }

  /** The events `log(message)` sends to the host. */
  function LogTrace(message: seq<u16>): seq<Event>
  {
    WriteAll(message + [NEWLINE]) + [Flush]
  }

  /** The number of `write` events in a trace. */
  function WriteCount(t: seq<Event>): nat
  {
    if t == [] then 0 else (if t[0].Write? then 1 else 0) + WriteCount(t[1..])
  }

  /** The number of `flush` events in a trace. */
  function FlushCount(t: seq<Event>): nat
  {
    if t == [] then 0 else (if t[0].Flush? then 1 else 0) + FlushCount(t[1..])
  }

  /** The bytes a trace writes, in order. */
  function Written(t: seq<Event>): seq<u8>
  {
    if t == [] then [] else (if t[0].Write? then [t[0].b] else []) + Written(t[1..])
  }

  lemma {:induction false} WriteAllAppend(a: seq<u16>, b: seq<u16>)
    ensures WriteAll(a + b) == WriteAll(a) + WriteAll(b)
  {
    if a != [] {
      assert (a + b)[1..] == a[1..] + b;
      WriteAllAppend(a[1..], b);
    } else {
      assert a + b == b;
    }
  }

  /** The `write` calls for `units` are one per unit, each carrying the low
      byte of its unit, and none of them flushes. */
  lemma {:induction false} WriteAllShape(units: seq<u16>)
    ensures |WriteAll(units)| == |units|
    ensures forall i :: 0 <= i < |units| ==> WriteAll(units)[i] == Write(AsU8(units[i] as int))
    ensures WriteCount(WriteAll(units)) == |units| && FlushCount(WriteAll(units)) == 0
    ensures Written(WriteAll(units)) == Narrow(units)
  {
    if units != [] {
      WriteAllShape(units[1..]);
      var t := WriteAll(units);
      assert t[1..] == WriteAll(units[1..]);
    }
  }

  lemma {:induction false} CountsAppend(s: seq<Event>, t: seq<Event>)
    ensures WriteCount(s + t) == WriteCount(s) + WriteCount(t)
    ensures FlushCount(s + t) == FlushCount(s) + FlushCount(t)
    ensures Written(s + t) == Written(s) + Written(t)
  {
    if s != [] {
      assert (s + t)[1..] == s[1..] + t;
      CountsAppend(s[1..], t);
    } else {
      assert s + t == t;
    }
  }

  /** `log(m)` issues exactly `|m| + 1` writes and one flush; write `i`
      carries code unit `i` of `m + "\n"` modulo 256, the last write is the
      newline byte 10, and the flush comes after every write. */
  lemma {:induction false} LogTraceShape(m: seq<u16>)
    ensures |LogTrace(m)| == |m| + 2
    ensures WriteCount(LogTrace(m)) == |m| + 1 && FlushCount(LogTrace(m)) == 1
    ensures forall i :: 0 <= i < |m| ==> LogTrace(m)[i] == Write(AsU8(m[i] as int))
    ensures LogTrace(m)[|m|] == Write(10)
    ensures LogTrace(m)[|m| + 1] == Flush
    ensures forall i :: 0 <= i < |m| + 1 ==> LogTrace(m)[i].Write?
    ensures Written(LogTrace(m)) == Narrow(m + [NEWLINE])
  {
    var s := m + [NEWLINE];
    WriteAllShape(s);
    assert WriteAll(s)[|m|] == Write(AsU8(s[|m|] as int));
    CountsAppend(WriteAll(s), [Flush]);
    assert Written([Flush]) == Written([]);
    assert forall i :: 0 <= i < |m| + 1 ==> LogTrace(m)[i] == WriteAll(s)[i];
  }

  /** The host-side sink: every `write` and `flush` the guest makes, in order. */
  class Sink {
    var events: seq<Event>

    constructor ()
      ensures events == []
    {
      events := [];
    }

    /** `log(message)`. */
    method Log(message: seq<u16>)
      modifies this
      ensures events == old(events) + LogTrace(message)
    {
      var messageStr := message + [NEWLINE];
      var strLen := |messageStr|;
      for i := 0 to strLen
        invariant events == old(events) + WriteAll(messageStr[..i])
      {
        var b := AsU8(messageStr[i] as int);
        WriteAllAppend(messageStr[..i], [messageStr[i]]);
        assert messageStr[..i + 1] == messageStr[..i] + [messageStr[i]];
        events := events + [Write(b)];
      }
      assert messageStr[..strLen] == messageStr;
      events := events + [Flush];
    }
  }
}
