// The robust buffered reader: whatever pieces read() delivers, callers see the same bytes.
module BufferedReader {

  type Byte = nat

  const NEWLINE: Byte := 10
  const RIO_BUFSIZE: nat := 8192

  // What a call of read() does: deliver some bytes, be interrupted by a signal, or fail.
  datatype Event = Deliver(count: nat) | Interrupt | Fail

  function Min(a: nat, b: nat): nat {
    if a < b then a else b
  }

  // How many bytes arrive: at least one while the stream lasts, never more than asked for.
  function Delivered(count: nat, wanted: nat, left: nat): (n: nat)
    ensures n <= wanted && n <= left
    ensures wanted > 0 && left > 0 ==> n > 0
  {
    var n := Min(count, Min(wanted, left));
    if n == 0 then Min(1, Min(wanted, left)) else n
  }

  predicate Reliable(events: seq<Event>) {
    Fail !in events
  }

  // An open descriptor: the bytes still to come, and how the next calls of read() behave.
  // When nothing more is foreseen, read() delivers as much as it can.
  class Descriptor {
    var stream: seq<Byte>
    var events: seq<Event>

    constructor (bytes: seq<Byte>, behaviour: seq<Event>)
      ensures stream == bytes && events == behaviour
    {
      stream, events := bytes, behaviour;
    }

    method Read(buf: array<Byte>) returns (count: int, interrupted: bool)
      requires buf.Length > 0
      modifies this, buf
      ensures events == if old(events) == [] then [] else old(events)[1..]
      ensures interrupted ==> count < 0 && |events| < |old(events)|
      ensures Reliable(old(events)) ==> Reliable(events) && (count < 0 ==> interrupted)
      ensures count < 0 ==> stream == old(stream)
      ensures count == 0 ==> stream == old(stream) == []
      ensures 0 < count ==> count <= buf.Length && count <= |old(stream)|
                            && buf[..count] + stream == old(stream)
    {
      var event := if events == [] then Deliver(buf.Length) else events[0];
      events := if events == [] then [] else events[1..];
      match event {
        case Interrupt => return -1, true;
        case Fail => return -1, false;
        case Deliver(c) =>
          var n := Delivered(c, buf.Length, |stream|);
          forall i | 0 <= i < n {
            buf[i] := stream[i];
          }
          assert buf[..n] == stream[..n];
          stream := stream[n..];
          return n, false;
      }
    }
  }

  // The line at the front of s, its newline included, cut to a length.
  function LineOf(s: seq<Byte>, limit: nat): (line: seq<Byte>)
    ensures line <= s && |line| <= limit
  {
    if s == [] || limit == 0 then []
    else if s[0] == 10 then [s[0]]
    else [s[0]] + LineOf(s[1..], limit - 1)
  }

  class Rio {
    const fd: Descriptor
    const buf: array<Byte>
    var bufptr: nat
    var cnt: int

    ghost predicate Valid()
      reads this
    {
      buf.Length == RIO_BUFSIZE && (cnt > 0 ==> bufptr + cnt <= buf.Length)
    }

    // All bytes not yet handed to the caller: those buffered, then those still to be read.
    ghost function Pending(): seq<Byte>
      requires Valid()
      reads this, buf, fd
    {
      (if cnt > 0 then buf[bufptr..bufptr + cnt] else []) + fd.stream
    }

    constructor (descriptor: Descriptor)
      ensures Valid() && fd == descriptor && fresh(buf) && Pending() == descriptor.stream
    {
      fd := descriptor;
      buf := new Byte[RIO_BUFSIZE](_ => 0);
      bufptr, cnt := 0, 0;
    }

    // Calls read() until the buffer holds something, the stream has ended, or a call fails.
    method Refill() returns (rc: int)
      requires Valid() && cnt <= 0
      modifies this, buf, fd
      ensures Valid() && Pending() == old(Pending())
      ensures Reliable(old(fd.events)) ==> Reliable(fd.events) && rc >= 0
      ensures rc > 0 <==> cnt > 0
      ensures rc == 0 ==> Pending() == []
    {
      while cnt <= 0
        invariant Valid() && Pending() == old(Pending())
        invariant Reliable(old(fd.events)) ==> Reliable(fd.events)
        decreases |fd.events|, if cnt <= 0 then 1 else 0
      {
        var interrupted;
        cnt, interrupted := fd.Read(buf);
        if cnt < 0 {
          if !interrupted {
            return -1;
          }
        } else if cnt == 0 {
          return 0;
        } else {
          bufptr := 0;
          assert buf[0..cnt] == buf[..cnt];
        }
      }
      rc := 1;
    }

    // Up to n bytes from the buffer, which is refilled first if it is empty.
    method RioRead(n: nat) returns (rc: int, bytes: seq<Byte>)
      requires Valid() && n > 0
      modifies this, buf, fd
      ensures Valid() && bytes + Pending() == old(Pending())
      ensures Reliable(old(fd.events)) ==> Reliable(fd.events) && rc >= 0
      ensures rc <= 0 ==> bytes == [] && Pending() == old(Pending())
      ensures rc == 0 ==> Pending() == []
      ensures rc > 0 ==> rc == |bytes| <= n
    {
      if cnt <= 0 {
        rc := Refill();
        if rc <= 0 {
          return rc, [];
        }
      }
      var count := n;
      if cnt < n {
        count := cnt;
      }
      bytes := buf[bufptr..bufptr + count];
      TakeFront(buf[..], bufptr, count, bufptr + cnt, fd.stream);
      bufptr := bufptr + count;
      cnt := cnt - count;
      rc := count;
    }

    // n bytes, or all that are left before the end of the stream.
    method ReadNb(n: nat) returns (rc: int, usrbuf: seq<Byte>)
      requires Valid()
      modifies this, buf, fd
      ensures Valid() && usrbuf + Pending() == old(Pending())
      ensures Reliable(old(fd.events)) ==> Reliable(fd.events) && rc >= 0
      ensures rc >= 0 ==> rc == |usrbuf| == Min(n, |old(Pending())|)
    {
      var left := n;
      usrbuf := [];
      ghost var pending := Pending();
      while left > 0
        invariant Valid() && left >= 0 && left + |usrbuf| == n && usrbuf + Pending() == pending
        invariant Reliable(old(fd.events)) ==> Reliable(fd.events)
      {
        var nread, bytes := RioRead(left);
        Associative(usrbuf, bytes, Pending());
        usrbuf := usrbuf + bytes;
        if nread < 0 {
          return -1, usrbuf;
        } else if nread == 0 {
          assert usrbuf == pending;
          break;
        }
        left := left - nread;
      }
      assert |usrbuf + Pending()| == |pending|;
      rc := n - left;
    }

    // The next line, cut to leave room for a terminator.
    method ReadLineB(maxlen: nat) returns (rc: int, usrbuf: seq<Byte>)
      requires Valid()
      modifies this, buf, fd
      ensures Valid() && usrbuf + Pending() == old(Pending())
      ensures Reliable(old(fd.events)) ==> Reliable(fd.events) && rc >= 0
      ensures rc >= 0 ==> rc == |usrbuf| && usrbuf == LineOf(old(Pending()), LineLimit(maxlen))
    {
      var n := 1;
      usrbuf := [];
      ghost var pending, limit := Pending(), LineLimit(maxlen);
      assert TakingLine(pending, [], pending, limit);
      while n < maxlen
        invariant Valid() && n == |usrbuf| + 1 && TakingLine(pending, usrbuf, Pending(), limit)
        invariant n > maxlen ==> maxlen == 0
        invariant Reliable(old(fd.events)) ==> Reliable(fd.events)
      {
        ghost var before := Pending();
        var got, c := RioRead(1);
        if got == 1 {
          LineStep(pending, usrbuf, before, c, Pending(), limit);
          usrbuf := usrbuf + c;
          if c[0] == NEWLINE {
            return n, usrbuf;
          }
        } else {
          LineStops(pending, usrbuf, Pending(), limit);
          if got == 0 {
            return n - 1, usrbuf;
          }
          return -1, usrbuf;
        }
        n := n + 1;
      }
      LineStops(pending, usrbuf, Pending(), limit);
      rc := n - 1;
    }
  }

  // A line ends at the first byte 10, and otherwise only at the limit or with the stream.
  lemma {:induction false} LineExact(s: seq<Byte>, limit: nat)
    ensures var line := LineOf(s, limit);
            && (forall i :: 0 <= i < |line| - 1 ==> line[i] != 10)
            && (|line| < limit && |line| < |s| ==> line != [] && line[|line| - 1] == 10)
  {
    if s != [] && limit > 0 && s[0] != 10 {
      LineExact(s[1..], limit - 1);
    }
  }

  // Bytes taken from the front of the buffer leave the others in front of the stream.
  lemma TakeFront(buf: seq<Byte>, from: nat, count: nat, to: nat, stream: seq<Byte>)
    requires from + count <= to <= |buf|
    ensures buf[from..from + count] + ((if from + count < to then buf[from + count..to] else []) + stream) ==
            buf[from..to] + stream
  {
  }

  function LineLimit(maxlen: nat): nat {
    if maxlen == 0 then 0 else maxlen - 1
  }

  // Some bytes of the line have been taken, and the line goes on in what is left.
  ghost predicate TakingLine(pending: seq<Byte>, taken: seq<Byte>, rest: seq<Byte>, limit: nat) {
    && |taken| <= limit && pending == taken + rest
    && LineOf(pending, limit) == taken + LineOf(rest, limit - |taken|)
  }

  lemma LineStep(pending: seq<Byte>, taken: seq<Byte>, before: seq<Byte>, c: seq<Byte>, after: seq<Byte>, limit: nat)
    requires TakingLine(pending, taken, before, limit) && |taken| < limit
    requires before == c + after && |c| == 1
    ensures taken + c + after == pending
    ensures c[0] == NEWLINE ==> taken + c == LineOf(pending, limit)
    ensures c[0] != NEWLINE ==> TakingLine(pending, taken + c, after, limit)
  {
    assert before[0] == c[0] && before[1..] == after && c == [c[0]];
    Associative(taken, c, after);
    Associative(taken, c, LineOf(after, limit - |taken| - 1));
  }

  lemma LineStops(pending: seq<Byte>, taken: seq<Byte>, rest: seq<Byte>, limit: nat)
    requires TakingLine(pending, taken, rest, limit)
    ensures taken + rest == pending
    ensures rest == [] || |taken| == limit ==> taken == LineOf(pending, limit)
  {
  }

  lemma Associative(a: seq<Byte>, b: seq<Byte>, c: seq<Byte>)
    ensures a + b + c == a + (b + c)
  {
  }

  // ----- Any mix of calls

  datatype Request = Exactly(n: nat) | Line(maxlen: nat)

  function Answer(request: Request, stream: seq<Byte>): (bytes: seq<Byte>)
    ensures bytes <= stream
  {
    match request
    case Exactly(n) => stream[..Min(n, |stream|)]
    case Line(maxlen) => LineOf(stream, LineLimit(maxlen))
  }

  // What a sequence of calls gets from a stream.
  function Answers(requests: seq<Request>, stream: seq<Byte>): seq<seq<Byte>> {
    if requests == [] then []
    else
      var bytes := Answer(requests[0], stream);
      [bytes] + Answers(requests[1..], stream[|bytes|..])
  }

  function Concat(parts: seq<seq<Byte>>): seq<Byte> {
    if parts == [] then [] else parts[0] + Concat(parts[1..])
  }

  lemma {:induction false} AnswersInOrder(requests: seq<Request>, stream: seq<Byte>)
    ensures Concat(Answers(requests, stream)) <= stream
  {
    if requests != [] {
      var bytes := Answer(requests[0], stream);
      AnswersInOrder(requests[1..], stream[|bytes|..]);
      assert stream == bytes + stream[|bytes|..];
      assert Answers(requests, stream)[1..] == Answers(requests[1..], stream[|bytes|..]);
    }
  }

  // On a descriptor that does not fail, the calls return the same bytes however read() cuts up
  // the stream and whenever it is interrupted.
  method Serve(requests: seq<Request>, stream: seq<Byte>, events: seq<Event>) returns (results: seq<seq<Byte>>)
    requires Reliable(events)
    ensures results == Answers(requests, stream)
  {
    var fd := new Descriptor(stream, events);
    var rio := new Rio(fd);
    results := [];
    for i := 0 to |requests|
      invariant rio.Valid() && rio.fd == fd && fresh(rio) && fresh(rio.buf) && fresh(fd) && Reliable(fd.events)
      invariant results + Answers(requests[i..], rio.Pending()) == Answers(requests, stream)
    {
      ghost var pending := rio.Pending();
      var rc: int, bytes: seq<Byte>;
      if requests[i].Exactly? {
        rc, bytes := rio.ReadNb(requests[i].n);
      } else {
        rc, bytes := rio.ReadLineB(requests[i].maxlen);
      }
      NextAnswer(requests, i, pending, bytes, rio.Pending(), results);
      results := results + [bytes];
    }
    assert requests[|requests|..] == [];
  }

  lemma NextAnswer(requests: seq<Request>, i: nat, pending: seq<Byte>, bytes: seq<Byte>, rest: seq<Byte>,
                   results: seq<seq<Byte>>)
    requires i < |requests| && pending == bytes + rest
    requires requests[i].Exactly? ==> |bytes| == Min(requests[i].n, |pending|)
    requires requests[i].Line? ==> bytes == LineOf(pending, LineLimit(requests[i].maxlen))
    ensures results + Answers(requests[i..], pending) == results + [bytes] + Answers(requests[i + 1..], rest)
  {
    assert bytes == Answer(requests[i], pending) && pending[|bytes|..] == rest;
    assert requests[i..][1..] == requests[i + 1..];
  }
}
