/** The robust input and output of p5/cs537.c: reads and writes that survive short counts and
    interrupts, and a read buffer that its callers cannot see. */
module RobustIO {

  newtype Byte = x: int | 0 <= x < 256

  const NEWLINE: Byte := 10
  const RIO_BUFSIZE := 8192
  const EINTR := 4

  /** What the kernel makes of one system call: a signal interrupts it, it fails, or it moves at
      most `count` bytes. */
  datatype Outcome = Interrupt | Fail(code: int) | Move(count: nat)

  predicate IsFailure(o: Outcome) {
    o.Fail?
  }

  /** None of these calls fails. */
  predicate NoFailure(script: seq<Outcome>) {
    forall i :: 0 <= i < |script| ==> !IsFailure(script[i])
  }

  /** Every one of these calls is interrupted or moves something. */
  predicate AllMove(script: seq<Outcome>) {
    forall i :: 0 <= i < |script| ==> !IsFailure(script[i]) && (script[i].Move? ==> script[i].count > 0)
  }

  /** The first of these outcomes happens: a call that could move `room` bytes returns `r`. */
  predicate Happens(script: seq<Outcome>, room: nat, r: int, errno: int) {
    script != [] ==>
      match script[0]
      case Interrupt => r == -1 && errno == EINTR
      case Fail(code) => r == -1 && errno == code
      case Move(count) => 0 < count <= room ==> r == count
  }

  function Min(a: nat, b: nat): (m: nat)
  {
    if a < b then a else b
  }

  /** `was` with `data` written over it from `at` on. */
  function Placed(was: seq<Byte>, at: nat, data: seq<Byte>): seq<Byte>
    requires at + |data| <= |was|
  {
    was[..at] + data + was[at + |data|..]
  }

  // ---------- What a reader is promised: answers that depend on the stream alone ----------

  datatype Request = ReadN(n: nat) | ReadLine(maxlen: nat)

  datatype Answer = Answer(value: int, bytes: seq<Byte>)

  /** How many bytes of a line are taken when at most `limit` are: through the first newline. */
  function LineLength(stream: seq<Byte>, limit: nat): (k: nat)
    ensures k <= limit && k <= |stream|
    ensures NEWLINE !in stream[..if k == 0 then 0 else k - 1]
    ensures k == limit || k == |stream| || (k > 0 && stream[k - 1] == NEWLINE)
  {
    if limit == 0 || stream == [] then 0
    else if stream[0] == NEWLINE then 1
    else
      var k := LineLength(stream[1..], limit - 1);
      assert k > 0 ==> stream[..k] == [stream[0]] + stream[1..][..k - 1];
      1 + k
  }

  function LineValue(stream: seq<Byte>, maxlen: nat): int {
    var k := LineLength(stream, if maxlen == 0 then 0 else maxlen - 1);
    if k > 0 && stream[k - 1] == NEWLINE then k
    else if maxlen > 1 && stream == [] then 0
    else k + 1
  }

  function Respond(request: Request, stream: seq<Byte>): Answer {
    match request
    case ReadN(n) => var k := Min(n, |stream|); Answer(k, stream[..k])
    case ReadLine(maxlen) =>
      Answer(LineValue(stream, maxlen), stream[..LineLength(stream, if maxlen == 0 then 0 else maxlen - 1)])
  }

  /** `answer` is the right one, or an error was reported after only a part was taken. */
  predicate Answers(request: Request, stream: seq<Byte>, answer: Answer) {
    if answer.value == -1 then answer.bytes <= Respond(request, stream).bytes
    else answer == Respond(request, stream)
  }

  /** All requests were answered in turn from one stream, of which `rest` is left. */
  predicate AllAnswered(requests: seq<Request>, stream: seq<Byte>, answers: seq<Answer>, rest: seq<Byte>)
    requires |requests| == |answers|
  {
    if requests == [] then stream == rest
    else
      && Answers(requests[0], stream, answers[0]) && answers[0].bytes <= stream
      && AllAnswered(requests[1..], stream[|answers[0].bytes|..], answers[1..], rest)
  }

  function Delivered(answers: seq<Answer>): seq<Byte> {
    if answers == [] then [] else answers[0].bytes + Delivered(answers[1..])
  }

  /** Nothing is lost, repeated or reordered, with or without errors. */
  lemma {:induction false} NothingLost(requests: seq<Request>, stream: seq<Byte>, answers: seq<Answer>, rest: seq<Byte>)
    requires |requests| == |answers| && AllAnswered(requests, stream, answers, rest)
    ensures Delivered(answers) + rest == stream
  {
    if requests != [] {
      var bytes, d := answers[0].bytes, Delivered(answers[1..]);
      var after := stream[|bytes|..];
      NothingLost(requests[1..], after, answers[1..], rest);
      assert (bytes + d) + rest == bytes + (d + rest) == bytes + after == stream;
    }
  }

  function Responses(requests: seq<Request>, stream: seq<Byte>): (r: seq<Answer>)
    ensures |r| == |requests|
  {
    if requests == [] then []
    else
      var a := Respond(requests[0], stream);
      [a] + Responses(requests[1..], stream[|a.bytes|..])
  }

  /** Without errors the answers are a function of the requests and the stream: neither the pieces
      the kernel returned nor the buffer show. */
  lemma {:induction false} BufferInvisible(requests: seq<Request>, stream: seq<Byte>, answers: seq<Answer>,
                                           rest: seq<Byte>)
    requires |requests| == |answers| && AllAnswered(requests, stream, answers, rest)
    requires forall i :: 0 <= i < |answers| ==> answers[i].value != -1
    ensures answers == Responses(requests, stream)
  {
    if requests != [] {
      BufferInvisible(requests[1..], stream[|answers[0].bytes|..], answers[1..], rest);
      assert answers == [answers[0]] + answers[1..];
    }
  }

  lemma RespondFirst(requests: seq<Request>, stream: seq<Byte>)
    requires requests != []
    ensures var bytes := Respond(requests[0], stream).bytes;
            Delivered(Responses(requests, stream)) ==
            bytes + Delivered(Responses(requests[1..], stream[|bytes|..]))
  {
    var answers := Responses(requests, stream);
    assert answers[1..] == Responses(requests[1..], stream[|answers[0].bytes|..]);
  }

  lemma OneLine(stream: seq<Byte>, maxlen: nat) returns (bytes: seq<Byte>, rest: seq<Byte>)
    requires maxlen >= 2
    ensures bytes == Respond(ReadLine(maxlen), stream).bytes && rest == stream[|bytes|..]
    ensures stream == bytes + rest && |rest| <= if stream == [] then 0 else |stream| - 1
  {
    var k := LineLength(stream, maxlen - 1);
    bytes, rest := stream[..k], stream[k..];
  }

  /** Reading line after line, within any limits, comes to the end of the stream, and has then
      delivered all of it. */
  lemma {:induction false} LinesDeliverAll(requests: seq<Request>, stream: seq<Byte>)
    requires forall i :: 0 <= i < |requests| ==> requests[i].ReadLine? && requests[i].maxlen >= 2
    requires |requests| >= |stream|
    ensures Delivered(Responses(requests, stream)) == stream
  {
    if requests != [] {
      var bytes, rest := OneLine(stream, requests[0].maxlen);
      LinesDeliverAll(requests[1..], rest);
      RespondFirst(requests, stream);
    }
  }

  // ---------- The kernel ----------

  /** The file behind a descriptor.  `stream` is what has not been read from it, `written` what has
      been written to it; `script` is what becomes of the next system calls, and once it is used
      up every call moves all it can. */
  class Kernel {
    var stream: seq<Byte>
    var written: seq<Byte>
    var script: seq<Outcome>
    var errno: int

    constructor (stream: seq<Byte>, script: seq<Outcome>)
      ensures this.stream == stream && this.script == script && written == [] && errno == 0
    {
      this.stream, this.script, this.written, this.errno := stream, script, [], 0;
    }

    method Next(n: nat) returns (o: Outcome)
      modifies `script
      ensures o == if old(script) == [] then Move(n) else old(script)[0]
      ensures script == if old(script) == [] then [] else old(script)[1..]
    {
      if script == [] {
        o := Move(n);
      } else {
        o, script := script[0], script[1..];
      }
    }

    /** read: zero only at the end of the stream, and a short count is at least one byte. */
    method Read(dst: array<Byte>, at: nat, n: nat) returns (r: int)
      requires at + n <= dst.Length && n > 0
      modifies `stream, `script, `errno, dst
      ensures -1 <= r <= n && r <= |old(stream)| && (r == 0 ==> old(stream) == [])
      ensures r < 0 ==> stream == old(stream) && dst[..] == old(dst[..]) && old(script) != []
      ensures r < 0 && NoFailure(old(script)) ==> errno == EINTR
      ensures r >= 0 ==> stream == old(stream)[r..] && dst[..] == Placed(old(dst[..]), at, old(stream)[..r])
      ensures Happens(old(script), Min(n, |old(stream)|), r, errno)
      ensures script == if old(script) == [] then [] else old(script)[1..]
    {
      var o := Next(n);
      match o {
        case Interrupt =>
          errno := EINTR;
          r := -1;
        case Fail(code) =>
          errno := code;
          r := -1;
        case Move(count) =>
          r := Min(Min(if count == 0 then 1 else count, n), |stream|);
          Store(dst, at, stream[..r]);
          stream := stream[r..];
      }
    }

    /** write: it may also take nothing, and then errno is what it was. */
    method Write(src: array<Byte>, at: nat, n: nat) returns (r: int)
      requires at + n <= src.Length && n > 0
      modifies `written, `script, `errno
      ensures -1 <= r <= n
      ensures r <= 0 ==> written == old(written)
      ensures r > 0 ==> written == old(written) + src[at..at + r]
      ensures r <= 0 && AllMove(old(script)) ==> errno == EINTR
      ensures r <= 0 ==> old(script) != []
      ensures Happens(old(script), n, r, errno)
      ensures script == if old(script) == [] then [] else old(script)[1..]
    {
      var o := Next(n);
      match o {
        case Interrupt =>
          errno := EINTR;
          r := -1;
        case Fail(code) =>
          errno := code;
          r := -1;
        case Move(count) =>
          r := Min(count, n);
          written := written + src[at..at + r];
      }
    }
  }

  /** memcpy into `dst`. */
  method Store(dst: array<Byte>, at: nat, data: seq<Byte>)
    requires at + |data| <= dst.Length
    modifies dst
    ensures dst[..] == Placed(old(dst[..]), at, data)
  {
    forall i | 0 <= i < |data| {
      dst[at + i] := data[i];
    }
  }

  // ---------- Unbuffered ----------

  /** How far a read is: `bytes` came off the stream, `rest` of it is left, and they are at the
      start of the caller's buffer, which was `was` and is `now`. */
  ghost predicate Reading(stream: seq<Byte>, rest: seq<Byte>, was: seq<Byte>, now: seq<Byte>, bytes: seq<Byte>) {
    bytes <= stream && rest == stream[|bytes|..] && |bytes| <= |was| && now == Placed(was, 0, bytes)
  }

  lemma ReadOn(stream: seq<Byte>, rest: seq<Byte>, was: seq<Byte>, now: seq<Byte>, bytes: seq<Byte>, k: nat)
    requires Reading(stream, rest, was, now, bytes) && k <= |rest| && |bytes| + k <= |was|
    ensures Reading(stream, rest[k..], was, Placed(now, |bytes|, rest[..k]), bytes + rest[..k])
  {
    assert stream == bytes + rest;
    assert bytes + rest[..k] == stream[..|bytes| + k];
    assert rest[k..] == stream[|bytes| + k..];
  }

  lemma ReadEnds(stream: seq<Byte>, rest: seq<Byte>, bytes: seq<Byte>, n: nat)
    requires bytes <= stream && rest == stream[|bytes|..] && |bytes| <= n && (|bytes| == n || rest == [])
    ensures Answers(ReadN(n), stream, Answer(|bytes|, bytes))
  {
  }

  lemma ReadCutShort(stream: seq<Byte>, bytes: seq<Byte>, n: nat)
    requires bytes <= stream && |bytes| <= n
    ensures Answers(ReadN(n), stream, Answer(-1, bytes))
  {
    assert bytes <= stream[..Min(n, |stream|)];
  }

  /** rio_readn. */
  method ReadExactly(kernel: Kernel, usrbuf: array<Byte>, n: nat) returns (r: int, ghost bytes: seq<Byte>)
    requires n <= usrbuf.Length
    modifies kernel`stream, kernel`script, kernel`errno, usrbuf
    ensures Answers(ReadN(n), old(kernel.stream), Answer(r, bytes))
    ensures bytes <= old(kernel.stream) && kernel.stream == old(kernel.stream)[|bytes|..]
    ensures |bytes| <= n && usrbuf[..] == Placed(old(usrbuf[..]), 0, bytes)
    ensures NoFailure(old(kernel.script)) ==> r != -1 && NoFailure(kernel.script)
  {
    ghost var stream, was := kernel.stream, usrbuf[..];
    var nleft, bufp: int := n, 0;
    bytes := [];
    while nleft > 0
      invariant 0 <= nleft && nleft + bufp == n && bufp == |bytes|
      invariant Reading(stream, kernel.stream, was, usrbuf[..], bytes)
      invariant NoFailure(old(kernel.script)) ==> NoFailure(kernel.script)
      decreases nleft, |kernel.script|
    {
      ghost var rest, now := kernel.stream, usrbuf[..];
      var nread := kernel.Read(usrbuf, bufp, nleft);
      if nread < 0 {
        if kernel.errno == EINTR {
          nread := 0;
        } else {
          ReadCutShort(stream, bytes, n);
          return -1, bytes;
        }
      } else if nread == 0 {
        assert usrbuf[..] == now;
        break;
      } else {
        ReadOn(stream, rest, was, now, bytes, nread);
        bytes := bytes + rest[..nread];
        assert Reading(stream, kernel.stream, was, usrbuf[..], bytes);
      }
      nleft := nleft - nread;
      bufp := bufp + nread;
    }
    ReadEnds(stream, kernel.stream, bytes, n);
    return n - nleft, bytes;
  }

  /** rio_writen: everything is written, or -1 is returned after a part of it.  A write of nothing
      counts as interrupted when errno still says so. */
  method WriteExactly(kernel: Kernel, usrbuf: array<Byte>, n: nat) returns (r: int, ghost sent: nat)
    requires n <= usrbuf.Length
    modifies kernel`written, kernel`script, kernel`errno
    ensures sent <= n && kernel.written == old(kernel.written) + usrbuf[..sent]
    ensures r == if sent == n then n else -1
    ensures AllMove(old(kernel.script)) ==> sent == n
  {
    var nleft, bufp: int := n, 0;
    while nleft > 0
      invariant 0 <= nleft && 0 <= bufp && nleft + bufp == n
      invariant kernel.written == old(kernel.written) + usrbuf[..bufp]
      invariant AllMove(old(kernel.script)) ==> AllMove(kernel.script)
      decreases nleft, |kernel.script|
    {
      var nwritten := kernel.Write(usrbuf, bufp, nleft);
      if nwritten <= 0 {
        if kernel.errno == EINTR {
          nwritten := 0;
        } else {
          return -1, bufp;
        }
      }
      assert usrbuf[..bufp + nwritten] == usrbuf[..bufp] + usrbuf[bufp..bufp + nwritten];
      nleft := nleft - nwritten;
      bufp := bufp + nwritten;
    }
    return n, n;
  }

  // ---------- Buffered ----------

  /** LineLength is the only length with its properties. */
  lemma LineLengthIs(stream: seq<Byte>, limit: nat, k: nat)
    requires k <= limit && k <= |stream| && NEWLINE !in stream[..if k == 0 then 0 else k - 1]
    requires k == limit || k == |stream| || (k > 0 && stream[k - 1] == NEWLINE)
    ensures LineLength(stream, limit) == k
  {
  }

  /** The three ends of a line: its newline, ... */
  lemma LineAtNewline(stream: seq<Byte>, bytes: seq<Byte>, maxlen: nat)
    requires bytes + [NEWLINE] <= stream && NEWLINE !in bytes && |bytes| + 1 < maxlen
    ensures Answers(ReadLine(maxlen), stream, Answer(|bytes| + 1, bytes + [NEWLINE]))
  {
    var line := bytes + [NEWLINE];
    assert line == stream[..|line|] && line[|line| - 1] == NEWLINE && bytes == stream[..|line| - 1];
    LineLengthIs(stream, maxlen - 1, |line|);
  }

  /** ... the end of the stream, ... */
  lemma LineAtEnd(stream: seq<Byte>, maxlen: nat)
    requires NEWLINE !in stream && |stream| < maxlen && maxlen > 1
    ensures Answers(ReadLine(maxlen), stream, Answer(if stream == [] then 0 else |stream| + 1, stream))
  {
    assert stream == stream[..|stream|];
    assert stream != [] ==> stream[..|stream| - 1] <= stream;
    LineLengthIs(stream, maxlen - 1, |stream|);
  }

  /** ... and the limit. */
  lemma LineAtLimit(stream: seq<Byte>, bytes: seq<Byte>, maxlen: nat)
    requires bytes <= stream && NEWLINE !in bytes
    requires |bytes| + 1 == maxlen || (maxlen == 0 && bytes == [])
    ensures Answers(ReadLine(maxlen), stream, Answer(|bytes| + 1, bytes))
  {
    assert bytes == stream[..|bytes|];
    assert bytes != [] ==> stream[..|bytes| - 1] <= bytes;
    LineLengthIs(stream, if maxlen == 0 then 0 else maxlen - 1, |bytes|);
  }

  lemma LineCutShort(stream: seq<Byte>, bytes: seq<Byte>, maxlen: nat)
    requires bytes <= stream && |bytes| < maxlen && NEWLINE !in bytes
    ensures Answers(ReadLine(maxlen), stream, Answer(-1, bytes))
  {
    var k := LineLength(stream, maxlen - 1);
    assert forall m :: 0 <= m < |bytes| ==> stream[m] == bytes[m];
    assert bytes <= stream[..k];
  }

  lemma Terminated(was: seq<Byte>, now: seq<Byte>, bytes: seq<Byte>)
    requires |bytes| < |was| && now == Placed(was, 0, bytes)
    ensures now[|bytes| := 0] == Placed(was, 0, bytes + [0])
  {
  }

  lemma CharRead(stream: seq<Byte>, rest: seq<Byte>, after: seq<Byte>, was: seq<Byte>, now: seq<Byte>,
                 bytes: seq<Byte>, c: Byte)
    requires Reading(stream, rest, was, now, bytes) && |bytes| < |was| && rest == [c] + after
    ensures Reading(stream, after, was, now[|bytes| := c], bytes + [c])
  {
    ReadOn(stream, rest, was, now, bytes, 1);
    assert rest[..1] == [c] && rest[1..] == after;
    assert now[|bytes| := c] == Placed(now, |bytes|, [c]);
  }

  /** A refill: the buffer starts with what was read, and the rest is still in the stream. */
  lemma Refilled(was: seq<Byte>, now: seq<Byte>, stream: seq<Byte>, k: nat)
    requires k <= |stream| && k <= |was| && now == Placed(was, 0, stream[..k])
    ensures |now| == |was| && now[0..k] + stream[k..] == stream
  {
    assert now[0..k] == stream[..k];
  }

  class Rio {
    const kernel: Kernel
    const buf: array<Byte>
    var cnt: int
    var bufptr: nat

    ghost predicate Valid()
      reads this
    {
      buf.Length == RIO_BUFSIZE && -1 <= cnt && (cnt > 0 ==> bufptr + cnt <= RIO_BUFSIZE)
    }

    /** What a reader has yet to see: the unread part of the buffer, and then the stream. */
    ghost function Remainder(): seq<Byte>
      requires Valid()
      reads this, buf, kernel
    {
      (if cnt > 0 then buf[bufptr..bufptr + cnt] else []) + kernel.stream
    }

    /** rio_readinitb. */
    constructor (kernel: Kernel)
      ensures Valid() && fresh(buf) && this.kernel == kernel && Remainder() == kernel.stream
    {
      this.kernel := kernel;
      buf := new Byte[RIO_BUFSIZE](_ => 0);
      cnt, bufptr := 0, 0;
    }

    /** The loop of rio_read that refills an empty buffer; `done` says that rio_read returns `r`. */
    method Refill() returns (done: bool, r: int)
      requires Valid()
      modifies this, kernel`stream, kernel`script, kernel`errno, buf
      ensures Valid() && Remainder() == old(Remainder())
      ensures done ==> r == -1 || (r == 0 && Remainder() == [])
      ensures !done ==> cnt > 0
      ensures done && r == -1 ==> kernel.errno != EINTR
      ensures NoFailure(old(kernel.script)) ==> NoFailure(kernel.script) && (done ==> r == 0)
    {
      ghost var all := Remainder();
      while cnt <= 0
        invariant Valid() && Remainder() == all
        invariant NoFailure(old(kernel.script)) ==> NoFailure(kernel.script)
        decreases |kernel.script|, cnt <= 0
      {
        ghost var stream, was := kernel.stream, buf[..];
        assert all == [] + stream == stream;
        cnt := kernel.Read(buf, 0, RIO_BUFSIZE);
        if cnt < 0 {
          if kernel.errno != EINTR {
            return true, -1;
          }
        } else if cnt == 0 {
          return true, 0;
        } else {
          bufptr := 0;
          Refilled(was, buf[..], stream, cnt);
          assert buf[0..cnt] == buf[..][0..cnt];
        }
      }
      return false, 0;
    }

    /** rio_read: at most `n` bytes, none only at the end. */
    method Read(dst: array<Byte>, at: nat, n: nat) returns (r: int)
      requires Valid() && dst != buf && at + n <= dst.Length && n > 0
      modifies this, kernel`stream, kernel`script, kernel`errno, buf, dst
      ensures Valid() && -1 <= r <= n && r <= |old(Remainder())|
      ensures r == 0 ==> old(Remainder()) == []
      ensures r == -1 ==> Remainder() == old(Remainder()) && dst[..] == old(dst[..]) && kernel.errno != EINTR
      ensures r >= 0 ==>
                Remainder() == old(Remainder())[r..] &&
                dst[..] == Placed(old(dst[..]), at, old(Remainder())[..r])
      ensures NoFailure(old(kernel.script)) ==> NoFailure(kernel.script) && r != -1
    {
      var done;
      done, r := Refill();
      if done {
        return r;
      }
      ghost var rest := Remainder();
      var count := if cnt < n then cnt else n;
      assert rest[..count] == buf[bufptr..bufptr + count];
      assert rest[count..] == buf[bufptr + count..bufptr + cnt] + kernel.stream;
      Store(dst, at, buf[bufptr..bufptr + count]);
      bufptr := bufptr + count;
      cnt := cnt - count;
      return count;
    }

    /** rio_readnb. */
    method ReadNB(usrbuf: array<Byte>, n: nat) returns (r: int, ghost bytes: seq<Byte>)
      requires Valid() && usrbuf != buf && n <= usrbuf.Length
      modifies this, kernel`stream, kernel`script, kernel`errno, buf, usrbuf
      ensures Valid() && Answers(ReadN(n), old(Remainder()), Answer(r, bytes))
      ensures bytes <= old(Remainder()) && Remainder() == old(Remainder())[|bytes|..]
      ensures |bytes| <= n && usrbuf[..] == Placed(old(usrbuf[..]), 0, bytes)
      ensures NoFailure(old(kernel.script)) ==> NoFailure(kernel.script) && r != -1
    {
      ghost var stream, was := Remainder(), usrbuf[..];
      var nleft, bufp: int := n, 0;
      bytes := [];
      while nleft > 0
        invariant Valid() && 0 <= nleft && nleft + bufp == n && bufp == |bytes|
        invariant Reading(stream, Remainder(), was, usrbuf[..], bytes)
        invariant NoFailure(old(kernel.script)) ==> NoFailure(kernel.script)
      {
        ghost var rest, now := Remainder(), usrbuf[..];
        var nread := Read(usrbuf, bufp, nleft);
        if nread < 0 {
          if kernel.errno == EINTR {
            nread := 0;
          } else {
            ReadCutShort(stream, bytes, n);
            return -1, bytes;
          }
        } else if nread == 0 {
          assert usrbuf[..] == now;
          break;
        } else {
          ReadOn(stream, rest, was, now, bytes, nread);
          bytes := bytes + rest[..nread];
          assert Reading(stream, Remainder(), was, usrbuf[..], bytes);
        }
        nleft := nleft - nread;
        bufp := bufp + nread;
      }
      ReadEnds(stream, Remainder(), bytes, n);
      return n - nleft, bytes;
    }

    /** rio_read of a single byte. */
    method ReadChar() returns (rc: int, c: Byte)
      requires Valid()
      modifies this, kernel`stream, kernel`script, kernel`errno, buf
      ensures Valid() && -1 <= rc <= 1
      ensures rc == 1 ==> old(Remainder()) == [c] + Remainder()
      ensures rc == 0 ==> old(Remainder()) == []
      ensures rc != 1 ==> Remainder() == old(Remainder())
      ensures NoFailure(old(kernel.script)) ==> NoFailure(kernel.script) && rc != -1
    {
      ghost var rest := Remainder();
      var cell := new Byte[1](_ => 0);
      assert Remainder() == rest;
      rc := Read(cell, 0, 1);
      c := cell[0];
      assert rc == 1 ==> cell[..] == rest[..1] && rest == rest[..1] + rest[1..];
    }

    /** Read one byte and store it at `bufp`, behind the `bytes` read so far. */
    method StoreChar(usrbuf: array<Byte>, bufp: nat, ghost stream: seq<Byte>, ghost was: seq<Byte>,
                     ghost bytes: seq<Byte>)
      returns (rc: int, c: Byte)
      requires Valid() && usrbuf != buf && bufp == |bytes| < usrbuf.Length
      requires Reading(stream, Remainder(), was, usrbuf[..], bytes)
      modifies this, kernel`stream, kernel`script, kernel`errno, buf, usrbuf
      ensures Valid() && -1 <= rc <= 1 && (rc == 0 ==> bytes == stream)
      ensures Reading(stream, Remainder(), was, usrbuf[..], if rc == 1 then bytes + [c] else bytes)
      ensures NoFailure(old(kernel.script)) ==> NoFailure(kernel.script) && rc != -1
    {
      ghost var rest, now := Remainder(), usrbuf[..];
      rc, c := ReadChar();
      ghost var after := Remainder();
      if rc == 1 {
        CharRead(stream, rest, after, was, now, bytes, c);
        ghost var next := now[bufp := c];
        usrbuf[bufp] := c;
        assert usrbuf[..] == next && Remainder() == after;
      }
    }

    /** The loop of rio_readlineb; `r` is what rio_readlineb returns, and when that is above zero
        the terminating zero is still to be written at `bufp`. */
    method ReadLineChars(usrbuf: array<Byte>, maxlen: nat) returns (r: int, bufp: nat, ghost bytes: seq<Byte>)
      requires Valid() && usrbuf != buf && maxlen <= usrbuf.Length && 0 < usrbuf.Length
      modifies this, kernel`stream, kernel`script, kernel`errno, buf, usrbuf
      ensures Valid() && Answers(ReadLine(maxlen), old(Remainder()), Answer(r, bytes))
      ensures Reading(old(Remainder()), Remainder(), old(usrbuf[..]), usrbuf[..], bytes)
      ensures bufp == |bytes| < usrbuf.Length
      ensures NoFailure(old(kernel.script)) ==> NoFailure(kernel.script) && r != -1
    {
      ghost var stream, was := Remainder(), usrbuf[..];
      var n := 1;
      bufp, bytes := 0, [];
      while n < maxlen
        invariant Valid() && 1 <= n && (n == 1 || n <= maxlen) && bufp == n - 1 == |bytes|
        invariant Reading(stream, Remainder(), was, usrbuf[..], bytes) && NEWLINE !in bytes
        invariant NoFailure(old(kernel.script)) ==> NoFailure(kernel.script)
      {
        var rc, c := StoreChar(usrbuf, bufp, stream, was, bytes);
        if rc == 1 {
          if c == NEWLINE { LineAtNewline(stream, bytes, maxlen); }
          bytes := bytes + [c];
          bufp := bufp + 1;
          if c == NEWLINE {
            break;
          }
        } else if rc == 0 {
          LineAtEnd(stream, maxlen);
          if n == 1 {
            return 0, bufp, bytes;
          } else {
            break;
          }
        } else {
          LineCutShort(stream, bytes, maxlen);
          return -1, bufp, bytes;
        }
        n := n + 1;
      }
      if n >= maxlen { LineAtLimit(stream, bytes, maxlen); }
      return n, bufp, bytes;
    }

    /** rio_readlineb.  The terminating zero is written even when `maxlen` is zero. */
    method ReadLineB(usrbuf: array<Byte>, maxlen: nat) returns (r: int, ghost bytes: seq<Byte>)
      requires Valid() && usrbuf != buf && maxlen <= usrbuf.Length && 0 < usrbuf.Length
      modifies this, kernel`stream, kernel`script, kernel`errno, buf, usrbuf
      ensures Valid() && Answers(ReadLine(maxlen), old(Remainder()), Answer(r, bytes))
      ensures bytes <= old(Remainder()) && Remainder() == old(Remainder())[|bytes|..]
      ensures |bytes| < usrbuf.Length
      ensures usrbuf[..] == Placed(old(usrbuf[..]), 0, if r > 0 then bytes + [0] else bytes)
      ensures NoFailure(old(kernel.script)) ==> NoFailure(kernel.script) && r != -1
    {
      ghost var was := usrbuf[..];
      var bufp;
      r, bufp, bytes := ReadLineChars(usrbuf, maxlen);
      if r > 0 {
        Terminated(was, usrbuf[..], bytes);
        usrbuf[bufp] := 0;
      }
    }
  }

  lemma AtFront(was: seq<Byte>, data: seq<Byte>, now: seq<Byte>)
    requires |data| <= |was| && now == Placed(was, 0, data)
    ensures data <= now
  {
  }

  /** One request; `filled` is the caller's buffer afterwards. */
  method Serve(rio: Rio, request: Request) returns (r: int, filled: seq<Byte>, ghost bytes: seq<Byte>)
    requires rio.Valid()
    modifies rio, rio.kernel, rio.buf
    ensures rio.Valid() && Answers(request, old(rio.Remainder()), Answer(r, bytes)) && bytes <= filled
    ensures bytes <= old(rio.Remainder()) && rio.Remainder() == old(rio.Remainder())[|bytes|..]
    ensures NoFailure(old(rio.kernel.script)) ==> NoFailure(rio.kernel.script) && r != -1
  {
    ghost var stream := rio.Remainder();
    match request {
      case ReadN(n) =>
        var usrbuf := new Byte[n](_ => 0);
        ghost var was := usrbuf[..];
        assert rio.Valid() && rio.Remainder() == stream;
        r, bytes := rio.ReadNB(usrbuf, n);
        filled := usrbuf[..];
        AtFront(was, bytes, filled);
      case ReadLine(maxlen) =>
        var usrbuf := new Byte[maxlen + 1](_ => 0);
        ghost var was := usrbuf[..];
        assert rio.Valid() && rio.Remainder() == stream;
        r, bytes := rio.ReadLineB(usrbuf, maxlen);
        filled := usrbuf[..];
        AtFront(was, if r > 0 then bytes + [0] else bytes, filled);
    }
  }

  /** One reader, any mix of requests, any kernel: the answers come off one stream, in order, and
      each caller finds its bytes at the start of its buffer. */
  method Session(rio: Rio, requests: seq<Request>)
    returns (values: seq<int>, filled: seq<seq<Byte>>, ghost answers: seq<Answer>)
    requires rio.Valid()
    modifies rio, rio.kernel, rio.buf
    ensures rio.Valid() && |values| == |filled| == |answers| == |requests|
    ensures AllAnswered(requests, old(rio.Remainder()), answers, rio.Remainder())
    ensures forall i :: 0 <= i < |requests| ==> answers[i].value == values[i] && answers[i].bytes <= filled[i]
    ensures NoFailure(old(rio.kernel.script)) ==> answers == Responses(requests, old(rio.Remainder()))
    decreases |requests|
  {
    if requests == [] {
      return [], [], [];
    }
    var r, buffer, bytes := Serve(rio, requests[0]);
    ghost var rest := rio.Remainder();
    var rs, buffers, others := Session(rio, requests[1..]);
    values, filled, answers := [r] + rs, [buffer] + buffers, [Answer(r, bytes)] + others;
    assert answers[1..] == others;
  }
}
