/**
 The read buffer of a blocking connection.  A socket is a script of what successive recv
 calls will do; the buffer keeps everything received since the last truncation together
 with a read position that can be put back.
 */
module SocketBuffer {
  import opened Wrappers
  import opened RespGrammar

  /** What one recv call does. */
  datatype Recv = Data(bytes: bytes) | TimedOut | WouldBlock

  datatype Failure = TimeoutError | ConnectionError | InvalidResponse | ValueError

  datatype Result<+T> = Ok(value: T) | Raise(failure: Failure)

  /** The bytes a script still delivers. */
  function Bytes(script: seq<Recv>): bytes {
    if script == [] then []
    else (if script[0].Data? then script[0].bytes else []) + Bytes(script[1..])
  }

  /** What ends a wait for data: a timeout, an operation that would block, or the end of the connection. */
  predicate Fault(e: Recv) { !e.Data? || e.bytes == [] }

  /** The bytes that arrive before the next fault. */
  function Arriving(script: seq<Recv>): bytes {
    if script == [] || Fault(script[0]) then [] else script[0].bytes + Arriving(script[1..])
  }

  /** The next fault; a peer that has nothing more to say makes recv time out. */
  function NextFault(script: seq<Recv>): (e: Recv)
    ensures Fault(e)
  {
    if script == [] then TimedOut else if Fault(script[0]) then script[0] else NextFault(script[1..])
  }

  /** What is left once the next fault has been met. */
  function AfterFault(script: seq<Recv>): seq<Recv> {
    if script == [] then [] else if Fault(script[0]) then script[1..] else AfterFault(script[1..])
  }

  /** The exception for a fault. */
  function RaisedBy(e: Recv): Failure { if e.TimedOut? then TimeoutError else ConnectionError }

  function Faults(script: seq<Recv>): nat {
    if script == [] then 0 else (if Fault(script[0]) then 1 else 0) + Faults(script[1..])
  }

  lemma {:induction false} FaultsLeft(script: seq<Recv>)
    ensures Faults(script) == 0 ==> AfterFault(script) == [] && Bytes(script) == Arriving(script)
    ensures Faults(script) > 0 ==> Faults(AfterFault(script)) == Faults(script) - 1
    ensures Bytes(script) == Arriving(script) + Bytes(AfterFault(script))
  {
    if script != [] {
      FaultsLeft(script[1..]);
    }
  }

  class Socket {
    var script: seq<Recv>
    ghost var received: bytes

    constructor (script: seq<Recv>)
      ensures this.script == script && received == []
    {
      this.script := script;
      received := [];
    }

    /** After the end of its script the peer stays silent. */
    method Recv() returns (r: Recv)
      modifies this
      ensures old(script) == [] ==> script == [] && r == TimedOut
      ensures old(script) != [] ==> r == old(script)[0] && script == old(script)[1..]
      ensures received == old(received) + (if r.Data? then r.bytes else [])
      ensures received + Bytes(script) == old(received + Bytes(script))
    {
      if script == [] {
        r := TimedOut;
      } else {
        r := script[0];
        ghost var chunk := if r.Data? then r.bytes else [];
        ghost var rest := Bytes(script[1..]);
        assert Bytes(script) == chunk + rest;
        assert received + (chunk + rest) == (received + chunk) + rest;
        script := script[1..];
        received := received + chunk;
      }
    }
  }

  /** No line ends inside buf[start..pos], except possibly right at its end. */
  ghost predicate NoCrlfBefore(buf: bytes, start: nat, pos: nat) {
    forall i | start <= i && i + 2 < pos :: !CrlfAt(buf, i)
  }

  lemma NextPiece(before: bytes, buf: bytes, start: nat, pos: nat)
    requires before <= buf && start <= pos <= |before|
    requires NoCrlfBefore(before, start, pos) && !EndsWithCrlf(before[start..pos])
    ensures NoCrlfBefore(buf, start, LineStop(buf, pos))
  {
    forall i | start <= i && i + 2 < LineStop(buf, pos) ensures !CrlfAt(buf, i) {
      if i + 2 < pos {
        assert !CrlfAt(before, i);
      } else if i + 2 == pos {
        assert before[start..pos][pos - start - 2] == buf[i];
      }
    }
  }

  lemma AtFirstStop(buf: bytes, at: nat)
    requires at <= |buf|
    ensures NoCrlfBefore(buf, at, LineStop(buf, at)) && InFirstPiece(buf, at, LineStop(buf, at))
  {
  }

  /** Where the line stands that is being read: at its first stop, unless that stop was a bare line feed. */
  ghost predicate InFirstPiece(buf: bytes, start: nat, pos: nat)
    requires start <= |buf|
  {
    FindLine(buf, start, true).BareLf? || pos == LineStop(buf, start)
  }

  /** A strict line is found at its first stop, however it arrives. */
  lemma FirstPieceGoesOn(before: bytes, buf: bytes, start: nat, pos: nat)
    requires before <= buf && start <= pos <= |before|
    requires InFirstPiece(before, start, pos) && !EndsWithCrlf(before[start..pos])
    ensures InFirstPiece(buf, start, LineStop(buf, pos))
    ensures !FindLine(before, start, true).EndsAt?
  {
    FirstStop(before, start);
    assert before + buf[|before|..] == buf;
    FindLineExtends(before, buf[|before|..], start, true);
    if FindLine(before, start, true) == NoEnd {
      NoEndNoLf(before, start);
      StopBehind(buf, start, pos);
    }
  }

  lemma {:induction false} NoEndNoLf(buf: bytes, start: nat)
    requires start <= |buf| && FindLine(buf, start, true) == NoEnd
    ensures LineStop(buf, start) == |buf| && LF !in buf[start..]
    decreases |buf| - start
  {
    if start < |buf| {
      assert buf[start..] == [buf[start]] + buf[start + 1..];
      NoEndNoLf(buf, start + 1);
    }
  }

  lemma {:induction false} StopBehind(buf: bytes, start: nat, pos: nat)
    requires start <= pos <= |buf| && LF !in buf[start..pos]
    ensures LineStop(buf, start) == LineStop(buf, pos)
    decreases pos - start
  {
    if start < pos {
      assert buf[start..pos] == [buf[start]] + buf[start + 1..pos];
      StopBehind(buf, start + 1, pos);
    }
  }

  lemma AllButTwo(s: bytes, i: nat, k: nat)
    requires i <= k <= |s|
    ensures (if k - i >= 2 then s[i..k][..k - i - 2] else []) == s[i..if k - 2 < i then i else k - 2]
  {
  }

  lemma JoinedSlices(s: bytes, i: nat, j: nat, k: nat)
    requires i <= j <= k <= |s|
    ensures s[i..j] + s[j..k] == s[i..k]
  {
  }

  lemma LineFound(buf: bytes, start: nat, pos: nat)
    requires start <= pos <= |buf| && NoCrlfBefore(buf, start, pos) && EndsWithCrlf(buf[start..pos])
    ensures FindLine(buf, start, false) == EndsAt(pos - 2)
  {
    assert buf[start..pos][pos - start - 2] == buf[pos - 2];
    FindLineIs(buf, start, pos - 2, false);
  }

  class SocketBuffer {
    const sock: Socket
    var buffer: bytes
    var pos: nat
    /** What was received and has since been truncated away. */
    ghost var purged: bytes

    ghost predicate Valid()
      reads this, sock
    {
      pos <= |buffer| && sock.received == purged + buffer
    }

    constructor (sock: Socket)
      requires sock.received == []
      ensures Valid() && this.sock == sock && buffer == [] && pos == 0 && purged == []
    {
      this.sock := sock;
      buffer := [];
      pos := 0;
      purged := [];
    }

    function UnreadBytes(): nat
      requires pos <= |buffer|
      reads this
    {
      |buffer| - pos
    }

    /** The bytes that can still be read: buffered ones and those the socket will deliver. */
    ghost function Budget(): int
      reads this, sock
    {
      |buffer| - pos + |Bytes(sock.script)|
    }

    /** Whatever recv returned was appended; nothing was lost. */
    twostate predicate OnlyReceived()
      reads this, sock
    {
      && old(buffer) <= buffer
      && purged == old(purged)
      && |sock.script| <= old(|sock.script|)
      && sock.received + Bytes(sock.script) == old(sock.received + Bytes(sock.script))
    }

    /** What is buffered and what will be before the next fault. */
    ghost function Ahead(): bytes
      reads this, sock
    {
      buffer + Arriving(sock.script)
    }

    /** No fault was met: the same bytes and the same fault are still to come. */
    twostate predicate Undisturbed()
      reads this, sock
    {
      && Ahead() == old(Ahead())
      && AfterFault(sock.script) == old(AfterFault(sock.script))
      && NextFault(sock.script) == old(NextFault(sock.script))
      && Faults(sock.script) == old(Faults(sock.script))
    }

    /** The next fault was met, behind all the bytes in front of it. */
    twostate predicate Interrupted()
      reads this, sock
    {
      buffer == old(Ahead()) && sock.script == old(AfterFault(sock.script))
    }

    /** Fails exactly when a fault comes before enough bytes, and then has taken what came before the fault. */
    method ReadFromSocket(length: Option<int>, raiseOnTimeout: bool) returns (r: Result<bool>)
      requires Valid()
      modifies this, sock
      ensures Valid() && OnlyReceived() && pos == old(pos)
      ensures r == Ok(true) <==> |old(Arriving(sock.script))| >= (if length.Some?
                && length.value > 1 then length.value else 1)
      ensures r == Ok(true) ==> Undisturbed() && |sock.script| < old(|sock.script|)
      ensures r == Ok(true) ==> |buffer| > old(|buffer|) && (length.Some? ==> |buffer| >= old(|buffer|) + length.value)
      ensures r != Ok(true) ==> Interrupted() && var fault := old(NextFault(sock.script));
                                r == if raiseOnTimeout || fault.Data? then Raise(RaisedBy(fault)) else Ok(false)
    {
      var marker := 0;
      while true
        invariant Valid() && OnlyReceived() && pos == old(pos) && Undisturbed()
        invariant marker == |buffer| - old(|buffer|) && marker + |Arriving(sock.script)| == |old(Arriving(sock.script))|
        invariant marker == 0 || (length.Some? && length.value > marker)
        decreases |sock.script|
      {
        var data := sock.Recv();
        match data {
          case TimedOut =>
            if raiseOnTimeout { return Raise(TimeoutError); }
            return Ok(false);
          case WouldBlock =>
            if !raiseOnTimeout { return Ok(false); }
            return Raise(ConnectionError);
          case Data(chunk) =>
            if |chunk| == 0 {
              return Raise(ConnectionError);
            }
            assert purged + (buffer + chunk) == (purged + buffer) + chunk;
            ConcatAssoc(buffer, chunk, Arriving(sock.script));
            buffer := buffer + chunk;
            marker := marker + |chunk|;
            if length.Some? && length.value > marker {
              continue;
            }
            return Ok(true);
        }
      }
    }

    /** Whether there is something to read, now or by the next recv; a closed connection is an error. */
    method CanRead() returns (r: Result<bool>)
      requires Valid()
      modifies this, sock
      ensures Valid() && OnlyReceived() && pos == old(pos)
      ensures r == Ok(true) <==> old(UnreadBytes()) > 0 || old(Arriving(sock.script)) != []
      ensures r == Ok(true) ==> Undisturbed() && UnreadBytes() > 0
      ensures r == Ok(true) && old(UnreadBytes()) == 0 ==> |sock.script| < old(|sock.script|)
      ensures r == Ok(false) <==>
                old(UnreadBytes()) == 0 && old(Arriving(sock.script)) == [] && !old(NextFault(sock.script)).Data?
      ensures r != Ok(true) ==> Interrupted()
      ensures old(UnreadBytes()) > 0 ==> buffer == old(buffer) && sock.script == old(sock.script)
    {
      if UnreadBytes() > 0 {
        r := Ok(true);
      } else {
        r := ReadFromSocket(None, false);
      }
    }

    /** io.BytesIO.read: up to n bytes, or all of them when n is negative. */
    method TakeFromBuffer(n: int) returns (data: bytes)
      requires pos <= |buffer|
      modifies this`pos
      ensures old(pos) <= pos <= |buffer| && data == buffer[old(pos)..pos]
      ensures pos == if 0 <= n <= |buffer| - old(pos) then old(pos) + n else |buffer|
    {
      var stop := if 0 <= n <= |buffer| - pos then pos + n else |buffer|;
      data := buffer[pos..stop];
      pos := stop;
    }

    /**
     The next `length` bytes, stepping over the CR LF behind them.  For a length below -2
     io.BytesIO.read gives all there is, and at least one recv is made.
     */
    method Read(length: int) returns (r: Result<bytes>)
      requires Valid()
      modifies this, sock
      ensures Valid() && OnlyReceived() && old(pos) <= pos
      ensures r.Ok? ==> Undisturbed() && pos == (if length >= -2 then old(pos) + length + 2 else |buffer|)
      ensures r.Ok? ==> r.value == buffer[old(pos)..if pos - 2 < old(pos) then old(pos) else pos - 2]
      ensures r.Ok? <==> if length >= -2 then old(pos) + length + 2 <= |old(Ahead())|
                else old(Arriving(sock.script)) != []
      ensures r.Raise? ==> Interrupted() && r.failure == RaisedBy(old(NextFault(sock.script)))
      ensures length >= -2 && old(pos + length + 2 <= |buffer|) ==>
                sock.script == old(sock.script) && buffer == old(buffer)
    {
      hide Arriving, NextFault, AfterFault, Faults;
      var want := length + 2;
      ghost var before := buffer;
      var data := TakeFromBuffer(want);
      var missing := want - |data|;
      if missing != 0 {
        var filled := ReadFromSocket(Some(missing), true);
        if filled.Raise? {
          return Raise(filled.failure);
        }
        assert buffer[old(pos)..|before|] == data;
        var more := TakeFromBuffer(missing);
        JoinedSlices(buffer, old(pos), |before|, pos);
        data := data + more;
      }
      assert data == buffer[old(pos)..pos];
      AllButTwo(buffer, old(pos), pos);
      r := Ok(if |data| >= 2 then data[..|data| - 2] else []);
    }

    /**
     The bytes up to the next CR LF.  The loop asks the socket whenever the text read so
     far does not end in CR LF, even if more text is already buffered behind a bare line
     feed; a strict line needs no recv.
     */
    method Readline() returns (r: Result<bytes>)
      requires Valid()
      modifies this, sock
      ensures Valid() && OnlyReceived() && old(pos) <= pos
      ensures r.Ok? ==> old(pos) + 2 <= pos && FindLine(buffer, old(pos), false) == EndsAt(pos - 2)
      ensures r.Ok? ==> r.value == buffer[old(pos)..pos - 2]
      ensures r.Ok? ==> Undisturbed()
      ensures r.Raise? ==> Interrupted() && r.failure == RaisedBy(old(NextFault(sock.script)))
      // a line without bare line feeds is returned whenever it arrives before the next fault
      ensures FindLine(old(Ahead()), old(pos), true).EndsAt? ==> r.Ok?
      // and without a recv exactly when it is buffered
      ensures old(FindLine(buffer, pos, true).EndsAt?) <==> r.Ok? && |sock.script| == |old(sock.script)|
      ensures |sock.script| == |old(sock.script)| && r.Ok? ==> sock.script == old(sock.script) && buffer == old(buffer)
    {
      hide FindLine, LineStop, NoCrlfBefore, InFirstPiece, Arriving, Faults;
      ghost var start := pos;
      FirstStop(buffer, pos);
      AtFirstStop(buffer, pos);
      ghost var direct := FindLine(buffer, pos, true).EndsAt?;
      var data := TakeLine();
      while !EndsWithCrlf(data)
        invariant Valid() && OnlyReceived() && start <= pos && data == buffer[start..pos]
        invariant NoCrlfBefore(buffer, start, pos) && InFirstPiece(buffer, start, pos) && Undisturbed()
        invariant direct ==> EndsWithCrlf(data) && sock.script == old(sock.script) && buffer == old(buffer)
        invariant !direct ==> |sock.script| < old(|sock.script|) || !EndsWithCrlf(data)
        decreases |sock.script|
      {
        var more := ReadMoreOfLine(start, data);
        if more.Raise? {
          return more;
        }
        data := more.value;
      }
      LineFound(buffer, start, pos);
      r := Ok(data[..|data| - 2]);
    }

    /** io.BytesIO.readline: the buffered bytes up to and including the next line feed. */
    method TakeLine() returns (data: bytes)
      requires pos <= |buffer|
      modifies this`pos
      ensures pos == LineStop(buffer, old(pos)) && data == buffer[old(pos)..pos]
    {
      var stop := LineStop(buffer, pos);
      data := buffer[pos..stop];
      pos := stop;
    }

    /** One more recv for a line that has not ended yet. */
    method ReadMoreOfLine(ghost start: nat, data: bytes) returns (r: Result<bytes>)
      requires Valid() && start <= pos && data == buffer[start..pos] && !EndsWithCrlf(data)
      requires NoCrlfBefore(buffer, start, pos) && InFirstPiece(buffer, start, pos)
      modifies this, sock
      ensures Valid() && OnlyReceived() && old(pos) <= pos
      ensures r.Ok? ==> Undisturbed() && |sock.script| < old(|sock.script|)
      ensures r.Ok? ==>
                r.value == buffer[start..pos] && NoCrlfBefore(buffer, start, pos) && InFirstPiece(buffer, start, pos)
      ensures r.Raise? ==> Interrupted() && r.failure == RaisedBy(old(NextFault(sock.script)))
      ensures r.Raise? ==> !FindLine(buffer, start, true).EndsAt?
    {
      hide FindLine, LineStop, NoCrlfBefore, EndsWithCrlf, InFirstPiece;
      ghost var before := buffer;
      FirstPieceGoesOn(before, before, start, pos);
      var filled := ReadFromSocket(None, true);
      if filled.Raise? {
        assert before + old(Arriving(sock.script)) == before;
        return Raise(filled.failure);
      }
      assert buffer[start..pos] == data;
      NextPiece(before, buffer, start, pos);
      FirstPieceGoesOn(before, buffer, start, pos);
      var more := TakeLine();
      r := Ok(data + more);
    }

    method Rewind(to: nat)
      requires Valid() && to <= |buffer|
      modifies this`pos
      ensures Valid() && pos == to
    {
      pos := to;
    }

    /** Drops the buffered bytes once all of them have been read. */
    method Purge()
      requires Valid()
      modifies this
      ensures Valid()
      ensures old(UnreadBytes()) > 0 ==> buffer == old(buffer) && pos == old(pos)
      ensures old(UnreadBytes()) == 0 ==> buffer == [] && pos == 0
    {
      if UnreadBytes() > 0 {
        return;
      }
      purged := purged + buffer;
      buffer := [];
      pos := 0;
    }
  }
}
