/**
 The asyncio RESP2 parser.  Each await may be cancelled; a read that completes is atomic.
 Bytes taken from the stream during an attempt are kept in `chunks`; the next attempt
 joins them to `buffer` and replays the reply from its beginning.
 */
module AsyncResp2Parser {
  import opened RespGrammar

  datatype Outcome<+T> = Returned(value: T) | Cancelled | Broken

  /** asyncio.StreamReader with the bytes the peer will ever send and the awaits that get cancelled. */
  class StreamReader {
    var wire: bytes
    var cancels: seq<bool>

    constructor (wire: bytes, cancels: seq<bool>)
      ensures this.wire == wire && this.cancels == cancels
    {
      this.wire := wire;
      this.cancels := cancels;
    }

    method Await() returns (cancelled: bool)
      modifies this`cancels
      ensures cancelled == (old(cancels) != [] && old(cancels)[0])
      ensures Cancels(cancels) + (if cancelled then 1 else 0) == old(Cancels(cancels))
    {
      cancelled := cancels != [] && cancels[0];
      cancels := if cancels == [] then [] else cancels[1..];
    }

    method ReadExactly(n: nat) returns (r: Outcome<bytes>)
      modifies this
      ensures r.Returned? ==> |r.value| == n && old(wire) == r.value + wire
      ensures r.Cancelled? ==> wire == old(wire)
      ensures r.Broken? ==> |old(wire)| < n
      ensures r.Cancelled? <==> old(cancels) != [] && old(cancels)[0]
      ensures Cancels(cancels) + (if r.Cancelled? then 1 else 0) == old(Cancels(cancels))
    {
      var cancelled := Await();
      if cancelled { return Cancelled; }
      if |wire| < n {
        wire := [];
        return Broken;
      }
      r := Returned(wire[..n]);
      wire := wire[n..];
    }

    /** Up to and with the next line feed, or what is left. */
    method ReadLine() returns (r: Outcome<bytes>)
      modifies this
      ensures r.Returned? ==> r.value == old(wire)[..LineStop(old(wire), 0)] && old(wire) == r.value + wire
      ensures r.Cancelled? ==> wire == old(wire)
      ensures !r.Broken?
      ensures r.Cancelled? <==> old(cancels) != [] && old(cancels)[0]
      ensures Cancels(cancels) + (if r.Cancelled? then 1 else 0) == old(Cancels(cancels))
    {
      var cancelled := Await();
      if cancelled { return Cancelled; }
      var stop := LineStop(wire, 0);
      r := Returned(wire[..stop]);
      wire := wire[stop..];
    }
  }

  /** How many of these awaits are cancelled. */
  function Cancels(cancels: seq<bool>): nat {
    if cancels == [] then 0 else (if cancels[0] then 1 else 0) + Cancels(cancels[1..])
  }

  function JoinAll(chunks: seq<bytes>): bytes {
    if chunks == [] then [] else JoinAll(chunks[..|chunks| - 1]) + chunks[|chunks| - 1]
  }

  class AsyncResp2Parser {
    const stream: StreamReader
    var connected: bool
    var buffer: bytes
    var chunks: seq<bytes>
    var pos: nat
    /** The bytes of the replies returned so far, and those replies. */
    ghost var done: bytes
    ghost var delivered: seq<Reply>

    constructor (stream: StreamReader)
      ensures Valid() && connected && this.stream == stream
      ensures delivered == [] && done == [] && Pending() == []
    {
      this.stream := stream;
      connected := true;
      buffer, chunks, pos := [], [], 0;
      done, delivered := [], [];
    }

    /** What has been taken from the stream for the current reply. */
    ghost function Pending(): bytes
      reads this
    {
      buffer + JoinAll(chunks)
    }

    /** The stream from the beginning of the current reply. */
    ghost function Ahead(): bytes
      reads this, stream
    {
      Pending() + stream.wire
    }

    /** Everything the peer sends over the life of the connection. */
    ghost function Whole(): bytes
      reads this, stream
    {
      done + Ahead()
    }

    /** Between calls: the pending bytes are whole tokens of an unfinished reply. */
    ghost predicate Valid()
      reads this, stream
    {
      connected ==>
      && ParseReply(Pending(), 0, true) == Short(|Pending()|)
      && ParseItems(Whole(), 0, |delivered|, true) == Done(delivered, |done|)
    }

    /** Inside a call. */
    ghost predicate Reading()
      reads this
    {
      pos <= |Pending()| && (chunks != [] ==> pos == |Pending()|)
    }

    /** Up to `pos` and beyond, the pending bytes break off only at the end of a token. */
    ghost predicate Resumable<T>(p: Parse<T>)
      reads this
    {
      p.Done? || p == Short(|Pending()|)
    }

    ghost function Left(): int
      reads this, stream
    {
      |Ahead()| - pos
    }

    twostate predicate OnlyTook()
      reads this, stream
    {
      && old(Pending()) <= Pending()
      && Ahead() == old(Ahead())
      && done == old(done) && delivered == old(delivered)
    }

    method ReadBytes(length: nat) returns (r: Outcome<bytes>)
      requires Reading() && (pos + length + 2 <= |Pending()| || pos == |Pending()|)
      modifies this, stream
      ensures done == old(done) && delivered == old(delivered) && connected == old(connected)
      ensures !r.Broken? ==> Reading() && OnlyTook()
      ensures r.Returned? ==> pos == old(pos) + length + 2 && r.value == Pending()[old(pos)..old(pos) + length]
      ensures r.Returned? ==> Pending() == old(Pending()) || pos == |Pending()|
      ensures r.Cancelled? ==> Pending() == old(Pending()) && pos == old(pos) == |Pending()|
      ensures r.Broken? ==> old(pos) + length + 2 > old(|Ahead()|)
      ensures Cancels(stream.cancels) + (if r.Cancelled? then 1 else 0) == old(Cancels(stream.cancels))
    {
      hide JoinAll;
      var want := length + 2;
      var end := pos + want;
      ghost var before := Pending();
      WithoutChunks();
      if |buffer| >= end {
        InFront(buffer, JoinAll(chunks), pos, end - 2);
        r := Returned(buffer[pos..end - 2]);
      } else {
        var tail := if pos <= |buffer| then buffer[pos..] else [];
        assert pos == |before| && tail == [];
        var data := stream.ReadExactly(want - |tail|);
        if !data.Returned? {
          return if data.Cancelled? then Cancelled else Broken;
        }
        r := Returned((tail + data.value)[..length]);
        Behind(before, data.value, length);
        Took(data.value);
      }
      pos := pos + want;
    }

    /** Nothing is pending but what was buffered. */
    lemma WithoutChunks()
      ensures chunks == [] ==> Pending() == buffer
    {
    }

    /** chunks.append(data) */
    method Took(data: bytes)
      modifies this`chunks
      ensures chunks == old(chunks) + [data]
      ensures Pending() == old(Pending()) + data
      ensures Pending() + stream.wire == old(Pending()) + (data + stream.wire)
    {
      ghost var before := chunks;
      chunks := chunks + [data];
      assert chunks[..|chunks| - 1] == before;
      assert JoinAll(chunks) == JoinAll(before) + data;
    }

    method ReadLine() returns (r: Outcome<bytes>)
      requires Reading() && (FindLine(Pending(), pos, true).EndsAt? || pos == |Pending()|)
      modifies this, stream
      ensures done == old(done) && delivered == old(delivered) && connected == old(connected)
      ensures !r.Broken? ==> Reading() && OnlyTook()
      ensures r.Returned? ==>
                && old(pos) + 2 <= pos
                && FindLine(Pending(), old(pos), true) == EndsAt(pos - 2)
                && r.value == Pending()[old(pos)..pos - 2]
                && (Pending() == old(Pending()) || pos == |Pending()|)
      ensures r.Cancelled? ==> Pending() == old(Pending()) && pos == old(pos) == |Pending()|
      ensures r.Broken? ==> !old(FindLine(Ahead(), pos, true)).EndsAt?
      ensures Cancels(stream.cancels) + (if r.Cancelled? then 1 else 0) == old(Cancels(stream.cancels))
    {
      hide FindLine;
      ghost var before := Pending();
      var found := if pos <= |buffer| then FindLine(buffer, pos, false) else NoEnd;
      EmptyHasNoLine(before);
      EmptyHasNoLine(buffer);
      assert chunks == [] ==> before == buffer;
      StrictLineIsLine(before, pos);
      if found.EndsAt? {
        r := Returned(buffer[pos..found.end]);
        pos := pos + |r.value| + 2;
      } else {
        r := NextLine(if pos <= |buffer| then buffer[pos..] else []);
      }
    }

    /** The part of _readline that awaits the stream. */
    method NextLine(tail: bytes) returns (r: Outcome<bytes>)
      requires Reading() && pos == |Pending()| && tail == []
      modifies this, stream
      ensures done == old(done) && delivered == old(delivered) && connected == old(connected)
      ensures !r.Broken? ==> Reading() && OnlyTook()
      ensures r.Returned? ==>
                && old(pos) + 2 <= pos
                && FindLine(Pending(), old(pos), true) == EndsAt(pos - 2)
                && r.value == Pending()[old(pos)..pos - 2]
                && (Pending() == old(Pending()) || pos == |Pending()|)
      ensures r.Cancelled? ==> Pending() == old(Pending()) && pos == old(pos) == |Pending()|
      ensures r.Broken? ==> !old(FindLine(Ahead(), pos, true)).EndsAt?
      ensures Cancels(stream.cancels) + (if r.Cancelled? then 1 else 0) == old(Cancels(stream.cancels))
    {
      hide FindLine, LineStop, EndsWithCrlf, JoinAll;
      ghost var before, wire := Pending(), stream.wire;
      var data := stream.ReadLine();
      if data.Cancelled? {
        return Cancelled;
      }
      LineFromStream(before, wire);
      if !EndsWithCrlf(data.value) {
        return Broken;
      }
      var value := AcceptLine(tail, data.value);
      r := Returned(value);
    }

    /** A line that the stream delivered becomes a chunk, and the position moves behind it. */
    method AcceptLine(tail: bytes, data: bytes) returns (value: bytes)
      requires pos == |Pending()| && tail == [] && EndsWithCrlf(data)
      modifies this`chunks, this`pos
      ensures Pending() == old(Pending()) + data && pos == |Pending()| && old(pos) + 2 <= pos
      ensures Pending() + stream.wire == old(Pending()) + (data + stream.wire)
      ensures value == Pending()[old(pos)..pos - 2]
    {
      hide EndsWithCrlf, JoinAll;
      LineTaken(Pending(), tail, data);
      value := (tail + data)[..|tail + data| - 2];
      Took(data);
      pos := pos + |value| + 2;
    }

    /** _read_response */
    method ReadReply() returns (r: Outcome<Reply>)
      requires Reading() && Resumable(ParseReply(Pending(), pos, true))
      modifies this, stream
      ensures done == old(done) && delivered == old(delivered) && connected == old(connected)
      ensures !r.Broken? ==> Reading() && OnlyTook() && old(pos) <= pos
      ensures r.Returned? ==> Pending() == old(Pending()) || pos == |Pending()|
      ensures r.Returned? ==> ParseReply(Pending(), old(pos), true) == Done(r.value, pos)
      ensures r.Cancelled? ==> ParseReply(Pending(), old(pos), true) == Short(|Pending()|)
      ensures r.Broken? ==> !old(ParseReply(Ahead(), pos, true)).Done?
      ensures Cancels(stream.cancels) + (if r.Cancelled? then 1 else 0) == old(Cancels(stream.cancels))
      decreases Left(), 0
    {
      hide ReadHead, FindLine, ParseBody, ParseItems;
      ghost var start, before, ahead := pos, Pending(), Ahead();
      ShortMeansEnd(before, start);
      var raw := ReadLine();
      if !raw.Returned? {
        if raw.Broken? {
          NoLineNoReply(ahead, start, true);
        } else {
          EmptyHasNoLine(before);
          NoLineNoReply(before, start, true);
        }
        return if raw.Cancelled? then Cancelled else Broken;
      }
      ghost var taken, mid := Pending(), pos;
      var head := ReadHead(raw.value);
      LineOpensReply(taken, taken, start, mid);
      LineOpensReply(taken, ahead, start, mid);
      if !Rejected(head) {
        NothingBehind(taken, head);
      }
      r := ReadBody(head);
      if !r.Broken? {
        LineOpensReply(taken, Pending(), start, mid);
      }
    }

    /** The rest of _read_response, after the header line. */
    method ReadBody(head: Head) returns (r: Outcome<Reply>)
      requires Reading()
      requires Rejected(head) || Resumable(ParseBody(Pending(), pos, head, true))
      modifies this, stream
      ensures done == old(done) && delivered == old(delivered) && connected == old(connected)
      ensures !r.Broken? ==> Reading() && OnlyTook() && old(pos) <= pos
      ensures r.Returned? ==> Pending() == old(Pending()) || pos == |Pending()|
      ensures r.Returned? ==> ParseBody(Pending(), old(pos), head, true) == Done(r.value, pos)
      ensures r.Cancelled? ==> ParseBody(Pending(), old(pos), head, true) == Short(|Pending()|)
      ensures r.Broken? ==> !old(ParseBody(Ahead(), pos, head, true)).Done?
      ensures Cancels(stream.cancels) + (if r.Cancelled? then 1 else 0) == old(Cancels(stream.cancels))
      decreases Left(), 2
    {
      hide ParseItems;
      match head {
        case Reject(fault) =>
          if fault.Hangup? {
            buffer, chunks := [], [];
          }
          return Broken;
        case Whole(reply) =>
          return Returned(reply);
        case Payload(length) =>
          if length < 0 {
            return Broken;
          }
          var data := ReadBytes(length);
          r := match data case Returned(value) => Returned(Bulk(value)) case Cancelled => Cancelled
              case Broken => Broken;
        case Items(count) =>
          var items := ReadItems(count);
          r := match items case Returned(value) => Returned(Multi(value)) case Cancelled => Cancelled
              case Broken => Broken;
      }
    }

    method ReadItems(count: nat) returns (r: Outcome<seq<Reply>>)
      requires Reading() && Resumable(ParseItems(Pending(), pos, count, true))
      modifies this, stream
      ensures done == old(done) && delivered == old(delivered) && connected == old(connected)
      ensures !r.Broken? ==> Reading() && OnlyTook() && old(pos) <= pos
      ensures r.Returned? ==> Pending() == old(Pending()) || pos == |Pending()|
      ensures r.Returned? ==> ParseItems(Pending(), old(pos), count, true) == Done(r.value, pos)
      ensures r.Cancelled? ==> ParseItems(Pending(), old(pos), count, true) == Short(|Pending()|)
      ensures r.Broken? ==> !old(ParseItems(Ahead(), pos, count, true)).Done?
      ensures Cancels(stream.cancels) + (if r.Cancelled? then 1 else 0) == old(Cancels(stream.cancels))
      decreases Left(), 1
    {
      hide ParseItems, ParseReply;
      ghost var start, ahead := pos, Ahead();
      EmptyRun(Pending(), start, true);
      var items: seq<Reply> := [];
      for i := 0 to count
        invariant Reading() && OnlyTook() && start <= pos && connected == old(connected)
        invariant Cancels(stream.cancels) == old(Cancels(stream.cancels))
        invariant Pending() == old(Pending()) || pos == |Pending()|
        invariant ParseItems(Pending(), start, i, true) == Done(items, pos)
        invariant Resumable(ParseItems(Pending(), pos, count - i, true))
      {
        ghost var before, at := Pending(), pos;
        FirstOfRun(before, at, count - i);
        var item := ReadReply();
        if item.Returned? {
          GoOn(before, Pending(), start, i, at, items, pos, item.value, count - i);
          items := items + [item.value];
        } else if item.Cancelled? {
          StopAt(before, Pending(), start, i, count);
          return Cancelled;
        } else {
          StopAt(before, ahead, start, i, count);
          return Broken;
        }
      }
      r := Returned(items);
    }

    /** read_response */
    method ReadResponse() returns (r: Outcome<Reply>)
      requires Valid()
      modifies this, stream
      ensures Valid()
      ensures old(connected) && !r.Broken? ==> connected && Whole() == old(Whole())
      // a returned reply is the parse of the stream, and exactly its bytes have been taken
      ensures r.Returned? ==>
                && old(connected) && |old(done)| < |done|
                && ParseReply(old(Ahead()), 0, true) == Done(r.value, |done| - |old(done)|)
                && delivered == old(delivered) + [r.value]
                && Pending() == []
                && stream.wire == old(Ahead())[|done| - |old(done)|..]
      // a cancelled call has lost nothing
      ensures r.Cancelled? ==>
                && Ahead() == old(Ahead()) && delivered == old(delivered) && done == old(done)
      // it fails only when the stream does not hold one more well-formed reply
      ensures r.Broken? && old(connected) ==> !ParseReply(old(Ahead()), 0, true).Done?
      // an error line is the reply with its text, unless that text ends the connection
      ensures old(connected) ==> AnswersErrorLine(old(Ahead()), r)
      ensures !old(connected) ==> r.Broken?
      ensures connected == (old(connected) && !r.Broken?)
      ensures r.Broken? ==> delivered == old(delivered)
      ensures Cancels(stream.cancels) + (if r.Cancelled? then 1 else 0) == old(Cancels(stream.cancels))
    {
      hide ParseItems, ParseReply, AnswersErrorLine;
      if !connected {
        return Broken;
      }
      ghost var pending, ahead := Pending(), Ahead();
      if chunks != [] {
        buffer := buffer + JoinAll(chunks);
        chunks := [];
      }
      pos := 0;
      assert Pending() == pending;
      r := ReadReply();
      if r.Broken? {
        connected := false;
      } else if r.Returned? {
        ghost var taken := Pending();
        assert ahead == taken + stream.wire;
        ReplyTaken(done, taken, stream.wire, r.value, |delivered|);
        done := done + taken;
        delivered := delivered + [r.value];
        // _clear
        buffer, chunks := [], [];
        assert Pending() == [];
        NothingYet();
      }
      ErrorLineAnswered(ahead, r);
    }
  }

  ghost predicate AnswersErrorLine(s: bytes, r: Outcome<Reply>) {
    !r.Cancelled? ==>
      forall text | ErrorLineAt(s, 0, text) :: if EndsConnection(text) then r.Broken? else r == Returned(Err(text))
  }

  lemma ErrorLineAnswered(s: bytes, r: Outcome<Reply>)
    requires r.Returned? ==> ParseReply(s, 0, true).Done? && ParseReply(s, 0, true).value == r.value
    requires r.Broken? ==> !ParseReply(s, 0, true).Done?
    ensures AnswersErrorLine(s, r)
  {
    hide ParseReply, EndsConnection;
    forall text | ErrorLineAt(s, 0, text) && !r.Cancelled?
      ensures if EndsConnection(text) then r.Broken? else r == Returned(Err(text))
    {
      ErrorReplyIff(s, 0, text, true);
    }
  }

  predicate Rejected(head: Head) { head.Reject? || (head.Payload? && head.length < 0) }

  lemma ShortMeansEnd(s: bytes, pos: nat)
    requires pos <= |s|
    requires ParseReply(s, pos, true).Done? || ParseReply(s, pos, true) == Short(|s|)
    ensures FindLine(s, pos, true).EndsAt? || pos == |s|
  {
  }

  lemma LineOpensReply(taken: bytes, more: bytes, start: nat, mid: nat)
    requires taken <= more && start + 2 <= mid <= |taken|
    requires FindLine(taken, start, true) == EndsAt(mid - 2)
    ensures ParseReply(more, start, true) == ParseBody(more, mid, ReadHead(taken[start..mid - 2]), true)
  {
    hide ReadHead, ParseBody, FindLine;
    assert taken + more[|taken|..] == more;
    FindLineExtends(taken, more[|taken|..], start, true);
    assert more[start..mid - 2] == taken[start..mid - 2];
  }

  lemma NothingBehind(s: bytes, head: Head)
    requires !Rejected(head)
    ensures ParseBody(s, |s|, head, true).Done? || ParseBody(s, |s|, head, true) == Short(|s|)
  {
    if head.Items? {
      NoneBehind(s, head.count);
    }
  }

  lemma NoneBehind(s: bytes, count: nat)
    ensures ParseItems(s, |s|, count, true).Done? || ParseItems(s, |s|, count, true) == Short(|s|)
  {
    EmptyHasNoLine(s);
  }

  lemma NothingYet()
    ensures ParseReply([], 0, true) == Short(0)
  {
  }

  lemma EmptyRun(s: bytes, pos: nat, strict: bool)
    requires pos <= |s|
    ensures ParseItems(s, pos, 0, strict) == Done([], pos)
  {
  }

  lemma FirstOfRun(s: bytes, pos: nat, count: nat)
    requires pos <= |s| && count > 0
    ensures ParseItems(s, pos, count, true).Done? ==> ParseReply(s, pos, true).Done?
    ensures ParseItems(s, pos, count, true).Short? ==>
              || ParseReply(s, pos, true).Done?
              || ParseReply(s, pos, true) == Short(ParseItems(s, pos, count, true).at)
  {
  }

  /** One more item has been read; what is pending still breaks off only at its end. */
  lemma GoOn(before: bytes, after: bytes, start: nat, i: nat, at: nat, items: seq<Reply>, next: nat, item: Reply,
      left: nat)
    requires before <= after && start <= at <= |before| && left > 0
    requires ParseItems(before, start, i, true) == Done(items, at)
    requires at <= next <= |after| && ParseReply(after, at, true) == Done(item, next)
    requires after == before || next == |after|
    requires var p := ParseItems(before, at, left, true); p.Done? || p == Short(|before|)
    ensures ParseItems(after, start, i + 1, true) == Done(items + [item], next)
    ensures var p := ParseItems(after, next, left - 1, true); p.Done? || p == Short(|after|)
  {
    NextItem(before, after, start, i, i + 1, true);
    NoneBehind(after, left - 1);
  }

  lemma StopAt(before: bytes, after: bytes, start: nat, i: nat, count: nat)
    requires before <= after && start <= |before| && i < count
    requires ParseItems(before, start, i, true).Done?
    requires !ParseReply(after, ParseItems(before, start, i, true).next, true).Done?
    ensures !ParseItems(after, start, count, true).Done?
    ensures var q := ParseReply(after, ParseItems(before, start, i, true).next, true);
            q.Short? ==> ParseItems(after, start, count, true) == Short(q.at)
  {
    hide ParseItems, ParseReply;
    assert before + after[|before|..] == after;
    ParseItemsExtends(before, after[|before|..], start, i, true);
    ParseItemsStop(after, start, i, true);
    ParseItemsBlocked(after, start, i + 1, count, true);
  }

  /** The reply that has been taken is the next one of the whole stream. */
  lemma ReplyTaken(done: bytes, taken: bytes, wire: bytes, reply: Reply, count: nat)
    requires ParseReply(taken, 0, true) == Done(reply, |taken|)
    ensures ParseReply(taken + wire, 0, true) == Done(reply, |taken|)
    ensures var p := ParseItems(done + (taken + wire), 0, count, true);
            p.Done? && p.next == |done| ==>
              ParseItems((done + taken) + ([] + wire), 0, count + 1, true) == Done(p.value + [reply], |done + taken|)
  {
    hide ParseItems, ParseReply;
    ParseReplyExtends(taken, wire, 0, true);
    ParseReplyShifts(done, taken + wire, 0, true);
    var s := done + (taken + wire);
    assert (done + taken) + ([] + wire) == s;
    if ParseItems(s, 0, count, true).Done? {
      ParseItemsSnoc(s, 0, count, true);
    }
  }

  lemma EmptyHasNoLine(s: bytes)
    ensures FindLine(s, |s|, false) == NoEnd
    ensures FindLine(s, |s|, true) == NoEnd
  {
  }

  /** The line a stream reader delivers is the strict line, if there is one. */
  lemma LineFromStream(taken: bytes, wire: bytes)
    ensures var stop := LineStop(wire, 0);
            && (EndsWithCrlf(wire[..stop]) <==> FindLine(taken + wire, |taken|, true).EndsAt?)
            && (EndsWithCrlf(wire[..stop]) ==>
                 FindLine(taken + wire[..stop], |taken|, true) == EndsAt(|taken| + stop - 2))
  {
    hide FindLine, LineStop, EndsWithCrlf;
    var stop := LineStop(wire, 0);
    FirstStop(wire, 0);
    assert wire[0..stop] == wire[..stop];
    FindLineShifts(taken, wire, 0, true);
    if EndsWithCrlf(wire[..stop]) {
      LineOfPrefix(wire, stop);
      FindLineShifts(taken, wire[..stop], 0, true);
    }
  }

  lemma LineTaken(before: bytes, tail: bytes, data: bytes)
    requires EndsWithCrlf(data) && tail == []
    ensures |data| >= 2 && |tail + data| == |data| && |(tail + data)[..|tail + data| - 2]| + 2 == |data|
    ensures (tail + data)[..|tail + data| - 2] == (before + data)[|before|..|before + data| - 2]
    ensures before <= before + data
  {
    assert tail + data == data;
  }

  lemma LineOfPrefix(wire: bytes, stop: nat)
    requires 2 <= stop <= |wire| && EndsWithCrlf(wire[..stop]) && forall i | 0 <= i < stop - 1 :: wire[i] != LF
    ensures FindLine(wire[..stop], 0, true) == EndsAt(stop - 2)
  {
    hide FindLine;
    assert CrlfAt(wire[..stop], stop - 2);
    FindLineIs(wire[..stop], 0, stop - 2, true);
  }

  /**
   A whole run: read_response is called again and again while any awaits are cancelled.
   Every call returns the next reply that was sent or is cancelled at the price of one
   cancellation, and what is still ahead is exactly the rest of what was sent; a call
   fails only when everything has been returned.
   */
  method Run(ghost sent: seq<Reply>, wire: bytes, cancels: seq<bool>, calls: nat)
    returns (values: seq<Reply>, interrupted: nat, broken: nat, parser: AsyncResp2Parser)
    requires AllSendable(sent) && wire == RenderAll(sent)
    ensures fresh(parser) && fresh(parser.stream) && parser.Valid()
    ensures |values| + interrupted + broken == calls && interrupted + Cancels(parser.stream.cancels) == Cancels(cancels)
    ensures values <= sent && (broken > 0 ==> values == sent)
    ensures calls >= |sent| + Cancels(cancels) ==> values == sent
    ensures broken == 0 ==> parser.Ahead() == RenderAll(sent[|values|..])
  {
    hide RenderAll, Render, ParseReply, ParseItems, AllSendable, Cancels;
    var stream := new StreamReader(wire, cancels);
    parser := new AsyncResp2Parser(stream);
    values, interrupted, broken := [], 0, 0;
    assert parser.Ahead() == wire && sent[0..] == sent;
    for i := 0 to calls
      invariant fresh(parser) && fresh(stream) && parser.stream == stream && parser.Valid()
      invariant |values| + interrupted + broken == i && interrupted + Cancels(stream.cancels) == Cancels(cancels)
      invariant values <= sent
      invariant parser.connected <==> broken == 0
      invariant if broken == 0 then parser.Ahead() == RenderAll(sent[|values|..]) else values == sent
    {
      if |values| < |sent| { NextSent(sent, |values|); } else { NothingSent(sent); }
      var r := parser.ReadResponse();
      match r {
        case Returned(value) =>
          values := values + [value];
          assert parser.Pending() + stream.wire == stream.wire;
        case Cancelled =>
          interrupted := interrupted + 1;
        case Broken =>
          broken := broken + 1;
      }
    }
  }

  lemma NothingSent(sent: seq<Reply>)
    ensures RenderAll(sent[|sent|..]) == [] && !ParseReply([], 0, true).Done?
  {
  }

  lemma NextSent(sent: seq<Reply>, k: nat)
    requires AllSendable(sent) && k < |sent|
    ensures ParseReply(RenderAll(sent[k..]), 0, true) == Done(sent[k], |Render(sent[k])|)
    ensures RenderAll(sent[k..])[|Render(sent[k])|..] == RenderAll(sent[k + 1..])
  {
    hide ParseReply, Render;
    SendableAt(sent, k);
    assert sent[k..][0] == sent[k] && sent[k..][1..] == sent[k + 1..];
    assert RenderAll(sent[k..]) == Render(sent[k]) + RenderAll(sent[k + 1..]);
    ParseRender(RenderAll(sent[k..]), 0, sent[k], true);
  }

  lemma {:induction false} SendableAt(sent: seq<Reply>, k: nat)
    requires AllSendable(sent) && k < |sent|
    ensures Sendable(sent[k])
  {
    if k > 0 { SendableAt(sent[1..], k - 1); }
  }

  lemma InFront(a: bytes, b: bytes, i: nat, j: nat)
    requires i <= j <= |a|
    ensures (a + b)[i..j] == a[i..j]
  {
  }

  lemma Behind(a: bytes, b: bytes, n: nat)
    requires n <= |b|
    ensures (a + b)[|a|..|a| + n] == b[..n]
  {
  }
}
