/**
 The blocking RESP2 parser.  A reply is parsed by recursion over the shared read buffer;
 when anything goes wrong on the way the buffer is put back to where the reply began, so
 that a later call starts over with everything that has been received.
 */
module Resp2Parser {
  import opened RespGrammar
  import opened SocketBuffer

  class Resp2Parser {
    const buffer: SocketBuffer
    /** The replies returned so far. */
    ghost var delivered: seq<Reply>

    constructor (sock: Socket)
      requires sock.received == []
      ensures Valid() && InStep() && delivered == [] && fresh(buffer) && buffer.sock == sock
    {
      buffer := new SocketBuffer(sock);
      delivered := [];
    }

    ghost predicate Valid()
      reads this, buffer, buffer.sock
    {
      buffer.Valid()
    }

    /** Everything the socket has produced. */
    ghost function Stream(): bytes
      reads buffer, buffer.sock
    {
      buffer.sock.received
    }

    /** And everything it will have produced before the next fault. */
    ghost function StreamAhead(): bytes
      reads buffer, buffer.sock
    {
      Stream() + Arriving(buffer.sock.script)
    }

    /** Where in the stream the next reply starts. */
    ghost function Cursor(): nat
      reads buffer
    {
      |buffer.purged| + buffer.pos
    }

    /** The replies returned so far are the pure parse of the stream, and the cursor stands right behind them. */
    ghost predicate InStep()
      reads this, buffer, buffer.sock
    {
      ParseItems(Stream(), 0, |delivered|, false) == Done(delivered, Cursor())
    }

    /** What a completed read of `reply` means for the text now buffered. */
    ghost predicate Agrees(p: Parse<Reply>, reply: Reply)
      reads buffer
    {
      p == Done(reply, buffer.pos) || p == Bad(NegativeLength)
    }

    /** The buffered text is rejected for a bare line feed and the socket stays silent. */
    ghost predicate Silent<T>(p: Parse<T>)
      reads buffer.sock
    {
      p == Bad(LoneLf) && buffer.sock.script == []
    }

    /** The call was ended by the next fault of the socket. */
    twostate predicate Disturbed(failure: Failure)
      reads buffer, buffer.sock
    {
      buffer.Interrupted() && failure == RaisedBy(old(NextFault(buffer.sock.script)))
    }

    /** _read_response */
    method ReadReply() returns (r: Result<Reply>)
      requires buffer.Valid()
      modifies buffer, buffer.sock
      ensures buffer.Valid() && buffer.OnlyReceived() && old(buffer.pos) <= buffer.pos
      ensures r.Ok? ==> Agrees(ParseReply(buffer.buffer, old(buffer.pos), false), r.value)
      ensures old(ParseReply(buffer.buffer, buffer.pos, true).Done?) ==>
                r.Ok? && buffer.buffer == old(buffer.buffer) && buffer.sock.script == old(buffer.sock.script)
      ensures old(Silent(ParseReply(buffer.buffer, buffer.pos, true))) ==> r.Raise?
      ensures r.Ok? ==> buffer.Undisturbed()
      ensures Settles(ParseReply(old(buffer.Ahead()), old(buffer.pos), true), r)
      ensures r.Raise? ==> Disturbed(r.failure) || ParseReply(buffer.buffer, old(buffer.pos), false).Bad?
      decreases buffer.Budget(), 0
    {
      hide ReadHead, FindLine, ParseBody, ParseReply, Arriving, NextFault, AfterFault, Faults;
      ghost var start := buffer.pos;
      LineAhead(buffer.Ahead(), start);
      var line := ReadLine();
      if line.Raise? {
        return Raise(line.failure);
      }
      ghost var mid, lined := buffer.pos, buffer.buffer;
      r := ReadBody(ReadHead(line.value));
      HeaderStays(lined, buffer.buffer, start, line.value);
    }

    /** The header line of a reply, which is not empty. */
    method ReadLine() returns (r: Result<bytes>)
      requires buffer.Valid()
      modifies buffer, buffer.sock
      ensures buffer.Valid() && buffer.OnlyReceived()
      ensures r.Ok? ==> old(buffer.pos) + 2 < buffer.pos && buffer.Undisturbed()
      ensures r.Ok? ==> r.value == buffer.buffer[old(buffer.pos)..buffer.pos - 2]
      ensures r.Ok? ==> FindLine(buffer.buffer, old(buffer.pos), false) == EndsAt(buffer.pos - 2)
      ensures r.Raise? ==> old(buffer.pos) <= buffer.pos
      ensures r.Raise? ==> Disturbed(r.failure) || ParseReply(buffer.buffer, old(buffer.pos), false).Bad?
      ensures FindLine(old(buffer.Ahead()), old(buffer.pos), true).EndsAt? ==>
                var p := ParseReply(old(buffer.Ahead()), old(buffer.pos), true);
                if r.Ok? then ParseBody(buffer.Ahead(), buffer.pos, ReadHead(r.value), true) == p
                else r == Raise(ConnectionError) && p == Bad(EmptyLine)
      ensures ParseReply(old(buffer.buffer), old(buffer.pos), true).Done? ==>
                && r.Ok? && ParseBody(buffer.buffer, buffer.pos, ReadHead(r.value), true).Done?
                && buffer.buffer == old(buffer.buffer) && buffer.sock.script == old(buffer.sock.script)
      ensures old(buffer.sock.script) == [] && ParseReply(old(buffer.buffer), old(buffer.pos), true) == Bad(LoneLf) ==>
                r.Raise? || ParseBody(buffer.buffer, buffer.pos, ReadHead(r.value), true) == Bad(LoneLf)
    {
      hide ReadHead, FindLine, ParseBody, ParseReply, Arriving, NextFault, AfterFault, Faults;
      ghost var start, before, ahead := buffer.pos, buffer.buffer, buffer.Ahead();
      LineAhead(before, start);
      LineAhead(ahead, start);
      r := buffer.Readline();
      if r.Raise? {
        return;
      }
      LineArrived(buffer.buffer, Arriving(buffer.sock.script), start, r.value);
      if r.value == [] {
        EmptyLineIsBad(buffer.buffer, start, false);
        return Raise(ConnectionError);
      }
    }

    /** The rest of _read_response, after the header line. */
    method ReadBody(head: Head) returns (r: Result<Reply>)
      requires buffer.Valid()
      modifies buffer, buffer.sock
      ensures buffer.Valid() && buffer.OnlyReceived() && old(buffer.pos) <= buffer.pos
      ensures r.Ok? ==> Agrees(ParseBody(buffer.buffer, old(buffer.pos), head, false), r.value)
      ensures old(ParseBody(buffer.buffer, buffer.pos, head, true).Done?) ==>
                r.Ok? && buffer.buffer == old(buffer.buffer) && buffer.sock.script == old(buffer.sock.script)
      ensures old(Silent(ParseBody(buffer.buffer, buffer.pos, head, true))) ==> r.Raise?
      ensures r.Ok? ==> buffer.Undisturbed()
      ensures Settles(ParseBody(old(buffer.Ahead()), old(buffer.pos), head, true), r)
      ensures r.Raise? ==> Disturbed(r.failure) || ParseBody(buffer.buffer, old(buffer.pos), head, false).Bad?
      decreases buffer.Budget(), 3
    {
      hide Arriving, NextFault, AfterFault, ParseItems;
      match head {
        case Reject(fault) =>
          r := Raise(RaisedFor(fault));
        case Whole(reply) =>
          r := Ok(reply);
        case Payload(length) =>
          var data := buffer.Read(length);
          r := if data.Ok? then Ok(Bulk(data.value)) else Raise(data.failure);
        case Items(count) =>
          var items := ReadItems(count);
          r := if items.Ok? then Ok(Multi(items.value)) else Raise(items.failure);
      }
    }

    method ReadItems(count: nat) returns (r: Result<seq<Reply>>)
      requires buffer.Valid()
      modifies buffer, buffer.sock
      ensures buffer.Valid() && buffer.OnlyReceived() && old(buffer.pos) <= buffer.pos
      ensures r.Ok? ==>
                || ParseItems(buffer.buffer, old(buffer.pos), count, false) == Done(r.value, buffer.pos)
                || ParseItems(buffer.buffer, old(buffer.pos), count, false) == Bad(NegativeLength)
      ensures old(ParseItems(buffer.buffer, buffer.pos, count, true).Done?) ==>
                r.Ok? && buffer.buffer == old(buffer.buffer) && buffer.sock.script == old(buffer.sock.script)
      ensures old(Silent(ParseItems(buffer.buffer, buffer.pos, count, true))) ==> r.Raise?
      ensures r.Ok? ==> buffer.Undisturbed()
      ensures Settles(ParseItems(old(buffer.Ahead()), old(buffer.pos), count, true), r)
      ensures r.Raise? ==> Disturbed(r.failure) || ParseItems(buffer.buffer, old(buffer.pos), count, false).Bad?
      decreases buffer.Budget(), 2
    {
      hide ParseItems, ParseReply, Arriving, NextFault, AfterFault, Faults;
      ghost var start := buffer.pos;
      EmptyRun(buffer.buffer, start);
      ghost var direct := ParseItems(buffer.buffer, start, count, true).Done?;
      ghost var silent := Silent(ParseItems(buffer.buffer, start, count, true));
      ghost var arrives := ParseItems(buffer.Ahead(), start, count, true);
      var items: seq<Reply> := [];
      for i := 0 to count
        invariant buffer.Valid() && buffer.OnlyReceived() && start == old(buffer.pos) <= buffer.pos
        invariant |items| == i
        invariant SoFar(start, items)
        invariant buffer.Undisturbed()
        invariant GoesOn(arrives, ParseItems(buffer.Ahead(), buffer.pos, count - i, true))
        invariant direct || silent ==>
                    buffer.buffer == old(buffer.buffer) && buffer.sock.script == old(buffer.sock.script)
        invariant direct ==> ParseItems(buffer.buffer, buffer.pos, count - i, true).Done?
        invariant silent ==> Silent(ParseItems(buffer.buffer, buffer.pos, count - i, true))
      {
        var more := ReadItem(start, count - i, items);
        if more.Raise? {
          return more;
        }
        items := more.value;
      }
      if silent {
        LoneLfAhead(buffer.buffer, buffer.pos, 0);
      }
      NoneIsDone(buffer.Ahead(), buffer.pos);
      r := Ok(items);
    }

    /** The items read since `start` are the pure parse of the buffered text. */
    ghost predicate SoFar(start: nat, items: seq<Reply>)
      requires start <= |buffer.buffer|
      reads buffer
    {
      || ParseItems(buffer.buffer, start, |items|, false) == Done(items, buffer.pos)
      || ParseItems(buffer.buffer, start, |items|, false) == Bad(NegativeLength)
    }

    /** One more element of an array of which `left` are missing. */
    method ReadItem(ghost start: nat, ghost left: nat, items: seq<Reply>) returns (r: Result<seq<Reply>>)
      requires buffer.Valid() && start <= buffer.pos && left > 0 && SoFar(start, items)
      modifies buffer, buffer.sock
      ensures buffer.Valid() && buffer.OnlyReceived() && old(buffer.pos) <= buffer.pos
      ensures r.Ok? ==> buffer.Undisturbed() && |r.value| == |items| + 1 && SoFar(start, r.value)
      ensures r.Raise? ==> Disturbed(r.failure) || ParseItems(buffer.buffer, start, |items| + left, false).Bad?
      ensures var p := ParseItems(old(buffer.Ahead()), old(buffer.pos), left, true);
              if r.Ok? then GoesOn(p, ParseItems(buffer.Ahead(), buffer.pos, left - 1, true)) else Settles(p, r)
      ensures old(ParseItems(buffer.buffer, buffer.pos, left, true).Done?) ==>
                && r.Ok? && ParseItems(buffer.buffer, buffer.pos, left - 1, true).Done?
                && buffer.buffer == old(buffer.buffer) && buffer.sock.script == old(buffer.sock.script)
      ensures old(Silent(ParseItems(buffer.buffer, buffer.pos, left, true))) ==>
                || r.Raise?
                || (buffer.buffer == old(buffer.buffer)
                    && Silent(ParseItems(buffer.buffer, buffer.pos, left - 1, true)))
      decreases buffer.Budget(), 1
    {
      hide ParseItems, ParseReply, Arriving, NextFault, AfterFault, Faults;
      ghost var before, at, ahead := buffer.buffer, buffer.pos, buffer.Ahead();
      StrictItemsAhead(before, at, left);
      StrictItemsAhead(ahead, at, left);
      var item := ReadReply();
      NextItem(before, buffer.buffer, start, |items|, |items| + left, false);
      ParseReplyExtends(buffer.buffer, Arriving(buffer.sock.script), at, false);
      r := if item.Ok? then Ok(items + [item.value]) else Raise(item.failure);
    }

    /** _read_response, seen in the whole stream rather than in the text that is still buffered. */
    method ReadFromStream() returns (r: Result<Reply>)
      requires Valid()
      modifies buffer, buffer.sock
      ensures Valid() && buffer.OnlyReceived() && old(buffer.pos) <= buffer.pos
      ensures old(Stream()) <= Stream()
      ensures Stream() + Bytes(buffer.sock.script) == old(Stream() + Bytes(buffer.sock.script))
      ensures r.Ok? ==>
                || ParseReply(Stream(), old(Cursor()), false) == Done(r.value, Cursor())
                || ParseReply(Stream(), old(Cursor()), false) == Bad(NegativeLength)
      ensures r.Ok? ==> Undisturbed()
      ensures r.Raise? ==> Interrupted(r.failure) || ParseReply(Stream(), old(Cursor()), false).Bad?
      ensures Settles(ParseReply(old(StreamAhead()), old(Cursor()), true), r)
      ensures old(ParseReply(buffer.buffer, buffer.pos, true).Done?) ==> r.Ok? && Stream() == old(Stream())
      ensures old(ParseReply(buffer.buffer, buffer.pos, false).Done?) && old(buffer.sock.script) == [] ==>
                (r.Ok? <==> old(ParseReply(buffer.buffer, buffer.pos, true).Done?))
    {
      hide ParseItems, ParseReply, Arriving, NextFault, AfterFault, Faults;
      ghost var stream0 := Stream();
      AheadOfBoth(buffer.purged, buffer.buffer, Arriving(buffer.sock.script), buffer.pos);
      if ParseReply(buffer.buffer, buffer.pos, false).Done? {
        OnlyLoneLfDiffers(buffer.buffer, buffer.pos);
      }
      ghost var pos := buffer.pos;
      r := ReadReply();
      assert stream0 <= Stream() by {
        assert Stream() == buffer.purged + buffer.buffer;
      }
      ConcatAssoc(buffer.purged, buffer.buffer, Arriving(buffer.sock.script));
      ParseReplyShifts(buffer.purged, buffer.buffer, pos, false);
    }

    /** No fault was met. */
    twostate predicate Undisturbed()
      reads buffer, buffer.sock
    {
      && StreamAhead() == old(StreamAhead())
      && AfterFault(buffer.sock.script) == old(AfterFault(buffer.sock.script))
      && NextFault(buffer.sock.script) == old(NextFault(buffer.sock.script))
      && Faults(buffer.sock.script) == old(Faults(buffer.sock.script))
    }

    /** The next fault was met, behind all the bytes in front of it, and raised as this. */
    twostate predicate Interrupted(failure: Failure)
      reads buffer, buffer.sock
    {
      && Stream() == old(StreamAhead())
      && buffer.sock.script == old(AfterFault(buffer.sock.script))
      && failure == RaisedBy(old(NextFault(buffer.sock.script)))
    }

    /** read_response */
    method ReadResponse() returns (r: Result<Reply>)
      requires Valid()
      modifies this, buffer, buffer.sock
      ensures Valid()
      ensures old(Stream()) <= Stream()
      ensures Stream() + Bytes(buffer.sock.script) == old(Stream() + Bytes(buffer.sock.script))
      // a returned reply is the pure parse of the stream at the cursor, which moves right behind it
      ensures r.Ok? ==>
                || ParseReply(Stream(), old(Cursor()), false) == Done(r.value, Cursor())
                || ParseReply(Stream(), old(Cursor()), false) == Bad(NegativeLength)
      // a failure takes no byte away: the next call starts at the same place
      ensures r.Raise? ==> Cursor() == old(Cursor()) && delivered == old(delivered)
      // and there is one only at a fault of the socket or a malformed reply
      ensures r.Raise? ==> Interrupted(r.failure) || ParseReply(Stream(), old(Cursor()), false).Bad?
      // a reply without bare line feeds is returned whenever it arrives before the next fault
      ensures Settles(ParseReply(old(StreamAhead()), old(Cursor()), true), r)
      ensures AnswersErrorLine(old(StreamAhead()), old(Cursor()), r)
      ensures var p := ParseReply(old(StreamAhead()), old(Cursor()), true);
              && (p == Bad(BadNumber) ==> r == Raise(ValueError))
              && (p == Bad(BadType) ==> r == Raise(InvalidResponse))
              && (p == Bad(EmptyLine) ==> r == Raise(ConnectionError))
      ensures r.Ok? ==> Undisturbed()
      ensures r.Ok? ==> delivered == old(delivered) + [r.value]
      // and without a recv if it is buffered
      ensures old(ParseReply(buffer.buffer, buffer.pos, true).Done?) ==> r.Ok? && Stream() == old(Stream())
      // with a silent socket, that is exactly when a buffered reply is returned
      ensures old(ParseReply(buffer.buffer, buffer.pos, false).Done?) && old(buffer.sock.script) == [] ==>
                (r.Ok? <==> old(ParseReply(buffer.buffer, buffer.pos, true).Done?))
      ensures old(InStep()) && ParseReply(Stream(), old(Cursor()), false) != Bad(NegativeLength) ==> InStep()
    {
      hide ParseItems, ParseReply, Arriving, NextFault, AfterFault, Faults;
      var pos := buffer.pos;
      ghost var stream0, cursor, ahead := Stream(), Cursor(), StreamAhead();
      r := ReadFromStream();
      ErrorLineSettles(ahead, Stream(), Arriving(buffer.sock.script), cursor, r);
      NextItem(stream0, Stream(), 0, |delivered|, |delivered| + 1, false);
      if r.Raise? {
        StillParsed(stream0, Stream(), |delivered|);
        buffer.Rewind(pos);
      } else {
        delivered := delivered + [r.value];
        buffer.Purge();
      }
    }
  }

  /** A strict reply begins with a strict line, and one with a bare line feed in its line has no strict line. */
  lemma LineAhead(s: bytes, pos: nat)
    requires pos <= |s|
    ensures FindLine(s, pos, true).EndsAt? ==>
              && FindLine(s, pos, false) == FindLine(s, pos, true)
              && var end := FindLine(s, pos, true).end;
                 ParseBody(s, end + 2, ReadHead(s[pos..end]), true) == ParseReply(s, pos, true)
    ensures ParseReply(s, pos, true).Done? || Malformed(ParseReply(s, pos, true)) ==> FindLine(s, pos, true).EndsAt?
    ensures FindLine(s, pos, true) == EndsAt(pos) ==> ParseReply(s, pos, true) == Bad(EmptyLine)
  {
    StrictLineIsLine(s, pos);
    hide FindLine, ReadHead;
    if FindLine(s, pos, true) == EndsAt(pos) { EmptyLineIsBad(s, pos, true); }
  }

  /** The first of several strict replies, or what is wrong with it or behind it. */
  lemma StrictItemsAhead(s: bytes, pos: nat, left: nat)
    requires pos <= |s| && left > 0
    ensures var p, q := ParseItems(s, pos, left, true), ParseReply(s, pos, true);
            !p.Short? ==>
              || (q.Bad? && p == Bad(q.fault))
              || (q.Done? && ParseReply(s, pos, false) == q
                  && (p.Done? ==> ParseItems(s, q.next, left - 1, true).Done?)
                  && (p.Bad? ==> ParseItems(s, q.next, left - 1, true) == p))
  {
    StrictReplyIsReply(s, pos);
  }

  lemma NoneIsDone(s: bytes, pos: nat)
    requires pos <= |s|
    ensures ParseItems(s, pos, 0, true).Done?
  {
  }

  /** The text is no reply, and the original notices. */
  predicate Malformed<T>(p: Parse<T>) { p.Bad? && p.fault != LoneLf && p.fault != NegativeLength }

  /** The exception for what is wrong with a reply. */
  function RaisedFor(fault: Fault): Failure {
    match fault
    case EmptyLine => ConnectionError
    case Hangup(_) => ConnectionError
    case BadNumber => ValueError
    case _ => InvalidResponse
  }

  /** A reply that arrives is returned, and one that arrives malformed is refused for what is wrong with it. */
  predicate Settles<T, U>(p: Parse<T>, r: Result<U>) {
    && (p.Done? ==> r.Ok?)
    && (Malformed(p) ==> r.Raise? && r.failure == RaisedFor(p.fault))
  }

  /** An error line gives the error as a reply, or ConnectionError if its text is one that ends the connection. */
  ghost predicate AnswersErrorLine(s: bytes, pos: nat, r: Result<Reply>) {
    forall text | ErrorLineAt(s, pos, text) ::
        r == if EndsConnection(text) then Raise(ConnectionError) else Ok(Err(text))
  }

  lemma ErrorLineSettles(ahead: bytes, stream: bytes, coming: bytes, pos: nat, r: Result<Reply>)
    requires pos <= |ahead| && Settles(ParseReply(ahead, pos, true), r)
    requires r.Ok? ==> ahead == stream + coming && pos <= |stream|
    requires r.Ok? ==>
               || ParseReply(stream, pos, false) == Bad(NegativeLength)
               || (ParseReply(stream, pos, false).Done? && ParseReply(stream, pos, false).value == r.value)
    ensures AnswersErrorLine(ahead, pos, r)
  {
    hide ParseReply, EndsConnection;
    forall text | ErrorLineAt(ahead, pos, text)
      ensures r == if EndsConnection(text) then Raise(ConnectionError) else Ok(Err(text))
    {
      ErrorReplyIff(ahead, pos, text, true);
      ErrorReplyIff(ahead, pos, text, false);
      if r.Ok? { ParseReplyExtends(stream, coming, pos, false); }
    }
  }

  predicate GoesOn(p: Parse<seq<Reply>>, rest: Parse<seq<Reply>>) {
    (p.Done? ==> rest.Done?) && (Malformed(p) ==> rest == p)
  }

  lemma AheadOfBoth(gone: bytes, buf: bytes, coming: bytes, pos: nat)
    requires pos <= |buf|
    ensures (gone + buf) + coming == gone + (buf + coming)
    ensures ParseReply((gone + buf) + coming, |gone| + pos, true) == Shift(ParseReply(buf + coming, pos, true), |gone|)
  {
    hide ParseReply;
    ConcatAssoc(gone, buf, coming);
    ParseReplyShifts(gone, buf + coming, pos, true);
  }

  lemma LineArrived(s: bytes, later: bytes, pos: nat, line: bytes)
    requires pos <= |s| && FindLine(s, pos, false) == EndsAt(pos + |line|) && line == s[pos..pos + |line|]
    ensures FindLine(s + later, pos, false) == EndsAt(pos + |line|) && line == (s + later)[pos..pos + |line|]
  {
    FindLineExtends(s, later, pos, false);
  }

  lemma HeaderStays(before: bytes, after: bytes, pos: nat, line: bytes)
    requires before <= after && pos <= |before|
    requires FindLine(before, pos, false) == EndsAt(pos + |line|) && line == before[pos..pos + |line|]
    ensures ParseReply(after, pos, false) == ParseBody(after, pos + |line| + 2, ReadHead(line), false)
  {
    hide ReadHead, FindLine, ParseBody, ParseReply;
    assert before + after[|before|..] == after;
    LineArrived(before, after[|before|..], pos, line);
    ParseAtLine(after, pos, pos + |line|, false);
  }

  /** Every reply that the stream holds whole has been returned. */
  ghost predicate AllReturned(stream: bytes, sent: seq<Reply>, count: nat) {
    forall n: nat | n <= |sent| && RenderAll(sent[..n]) <= stream :: n <= count
  }

  /**
   A whole run: the peer sends the replies `sent`, cut into chunks and interrupted by
   faults in any way, and read_response is called any number of times, also after
   failures.  What is returned is the sent replies in order, and nothing but a timeout or
   a lost connection is ever raised.  There are no more failures than faults until all
   that was sent has been returned, so enough calls return everything.
   */
  method Run(script: seq<Recv>, ghost sent: seq<Reply>, calls: nat)
    returns (values: seq<Reply>, failures: seq<Failure>, parser: Resp2Parser)
    requires AllSendable(sent) && Bytes(script) <= RenderAll(sent)
    ensures values <= sent
    ensures forall f | f in failures :: f == TimeoutError || f == ConnectionError
    ensures |values| + |failures| == calls
    ensures parser.Stream() + Bytes(parser.buffer.sock.script) == Bytes(script)
    ensures |failures| + Faults(parser.buffer.sock.script) == Faults(script)
              || AllReturned(Bytes(script), sent, |values|)
    ensures calls >= |sent| + Faults(script) && Bytes(script) == RenderAll(sent) ==> values == sent
    ensures fresh(parser) && fresh(parser.buffer) && fresh(parser.buffer.sock)
    ensures parser.Valid() && parser.InStep() && parser.delivered == values
  {
    hide ParseItems, ParseReply, RenderAll, Bytes, Faults, AllReturned, Arriving, AfterFault, NextFault;
    var sock := new Socket(script);
    parser := new Resp2Parser(sock);
    values, failures := [], [];
    EmptyRun([], 0);
    for i := 0 to calls
      invariant fresh(parser) && fresh(parser.buffer) && fresh(parser.buffer.sock)
      invariant parser.Valid() && parser.InStep() && parser.delivered == values
      invariant parser.Stream() + Bytes(parser.buffer.sock.script) == Bytes(script)
      invariant |values| + |failures| == i
      invariant forall f | f in failures :: f == TimeoutError || f == ConnectionError
      invariant |failures| + Faults(parser.buffer.sock.script) == Faults(script)
                  || AllReturned(Bytes(script), sent, |values|)
    {
      var r := CallOnce(parser, script, sent);
      if r.Ok? {
        values := values + [r.value];
        MoreReturned(Bytes(script), sent, |values| - 1);
      } else {
        failures := failures + [r.failure];
      }
    }
    ValuesAreSent(parser.Stream(), Bytes(parser.buffer.sock.script), sent, values);
    if Bytes(script) == RenderAll(sent) && AllReturned(Bytes(script), sent, |values|) {
      WholeReturned(sent, |values|);
    }
  }

  lemma ValuesAreSent(stream: bytes, left: bytes, sent: seq<Reply>, values: seq<Reply>)
    requires AllSendable(sent) && stream + left <= RenderAll(sent)
    requires ParseItems(stream, 0, |values|, false).Done? && ParseItems(stream, 0, |values|, false).value == values
    ensures values <= sent
  {
    hide ParseItems, RenderAll, AllSendable;
    var later := left + RenderAll(sent)[|stream + left|..];
    assert stream + later == RenderAll(sent);
    ArrivedRepliesAreSent(stream, later, sent, |values|, false);
  }

  /** One call of a run: a failure costs a fault, unless there is nothing more to return. */
  method CallOnce(parser: Resp2Parser, ghost script: seq<Recv>, ghost sent: seq<Reply>) returns (r: Result<Reply>)
    requires AllSendable(sent) && Bytes(script) <= RenderAll(sent) && parser.Valid() && parser.InStep()
    requires parser.Stream() + Bytes(parser.buffer.sock.script) == Bytes(script)
    modifies parser, parser.buffer, parser.buffer.sock
    ensures parser.Valid() && parser.InStep()
    ensures parser.Stream() + Bytes(parser.buffer.sock.script) == Bytes(script)
    ensures parser.delivered == if r.Ok? then old(parser.delivered) + [r.value] else old(parser.delivered)
    ensures r.Ok? ==> Faults(parser.buffer.sock.script) == old(Faults(parser.buffer.sock.script))
    ensures r.Raise? ==> r.failure == TimeoutError || r.failure == ConnectionError
    ensures r.Raise? ==> AllReturned(parser.Stream(), sent, |parser.delivered|)
    ensures r.Raise? ==>
              || Faults(parser.buffer.sock.script) + 1 == old(Faults(parser.buffer.sock.script))
              || (parser.buffer.sock.script == [] && parser.Stream() == Bytes(script))
  {
    hide ParseItems, ParseReply, RenderAll, Bytes, Faults, AllReturned, Arriving, AfterFault, NextFault;
    ghost var left, before, ahead := parser.buffer.sock.script, parser.Stream(), parser.StreamAhead();
    ghost var values := parser.delivered;
    r := parser.ReadResponse();
    NeverBad(before, parser.Stream(), Bytes(parser.buffer.sock.script), sent, values);
    if r.Raise? {
      FaultsLeft(left);
      NothingMoreToReturn(before, parser.Stream(), sent, values);
      assert Faults(left) == 0 ==> ahead == Bytes(script);
    }
  }

  lemma MoreReturned(stream: bytes, sent: seq<Reply>, count: nat)
    ensures AllReturned(stream, sent, count) ==> AllReturned(stream, sent, count + 1)
  {
  }

  lemma WholeReturned(sent: seq<Reply>, count: nat)
    requires AllReturned(RenderAll(sent), sent, count)
    ensures |sent| <= count
  {
    assert sent[..|sent|] == sent;
  }

  /** If the stream holds no further reply, then every whole reply has been returned. */
  lemma NothingMoreToReturn(before: bytes, s: bytes, sent: seq<Reply>, values: seq<Reply>)
    requires AllSendable(sent) && before <= s && ParseItems(before, 0, |values|, false).Done?
    requires !ParseReply(s, ParseItems(before, 0, |values|, false).next, true).Done?
    ensures AllReturned(s, sent, |values|)
  {
    hide ParseItems, ParseReply, RenderAll;
    forall n: nat | n <= |sent| && RenderAll(sent[..n]) <= s ensures n <= |values| {
      if n > |values| {
        SendablePrefix(sent, n);
        ParseRenderAll(s, 0, sent[..n], true);
        ParseItemsPrefix(s, 0, |values| + 1, n, true);
        ParseItemsPrefix(s, 0, |values|, n, true);
        ParseItemsStop(s, 0, |values|, true);
        StrictItemsAreItems(s, 0, |values|);
        StillParsed(before, s, |values|);
      }
    }
  }

  lemma {:induction false} SendablePrefix(sent: seq<Reply>, n: nat)
    requires AllSendable(sent) && n <= |sent|
    ensures AllSendable(sent[..n])
  {
    if n > 0 {
      assert sent[..n] == [sent[0]] + sent[1..][..n - 1];
      SendablePrefix(sent[1..], n - 1);
    }
  }

  lemma NeverBad(before: bytes, after: bytes, later: bytes, sent: seq<Reply>, values: seq<Reply>)
    requires AllSendable(sent) && before <= after && after + later <= RenderAll(sent)
    requires ParseItems(before, 0, |values|, false).Done?
    ensures !ParseReply(after, ParseItems(before, 0, |values|, false).next, false).Bad?
  {
    hide ParseItems, ParseReply, RenderAll, AllSendable;
    var rest := later + RenderAll(sent)[|after + later|..];
    assert after + rest == RenderAll(sent);
    SentIsNeverBad(after, rest, sent, |values| + 1, false);
    NextItem(before, after, 0, |values|, |values| + 1, false);
  }

  /** A reply that the grammar accepts but that is not returned although all of it is buffered. */
  lemma BareLineFeedStalls()
    ensures var s: bytes := [PLUS, 97, LF, 98, CR, LF];
            && ParseReply(s, 0, false) == Done(Status([97, LF, 98]), 6)
            && ParseReply(s, 0, true) == Bad(LoneLf)
  {
    var s: bytes := [PLUS, 97, LF, 98, CR, LF];
    FindLineIs(s, 0, 4, false);
    assert s[0..4] == [PLUS, 97, LF, 98];
    assert [PLUS, 97, LF, 98][1..] == [97, LF, 98];
    assert FindLine(s, 2, true) == BareLf(2);
    assert FindLine(s, 1, true) == BareLf(2);
  }

  /** All of that reply is buffered, and the parser raises. */
  method StallsThoughBuffered() returns (parser: Resp2Parser, r: Result<Reply>)
    ensures fresh(parser) && fresh(parser.buffer) && parser.Stream() == [PLUS, 97, LF, 98, CR, LF]
    ensures r.Raise? && parser.Cursor() == 0
  {
    hide ParseItems, ParseReply;
    var s: bytes := [PLUS, 97, LF, 98, CR, LF];
    var sock := new Socket([Data(s)]);
    parser := new Resp2Parser(sock);
    assert [Data(s)][1..] == [] && Arriving([]) == [];
    assert Arriving([Data(s)]) == s;
    assert |parser.buffer.purged + parser.buffer.buffer| == 0;
    assert parser.buffer.purged == [] && parser.buffer.buffer == [] && parser.buffer.pos == 0;
    var arrived := parser.buffer.CanRead();
    assert sock.script == [] && parser.buffer.buffer + [] == [] + s && parser.buffer.purged == [];
    assert parser.Stream() == parser.buffer.purged + parser.buffer.buffer == [] + s;
    assert parser.buffer.pos == 0;
    assert parser.Cursor() == 0 && Bytes([]) == [];
    ghost var left := Bytes(sock.script);
    BareLineFeedStalls();
    ghost var buf := parser.buffer.buffer;
    assert buf + [] == buf && [] + s == s;
    assert buf == s;
    assert ParseReply(parser.buffer.buffer, parser.buffer.pos, false).Done?;
    assert !ParseReply(parser.buffer.buffer, parser.buffer.pos, true).Done?;
    r := parser.ReadResponse();
    assert |parser.Stream()| + |Bytes(sock.script)| == |s| + |left|;
  }

  lemma StillParsed(before: bytes, after: bytes, count: nat)
    requires before <= after
    ensures ParseItems(before, 0, count, false).Done? ==>
              ParseItems(after, 0, count, false) == ParseItems(before, 0, count, false)
  {
    assert before + after[|before|..] == after;
    ParseItemsExtends(before, after[|before|..], 0, count, false);
  }

  lemma EmptyRun(s: bytes, pos: nat)
    requires pos <= |s|
    ensures ParseItems(s, pos, 0, false) == Done([], pos)
  {
  }
}
