/**
 A pipeline on one connection: the replies of MULTI, the queued commands and EXEC are read
 and put into one response list, and WATCH is undone before the connection goes back to
 its pool.
 */
module Transaction {
  import opened Wrappers

  /** What a command does to the server's state of the connection. */
  datatype Kind = Watch | Unwatch | Multi | Exec | Discard | Other

  /**
   A queued command. `upper` says that its name is spelt in capitals; `refusal` is an error the
   server answers with instead of carrying it out; `empty` is the response of a command that is
   not sent at all.
   */
  datatype Command = Command(kind: Kind, upper: bool, refusal: Option<string>, empty: Option<string>)

  /** An entry of a response list: a value, or an exception object. */
  datatype Item = Value(value: string) | Failed(error: string)

  datatype Reply = Status | Error(error: string) | Abort(error: string) | Items(items: seq<Item>) | Nil | Lost

  // ---------------------------------------------------------------------------
  // The server's side of a connection

  datatype Conn = Conn(alive: bool, watches: bool, multi: bool)

  const FRESH := Conn(true, false, false)
  const DEAD := Conn(false, false, false)

  datatype Served = Served(conn: Conn, reply: Reply)

  /** One command; `exec` is what EXEC answers when there is a transaction. A refused EXEC aborts it. */
  function Serve(c: Conn, cmd: Command, exec: Reply): Served {
    match cmd.kind
    case Exec =>
      if !c.multi then Served(c, Error("ERR EXEC without MULTI"))
      else Served(c.(multi := false, watches := false), if cmd.refusal.Some? then Abort(cmd.refusal.value) else exec)
    case _ =>
      if cmd.refusal.Some? then Served(c, Error(cmd.refusal.value))
      else
        match cmd.kind
        case Watch => if c.multi then Served(c, Error("ERR WATCH inside MULTI is not allowed"))
            else Served(c.(watches := true), Status)
        case Unwatch => Served(if c.multi then c else c.(watches := false), Status)
        case Multi => if c.multi then Served(c, Error("ERR MULTI calls can not be nested"))
            else Served(c.(multi := true), Status)
        case Discard => if c.multi then Served(c.(multi := false, watches := false), Status)
            else Served(c, Error("ERR DISCARD without MULTI"))
        case _ => Served(c, Status)
  }

  const MULTI := Command(Multi, true, None, None)
  const EXEC := Command(Exec, true, None, None)
  const UNWATCH := Command(Unwatch, true, None, None)

  // ---------------------------------------------------------------------------
  // The response list of a transaction

  datatype Noted = Noted(index: nat, item: Item)

  /** list.insert: an index beyond the end appends. */
  function Insert(response: seq<Item>, at: nat, item: Item): (r: seq<Item>)
    ensures |r| == |response| + 1
  {
    if at <= |response| then response[..at] + [item] + response[at..] else response + [item]
  }

  function InsertAll(response: seq<Item>, notes: seq<Noted>): (r: seq<Item>)
    ensures |r| == |response| + |notes|
  {
    if notes == [] then response
    else
      var last := notes[|notes| - 1];
      Insert(InsertAll(response, notes[..|notes| - 1]), last.index, last.item)
  }

  /** The commands that are sent. */
  function SentCount(commands: seq<Command>): (n: nat)
    ensures n <= |commands|
  {
    if commands == [] then 0
    else SentCount(commands[..|commands| - 1]) + (if commands[|commands| - 1].empty.Some? then 0 else 1)
  }

  /** What the reply to a command while it is queued contributes: placeholders and errors are noted. */
  function NoteOf(command: Command, reply: Reply): Option<Item> {
    if command.empty.Some? then Some(Value(command.empty.value))
    else
      match reply
      case Error(e) => Some(Failed(e))
      case Abort(e) => Some(Failed(e))
      case _ => None
  }

  /** The note of the last command; the replies are those to the commands that are sent. */
  function LastNote(commands: seq<Command>, replies: seq<Reply>): Option<Item>
    requires commands != [] && |replies| >= SentCount(commands)
  {
    var i := |commands| - 1;
    NoteOf(commands[i], if commands[i].empty.Some? then Status else replies[SentCount(commands[..i])])
  }

  /** The reply to a command that is sent. */
  function ReplyTo(commands: seq<Command>, replies: seq<Reply>, i: nat): Reply
    requires i < |commands|
  {
    var k := SentCount(commands[..i]);
    if commands[i].empty == None && k < |replies| then replies[k] else Status
  }

  predicate Refusal(reply: Reply) { reply.Error? || reply.Abort? }

  /** The command is sent and the server does not refuse it. */
  predicate Accepted(commands: seq<Command>, replies: seq<Reply>, i: nat)
    requires i < |commands|
  {
    commands[i].empty == None && !Refusal(ReplyTo(commands, replies, i))
  }

  /** How many of the first commands are accepted. */
  function AcceptedOf(commands: seq<Command>, replies: seq<Reply>, n: nat): (r: nat)
    requires n <= |commands|
    ensures r <= n
  {
    if n == 0 then 0 else AcceptedOf(commands, replies, n - 1) + if Accepted(commands, replies, n - 1) then 1 else 0
  }

  /** What stands in the response list for a command that is not accepted. */
  function Substitute(commands: seq<Command>, replies: seq<Reply>, i: nat): Item
    requires i < |commands| && !Accepted(commands, replies, i)
  {
    match commands[i].empty
    case Some(placeholder) => Value(placeholder)
    case None => Failed(ReplyTo(commands, replies, i).error)
  }

  /** The notes of all commands. */
  function Notes(commands: seq<Command>, replies: seq<Reply>): (r: seq<Noted>)
    requires |replies| >= SentCount(commands)
    ensures forall k | 0 <= k < |r| :: r[k].index < |commands|
  {
    if commands == [] then []
    else
      var i := |commands| - 1;
      var rest, note := Notes(commands[..i], replies), LastNote(commands, replies);
      if note.Some? then rest + [Noted(i, note.value)] else rest
  }

  /** What belongs at each index: a placeholder, a queueing error, or the next entry of the EXEC reply. */
  function Aligned(commands: seq<Command>, replies: seq<Reply>, items: seq<Item>): (r: seq<Item>)
    requires |replies| >= SentCount(commands) && |items| == |commands| - |Notes(commands, replies)|
    ensures |r| == |commands|
  {
    if commands == [] then []
    else
      var i := |commands| - 1;
      var note := LastNote(commands, replies);
      if note.Some? then Aligned(commands[..i], replies, items) + [note.value]
      else
        assert |items| >= 1 by { NotesFit(commands[..i], replies); }
        Aligned(commands[..i], replies, items[..|items| - 1]) + [items[|items| - 1]]
  }

  lemma {:induction false} NotesFit(commands: seq<Command>, replies: seq<Reply>)
    requires |replies| >= SentCount(commands)
    ensures |Notes(commands, replies)| <= |commands|
  {
    if commands != [] { NotesFit(commands[..|commands| - 1], replies); }
  }

  lemma InsertBetween(front: seq<Item>, back: seq<Item>, item: Item)
    ensures Insert(front + back, |front|, item) == front + [item] + back
  {
    assert (front + back)[..|front|] == front && (front + back)[|front|..] == back;
  }

  /** Inserting the notes in ascending order puts every reply at the index of its own command. */
  lemma {:induction false} InsertingAligns(commands: seq<Command>, replies: seq<Reply>, items: seq<Item>)
    requires |replies| >= SentCount(commands) && |items| >= |commands| - |Notes(commands, replies)| >= 0
    ensures var n := |commands| - |Notes(commands, replies)|;
            InsertAll(items, Notes(commands, replies)) == Aligned(commands, replies, items[..n]) + items[n..]
  {
    if commands == [] {
      assert items[..0] == [] && items[0..] == items;
    } else {
      var i := |commands| - 1;
      var init := commands[..i];
      var rest, note := Notes(init, replies), LastNote(commands, replies);
      NotesFit(init, replies);
      InsertingAligns(init, replies, items);
      hide LastNote, SentCount, Insert;
      var n := i - |rest|;
      if note == None {
        hide InsertAll;
        Advance(Aligned(init, replies, items[..n]), items, n);
        assert items[..n + 1][..n] == items[..n];
      } else {
        assert (rest + [Noted(i, note.value)])[..|rest|] == rest;
        InsertBetween(Aligned(init, replies, items[..n]), items[n..], note.value);
      }
    }
  }

  lemma Advance(front: seq<Item>, items: seq<Item>, n: nat)
    requires n < |items|
    ensures front + items[n..] == (front + [items[n]]) + items[n + 1..]
  {
  }

  lemma {:induction false} SentSoFar(commands: seq<Command>, i: nat)
    requires i < |commands|
    ensures SentCount(commands[..i]) + (if commands[i].empty.Some? then 0 else 1) <= SentCount(commands)
  {
    var n := |commands| - 1;
    if i < n {
      assert commands[..n][..i] == commands[..i];
      SentSoFar(commands[..n], i);
    }
  }

  /** A command is noted exactly when it is not accepted. */
  lemma LastNoteIs(commands: seq<Command>, replies: seq<Reply>)
    requires commands != [] && |replies| >= SentCount(commands)
    ensures var i := |commands| - 1;
            LastNote(commands, replies)
            == if Accepted(commands, replies, i) then None else Some(Substitute(commands, replies, i))
  {
    SentSoFar(commands, |commands| - 1);
  }

  lemma SameInPrefix(commands: seq<Command>, replies: seq<Reply>, n: nat, i: nat)
    requires i < n <= |commands|
    ensures ReplyTo(commands[..n], replies, i) == ReplyTo(commands, replies, i)
    ensures Accepted(commands[..n], replies, i) == Accepted(commands, replies, i)
  {
    assert commands[..n][..i] == commands[..i];
  }

  lemma {:induction false} SameCount(commands: seq<Command>, replies: seq<Reply>, n: nat, i: nat)
    requires i <= n <= |commands|
    ensures AcceptedOf(commands[..n], replies, i) == AcceptedOf(commands, replies, i)
  {
    if i > 0 {
      SameCount(commands, replies, n, i - 1);
      SameInPrefix(commands, replies, n, i - 1);
      hide Accepted;
    }
  }

  /** The commands that are not noted are the accepted ones. */
  lemma {:induction false} NotesCount(commands: seq<Command>, replies: seq<Reply>)
    requires |replies| >= SentCount(commands)
    ensures |Notes(commands, replies)| == |commands| - AcceptedOf(commands, replies, |commands|)
  {
    if commands != [] {
      var n := |commands| - 1;
      NotesCount(commands[..n], replies);
      LastNoteIs(commands, replies);
      SameCount(commands, replies, n, n);
      hide Accepted, LastNote, SentCount, Substitute;
    }
  }

  /**
   Spelt out: a command that is not sent has its placeholder, a refused one its error, and the entry of
   an accepted one is the entry of EXEC that counts the accepted ones before it.
   */
  lemma {:induction false} AlignedAt(commands: seq<Command>, replies: seq<Reply>, items: seq<Item>, i: nat)
    requires |replies| >= SentCount(commands) && |items| == |commands| - |Notes(commands, replies)| && i < |commands|
    ensures |items| == AcceptedOf(commands, replies, |commands|)
    ensures if Accepted(commands, replies, i) then
              && AcceptedOf(commands, replies, i) < |items|
              && Aligned(commands, replies, items)[i] == items[AcceptedOf(commands, replies, i)]
            else Aligned(commands, replies, items)[i] == Substitute(commands, replies, i)
  {
    var n := |commands| - 1;
    var init := commands[..n];
    NotesFit(init, replies);
    NotesCount(commands, replies);
    NotesCount(init, replies);
    LastNoteIs(commands, replies);
    SameCount(commands, replies, n, n);
    if i < n {
      AlignedAt(init, replies, if LastNote(commands, replies).Some? then items else items[..|items| - 1], i);
      SameInPrefix(commands, replies, n, i);
      SameCount(commands, replies, n, i);
    }
    hide LastNote, SentCount, ReplyTo;
  }

  // ---------------------------------------------------------------------------
  // Reading the replies

  /** How execute ends; TypeError stands for raising an object that is no exception. */
  datatype Ended = Response(items: seq<Item>) | Raised(error: string) | TypeError | WatchError | WrongNumber
      | ConnectionError

  /** raise_first_error. */
  function FirstFailed(items: seq<Item>): (r: Option<string>)
    ensures r == None <==> forall x | x in items :: x.Value?
    ensures r.Some? ==> exists i: nat :: FirstFailedAt(items, r.value, i)
  {
    if items == [] then None
    else
      assert items == [items[0]] + items[1..] && items[0] in items;
      if items[0].Failed? then
        assert FirstFailedAt(items, items[0].error, 0);
        Some(items[0].error)
      else
        var r := FirstFailed(items[1..]);
        assert r.Some? ==> exists i: nat :: FirstFailedAt(items, r.value, i) by {
          if r.Some? {
            var i: nat :| FirstFailedAt(items[1..], r.value, i);
            assert FirstFailedAt(items, r.value, i + 1);
          }
        }
        r
  }

  /** This is the first error in the list. */
  predicate FirstFailedAt(items: seq<Item>, error: string, i: nat) {
    i < |items| && items[i] == Failed(error) && forall j | 0 <= j < i :: items[j].Value?
  }

  /** The errors noted before EXEC, with that of MULTI at index 0. */
  function AllNotes(commands: seq<Command>, incoming: seq<Reply>): seq<Noted>
    requires |incoming| == SentCount(commands) + 2
  {
    (if incoming[0].Error? then [Noted(0, Failed(incoming[0].error))]
     else if incoming[0].Abort? then [Noted(0, Failed(incoming[0].error))]
     else [])
    + Notes(commands, incoming[1..])
  }

  /** What the reply to EXEC comes to, given what was noted before it. */
  function ExecEnd(n: nat, notes: seq<Noted>, exec: Reply, raiseOnError: bool): Ended {
    match exec
    case Abort(e) => if notes == [] then Raised(e) else if notes[0].item.Failed? then Raised(notes[0].item.error)
        else TypeError
    case Error(e) => Raised(e)
    case Nil => WatchError
    case Items(items) =>
      var response := InsertAll(items, notes);
      if |response| != n then WrongNumber
      else if raiseOnError && FirstFailed(response).Some? then Raised(FirstFailed(response).value)
      else Response(response)
    case _ => ConnectionError
  }

  /** What the replies come to, when all of them arrive. */
  function EndOf(commands: seq<Command>, incoming: seq<Reply>, raiseOnError: bool): Ended
    requires |incoming| == SentCount(commands) + 2
  {
    ExecEnd(|commands|, AllNotes(commands, incoming), incoming[|incoming| - 1], raiseOnError)
  }

  /** EXEC has been read without an error, which clears the watching flag. */
  predicate ExecRead(incoming: seq<Reply>) {
    Lost !in incoming && |incoming| > 0 && (incoming[|incoming| - 1].Nil? || incoming[|incoming| - 1].Items?)
  }

  /**
   _execute_transaction from the first reply on. Whatever the server answers, one reply is read for
   everything that was sent; only a lost connection ends it earlier.
   */
  method ReadTransaction(commands: seq<Command>, incoming: seq<Reply>, raiseOnError: bool)
      returns (r: Ended, consumed: nat)
    requires |incoming| == SentCount(commands) + 2 && !incoming[|incoming| - 1].Status?
    ensures Lost !in incoming ==> r == EndOf(commands, incoming, raiseOnError) && consumed == |incoming|
    ensures Lost in incoming ==> r == ConnectionError && 0 < consumed <= |incoming|
                                 && incoming[consumed - 1] == Lost && Lost !in incoming[..consumed - 1]
    // a key that was watched has changed exactly if EXEC answers nil, and only its list is a response
    ensures r == WatchError <==> Lost !in incoming && incoming[|incoming| - 1].Nil?
    ensures r.Response? ==> incoming[|incoming| - 1].Items?
  {
    hide ExecEnd, AllNotes;
    ExecDecides(commands, incoming, raiseOnError);
    var notes;
    notes, consumed := ReadQueued(commands, incoming);
    if incoming[consumed - 1] == Lost {
      return ConnectionError, consumed;
    }
    var exec := incoming[consumed];
    assert incoming == incoming[..consumed] + [exec];
    consumed := consumed + 1;
    r := ReadExec(|commands|, notes, exec, raiseOnError);
  }

  /** The replies to MULTI and to the commands, up to the first one that does not arrive. */
  method ReadQueued(commands: seq<Command>, incoming: seq<Reply>) returns (notes: seq<Noted>, consumed: nat)
    requires |incoming| == SentCount(commands) + 2
    ensures 0 < consumed < |incoming| && Lost !in incoming[..consumed - 1]
    ensures incoming[consumed - 1] != Lost ==>
              consumed == |incoming| - 1 && Lost !in incoming[..consumed] && notes == AllNotes(commands, incoming)
  {
    hide Notes, SentCount, NoteOf;
    notes, consumed := [], 1;
    if incoming[0] == Lost {
      return;
    }
    if incoming[0].Error? || incoming[0].Abort? {
      notes := [Noted(0, Failed(incoming[0].error))];
    }
    ghost var first := notes;
    NothingNoted(incoming[1..]);
    assert commands[..0] == [] && first + [] == first;
    for i := 0 to |commands|
      invariant SentCount(commands[..i]) <= SentCount(commands)
      invariant consumed == 1 + SentCount(commands[..i])
      invariant notes == first + Notes(commands[..i], incoming[1..])
      invariant Lost !in incoming[..consumed]
    {
      notes, consumed := ReadNext(commands, incoming, i, notes, first);
      if incoming[consumed - 1] == Lost {
        return;
      }
      assert incoming[..consumed][..consumed - 1] == incoming[..consumed - 1];
    }
    assert commands[..|commands|] == commands;
  }

  /** A placeholder is noted without reading; the reply to any other command is read and noted if it is an error. */
  method ReadNext(commands: seq<Command>, incoming: seq<Reply>, i: nat, notes: seq<Noted>, ghost first: seq<Noted>)
    returns (more: seq<Noted>, consumed: nat)
    requires |incoming| == SentCount(commands) + 2 && i < |commands| && SentCount(commands[..i]) <= SentCount(commands)
    requires notes == first + Notes(commands[..i], incoming[1..]) && Lost !in incoming[..1 + SentCount(commands[..i])]
    ensures SentCount(commands[..i + 1]) <= SentCount(commands) && consumed == 1 + SentCount(commands[..i + 1])
    ensures Lost !in incoming[..consumed - 1]
    ensures incoming[consumed - 1] != Lost ==>
              more == first + Notes(commands[..i + 1], incoming[1..]) && Lost !in incoming[..consumed]
  {
    CountNext(commands, i);
    NotesNext(commands, incoming[1..], i);
    hide Notes, SentCount, NoteOf;
    consumed := 1 + SentCount(commands[..i]);
    more := notes;
    if commands[i].empty.Some? {
      more := more + [Noted(i, Value(commands[i].empty.value))];
      KeptBefore(incoming, consumed);
      return;
    }
    var reply := incoming[consumed];
    KeptNext(incoming, consumed);
    consumed := consumed + 1;
    if reply == Lost {
      return;
    }
    var note := NoteOf(commands[i], reply);
    if note.Some? {
      more := more + [Noted(i, note.value)];
    }
  }

  lemma KeptBefore(incoming: seq<Reply>, k: nat)
    requires 0 < k <= |incoming| && Lost !in incoming[..k]
    ensures Lost !in incoming[..k - 1]
  {
    assert incoming[..k] == incoming[..k - 1] + [incoming[k - 1]];
  }

  lemma KeptNext(incoming: seq<Reply>, k: nat)
    requires k < |incoming| && Lost !in incoming[..k]
    ensures Lost !in incoming[..k + 1] <==> incoming[k] != Lost
  {
    assert incoming[..k + 1] == incoming[..k] + [incoming[k]];
  }

  lemma CountNext(commands: seq<Command>, i: nat)
    requires i < |commands|
    ensures SentCount(commands[..i + 1]) == SentCount(commands[..i]) + (if commands[i].empty.Some? then 0 else 1)
    ensures SentCount(commands[..i + 1]) <= SentCount(commands)
  {
    hide SentCount;
    assert commands[..i + 1] == commands[..i] + [commands[i]];
    SentOne(commands[..i], commands[i]);
    SentSoFar(commands, i);
  }

  lemma NotesNext(commands: seq<Command>, replies: seq<Reply>, i: nat)
    requires i < |commands| && |replies| >= SentCount(commands[..i + 1]) >= SentCount(commands[..i])
    requires commands[i].empty == None ==> SentCount(commands[..i]) < |replies|
    ensures var note := if commands[i].empty.Some? then Some(Value(commands[i].empty.value))
                        else NoteOf(commands[i], replies[SentCount(commands[..i])]);
            Notes(commands[..i + 1], replies)
            == Notes(commands[..i], replies) + if note.Some? then [Noted(i, note.value)] else []
  {
    assert commands[..i + 1] == commands[..i] + [commands[i]];
    SentOne(commands[..i], commands[i]);
    NotesSnoc(commands[..i], commands[i], replies);
    hide Notes, SentCount, NoteOf;
    assert |commands[..i]| == i;
  }

  lemma NothingNoted(replies: seq<Reply>)
    ensures SentCount([]) == 0 && Notes([], replies) == []
  {
  }

  lemma SentOne(init: seq<Command>, last: Command)
    ensures SentCount(init + [last]) == SentCount(init) + (if last.empty.Some? then 0 else 1)
  {
    assert (init + [last])[..|init|] == init;
  }

  lemma NotesSnoc(init: seq<Command>, last: Command, replies: seq<Reply>)
    requires |replies| >= SentCount(init + [last])
    ensures SentCount(init + [last]) == SentCount(init) + (if last.empty.Some? then 0 else 1)
    ensures last.empty.Some? ==>
              Notes(init + [last], replies) == Notes(init, replies) + [Noted(|init|, Value(last.empty.value))]
    ensures last.empty == None ==>
              var note := NoteOf(last, replies[SentCount(init)]);
              Notes(init + [last], replies) == if note.Some? then Notes(init, replies) + [Noted(|init|, note.value)]
                  else Notes(init, replies)
  {
    var all := init + [last];
    assert all[..|all| - 1] == init && all[|all| - 1] == last;
    if last.empty.Some? { EmptyNote(last, Status); }
    hide NoteOf;
  }

  /** The reply to EXEC; on success the notes are inserted into its list. */
  method ReadExec(n: nat, notes: seq<Noted>, exec: Reply, raiseOnError: bool) returns (r: Ended)
    requires !exec.Status?
    ensures r == ExecEnd(n, notes, exec, raiseOnError)
    ensures exec == Lost <==> r == ConnectionError
    // spelt out
    ensures exec.Nil? <==> r == WatchError
    ensures exec.Error? ==> r == Raised(exec.error)
    ensures exec.Abort? ==>
              if notes == [] then r == Raised(exec.error)
              else if notes[0].item.Failed? then r == Raised(notes[0].item.error) else r == TypeError
    ensures r.Response? ==> exec.Items? && |r.items| == n == |exec.items| + |notes|
    ensures exec.Items? && |exec.items| + |notes| != n ==> r == WrongNumber
  {
    hide InsertAll, FirstFailed;
    match exec {
      case Lost => r := ConnectionError;
      case Abort(e) => r := if |notes| == 0 then Raised(e)
          else if notes[0].item.Failed? then Raised(notes[0].item.error) else TypeError;
      case Error(e) => r := Raised(e);
      case Nil => r := WatchError;
      case Items(items) =>
        var response := items;
        InsertNone(items);
        assert notes[..0] == [];
        for k := 0 to |notes|
          invariant response == InsertAll(items, notes[..k])
        {
          InsertAllSnoc(items, notes, k);
          response := Insert(response, notes[k].index, notes[k].item);
        }
        assert notes[..|notes|] == notes;
        if |response| != n {
          return WrongNumber;
        }
        var failed := FirstFailed(response);
        r := if raiseOnError && failed.Some? then Raised(failed.value) else Response(response);
    }
  }

  lemma EmptyNote(command: Command, reply: Reply)
    requires command.empty.Some?
    ensures NoteOf(command, reply) == Some(Value(command.empty.value))
  {
  }

  lemma InsertNone(items: seq<Item>)
    ensures InsertAll(items, []) == items
  {
  }

  lemma InsertAllSnoc(items: seq<Item>, notes: seq<Noted>, k: nat)
    requires k < |notes|
    ensures InsertAll(items, notes[..k + 1]) == Insert(InsertAll(items, notes[..k]), notes[k].index, notes[k].item)
  {
    assert notes[..k + 1][..k] == notes[..k];
  }

  /**
   After a successful MULTI the responses stand in the order of the commands, one for each, exactly
   when EXEC has one entry for each accepted command.
   */
  lemma TransactionIsAligned(commands: seq<Command>, incoming: seq<Reply>)
    requires |incoming| == SentCount(commands) + 2 && incoming[0] == Status && incoming[|incoming| - 1].Items?
    ensures var items := incoming[|incoming| - 1].items;
            var accepted := AcceptedOf(commands, incoming[1..], |commands|);
            && |commands| - |Notes(commands, incoming[1..])| == accepted
            && (EndOf(commands, incoming, false).Response? <==> |items| == accepted)
            && (|items| == accepted ==>
                 EndOf(commands, incoming, false) == Response(Aligned(commands, incoming[1..], items)))
            && (|items| != accepted ==> EndOf(commands, incoming, false) == WrongNumber)
  {
    hide Notes, InsertAll, Aligned, AcceptedOf, SentCount;
    var items := incoming[|incoming| - 1].items;
    NotesCount(commands, incoming[1..]);
    assert AllNotes(commands, incoming) == Notes(commands, incoming[1..]);
    if |items| == |commands| - |Notes(commands, incoming[1..])| {
      InsertingAligns(commands, incoming[1..], items);
      assert items[..|items|] == items && items[|items|..] == [];
    }
  }

  /** An error of MULTI makes the list too long when EXEC has an entry for each accepted command. */
  lemma FailedMultiIsNoticed(commands: seq<Command>, incoming: seq<Reply>, raiseOnError: bool)
    requires |incoming| == SentCount(commands) + 2 && incoming[0].Error? && incoming[|incoming| - 1].Items?
    requires |incoming[|incoming| - 1].items| == AcceptedOf(commands, incoming[1..], |commands|)
    ensures EndOf(commands, incoming, raiseOnError) == WrongNumber
  {
    hide Notes, InsertAll, AcceptedOf;
    NotesCount(commands, incoming[1..]);
  }

  /** The first commands are all accepted. */
  predicate AllAccepted(commands: seq<Command>, replies: seq<Reply>, n: nat)
    requires n <= |commands|
  {
    forall j | 0 <= j < n :: Accepted(commands, replies, j)
  }

  /** A command that is not sent stands before every command that the server refuses to queue. */
  predicate EmptyComesFirst(commands: seq<Command>, replies: seq<Reply>) {
    exists i :: 0 <= i < |commands| && commands[i].empty.Some? && AllAccepted(commands, replies, i)
  }

  /** The first command that is not accepted, if there is one. */
  lemma FirstRefused(commands: seq<Command>, replies: seq<Reply>) returns (i: nat)
    ensures i <= |commands| && AllAccepted(commands, replies, i)
    ensures i < |commands| ==> !Accepted(commands, replies, i)
  {
    hide Accepted;
    i := 0;
    while i < |commands| && Accepted(commands, replies, i)
      invariant i <= |commands| && AllAccepted(commands, replies, i)
    {
      i := i + 1;
    }
  }

  /** It is the first to be noted. */
  lemma {:induction false} FirstNoteIs(commands: seq<Command>, replies: seq<Reply>, i: nat)
    requires |replies| >= SentCount(commands) && i <= |commands| && AllAccepted(commands, replies, i)
    requires i < |commands| ==> !Accepted(commands, replies, i)
    ensures i == |commands| ==> Notes(commands, replies) == []
    ensures i < |commands| ==>
              Notes(commands, replies) != [] && Notes(commands, replies)[0]
                  == Noted(i, Substitute(commands, replies, i))
  {
    if commands != [] {
      var n := |commands| - 1;
      LastNoteIs(commands, replies);
      forall j: nat | j < n ensures Accepted(commands[..n], replies, j) == Accepted(commands, replies, j)
                                    && ReplyTo(commands[..n], replies, j) == ReplyTo(commands, replies, j)
      {
        SameInPrefix(commands, replies, n, j);
      }
      hide LastNote, SentCount, ReplyTo;
      FirstNoteIs(commands[..n], replies, if i <= n then i else n);
    }
  }

  /**
   What an aborted transaction raises: an error of MULTI; else that of the first command that is not
   accepted, which cannot be raised when it is one that was not sent; else the error of EXEC itself.
   */
  lemma AbortRaises(commands: seq<Command>, incoming: seq<Reply>, raiseOnError: bool, i: nat)
    requires |incoming| == SentCount(commands) + 2 && incoming[|incoming| - 1].Abort?
    requires i <= |commands| && AllAccepted(commands, incoming[1..], i)
    requires i < |commands| ==> !Accepted(commands, incoming[1..], i)
    ensures EndOf(commands, incoming, raiseOnError)
            == if Refusal(incoming[0]) then Raised(incoming[0].error)
               else if i == |commands| then Raised(incoming[|incoming| - 1].error)
               else if commands[i].empty.Some? then TypeError
               else Raised(ReplyTo(commands, incoming[1..], i).error)
  {
    hide Notes, Accepted, AllAccepted, ReplyTo;
    FirstNoteIs(commands, incoming[1..], i);
  }

  /**
   An aborted transaction raises the first error that was noted, unless a command that is not sent was
   noted first.
   */
  lemma AbortRaisesErrorIff(commands: seq<Command>, incoming: seq<Reply>, raiseOnError: bool)
    requires |incoming| == SentCount(commands) + 2 && incoming[0] == Status && incoming[|incoming| - 1].Abort?
    ensures EndOf(commands, incoming, raiseOnError) == TypeError <==> EmptyComesFirst(commands, incoming[1..])
  {
    hide EndOf, ReplyTo;
    var replies := incoming[1..];
    var i := FirstRefused(commands, replies);
    AbortRaises(commands, incoming, raiseOnError, i);
    if EmptyComesFirst(commands, replies) {
      var j :| 0 <= j < |commands| && commands[j].empty.Some? && AllAccepted(commands, replies, j);
      assert !Accepted(commands, replies, j);
    }
  }

  /** How a reply to EXEC that is no abort ends the call, and what raise_on_error adds to it. */
  lemma ExecDecides(commands: seq<Command>, incoming: seq<Reply>, raiseOnError: bool)
    requires |incoming| == SentCount(commands) + 2
    ensures var end, exec := EndOf(commands, incoming, raiseOnError), incoming[|incoming| - 1];
            var quiet := EndOf(commands, incoming, false);
            && (exec.Nil? <==> end == WatchError)
            && (end.Response? || end == WrongNumber ==> exec.Items?)
            && (exec.Items? ==> end.Response? || end == WrongNumber || (end.Raised? && raiseOnError))
            && (exec.Error? ==> end == Raised(exec.error))
            && (end == TypeError ==> exec.Abort?)
            && (end == ConnectionError <==> exec.Status? || exec.Lost?)
            && (!quiet.Response? ==> end == quiet)
            && (quiet.Response? && raiseOnError ==>
                 || (end == quiet && forall x | x in quiet.items :: x.Value?)
                 || (end.Raised? && exists k: nat :: FirstFailedAt(quiet.items, end.error, k)))
  {
    hide AllNotes, InsertAll;
  }

  /** Such a pipeline: an MGET of no keys, then a command that the server refuses to queue. */
  lemma EmptyThenRefused()
    ensures var commands := [Command(Other, true, None, Some("[]")),
              Command(Other, true, Some("ERR wrong number of arguments"), None)];
            SentCount(commands) == 1
            && EndOf(commands, [Status, Error("ERR wrong number of arguments"), Abort("EXECABORT")], true) == TypeError
  {
    var commands := [Command(Other, true, None, Some("[]")),
        Command(Other, true, Some("ERR wrong number of arguments"), None)];
    assert commands[..1] == [commands[0]] && commands[..1][..0] == [];
    var incoming := [Status, Error("ERR wrong number of arguments"), Abort("EXECABORT")];
    assert SentCount(commands[..1]) == 0;
    assert commands[0].empty.Some? && AllAccepted(commands, incoming[1..], 0);
    AbortRaisesErrorIff(commands, incoming, true);
  }
}
