/**
 Command encoding: how one command, and a batch of commands, become the chunks that are
 handed to the socket.  A small buffer is filled until a cutoff is passed; long
 arguments and memory views travel as chunks of their own so that they are not copied.
 */
module CommandPacker {
  import opened RespGrammar

  /** An argument: a str with its encoded form, a bytes object, or a memory view. */
  datatype Arg = Text(data: bytes) | Raw(data: bytes) | View(data: bytes)

  datatype Chunk = Chunk(data: bytes, isView: bool)

  function Join(chunks: seq<Chunk>): bytes {
    if chunks == [] then [] else chunks[0].data + Join(chunks[1..])
  }

  lemma {:induction false} JoinAppend(a: seq<Chunk>, b: seq<Chunk>)
    ensures Join(a + b) == Join(a) + Join(b)
  {
    if a == [] {
      assert a + b == b;
    } else {
      JoinAppend(a[1..], b);
      assert (a + b)[0] == a[0] && (a + b)[1..] == a[1..] + b;
      ConcatAssoc(a[0].data, Join(a[1..]), Join(b));
    }
  }

  lemma JoinNone()
    ensures Join([]) == []
  {
  }

  lemma JoinSnoc(a: seq<Chunk>, c: Chunk)
    ensures Join(a + [c]) == Join(a) + c.data
  {
    JoinAppend(a, [c]);
    assert [c][1..] == [];
    assert Join([c]) == c.data + Join([]);
  }

  // ---------------------------------------------------------------------------
  // The command name may carry further words

  function Word(s: bytes): (w: bytes)
    ensures |w| <= |s|
    ensures s != [] && !IsSpace(s[0]) ==> w != []
  {
    if s == [] || IsSpace(s[0]) then [] else [s[0]] + Word(s[1..])
  }

  lemma {:induction false} StripLeftShrinks(s: bytes)
    ensures |StripLeft(s)| <= |s|
    ensures StripLeft(s) != [] ==> !IsSpace(StripLeft(s)[0])
  {
    if s != [] && IsSpace(s[0]) { StripLeftShrinks(s[1..]); }
  }

  /** bytes.split(): the maximal runs of non-blank bytes. */
  function Words(s: bytes): seq<Arg>
    decreases |s|
  {
    StripLeftShrinks(s);
    var t := StripLeft(s);
    if t == [] then []
    else
      var w := Word(t);
      [Raw(w)] + Words(t[|w|..])
  }

  /** The arguments that go on the wire: a str name is always split, a bytes name only if it holds a space. */
  function WireArgs(args: seq<Arg>): seq<Arg>
    requires args != []
  {
    if args[0].Text? || (args[0].Raw? && SPACE in args[0].data) then Words(args[0].data) + args[1..] else args
  }

  function Bulks(args: seq<Arg>): (r: seq<Reply>)
    ensures |r| == |args|
    ensures forall i | 0 <= i < |args| :: r[i] == Bulk(args[i].data)
  {
    seq(|args|, i requires 0 <= i < |args| => Bulk(args[i].data))
  }

  /** The command as the protocol sees it: an array of bulk strings. */
  function Command(args: seq<Arg>): Reply
    requires args != []
  {
    Multi(Bulks(WireArgs(args)))
  }

  lemma {:induction false} BulksSendable(args: seq<Arg>)
    ensures AllSendable(Bulks(args))
  {
    if args != [] {
      BulksSendable(args[1..]);
      assert Bulks(args)[1..] == Bulks(args[1..]);
    }
  }

  function Commands(batch: seq<seq<Arg>>): (r: seq<Reply>)
    requires forall i | 0 <= i < |batch| :: batch[i] != []
    ensures |r| == |batch|
    ensures forall i | 0 <= i < |batch| :: r[i] == Command(batch[i])
  {
    seq(|batch|, i requires 0 <= i < |batch| => Command(batch[i]))
  }

  lemma {:induction false} CommandsSendable(batch: seq<seq<Arg>>)
    requires forall i | 0 <= i < |batch| :: batch[i] != []
    ensures AllSendable(Commands(batch))
  {
    if batch != [] {
      BulksSendable(WireArgs(batch[0]));
      CommandsSendable(batch[1..]);
      assert Commands(batch)[1..] == Commands(batch[1..]);
    }
  }

  // ---------------------------------------------------------------------------
  // Packing one command

  function LengthLine(n: nat): bytes { [DOLLAR] + Decimal(n) + CRLF }

  /** An argument that gets a chunk of its own when `buff` is the text gathered so far. */
  predicate Alone(arg: Arg, buff: bytes, cutoff: nat) {
    |buff| > cutoff || |arg.data| > cutoff || arg.View?
  }

  /** The chunks produced for `args` when `buff` has been gathered but not yet emitted. */
  function ChunksFrom(args: seq<Arg>, buff: bytes, cutoff: nat): seq<Chunk> {
    if args == [] then [Chunk(buff, false)]
    else
      var arg := args[0];
      if Alone(arg, buff, cutoff) then
        [Chunk(buff + LengthLine(|arg.data|), false), Chunk(arg.data, arg.View?)] + ChunksFrom(args[1..], CRLF, cutoff)
      else
        ChunksFrom(args[1..], buff + LengthLine(|arg.data|) + arg.data + CRLF, cutoff)
  }

  function PackChunks(args: seq<Arg>, cutoff: nat): seq<Chunk>
    requires args != []
  {
    var words := WireArgs(args);
    ChunksFrom(words, [STAR] + Decimal(|words|) + CRLF, cutoff)
  }

  lemma {:induction false} JoinChunksFrom(args: seq<Arg>, buff: bytes, cutoff: nat)
    ensures Join(ChunksFrom(args, buff, cutoff)) == buff + RenderAll(Bulks(args))
  {
    hide Decimal;
    if args == [] {
      assert Join([Chunk(buff, false)]) == buff;
    } else {
      var arg, rest := args[0], args[1..];
      assert Bulks(args)[1..] == Bulks(rest);
      var line := LengthLine(|arg.data|);
      assert Render(Bulk(arg.data)) == line + (arg.data + CRLF);
      if Alone(arg, buff, cutoff) {
        JoinChunksFrom(rest, CRLF, cutoff);
        var pair := [Chunk(buff + line, false), Chunk(arg.data, arg.View?)];
        assert pair[1..] == [pair[1]];
        assert Join(pair) == buff + line + arg.data by {
          assert Join([pair[1]]) == arg.data;
        }
        JoinAppend(pair, ChunksFrom(rest, CRLF, cutoff));
      } else {
        JoinChunksFrom(rest, buff + line + arg.data + CRLF, cutoff);
      }
    }
  }

  /** Joined, the chunks of a command are its canonical encoding, whatever the cutoff. */
  lemma PackIsCanonical(args: seq<Arg>, cutoff: nat)
    requires args != []
    ensures Join(PackChunks(args, cutoff)) == Render(Command(args))
  {
    var words := WireArgs(args);
    JoinChunksFrom(words, [STAR] + Decimal(|words|) + CRLF, cutoff);
  }

  /** A long argument or a memory view is emitted as it is, never copied into a buffer. */
  lemma {:induction false} LongArgumentsStayWhole(args: seq<Arg>, buff: bytes, cutoff: nat, i: nat)
    requires i < |args| && (args[i].View? || |args[i].data| > cutoff)
    ensures Chunk(args[i].data, args[i].View?) in ChunksFrom(args, buff, cutoff)
  {
    var arg := args[0];
    var line := LengthLine(|arg.data|);
    if Alone(arg, buff, cutoff) {
      var chunks := ChunksFrom(args, buff, cutoff);
      if i == 0 {
        assert chunks[1] == Chunk(arg.data, arg.View?);
      } else {
        LongArgumentsStayWhole(args[1..], CRLF, cutoff, i - 1);
        assert chunks[2..] == ChunksFrom(args[1..], CRLF, cutoff);
      }
    } else {
      LongArgumentsStayWhole(args[1..], buff + line + arg.data + CRLF, cutoff, i - 1);
    }
  }

  /**
   Besides the arguments that travel alone, no chunk is longer than two cutoffs and the length lines
   of two arguments; `line` is a bound on those.
   */
  lemma {:induction false} ChunksStayShort(args: seq<Arg>, buff: bytes, cutoff: nat, line: nat)
    requires forall arg | arg in args :: |LengthLine(|arg.data|)| <= line
    requires |buff| <= 2 * cutoff + line + 2
    ensures forall c | c in ChunksFrom(args, buff, cutoff) ::
              || |c.data| <= 2 * cutoff + 2 * line + 2
              || exists arg :: arg in args && c == Chunk(arg.data, arg.View?)
  {
    hide LengthLine;
    if args != [] {
      var arg, rest := args[0], args[1..];
      assert arg in args && forall a | a in rest :: a in args;
      if Alone(arg, buff, cutoff) {
        ChunksStayShort(rest, CRLF, cutoff, line);
      } else {
        ChunksStayShort(rest, buff + LengthLine(|arg.data|) + arg.data + CRLF, cutoff, line);
      }
    }
  }

  // ---------------------------------------------------------------------------
  // What the command name comes to

  /** The words with these gaps before, between and behind them. */
  function Spaced(gaps: seq<bytes>, words: seq<bytes>): bytes
    requires |gaps| == |words| + 1
  {
    if words == [] then gaps[0] else gaps[0] + words[0] + Spaced(gaps[1..], words[1..])
  }

  /** `name` is the words, which hold no blanks and are not empty, with blanks between all of them. */
  predicate IsSpaced(name: bytes, gaps: seq<bytes>, words: seq<bytes>) {
    && |gaps| == |words| + 1 && name == Spaced(gaps, words)
    && (forall i | 0 <= i < |gaps| :: Blank(gaps[i]) && (0 < i < |words| ==> gaps[i] != []))
    && (forall i | 0 <= i < |words| :: words[i] != [] && forall j | 0 <= j < |words[i]| :: !Blank([words[i][j]]))
  }

  lemma {:induction false} WordIs(w: bytes, rest: bytes)
    requires forall j | 0 <= j < |w| :: !Blank([w[j]])
    requires rest == [] || Blank([rest[0]])
    ensures Word(w + rest) == w
  {
    if w == [] {
      assert w + rest == rest;
      assert rest != [] ==> IsSpace(rest[0]) by { if rest != [] { assert [rest[0]][0] == rest[0]; } }
    } else {
      assert (w + rest)[1..] == w[1..] + rest;
      assert !IsSpace(w[0]) by { assert forall i | 0 <= i < 1 :: [w[0]][i] == w[0]; }
      WordIs(w[1..], rest);
    }
  }

  lemma {:induction false} StripsGap(gap: bytes, rest: bytes)
    requires Blank(gap) && (rest == [] || !Blank([rest[0]]))
    ensures StripLeft(gap + rest) == rest
  {
    if gap == [] {
      assert gap + rest == rest;
      assert rest != [] ==> !IsSpace(rest[0]) by { assert rest != [] ==> forall i | 0 <= i < 1 ::
             [rest[0]][i] == rest[0]; }
    } else {
      assert (gap + rest)[1..] == gap[1..] + rest;
      StripsGap(gap[1..], rest);
    }
  }

  /** Splitting gives back the words. */
  lemma {:induction false} SplitsSpaced(name: bytes, gaps: seq<bytes>, words: seq<bytes>)
    requires IsSpaced(name, gaps, words)
    ensures |Words(name)| == |words| && forall i | 0 <= i < |words| :: Words(name)[i] == Raw(words[i])
    decreases |words|
  {
    if words == [] {
      assert name == gaps[0] + [];
      StripsGap(gaps[0], []);
    } else {
      var behind := Spaced(gaps[1..], words[1..]);
      var t := words[0] + behind;
      assert name == gaps[0] + t;
      assert t[0] == words[0][0];
      StripsGap(gaps[0], t);
      GapFirst(gaps[1..], words[1..]);
      WordIs(words[0], behind);
      assert t[|words[0]|..] == behind;
      assert IsSpaced(behind, gaps[1..], words[1..]);
      SplitsSpaced(behind, gaps[1..], words[1..]);
    }
  }

  lemma GapFirst(gaps: seq<bytes>, words: seq<bytes>)
    requires |gaps| == |words| + 1 && Blank(gaps[0]) && (words != [] ==> gaps[0] != [])
    ensures Spaced(gaps, words) == [] || Blank([Spaced(gaps, words)[0]])
  {
  }

  /** Every name is some words with blanks between them. */
  lemma {:induction false} EveryNameIsSpaced(name: bytes)
    ensures exists gaps, words :: IsSpaced(name, gaps, words)
    decreases |name|
  {
    var gap, word, behind := FirstGap(name);
    if word == [] {
      assert IsSpaced(name, [gap], []);
    } else {
      EveryNameIsSpaced(behind);
      var gaps, words :| IsSpaced(behind, gaps, words);
      assert behind != [] ==> behind[0] == Spaced(gaps, words)[0];
      OneMoreWord(gap, word, behind, gaps, words);
      assert IsSpaced(name, [gap] + gaps, [word] + words);
    }
  }

  lemma OneMoreWord(gap: bytes, word: bytes, behind: bytes, gaps: seq<bytes>, words: seq<bytes>)
    requires IsSpaced(behind, gaps, words) && Blank(gap) && word != []
    requires forall j | 0 <= j < |word| :: !Blank([word[j]])
    requires behind == [] || Blank([behind[0]])
    ensures IsSpaced(gap + word + behind, [gap] + gaps, [word] + words)
  {
    assert ([gap] + gaps)[1..] == gaps && ([word] + words)[1..] == words;
    if words != [] {
      var rest := words[0] + Spaced(gaps[1..], words[1..]);
      assert behind == gaps[0] + rest && rest[0] == words[0][0];
      GapIsThere(gaps[0], rest);
    }
  }

  lemma GapIsThere(gap: bytes, rest: bytes)
    requires rest != [] && !Blank([rest[0]]) && Blank([(gap + rest)[0]])
    ensures gap != []
  {
    assert gap == [] ==> gap + rest == rest;
  }

  lemma {:induction false} FirstGap(name: bytes) returns (gap: bytes, word: bytes, behind: bytes)
    ensures name == gap + word + behind && Blank(gap) && (forall j | 0 <= j < |word| :: !Blank([word[j]]))
    ensures word == [] ==> behind == []
    ensures behind == [] || Blank([behind[0]])
    decreases |name|
  {
    if name == [] {
      gap, word, behind := [], [], [];
    } else if Blank([name[0]]) {
      gap, word, behind := FirstGap(name[1..]);
      assert [name[0]][0] == name[0];
      gap := [name[0]] + gap;
      assert name == [name[0]] + name[1..];
    } else {
      word, behind := FirstWordOf(name);
      gap := [];
    }
  }

  lemma {:induction false} FirstWordOf(s: bytes) returns (word: bytes, behind: bytes)
    ensures s == word + behind && (forall j | 0 <= j < |word| :: !Blank([word[j]]))
    ensures behind == [] || Blank([behind[0]])
    ensures s != [] && !Blank([s[0]]) ==> word != []
  {
    if s == [] || Blank([s[0]]) {
      word, behind := [], s;
    } else {
      word, behind := FirstWordOf(s[1..]);
      word := [s[0]] + word;
      assert s == [s[0]] + s[1..];
    }
  }

  /**
   The reply that the server takes a command for: a str name, and a bytes name with a space in it, word
   by word, any other name as it is, and then the other arguments.
   */
  ghost predicate Carries(r: Reply, args: seq<Arg>)
    requires args != []
  {
    var name := args[0];
    && r.Multi?
    && (name.Text? || (name.Raw? && 32 in name.data) ==>
          forall gaps, words | IsSpaced(name.data, gaps, words) ::
            && |r.items| == |words| + |args| - 1
            && (forall i | 0 <= i < |words| :: r.items[i] == Bulk(words[i]))
            && forall j | 1 <= j < |args| :: r.items[|words| + j - 1] == Bulk(args[j].data))
    && (name.View? || (name.Raw? && 32 !in name.data) ==>
          |r.items| == |args| && forall j | 0 <= j < |args| :: r.items[j] == Bulk(args[j].data))
  }

  lemma CommandCarries(args: seq<Arg>)
    requires args != []
    ensures Carries(Command(args), args)
  {
    forall gaps, words | IsSpaced(args[0].data, gaps, words)
      ensures |Words(args[0].data)| == |words| && forall i | 0 <= i < |words| :: Words(args[0].data)[i] == Raw(words[i])
    {
      SplitsSpaced(args[0].data, gaps, words);
    }
    hide IsSpaced, Words;
  }

  class PythonRespSerializer {
    const bufferCutoff: nat

    constructor (bufferCutoff: nat)
      ensures this.bufferCutoff == bufferCutoff
    {
      this.bufferCutoff := bufferCutoff;
    }

    method Pack(args: seq<Arg>) returns (output: seq<Chunk>)
      requires args != []
      ensures output == PackChunks(args, bufferCutoff)
      ensures Join(output) == Render(Command(args))
      ensures ParseReply(Join(output), 0, true) == Done(Command(args), |Join(output)|)
      ensures Carries(ParseReply(Join(output), 0, true).value, args)
    {
      hide Decimal, Render, ParseReply, Join, WireArgs, Carries;
      output := [];
      var words := WireArgs(args);
      var buff := [STAR] + Decimal(|words|) + CRLF;
      for i := 0 to |words|
        invariant output + ChunksFrom(words[i..], buff, bufferCutoff) == PackChunks(args, bufferCutoff)
      {
        var arg := words[i];
        assert words[i..][0] == arg && words[i..][1..] == words[i + 1..];
        if |buff| > bufferCutoff || |arg.data| > bufferCutoff || arg.View? {
          buff := buff + ([DOLLAR] + Decimal(|arg.data|) + CRLF);
          output := output + [Chunk(buff, false)] + [Chunk(arg.data, arg.View?)];
          buff := CRLF;
        } else {
          buff := buff + ([DOLLAR] + Decimal(|arg.data|) + CRLF) + arg.data + CRLF;
        }
      }
      output := output + [Chunk(buff, false)];
      PackIsCanonical(args, bufferCutoff);
      BulksSendable(WireArgs(args));
      ParseRender(Join(output), 0, Command(args), true);
      CommandCarries(args);
    }
  }

  // ---------------------------------------------------------------------------
  // Packing a batch

  predicate Oversized(c: Chunk, cutoff: nat) { c.isView || |c.data| > cutoff }

  /** A piece of a packed batch: one oversized chunk of one command, or a short piece. */
  predicate Piece(c: Chunk, batch: seq<seq<Arg>>, cutoff: nat)
    requires forall i | 0 <= i < |batch| :: batch[i] != []
  {
    || (!c.isView && |c.data| <= 2 * cutoff)
    || (Oversized(c, cutoff) && exists i | 0 <= i < |batch| :: c in PackChunks(batch[i], cutoff))
  }

  lemma {:induction false} RenderAllAppend(a: seq<Reply>, b: seq<Reply>)
    ensures RenderAll(a + b) == RenderAll(a) + RenderAll(b)
  {
    if a == [] {
      assert a + b == b;
    } else {
      hide Render;
      RenderAllAppend(a[1..], b);
      assert (a + b)[0] == a[0] && (a + b)[1..] == a[1..] + b;
      ConcatAssoc(Render(a[0]), RenderAll(a[1..]), RenderAll(b));
    }
  }

  /** The loop body of pack_commands: one more chunk for the batch. */
  method AddChunk(chunk: Chunk, cutoff: nat, output: seq<Chunk>, pieces: seq<Chunk>, bufferLength: nat)
    returns (output': seq<Chunk>, pieces': seq<Chunk>, bufferLength': nat)
    requires bufferLength == |Join(pieces)| <= 2 * cutoff
    ensures Join(output') + Join(pieces') == Join(output) + Join(pieces) + chunk.data
    ensures bufferLength' == |Join(pieces')| <= 2 * cutoff
    ensures forall c | c in output' ::
              || c in output
              || (!c.isView && |c.data| <= 2 * cutoff)
              || (c == chunk && Oversized(chunk, cutoff))
  {
    output', pieces', bufferLength' := output, pieces, bufferLength;
    if bufferLength > cutoff || |chunk.data| > cutoff || chunk.isView {
      if pieces != [] {
        JoinSnoc(output, Chunk(Join(pieces), false));
        output' := output + [Chunk(Join(pieces), false)];
      }
      bufferLength' := 0;
      pieces' := [];
    }
    if |chunk.data| > cutoff || chunk.isView {
      JoinSnoc(output', chunk);
      output' := output' + [chunk];
    } else {
      JoinSnoc(pieces', chunk);
      pieces' := pieces' + [chunk];
      bufferLength' := bufferLength' + |chunk.data|;
    }
  }

  /** The inner loop of pack_commands: the chunks of one command join the batch. */
  method AddCommand(packer: PythonRespSerializer, command: seq<Arg>, output: seq<Chunk>, pieces: seq<Chunk>)
    returns (output': seq<Chunk>, pieces': seq<Chunk>)
    requires command != [] && |Join(pieces)| <= 2 * packer.bufferCutoff
    ensures Join(output') + Join(pieces') == Join(output) + Join(pieces) + Render(Command(command))
    ensures |Join(pieces')| <= 2 * packer.bufferCutoff
    ensures forall c | c in output' ::
              || c in output
              || (!c.isView && |c.data| <= 2 * packer.bufferCutoff)
              || (Oversized(c, packer.bufferCutoff) && c in PackChunks(command, packer.bufferCutoff))
  {
    hide Decimal, Render, ParseReply, Command, PackChunks, Join, Oversized;
    var cutoff := packer.bufferCutoff;
    var bufferLength := |Join(pieces)|;
    output', pieces' := output, pieces;
    var chunks := packer.Pack(command);
    JoinNone();
    assert chunks[..0] == [];
    for j := 0 to |chunks|
      invariant Join(output') + Join(pieces') == Join(output) + Join(pieces) + Join(chunks[..j])
      invariant bufferLength == |Join(pieces')| <= 2 * cutoff
      invariant forall c | c in output' ::
                  || c in output
                  || (!c.isView && |c.data| <= 2 * cutoff)
                  || (Oversized(c, cutoff) && c in chunks)
    {
      output', pieces', bufferLength := AddChunk(chunks[j], cutoff, output', pieces', bufferLength);
      assert chunks[..j + 1] == chunks[..j] + [chunks[j]];
      JoinSnoc(chunks[..j], chunks[j]);
    }
    assert chunks[..|chunks|] == chunks;
  }

  method PackCommands(packer: PythonRespSerializer, commands: seq<seq<Arg>>) returns (output: seq<Chunk>)
    requires forall i | 0 <= i < |commands| :: commands[i] != []
    ensures Join(output) == RenderAll(Commands(commands))
    ensures ParseItems(Join(output), 0, |commands|, true) == Done(Commands(commands), |Join(output)|)
    ensures forall i | 0 <= i < |commands| ::
              Carries(ParseItems(Join(output), 0, |commands|, true).value[i], commands[i])
    ensures forall c | c in output :: Piece(c, commands, packer.bufferCutoff)
  {
    hide Decimal, Render, ParseReply, ParseItems, RenderAll, Command, PackChunks, Carries, Piece, Oversized;
    assert RenderAll(Commands(commands[..0])) == [] by { NothingPacked(); }
    output := [];
    var pieces: seq<Chunk> := [];
    for i := 0 to |commands|
      invariant Join(output) + Join(pieces) == RenderAll(Commands(commands[..i]))
      invariant |Join(pieces)| <= 2 * packer.bufferCutoff
      invariant forall c | c in output :: Piece(c, commands, packer.bufferCutoff)
    {
      ghost var before := output;
      output, pieces := AddCommand(packer, commands[i], output, pieces);
      RenderNext(commands, i);
      PiecesSoFar(before, output, commands, i, packer.bufferCutoff);
    }
    assert commands[..|commands|] == commands;
    if pieces != [] {
      JoinSnoc(output, Chunk(Join(pieces), false));
      ShortIsPiece(Chunk(Join(pieces), false), commands, packer.bufferCutoff);
      output := output + [Chunk(Join(pieces), false)];
    }
    BatchParses(Join(output), commands);
  }

  lemma NothingPacked()
    ensures RenderAll(Commands([])) == []
  {
  }

  lemma ShortIsPiece(c: Chunk, commands: seq<seq<Arg>>, cutoff: nat)
    requires forall i | 0 <= i < |commands| :: commands[i] != []
    requires !c.isView && |c.data| <= 2 * cutoff
    ensures Piece(c, commands, cutoff)
  {
  }

  lemma PiecesSoFar(before: seq<Chunk>, after: seq<Chunk>, commands: seq<seq<Arg>>, i: nat, cutoff: nat)
    requires (forall k | 0 <= k < |commands| :: commands[k] != []) && i < |commands|
    requires forall c | c in before :: Piece(c, commands, cutoff)
    requires forall c | c in after ::
               || c in before
               || (!c.isView && |c.data| <= 2 * cutoff)
               || (Oversized(c, cutoff) && c in PackChunks(commands[i], cutoff))
    ensures forall c | c in after :: Piece(c, commands, cutoff)
  {
    hide PackChunks;
  }

  lemma BatchParses(s: bytes, commands: seq<seq<Arg>>)
    requires forall i | 0 <= i < |commands| :: commands[i] != []
    requires s == RenderAll(Commands(commands))
    ensures ParseItems(s, 0, |commands|, true) == Done(Commands(commands), |s|)
    ensures forall i | 0 <= i < |commands| :: Carries(Commands(commands)[i], commands[i])
  {
    hide Render, ParseReply, ParseItems, Command, Carries, RenderAll;
    CommandsSendable(commands);
    ParseRenderAll(s, 0, Commands(commands), true);
    forall i | 0 <= i < |commands| ensures Carries(Commands(commands)[i], commands[i]) { CommandCarries(commands[i]); }
  }

  lemma RenderNext(commands: seq<seq<Arg>>, i: nat)
    requires forall i | 0 <= i < |commands| :: commands[i] != []
    requires i < |commands|
    ensures RenderAll(Commands(commands[..i + 1])) == RenderAll(Commands(commands[..i])) + Render(Command(commands[i]))
  {
    hide Decimal, Render, Command;
    assert Commands(commands[..i + 1]) == Commands(commands[..i]) + [Command(commands[i])];
    RenderAllAppend(Commands(commands[..i]), [Command(commands[i])]);
    assert [Command(commands[i])][1..] == [];
    assert RenderAll([Command(commands[i])]) == Render(Command(commands[i])) + RenderAll([]);
  }
}
