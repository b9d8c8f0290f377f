/**
 The Redis serialization protocol, version 2, as a pure grammar over byte strings:
 a printer of reply trees and a parser that either finishes, runs out of input at a
 known token, or rejects.  Both the blocking and the asyncio parser are proved
 against this one grammar.
 */
module RespGrammar {
  import opened Wrappers

  newtype byte = x: int | 0 <= x < 256

  type bytes = seq<byte>

  const CR: byte := 13
  const LF: byte := 10
  const CRLF: bytes := [13, 10]

  const MINUS: byte := 45
  const PLUS: byte := 43
  const COLON: byte := 58
  const DOLLAR: byte := 36
  const STAR: byte := 42
  const UNDERSCORE: byte := 95
  const SPACE: byte := 32

  /** The bytes of an ASCII literal. */
  function Ascii(s: string): (b: bytes)
    ensures |b| == |s| && forall i | 0 <= i < |s| && s[i] as int < 128 :: b[i] as int == s[i] as int
  {
    seq(|s|, i requires 0 <= i < |s| => if s[i] as int < 128 then s[i] as int as byte else 63)
  }

  lemma ConcatAssoc(a: bytes, b: bytes, c: bytes)
    ensures (a + b) + c == a + (b + c)
  {
  }

  /** `t` occurs in `s` at `pos`. */
  predicate At(s: bytes, pos: nat, t: bytes) {
    pos + |t| <= |s| && s[pos..pos + |t|] == t
  }

  lemma AtSplit(s: bytes, pos: nat, a: bytes, b: bytes)
    ensures At(s, pos, a + b) <==> At(s, pos, a) && At(s, pos + |a|, b)
  {
    if At(s, pos, a + b) {
      assert s[pos..pos + |a + b|][..|a|] == a;
      assert s[pos..pos + |a + b|][|a|..] == b;
    }
    if At(s, pos, a) && At(s, pos + |a|, b) {
      assert s[pos..pos + |a + b|] == s[pos..pos + |a|] + s[pos + |a|..pos + |a| + |b|];
    }
  }

  // ---------------------------------------------------------------------------
  // Decimal numbers

  predicate IsDigit(b: byte) { 48 <= b <= 57 }

  predicate IsSpace(b: byte) { 9 <= b <= 13 || b == SPACE }

  /** str(n).encode() for a length. */
  function Decimal(n: nat): (d: bytes)
    ensures d != [] && forall i :: 0 <= i < |d| ==> IsDigit(d[i])
  {
    if n < 10 then [48 + n as byte] else Decimal(n / 10) + [48 + (n % 10) as byte]
  }

  /** str(n).encode() for any integer. */
  function DecimalInt(n: int): bytes {
    if n < 0 then [MINUS] + Decimal(-n) else Decimal(n)
  }

  /** A run of digits in which single underscores may separate digits. */
  function Digits(s: bytes): Option<nat> {
    if s == [] || !IsDigit(s[|s| - 1]) then None
    else
      var last := (s[|s| - 1] - 48) as nat;
      if |s| == 1 then Some(last)
      else
        match Digits(if s[|s| - 2] == UNDERSCORE then s[..|s| - 2] else s[..|s| - 1])
        case None => None
        case Some(v) => Some(10 * v + last)
  }

  function StripLeft(s: bytes): bytes {
    if s != [] && IsSpace(s[0]) then StripLeft(s[1..]) else s
  }

  function StripRight(s: bytes): bytes {
    if s != [] && IsSpace(s[|s| - 1]) then StripRight(s[..|s| - 1]) else s
  }

  /** Python's int(bytes): surrounding blanks, one sign, digits. */
  function PyInt(raw: bytes): Option<int> {
    var s := StripLeft(StripRight(raw));
    if s == [] then None
    else
      var signed := s[0] == MINUS || s[0] == PLUS;
      match Digits(if signed then s[1..] else s)
      case None => None
      case Some(v) =>
        var magnitude: int := v;
        Some(if s[0] == MINUS then -magnitude else magnitude)
  }

  lemma {:induction false} DigitsOfDecimal(n: nat)
    ensures Digits(Decimal(n)) == Some(n)
  {
    if n >= 10 {
      DigitsOfDecimal(n / 10);
      var d := Decimal(n);
      assert d[..|d| - 1] == Decimal(n / 10);
      assert IsDigit(Decimal(n / 10)[|Decimal(n / 10)| - 1]);
      assert d[|d| - 2] == Decimal(n / 10)[|Decimal(n / 10)| - 1];
    }
  }

  /** Reading back a printed integer gives the integer. */
  lemma PyIntOfDecimal(n: int)
    ensures PyInt(DecimalInt(n)) == Some(n)
  {
    DigitsOfDecimal(if n < 0 then -n else n);
    var d := DecimalInt(n);
    assert IsDigit(d[|d| - 1]);
    assert StripRight(d) == d;
    assert StripLeft(d) == d;
  }

  /** The blanks that Python strips: tab, line feed, vertical tab, form feed, carriage return and space. */
  predicate Blank(s: bytes) { forall i | 0 <= i < |s| :: s[i] in {9, 10, 11, 12, 13, 32} }

  lemma {:induction false} StripsBlanks(a: bytes, d: bytes, b: bytes)
    requires Blank(a) && Blank(b) && d != [] && !IsSpace(d[0]) && !IsSpace(d[|d| - 1])
    ensures StripRight(a + d + b) == a + d && StripLeft(a + d) == d
  {
    if b != [] {
      var n := |b| - 1;
      assert (a + d + b)[..|a + d + b| - 1] == a + d + b[..n];
      StripsBlanks(a, d, b[..n]);
    } else if a != [] {
      assert a + d + [] == a + d && (a + d)[1..] == a[1..] + d;
      StripsBlanks(a[1..], d, []);
      assert StripLeft(a + d) == StripLeft(a[1..] + d);
    } else {
      assert a + d + b == d && a + d == d;
    }
  }

  /** Blanks around a number and a plus sign before it do not matter. */
  lemma PyIntSpaced(n: int, a: bytes, b: bytes)
    requires Blank(a) && Blank(b)
    ensures PyInt(a + DecimalInt(n) + b) == Some(n)
    ensures n >= 0 ==> PyInt(a + ([43] + DecimalInt(n)) + b) == Some(n)
  {
    hide Decimal;
    var m: nat := if n < 0 then -n else n;
    var d := DecimalInt(n);
    DigitsOfDecimal(m);
    assert IsDigit(Decimal(m)[|Decimal(m)| - 1]);
    assert d[|d| - 1] == Decimal(m)[|Decimal(m)| - 1];
    assert IsDigit(Decimal(m)[0]);
    StripsBlanks(a, d, b);
    if n >= 0 {
      StripsBlanks(a, [43] + d, b);
      assert ([43] + d)[1..] == d;
    }
  }

  /** Nothing but digits, underscores, signs and blanks makes a number. */
  predicate Numeric(b: byte) { 48 <= b <= 57 || b in {95, 43, 45} || b in {9, 10, 11, 12, 13, 32} }

  lemma {:induction false} DigitsAreNumeric(s: bytes)
    ensures Digits(s).Some? ==> s != [] && forall i | 0 <= i < |s| :: Numeric(s[i])
    decreases |s|
  {
    if s != [] && IsDigit(s[|s| - 1]) && |s| > 1 {
      var init := if s[|s| - 2] == UNDERSCORE then s[..|s| - 2] else s[..|s| - 1];
      DigitsAreNumeric(init);
      forall i | 0 <= i < |s| && Digits(s).Some? ensures Numeric(s[i]) {
        if i < |init| { assert init[i] == s[i]; }
      }
    }
  }

  lemma {:induction false} StripKeepsLeft(s: bytes, i: nat)
    requires i < |s| && !Numeric(s[i])
    ensures exists j :: 0 <= j < |StripLeft(s)| && StripLeft(s)[j] == s[i]
  {
    if IsSpace(s[0]) {
      StripKeepsLeft(s[1..], i - 1);
      var j :| 0 <= j < |StripLeft(s[1..])| && StripLeft(s[1..])[j] == s[1..][i - 1];
      assert StripLeft(s)[j] == s[i];
    } else {
      assert StripLeft(s)[i] == s[i];
    }
  }

  lemma {:induction false} StripKeepsRight(s: bytes, i: nat)
    requires i < |s| && !Numeric(s[i])
    ensures exists j :: 0 <= j < |StripRight(s)| && StripRight(s)[j] == s[i]
  {
    if IsSpace(s[|s| - 1]) {
      var init := s[..|s| - 1];
      StripKeepsRight(init, i);
      var j :| 0 <= j < |StripRight(init)| && StripRight(init)[j] == init[i];
      assert StripRight(s)[j] == s[i];
    } else {
      assert StripRight(s)[i] == s[i];
    }
  }

  lemma NoNumber(raw: bytes)
    requires raw == [] || exists i :: 0 <= i < |raw| && !Numeric(raw[i])
    ensures PyInt(raw) == None
  {
    if i :| 0 <= i < |raw| && !Numeric(raw[i]) {
      StripKeepsRight(raw, i);
      var right := StripRight(raw);
      var j :| 0 <= j < |right| && right[j] == raw[i];
      StripKeepsLeft(right, j);
      var s := StripLeft(right);
      var k :| 0 <= k < |s| && s[k] == raw[i];
      var digits := if s[0] == MINUS || s[0] == PLUS then s[1..] else s;
      assert s[0] == MINUS || s[0] == PLUS ==> k > 0 && digits[k - 1] == s[k];
      DigitsAreNumeric(digits);
    }
  }

  // ---------------------------------------------------------------------------
  // Lines

  datatype Line = EndsAt(end: nat) | NoEnd | BareLf(at: nat)

  /**
   The line that starts at `pos`.  Leniently it runs to the first CR LF pair; strictly
   it must not hold a line feed that is not part of that pair.
   */
  function FindLine(s: bytes, pos: nat, strict: bool): (r: Line)
    requires pos <= |s|
    ensures r.EndsAt? ==> pos <= r.end && r.end + 2 <= |s| && s[r.end] == CR && s[r.end + 1] == LF
    decreases |s| - pos
  {
    if |s| - pos == 0 then NoEnd
    else if s[pos] == LF && strict then BareLf(pos)
    else if |s| - pos == 1 then NoEnd
    else if s[pos] == CR && s[pos + 1] == LF then EndsAt(pos)
    else FindLine(s, pos + 1, strict)
  }

  predicate CrlfAt(s: bytes, i: nat) { i + 1 < |s| && s[i] == CR && s[i + 1] == LF }

  lemma {:induction false} FindLineExtends(s: bytes, t: bytes, pos: nat, strict: bool)
    requires pos <= |s|
    ensures FindLine(s, pos, strict) != NoEnd
            ==> FindLine(s + t, pos, strict) == FindLine(s, pos, strict)
    decreases |s| - pos
  {
    if pos < |s| {
      FindLineExtends(s, t, pos + 1, strict);
    }
  }

  /** A line is exactly as long as its text when the text holds no line end. */
  lemma {:induction false} FindLineIs(s: bytes, pos: nat, end: nat, strict: bool)
    requires pos <= end && CrlfAt(s, end)
    requires forall i | pos <= i < end :: !CrlfAt(s, i)
    requires strict ==> forall i | pos <= i < end :: s[i] != LF
    ensures FindLine(s, pos, strict) == EndsAt(end)
    decreases end - pos
  {
    if pos < end {
      assert !CrlfAt(s, pos);
      FindLineIs(s, pos + 1, end, strict);
    }
  }

  lemma {:induction false} FindLineNone(s: bytes, pos: nat)
    requires pos <= |s|
    requires forall i | pos <= i < |s| :: !CrlfAt(s, i)
    ensures FindLine(s, pos, false) == NoEnd
    decreases |s| - pos
  {
    if pos < |s| {
      assert !CrlfAt(s, pos);
      FindLineNone(s, pos + 1);
    }
  }

  lemma {:induction false} FindLineMeans(s: bytes, pos: nat, strict: bool)
    requires pos <= |s|
    ensures FindLine(s, pos, strict).EndsAt? ==>
              forall i | pos <= i < FindLine(s, pos, strict).end :: !CrlfAt(s, i) && (strict ==> s[i] != LF)
    decreases |s| - pos
  {
    if pos < |s| {
      FindLineMeans(s, pos + 1, strict);
    }
  }

  /** readline of a file or a stream: up to and with the next line feed, or to the end. */
  function LineStop(buf: bytes, pos: nat): (stop: nat)
    requires pos <= |buf|
    ensures pos <= stop <= |buf|
    ensures forall i | pos <= i < stop - 1 :: buf[i] != LF
    ensures stop < |buf| ==> pos < stop && buf[stop - 1] == LF
    ensures pos < |buf| ==> pos < stop
    decreases |buf| - pos
  {
    if pos == |buf| then pos
    else if buf[pos] == LF then pos + 1
    else LineStop(buf, pos + 1)
  }

  predicate EndsWithCrlf(data: bytes) { |data| >= 2 && data[|data| - 2] == CR && data[|data| - 1] == LF }

  lemma {:induction false} FirstStop(buf: bytes, at: nat)
    requires at <= |buf|
    ensures FindLine(buf, at, true).EndsAt? ==> LineStop(buf, at) == FindLine(buf, at, true).end + 2
    ensures FindLine(buf, at, true).EndsAt? <==> EndsWithCrlf(buf[at..LineStop(buf, at)])
    decreases |buf| - at
  {
    if at < |buf| && buf[at] != LF {
      FirstStop(buf, at + 1);
      var stop := LineStop(buf, at);
      if stop - at >= 2 {
        assert buf[at..stop][stop - at - 2] == buf[stop - 2];
        assert buf[at..stop][stop - at - 1] == buf[stop - 1];
      }
    }
  }

  /** A strict line is also the lenient line. */
  lemma StrictLineIsLine(s: bytes, pos: nat)
    requires pos <= |s|
    ensures FindLine(s, pos, true).EndsAt? ==> FindLine(s, pos, false) == FindLine(s, pos, true)
  {
    FindLineMeans(s, pos, true);
    if FindLine(s, pos, true).EndsAt? {
      FindLineIs(s, pos, FindLine(s, pos, true).end, false);
    }
  }

  // ---------------------------------------------------------------------------
  // Replies

  datatype Reply =
    | Status(text: bytes)
    | Err(text: bytes)
    | Number(n: int)
    | Bulk(data: bytes)
    | Nil
    | Multi(items: seq<Reply>)

  datatype Fault = EmptyLine | BadType | BadNumber | NegativeLength | LoneLf | Hangup(text: bytes)

  datatype Parse<+T> = Done(value: T, next: nat) | Short(at: nat) | Bad(fault: Fault)

  /** What one header line announces. */
  datatype Head = Whole(reply: Reply) | Payload(length: int) | Items(count: nat) | Reject(fault: Fault)

  function FirstWord(text: bytes): (w: bytes)
    ensures |w| <= |text|
  {
    if text == [] || text[0] == SPACE then [] else [text[0]] + FirstWord(text[1..])
  }

  /** The error replies whose exception class derives from ConnectionError. */
  predicate ClosesConnection(text: bytes) {
    var code := FirstWord(text);
    || code == Ascii("LOADING")
    || code == Ascii("WRONGPASS")
    || code == Ascii("NOAUTH")
    || (code == Ascii("ERR") && |text| > |code|
        && text[|code| + 1..] in {
          Ascii("max number of clients reached"),
          Ascii("invalid password"),
          Ascii("AUTH <password> called without any password configured for the default user. "
                + "Are you sure your configuration is correct?"),
          Ascii("Client sent AUTH, but no password is set")})
  }

  const MINUS_ONE: bytes := [45, 49]

  function ReadHead(line: bytes): Head {
    if line == [] then Reject(EmptyLine)
    else
      var kind, rest := line[0], line[1..];
      if kind == MINUS then
        if ClosesConnection(rest) then Reject(Hangup(rest)) else Whole(Err(rest))
      else if kind == PLUS then Whole(Status(rest))
      else if kind == COLON then
        match PyInt(rest)
        case None => Reject(BadNumber)
        case Some(n) => Whole(Number(n))
      else if kind == DOLLAR && rest == MINUS_ONE then Whole(Nil)
      else if kind == DOLLAR then
        match PyInt(rest)
        case None => Reject(BadNumber)
        case Some(n) => Payload(n)
      else if kind == STAR && rest == MINUS_ONE then Whole(Nil)
      else if kind == STAR then
        match PyInt(rest)
        case None => Reject(BadNumber)
        case Some(n) => Items(if n < 0 then 0 else n)
      else Reject(BadType)
  }

  /** One reply starting at `pos`. */
  function ParseReply(s: bytes, pos: nat, strict: bool): (p: Parse<Reply>)
    requires pos <= |s|
    ensures p.Done? ==> pos < p.next <= |s|
    ensures p.Short? ==> pos <= p.at <= |s|
    decreases |s| - pos, 0
  {
    match FindLine(s, pos, strict)
    case NoEnd => Short(pos)
    case BareLf(_) => Bad(LoneLf)
    case EndsAt(end) => ParseBody(s, end + 2, ReadHead(s[pos..end]), strict)
  }

  /** What follows a header line. */
  function ParseBody(s: bytes, pos: nat, head: Head, strict: bool): (p: Parse<Reply>)
    requires pos <= |s|
    ensures p.Done? ==> pos <= p.next <= |s|
    ensures p.Short? ==> pos <= p.at <= |s|
    decreases |s| - pos, 2
  {
    match head
    case Reject(fault) => Bad(fault)
    case Whole(reply) => Done(reply, pos)
    case Payload(length) =>
      if length < 0 then Bad(NegativeLength)
      else if pos + length + 2 <= |s| then Done(Bulk(s[pos..pos + length]), pos + length + 2) else Short(pos)
    case Items(count) => AsMulti(ParseItems(s, pos, count, strict))
  }

  function AsMulti(p: Parse<seq<Reply>>): Parse<Reply> {
    match p
    case Bad(fault) => Bad(fault)
    case Short(at) => Short(at)
    case Done(items, next) => Done(Multi(items), next)
  }

  /** `count` replies one after another. */
  function ParseItems(s: bytes, pos: nat, count: nat, strict: bool): (p: Parse<seq<Reply>>)
    requires pos <= |s|
    ensures p.Done? ==> pos <= p.next <= |s| && |p.value| == count
    ensures p.Short? ==> pos <= p.at <= |s|
    decreases |s| - pos, 1
  {
    if count == 0 then Done([], pos)
    else
      match ParseReply(s, pos, strict)
      case Bad(fault) => Bad(fault)
      case Short(at) => Short(at)
      case Done(first, mid) =>
        match ParseItems(s, mid, count - 1, strict)
        case Bad(fault) => Bad(fault)
        case Short(at) => Short(at)
        case Done(rest, next) => Done([first] + rest, next)
  }

  // ---------------------------------------------------------------------------
  // More input never changes a decision that was already taken

  lemma {:induction false} ParseReplyExtends(s: bytes, t: bytes, pos: nat, strict: bool)
    requires pos <= |s|
    ensures !ParseReply(s, pos, strict).Short?
            ==> ParseReply(s + t, pos, strict) == ParseReply(s, pos, strict)
    decreases |s| - pos, 0
  {
    FindLineExtends(s, t, pos, strict);
    var line := FindLine(s, pos, strict);
    if line.EndsAt? {
      assert (s + t)[pos..line.end] == s[pos..line.end];
      ParseBodyExtends(s, t, line.end + 2, ReadHead(s[pos..line.end]), strict);
    }
  }

  lemma {:induction false} ParseBodyExtends(s: bytes, t: bytes, pos: nat, head: Head, strict: bool)
    requires pos <= |s|
    ensures !ParseBody(s, pos, head, strict).Short?
            ==> ParseBody(s + t, pos, head, strict) == ParseBody(s, pos, head, strict)
    decreases |s| - pos, 2
  {
    match head
    case Payload(length) =>
      if length >= 0 && pos + length + 2 <= |s| {
        assert (s + t)[pos..pos + length] == s[pos..pos + length];
      }
    case Items(count) => ParseItemsExtends(s, t, pos, count, strict);
    case _ =>
  }

  lemma {:induction false} ParseItemsExtends(s: bytes, t: bytes, pos: nat, count: nat, strict: bool)
    requires pos <= |s|
    ensures !ParseItems(s, pos, count, strict).Short?
            ==> ParseItems(s + t, pos, count, strict) == ParseItems(s, pos, count, strict)
    decreases |s| - pos, 1
  {
    if count > 0 {
      ParseReplyExtends(s, t, pos, strict);
      var first := ParseReply(s, pos, strict);
      if first.Done? {
        ParseItemsExtends(s, t, first.next, count - 1, strict);
      }
    }
  }

  /** A strict parse that finishes agrees with the lenient one. */
  lemma {:induction false} StrictReplyIsReply(s: bytes, pos: nat)
    requires pos <= |s|
    ensures ParseReply(s, pos, true).Done? ==> ParseReply(s, pos, false) == ParseReply(s, pos, true)
    decreases |s| - pos, 0
  {
    StrictLineIsLine(s, pos);
    var line := FindLine(s, pos, true);
    if line.EndsAt? {
      var head := ReadHead(s[pos..line.end]);
      if head.Items? {
        StrictItemsAreItems(s, line.end + 2, head.count);
      }
    }
  }

  lemma {:induction false} StrictItemsAreItems(s: bytes, pos: nat, count: nat)
    requires pos <= |s|
    ensures ParseItems(s, pos, count, true).Done?
            ==> ParseItems(s, pos, count, false) == ParseItems(s, pos, count, true)
    decreases |s| - pos, 1
  {
    if count > 0 {
      StrictReplyIsReply(s, pos);
      var first := ParseReply(s, pos, true);
      if first.Done? {
        StrictItemsAreItems(s, first.next, count - 1);
      }
    }
  }

  /** A strict parse differs from a finished lenient one only because of a bare line feed. */
  lemma {:induction false} OnlyLoneLfDiffers(s: bytes, pos: nat)
    requires pos <= |s| && ParseReply(s, pos, false).Done?
    ensures ParseReply(s, pos, true).Done? || ParseReply(s, pos, true) == Bad(LoneLf)
    decreases |s| - pos, 0
  {
    hide ReadHead;
    StrictLineEnds(s, pos);
    var line := FindLine(s, pos, true);
    if line.EndsAt? {
      StrictLineIsLine(s, pos);
      var head := ReadHead(s[pos..line.end]);
      if head.Items? {
        OnlyLoneLfDiffersInItems(s, line.end + 2, head.count);
      }
    }
  }

  lemma {:induction false} OnlyLoneLfDiffersInItems(s: bytes, pos: nat, count: nat)
    requires pos <= |s| && ParseItems(s, pos, count, false).Done?
    ensures ParseItems(s, pos, count, true).Done? || ParseItems(s, pos, count, true) == Bad(LoneLf)
    decreases |s| - pos, 1
  {
    if count > 0 {
      OnlyLoneLfDiffers(s, pos);
      StrictReplyIsReply(s, pos);
      OnlyLoneLfDiffersInItems(s, ParseReply(s, pos, false).next, count - 1);
    }
  }

  lemma {:induction false} StrictLineEnds(s: bytes, pos: nat)
    requires pos <= |s| && FindLine(s, pos, false).EndsAt?
    ensures FindLine(s, pos, true) != NoEnd
    decreases |s| - pos
  {
    if s[pos] != LF && !CrlfAt(s, pos) {
      StrictLineEnds(s, pos + 1);
    }
  }

  /** One more reply at the end of a parsed run of replies. */
  lemma {:induction false} ParseItemsSnoc(s: bytes, pos: nat, count: nat, strict: bool)
    requires pos <= |s|
    requires ParseItems(s, pos, count, strict).Done?
    ensures var p := ParseItems(s, pos, count, strict);
            var q := ParseReply(s, p.next, strict);
            q.Done? ==> ParseItems(s, pos, count + 1, strict) == Done(p.value + [q.value], q.next)
    decreases count
  {
    if count > 0 {
      var first := ParseReply(s, pos, strict);
      ParseItemsSnoc(s, first.next, count - 1, strict);
      var p := ParseItems(s, first.next, count - 1, strict);
      var q := ParseReply(s, p.next, strict);
      if q.Done? {
        assert [first.value] + (p.value + [q.value]) == ([first.value] + p.value) + [q.value];
      }
    } else {
      var q := ParseReply(s, pos, strict);
      if q.Done? {
        assert ParseItems(s, q.next, 0, strict) == Done([], q.next);
        assert [q.value] + [] == [] + [q.value];
      }
    }
  }

  /** What stops the first replies stops the whole run. */
  lemma {:induction false} ParseItemsBlocked(s: bytes, pos: nat, few: nat, many: nat, strict: bool)
    requires pos <= |s| && few <= many
    requires !ParseItems(s, pos, few, strict).Done?
    ensures ParseItems(s, pos, many, strict) == ParseItems(s, pos, few, strict)
    decreases few
  {
    var first := ParseReply(s, pos, strict);
    if first.Done? {
      ParseItemsBlocked(s, first.next, few - 1, many - 1, strict);
    }
  }

  /** What stops the next reply stops a run with one more reply. */
  lemma {:induction false} ParseItemsStop(s: bytes, pos: nat, count: nat, strict: bool)
    requires pos <= |s|
    requires ParseItems(s, pos, count, strict).Done?
    ensures var q := ParseReply(s, ParseItems(s, pos, count, strict).next, strict);
            && (q.Bad? ==> ParseItems(s, pos, count + 1, strict) == Bad(q.fault))
            && (q.Short? ==> ParseItems(s, pos, count + 1, strict) == Short(q.at))
    decreases count
  {
    if count > 0 {
      ParseItemsStop(s, ParseReply(s, pos, strict).next, count - 1, strict);
    }
  }

  /** How a parsed prefix of a run goes on when more text has arrived and one more reply is looked at. */
  lemma NextItem(before: bytes, after: bytes, pos: nat, few: nat, many: nat, strict: bool)
    requires before <= after && pos <= |before| && few < many
    ensures var p := ParseItems(before, pos, few, strict);
            && (p.Bad? ==> ParseItems(after, pos, few + 1, strict) == ParseItems(after, pos, many, strict) == p)
            && (p.Done? ==>
                  var q := ParseReply(after, p.next, strict);
                  && (q.Done? ==> ParseItems(after, pos, few + 1, strict) == Done(p.value + [q.value], q.next))
                  && (q.Bad? ==>
                       ParseItems(after, pos, few + 1, strict) == ParseItems(after, pos, many, strict) == Bad(q.fault)))
  {
    hide ParseItems, ParseReply;
    assert before + after[|before|..] == after;
    ParseItemsExtends(before, after[|before|..], pos, few, strict);
    var p := ParseItems(before, pos, few, strict);
    if p.Bad? {
      ParseItemsBlocked(after, pos, few, few + 1, strict);
      ParseItemsBlocked(after, pos, few, many, strict);
    } else if p.Done? {
      ParseItemsSnoc(after, pos, few, strict);
      ParseItemsStop(after, pos, few, strict);
      if ParseReply(after, p.next, strict).Bad? {
        ParseItemsBlocked(after, pos, few + 1, many, strict);
      }
    }
  }

  lemma FirstItem(s: bytes, pos: nat, count: nat, strict: bool)
    requires pos <= |s| && count > 0 && ParseItems(s, pos, count, strict).Done?
    ensures ParseReply(s, pos, strict).Done?
    ensures ParseItems(s, ParseReply(s, pos, strict).next, count - 1, strict).Done?
  {
  }

  lemma LoneLfAhead(s: bytes, pos: nat, count: nat)
    requires pos <= |s| && ParseItems(s, pos, count, true) == Bad(LoneLf)
    ensures count > 0
    ensures var q := ParseReply(s, pos, true);
            || q == Bad(LoneLf)
            || (q.Done? && ParseItems(s, q.next, count - 1, true) == Bad(LoneLf))
  {
  }

  lemma NoLineNoReply(s: bytes, pos: nat, strict: bool)
    requires pos <= |s| && !FindLine(s, pos, strict).EndsAt?
    ensures !ParseReply(s, pos, strict).Done?
    ensures FindLine(s, pos, strict) == NoEnd ==> ParseReply(s, pos, strict) == Short(pos)
  {
  }

  lemma EmptyLineIsBad(s: bytes, pos: nat, strict: bool)
    requires pos <= |s| && FindLine(s, pos, strict) == EndsAt(pos)
    ensures ParseReply(s, pos, strict) == Bad(EmptyLine)
  {
    assert s[pos..pos] == [];
  }

  // ---------------------------------------------------------------------------
  // A reply does not depend on what stands before it

  function Shift<T>(p: Parse<T>, offset: nat): Parse<T> {
    match p
    case Done(value, next) => Done(value, next + offset)
    case Short(at) => Short(at + offset)
    case Bad(fault) => Bad(fault)
  }

  lemma {:induction false} FindLineShifts(u: bytes, s: bytes, pos: nat, strict: bool)
    requires pos <= |s|
    ensures FindLine(u + s, |u| + pos, strict)
            == match FindLine(s, pos, strict)
               case EndsAt(end) => EndsAt(|u| + end)
               case NoEnd => NoEnd
               case BareLf(at) => BareLf(|u| + at)
    decreases |s| - pos
  {
    if pos < |s| { FindLineShifts(u, s, pos + 1, strict); }
  }

  lemma {:induction false} ParseReplyShifts(u: bytes, s: bytes, pos: nat, strict: bool)
    requires pos <= |s|
    ensures ParseReply(u + s, |u| + pos, strict) == Shift(ParseReply(s, pos, strict), |u|)
    decreases |s| - pos, 0
  {
    hide ReadHead, FindLine;
    FindLineShifts(u, s, pos, strict);
    var line := FindLine(s, pos, strict);
    if line.EndsAt? {
      assert (u + s)[|u| + pos..|u| + line.end] == s[pos..line.end];
      ParseBodyShifts(u, s, line.end + 2, ReadHead(s[pos..line.end]), strict);
    }
  }

  lemma {:induction false} ParseBodyShifts(u: bytes, s: bytes, pos: nat, head: Head, strict: bool)
    requires pos <= |s|
    ensures ParseBody(u + s, |u| + pos, head, strict) == Shift(ParseBody(s, pos, head, strict), |u|)
    decreases |s| - pos, 2
  {
    match head
    case Payload(length) =>
      if length >= 0 && pos + length + 2 <= |s| {
        assert (u + s)[|u| + pos..|u| + pos + length] == s[pos..pos + length];
      }
    case Items(count) => ParseItemsShifts(u, s, pos, count, strict);
    case _ =>
  }

  lemma {:induction false} ParseItemsShifts(u: bytes, s: bytes, pos: nat, count: nat, strict: bool)
    requires pos <= |s|
    ensures ParseItems(u + s, |u| + pos, count, strict) == Shift(ParseItems(s, pos, count, strict), |u|)
    decreases |s| - pos, 1
  {
    hide ParseReply, ParseBody;
    if count > 0 {
      ParseReplyShifts(u, s, pos, strict);
      var first := ParseReply(s, pos, strict);
      if first.Done? {
        ParseItemsShifts(u, s, first.next, count - 1, strict);
      }
    }
  }

  // ---------------------------------------------------------------------------
  // Printing and the round trip

  function Render(r: Reply): (b: bytes)
    decreases r, 0
  {
    match r
    case Status(text) => [PLUS] + text + CRLF
    case Err(text) => [MINUS] + text + CRLF
    case Number(n) => [COLON] + DecimalInt(n) + CRLF
    case Bulk(data) => [DOLLAR] + Decimal(|data|) + CRLF + (data + CRLF)
    case Nil => [DOLLAR] + MINUS_ONE + CRLF
    case Multi(items) => [STAR] + Decimal(|items|) + CRLF + RenderAll(items)
  }

  function RenderAll(items: seq<Reply>): bytes
    decreases items, 1
  {
    if items == [] then [] else Render(items[0]) + RenderAll(items[1..])
  }

  /** The forms on the wire, byte for byte. */
  lemma WireForms(text: bytes, n: int, items: seq<Reply>)
    ensures Render(Status(text)) == [43] + text + [13, 10] && Render(Err(text)) == [45] + text + [13, 10]
    ensures Render(Number(n)) == [58] + DecimalInt(n) + [13, 10] && DecimalInt(-1) == [45, 49]
    ensures Render(Bulk(text)) == [36] + Decimal(|text|) + [13, 10] + text + [13, 10]
    ensures Render(Nil) == [36, 45, 49, 13, 10]
    ensures Render(Multi(items)) == [42] + Decimal(|items|) + [13, 10] + RenderAll(items)
    ensures Decimal(407) == [52, 48, 55]
  {
    assert Decimal(4) == [52] && Decimal(40) == [52, 48];
  }

  /** The text is this code, alone or with a space behind it. */
  predicate HasCode(text: bytes, code: string) {
    && |text| >= |code| && text[..|code|] == Ascii(code)
    && (|text| > |code| ==> text[|code|] == 32)
  }

  /** The texts for which the error is a ConnectionError: three codes, and four messages of the code ERR. */
  predicate EndsConnection(text: bytes) {
    || HasCode(text, "LOADING") || HasCode(text, "WRONGPASS") || HasCode(text, "NOAUTH")
    || HasMessage(text, "max number of clients reached")
    || HasMessage(text, "invalid password")
    || HasMessage(text, "Client sent AUTH, but no password is set")
    || HasMessage(text, "AUTH <password> called without any password configured for the default user. "
                        + "Are you sure your configuration is correct?")
  }

  /** The text is this message of the code ERR. */
  predicate HasMessage(text: bytes, message: string) { text == Ascii("ERR " + message) }

  /** The replies a server may send: one-line texts hold no line feed, and no error closes the connection. */
  predicate Sendable(r: Reply)
    decreases r, 0
  {
    match r
    case Status(text) => LF !in text
    case Err(text) => LF !in text && !EndsConnection(text)
    case Multi(items) => AllSendable(items)
    case _ => true
  }

  predicate AllSendable(items: seq<Reply>)
    decreases items, 1
  {
    items == [] || (Sendable(items[0]) && AllSendable(items[1..]))
  }

  /** The header line of a printed reply is found again. */
  lemma LineOf(s: bytes, pos: nat, text: bytes, strict: bool)
    requires At(s, pos, text + CRLF) && LF !in text
    ensures FindLine(s, pos, strict) == EndsAt(pos + |text|)
    ensures s[pos..pos + |text|] == text
  {
    AtSplit(s, pos, text, CRLF);
    forall i | pos <= i < pos + |text| ensures s[i] != LF {
      assert s[i] == text[i - pos];
    }
    assert s[pos + |text|..pos + |text| + 2] == CRLF;
    assert s[pos + |text|] == s[pos + |text|..pos + |text| + 2][0];
    assert s[pos + |text| + 1] == s[pos + |text|..pos + |text| + 2][1];
    forall i | pos <= i < pos + |text| ensures !CrlfAt(s, i) {
    }
    FindLineIs(s, pos, pos + |text|, strict);
  }

  lemma HeadOfLength(kind: byte, n: nat)
    requires kind == DOLLAR || kind == STAR
    ensures ReadHead([kind] + Decimal(n)) == (if kind == DOLLAR then Payload(n) else Items(n))
    ensures LF !in [kind] + Decimal(n)
  {
    PyIntOfDecimal(n);
    var line := [kind] + Decimal(n);
    assert line[1..] == Decimal(n);
    assert IsDigit(Decimal(n)[0]);
    forall i | 0 <= i < |line| ensures line[i] != LF {
      if i > 0 { assert IsDigit(Decimal(n)[i - 1]); }
    }
  }

  lemma HeadOfText(r: Reply, text: bytes)
    requires r == Status(text) || (r == Err(text) && !ClosesConnection(text))
    ensures ReadHead([if r.Status? then PLUS else MINUS] + text) == Whole(r)
  {
    assert ([if r.Status? then PLUS else MINUS] + text)[1..] == text;
  }

  lemma HeadOfNumber(n: int)
    ensures ReadHead([COLON] + DecimalInt(n)) == Whole(Number(n))
    ensures LF !in [COLON] + DecimalInt(n)
  {
    PyIntOfDecimal(n);
    var line := [COLON] + DecimalInt(n);
    assert line[1..] == DecimalInt(n);
    var m := if n < 0 then -n else n;
    forall i | 0 <= i < |line| ensures line[i] != LF {
      if n < 0 && i > 1 { assert line[i] == Decimal(m)[i - 2] && IsDigit(Decimal(m)[i - 2]); }
      if n >= 0 && i > 0 { assert line[i] == Decimal(m)[i - 1] && IsDigit(Decimal(m)[i - 1]); }
    }
  }

  lemma {:induction false} FirstWordIs(text: bytes)
    ensures var w := FirstWord(text);
            && text[..|w|] == w && SPACE !in w && (|text| > |w| ==> text[|w|] == SPACE)
  {
    if text != [] && text[0] != SPACE {
      FirstWordIs(text[1..]);
      assert text == [text[0]] + text[1..];
    }
  }

  lemma {:induction false} FirstWordIsCode(text: bytes, code: bytes)
    requires |code| <= |text| && text[..|code|] == code && SPACE !in code
    requires |text| > |code| ==> text[|code|] == SPACE
    ensures FirstWord(text) == code
  {
    if code != [] {
      assert text[0] == code[0] && text[1..][..|code| - 1] == code[1..];
      FirstWordIsCode(text[1..], code[1..]);
    }
  }

  lemma HasCodeIff(text: bytes, code: string)
    requires forall i | 0 <= i < |code| :: code[i] as int < 128 && code[i] != ' '
    ensures FirstWord(text) == Ascii(code) <==> HasCode(text, code)
  {
    FirstWordIs(text);
    if HasCode(text, code) { FirstWordIsCode(text, Ascii(code)); }
  }

  lemma ErrMessageIff(text: bytes, message: string)
    ensures HasMessage(text, message)
            <==> HasCode(text, "ERR") && |text| > 3 && text[4..] == Ascii(message)
  {
    var all := Ascii("ERR " + message);
    assert "ERR"[0] == 'E';
    if HasCode(text, "ERR") && |text| > 3 && text[4..] == Ascii(message) {
      assert text == text[..3] + [text[3]] + text[4..];
    }
  }

  lemma ClosesIff(text: bytes)
    ensures ClosesConnection(text) <==> EndsConnection(text)
  {
    hide FirstWord, HasCode, HasMessage, Ascii;
    HasCodeIff(text, "LOADING");
    HasCodeIff(text, "WRONGPASS");
    HasCodeIff(text, "NOAUTH");
    HasCodeIff(text, "ERR");
    ErrMessageIff(text, "max number of clients reached");
    ErrMessageIff(text, "invalid password");
    ErrMessageIff(text, "Client sent AUTH, but no password is set");
    ErrMessageIff(text, "AUTH <password> called without any password configured for the default user. "
                        + "Are you sure your configuration is correct?");
  }

  lemma ParseAtLine(s: bytes, pos: nat, end: nat, strict: bool)
    requires pos <= |s| && FindLine(s, pos, strict) == EndsAt(end)
    ensures pos <= end && end + 2 <= |s|
    ensures ParseReply(s, pos, strict) == ParseBody(s, end + 2, ReadHead(s[pos..end]), strict)
  {
    hide ReadHead, ParseBody;
  }

  /** A reply is what its header line and the bytes behind it say. */
  lemma ParseLine(s: bytes, pos: nat, line: bytes, strict: bool)
    requires At(s, pos, line + CRLF) && LF !in line
    ensures pos + |line| + 2 <= |s|
    ensures ParseReply(s, pos, strict) == ParseBody(s, pos + |line| + 2, ReadHead(line), strict)
  {
    hide ReadHead, FindLine, ParseBody, ParseReply;
    assert |line + CRLF| == |line| + 2;
    LineOf(s, pos, line, strict);
    ParseAtLine(s, pos, pos + |line|, strict);
  }

  /**
   An error line, wherever it stands in a stream: it is the reply with that text, unless the text
   is one of those that end the connection.
   */
  lemma ErrorReplyIff(s: bytes, pos: nat, text: bytes, strict: bool)
    requires ErrorLineAt(s, pos, text)
    ensures !EndsConnection(text) <==> ParseReply(s, pos, strict) == Done(Err(text), pos + |text| + 3)
    ensures EndsConnection(text) <==> ParseReply(s, pos, strict) == Bad(Hangup(text))
  {
    hide FindLine, HasCode, ClosesConnection, EndsConnection;
    ClosesIff(text);
    var line := [MINUS] + text;
    assert line[1..] == text && [45] + text + [13, 10] == line + CRLF;
    ParseLine(s, pos, line, strict);
  }

  /** A minus sign, a text without line feed, and a line end. */
  predicate ErrorLineAt(s: bytes, pos: nat, text: bytes) { At(s, pos, [45] + text + [13, 10]) && 10 !in text }

  /** The other lines: an array of length -1 is nil, and what is wrong with a line that is no reply. */
  lemma OtherLines(s: bytes, pos: nat, line: bytes, strict: bool)
    requires At(s, pos, line + [13, 10]) && 10 !in line
    ensures line == [42, 45, 49] ==> ParseReply(s, pos, strict) == Done(Nil, pos + 5)
    ensures line == [] ==> ParseReply(s, pos, strict) == Bad(EmptyLine)
    ensures line != [] && line[0] !in {43, 45, 58, 36, 42} ==> ParseReply(s, pos, strict) == Bad(BadType)
    ensures line != [] && line[0] in {58, 36, 42}
              && (|line| == 1 || exists i :: 1 <= i < |line| && !Numeric(line[i])) ==>
              ParseReply(s, pos, strict) == Bad(BadNumber)
  {
    hide FindLine, PyInt;
    ParseLine(s, pos, line, strict);
    if line != [] && (|line| == 1 || exists i :: 1 <= i < |line| && !Numeric(line[i])) {
      if i :| 1 <= i < |line| && !Numeric(line[i]) { assert line[1..][i - 1] == line[i]; }
      NoNumber(line[1..]);
      assert line[1..] == MINUS_ONE ==> forall i | 1 <= i < |line| :: line[i] == MINUS_ONE[i - 1];
    }
  }

  lemma ParseBulk(s: bytes, pos: nat, data: bytes, strict: bool)
    requires At(s, pos, Render(Bulk(data)))
    ensures ParseReply(s, pos, strict) == Done(Bulk(data), pos + |Render(Bulk(data))|)
  {
    hide ReadHead, Decimal, FindLine;
    var line := [DOLLAR] + Decimal(|data|);
    assert Render(Bulk(data)) == (line + CRLF) + (data + CRLF);
    AtSplit(s, pos, line + CRLF, data + CRLF);
    HeadOfLength(DOLLAR, |data|);
    ParseLine(s, pos, line, strict);
    AtSplit(s, pos + |line| + 2, data, CRLF);
  }

  /** Wherever a printed reply stands in a stream, the parser reads it back and stops right behind it. */
  lemma {:induction false} ParseRender(s: bytes, pos: nat, r: Reply, strict: bool)
    requires At(s, pos, Render(r)) && Sendable(r)
    ensures ParseReply(s, pos, strict) == Done(r, pos + |Render(r)|)
    decreases r, 0
  {
    match r
    case Status(text) =>
      HeadOfText(r, text);
      ParseLine(s, pos, [PLUS] + text, strict);
    case Err(text) =>
      ClosesIff(text);
      HeadOfText(r, text);
      ParseLine(s, pos, [MINUS] + text, strict);
    case Number(n) =>
      HeadOfNumber(n);
      ParseLine(s, pos, [COLON] + DecimalInt(n), strict);
    case Nil =>
      assert ([DOLLAR] + MINUS_ONE)[1..] == MINUS_ONE;
      ParseLine(s, pos, [DOLLAR] + MINUS_ONE, strict);
    case Bulk(data) =>
      ParseBulk(s, pos, data, strict);
    case Multi(items) =>
      ParseMulti(s, pos, items, strict);
  }

  lemma {:induction false} ParseMulti(s: bytes, pos: nat, items: seq<Reply>, strict: bool)
    requires At(s, pos, Render(Multi(items))) && AllSendable(items)
    ensures ParseReply(s, pos, strict) == Done(Multi(items), pos + |Render(Multi(items))|)
    decreases items, 2
  {
    hide ReadHead, Decimal, FindLine, ParseReply, ParseItems;
    var line := [STAR] + Decimal(|items|);
    assert Render(Multi(items)) == (line + CRLF) + RenderAll(items);
    AtSplit(s, pos, line + CRLF, RenderAll(items));
    HeadOfLength(STAR, |items|);
    ParseLine(s, pos, line, strict);
    ParseRenderAll(s, pos + |line| + 2, items, strict);
  }

  /** The same for a run of replies. */
  lemma {:induction false} ParseRenderAll(s: bytes, pos: nat, items: seq<Reply>, strict: bool)
    requires At(s, pos, RenderAll(items)) && AllSendable(items)
    ensures ParseItems(s, pos, |items|, strict) == Done(items, pos + |RenderAll(items)|)
    decreases items, 1
  {
    hide ReadHead, FindLine, Decimal, ParseReply, Render, Sendable, At;
    if items != [] {
      AtSplit(s, pos, Render(items[0]), RenderAll(items[1..]));
      ParseRender(s, pos, items[0], strict);
      var mid := pos + |Render(items[0])|;
      ParseRenderAll(s, mid, items[1..], strict);
      assert [items[0]] + items[1..] == items;
    }
  }

  /**
   Whatever prefix of a server's output has arrived, the first `count` replies that can be
   parsed from it are the first `count` replies the server printed.
   */
  lemma ArrivedRepliesAreSent(arrived: bytes, later: bytes, sent: seq<Reply>, count: nat, strict: bool)
    requires arrived + later == RenderAll(sent) && AllSendable(sent)
    requires ParseItems(arrived, 0, count, strict).Done?
    ensures count <= |sent|
    ensures ParseItems(arrived, 0, count, strict).value == sent[..count]
  {
    hide ParseReply, RenderAll, AllSendable, ParseItems;
    var s := arrived + later;
    ParseItemsExtends(arrived, later, 0, count, strict);
    ParseRenderAll(s, 0, sent, strict);
    if count <= |sent| {
      ParseItemsPrefix(s, 0, count, |sent|, strict);
    } else {
      ParseItemsPrefix(s, 0, |sent|, count, strict);
      NothingLeft(s, 0, |sent|, count, strict);
    }
  }

  /** No prefix of a server's output is rejected. */
  lemma {:induction false} SentIsNeverBad(arrived: bytes, later: bytes, sent: seq<Reply>, count: nat, strict: bool)
    requires arrived + later == RenderAll(sent) && AllSendable(sent)
    ensures !ParseItems(arrived, 0, count, strict).Bad?
  {
    if ParseItems(arrived, 0, count, strict).Bad? {
      var s := arrived + later;
      ParseItemsExtends(arrived, later, 0, count, strict);
      ParseRenderAll(s, 0, sent, strict);
      if count <= |sent| {
        ParseItemsBlocked(s, 0, count, |sent|, strict);
      } else {
        EndIsShort(s, 0, |sent|, count, strict);
      }
    }
  }

  lemma {:induction false} EndIsShort(s: bytes, pos: nat, few: nat, many: nat, strict: bool)
    requires pos <= |s| && few < many
    requires ParseItems(s, pos, few, strict).Done? && ParseItems(s, pos, few, strict).next == |s|
    ensures ParseItems(s, pos, many, strict).Short?
    decreases few
  {
    if few > 0 {
      EndIsShort(s, ParseReply(s, pos, strict).next, few - 1, many - 1, strict);
    }
  }

  lemma {:induction false} ParseItemsPrefix(s: bytes, pos: nat, few: nat, many: nat, strict: bool)
    requires pos <= |s| && few <= many
    requires ParseItems(s, pos, many, strict).Done?
    ensures ParseItems(s, pos, few, strict).Done?
    ensures ParseItems(s, pos, few, strict).value == ParseItems(s, pos, many, strict).value[..few]
    decreases few
  {
    if few > 0 {
      ParseItemsPrefix(s, ParseReply(s, pos, strict).next, few - 1, many - 1, strict);
    }
  }

  lemma {:induction false} NothingLeft(s: bytes, pos: nat, few: nat, many: nat, strict: bool)
    requires pos <= |s| && few < many
    requires ParseItems(s, pos, many, strict).Done?
    requires ParseItems(s, pos, few, strict).Done?
    ensures ParseItems(s, pos, few, strict).next < |s|
    decreases few
  {
    if few > 0 {
      NothingLeft(s, ParseReply(s, pos, strict).next, few - 1, many - 1, strict);
    }
  }
}
