/** Laws of the tokenizer, and queue_to_string of queue_func.c. */
module Lines {
  import opened Buffers
  import opened Text
  import opened Tokenizer

  // ----- a token, and a line, are decided by the bytes they consume -----

  lemma Regroup(s: string, j: nat, k: nat, tail: string)
    requires j <= k <= |s|
    ensures s[..k] + tail == s[..j] + (s[j..][..k - j] + tail)
  {
    assert s[..k] == s[..j] + s[j..k] && s[j..][..k - j] == s[j..k];
  }

  lemma {:induction false} TokenIsLocal(s: string, tail: string, acc: string, quoted: bool, room: Option<nat>,
                                        mode: Mode, m: nat)
    requires ScanToken(s, acc, quoted, room, mode, m).Cut?
    ensures var r := ScanToken(s, acc, quoted, room, mode, m);
            ScanToken(s[..|s| - |r.rest|] + tail, acc, quoted, room, mode, m) == Cut(r.tok, tail)
    decreases |s|
  {
    var r := ScanToken(s, acc, quoted, room, mode, m);
    var used := s[..|s| - |r.rest|] + tail;
    if room == Some(0) || |acc| >= MAX_LINE_LENGTH {
      assert used == tail;
    } else {
      var e := Classify(s[0], quoted, |acc|, mode, m);
      if e.stop {
        assert used[1..] == tail;
      } else {
        var acc' := if e.keep then acc + [s[0]] else acc;
        TokenIsLocal(s[1..], tail, acc', e.quoted, Less(room, 1), mode, m);
        Regroup(s, 1, |s| - |r.rest|, tail);
        assert s[..1] == [s[0]];
      }
    }
  }

  /** A line is its first token, and the line after it unless that token ends it. */
  lemma LineUnfold(s: string, room: Option<nat>, mode: Mode, m: nat, q: seq<Token>, rest: string)
    returns (t: Token, after: string, last: bool)
    requires room != Some(0) && ScanLine(s, room, mode, m) == Line(q, rest)
    ensures ScanToken(s, "", false, room, mode, m) == Cut(t, after) && |rest| <= |after| < |s|
    ensures after == s[|s| - |after|..] && |q| > 0 && q[0] == t
    ensures var left := Less(room, |s| - |after|);
            && last == (mode.literal || t.IsEol() || left == Some(0))
            && (if last then q == [t] && after == rest
                else |q| > 1 && ScanLine(after, left, mode, m) == Line(q[1..], rest))
  {
    var Cut(t', after') := ScanToken(s, "", false, room, mode, m);
    ScanTakesPrefix(s, "", false, room, mode, m);
    t, after := t', after';
    last := mode.literal || t.IsEol() || Less(room, |s| - |after|) == Some(0);
  }

  lemma LineFold(s: string, room: Option<nat>, mode: Mode, m: nat, t: Token, after: string, q: seq<Token>, rest: string)
    requires room != Some(0) && |after| < |s| && ScanToken(s, "", false, room, mode, m) == Cut(t, after)
    requires var left := Less(room, |s| - |after|);
             !mode.literal && !t.IsEol() && left != Some(0) && ScanLine(after, left, mode, m) == Line(q, rest)
    ensures ScanLine(s, room, mode, m) == Line([t] + q, rest)
  {
  }

  /** The line that reads `q` from `used` and nothing beyond it. */
  ghost predicate Takes(used: string, room: Option<nat>, mode: Mode, m: nat, q: seq<Token>, tail: string)
    requires room != Some(0)
  {
    ScanLine(used + tail, room, mode, m) == Line(q, tail)
  }

  lemma TakesFold(s: string, j: nat, k: nat, tail: string, room: Option<nat>, mode: Mode, m: nat, t: Token,
                  q: seq<Token>)
    requires room != Some(0) && 0 < j <= k <= |s|
    requires ScanToken(s, "", false, room, mode, m) == Cut(t, s[j..]) && !mode.literal && !t.IsEol()
    requires Less(room, j) != Some(0) && Takes(s[j..][..k - j], Less(room, j), mode, m, q, tail)
    ensures Takes(s[..k], room, mode, m, [t] + q, tail)
  {
    hide ScanToken, ScanLine;
    var more := s[j..][..k - j] + tail;
    TokenIsLocal(s, more, "", false, room, mode, m);
    Regroup(s, j, k, tail);
    LineFold(s[..k] + tail, room, mode, m, t, more, q, tail);
  }

  lemma LineEnd(s: string, tail: string, room: Option<nat>, mode: Mode, m: nat, t: Token)
    requires room != Some(0) && ScanToken(s, "", false, room, mode, m).Cut?
    requires var Cut(t', rest) := ScanToken(s, "", false, room, mode, m);
             t == t' && (mode.literal || t.IsEol() || Less(room, |s| - |rest|) == Some(0))
    ensures var rest := ScanToken(s, "", false, room, mode, m).rest;
            Takes(s[..|s| - |rest|], room, mode, m, [t], tail)
  {
    TokenIsLocal(s, tail, "", false, room, mode, m);
  }

  /** The tokens of a line are the tokenization of exactly the bytes consumed,
      whatever follows them. */
  lemma {:induction false} LineIsLocal(s: string, tail: string, room: Option<nat>, mode: Mode, m: nat,
                                       q: seq<Token>, rest: string)
    requires room != Some(0) && ScanLine(s, room, mode, m) == Line(q, rest)
    ensures |rest| < |s| && Takes(s[..|s| - |rest|], room, mode, m, q, tail)
    decreases |s|
  {
    hide ScanToken, ScanLine;
    var t, after, last := LineUnfold(s, room, mode, m, q, rest);
    if last {
      LineEnd(s, tail, room, mode, m, t);
    } else {
      var j, k := |s| - |after|, |s| - |rest|;
      LineIsLocal(after, tail, Less(room, j), mode, m, q[1..], rest);
      TakesFold(s, j, k, tail, room, mode, m, t, q[1..]);
      assert q == [t] + q[1..];
    }
  }

  // ----- any sequence of reads, over any chunking -----

  datatype Request = GetToken(mode: Mode, m: nat) | GetLine(mode: Mode, m: nat, n: nat)
  datatype Reply = TokenReply(t: Option<Token>) | LineReply(q: Option<seq<Token>>)

  function Answer(s: string, req: Request): (Reply, string) {
    match req
    case GetToken(mode, m) =>
      (match ScanToken(s, "", false, None, mode, m)
       case Starved => (TokenReply(None), "")
       case Cut(t, rest) => (TokenReply(Some(t)), rest))
    case GetLine(mode, m, n) =>
      (match ScanLine(s, Room(n), mode, m)
       case LineStarved => (LineReply(None), "")
       case Line(q, rest) => (LineReply(Some(q)), rest))
  }

  function Answers(s: string, reqs: seq<Request>): (seq<Reply>, string)
    decreases |reqs|
  {
    if reqs == [] then ([], s)
    else
      var (reply, rest) := Answer(s, reqs[0]);
      var (replies, end) := Answers(rest, reqs[1..]);
      ([reply] + replies, end)
  }

  lemma {:induction false} AnswersSnoc(s: string, reqs: seq<Request>, last: Request)
    ensures var (replies, rest) := Answers(s, reqs);
            var (reply, end) := Answer(rest, last);
            Answers(s, reqs + [last]) == (replies + [reply], end)
    decreases |reqs|
  {
    if reqs == [] {
      var (reply, end) := Answer(s, last);
      assert (reqs + [last])[1..] == [] && [reply] + [] == [] + [reply];
    } else {
      var (first, after) := Answer(s, reqs[0]);
      assert (reqs + [last])[0] == reqs[0] && (reqs + [last])[1..] == reqs[1..] + [last];
      AnswersSnoc(after, reqs[1..], last);
      var (replies, rest) := Answers(after, reqs[1..]);
      assert [first] + (replies + [Answer(rest, last).0]) == [first] + replies + [Answer(rest, last).0];
    }
  }

  /** Any sequence of reads on one connection answers as the tokenizer of the
      whole stream does, and leaves the same unread suffix. */
  method Perform(tb: TokenBuffer, io: Io, capture: array<char>, reqs: seq<Request>) returns (replies: seq<Reply>)
    requires tb.Valid() && capture != tb.data
    requires forall r | r in reqs :: r.GetLine? ==> r.n <= capture.Length
    modifies tb, tb.data, io`chunks, capture
    ensures tb.Valid()
    ensures (replies, tb.Stream(io)) == Answers(old(tb.Stream(io)), reqs)
  {
    replies := [];
    for i := 0 to |reqs|
      invariant tb.Valid()
      invariant (replies, tb.Stream(io)) == Answers(old(tb.Stream(io)), reqs[..i])
    {
      AnswersSnoc(old(tb.Stream(io)), reqs[..i], reqs[i]);
      assert reqs[..i + 1] == reqs[..i] + [reqs[i]];
      match reqs[i] {
        case GetToken(mode, m) =>
          var t, _ := tb.TokenRead(io, capture, 0, 0, mode, m);
          replies := replies + [TokenReply(t)];
        case GetLine(mode, m, n) =>
          var q, _ := tb.ReadLine(io, capture, n, mode, m);
          replies := replies + [LineReply(q)];
      }
    }
    assert reqs[..|reqs|] == reqs;
  }

  /** Chunk independence: two connections carrying the same bytes, however split
      into reads, give the same answers and the same unread bytes. */
  method SameBytesSameAnswers(tb: TokenBuffer, io: Io, tb': TokenBuffer, io': Io, capture: array<char>,
                              reqs: seq<Request>)
    returns (a: seq<Reply>, b: seq<Reply>)
    requires tb.Valid() && tb'.Valid() && tb != tb' && io != io'
    requires tb.data != tb'.data && capture != tb.data && capture != tb'.data
    requires tb.Stream(io) == tb'.Stream(io')
    requires forall r | r in reqs :: r.GetLine? ==> r.n <= capture.Length
    modifies tb, tb.data, io`chunks, tb', tb'.data, io'`chunks, capture
    ensures tb.Valid() && tb'.Valid()
    ensures a == b && tb.Stream(io) == tb'.Stream(io')
  {
    a := Perform(tb, io, capture, reqs);
    b := Perform(tb', io', capture, reqs);
  }

  // ----- printing a queue of tokens back -----

  function StripCR(s: string): (r: string)
    ensures '\r' !in r
  {
    if s == "" then ""
    else if s[0] == '\r' then StripCR(s[1..])
    else [s[0]] + StripCR(s[1..])
  }

  lemma {:induction false} StripCRConcat(a: string, b: string)
    ensures StripCR(a + b) == StripCR(a) + StripCR(b)
  {
    if a == "" {
      assert a + b == b;
    } else {
      assert (a + b)[1..] == a[1..] + b;
      StripCRConcat(a[1..], b);
    }
  }

  function Bufs(q: seq<Token>): (r: seq<string>)
    ensures |r| == |q|
  {
    if q == [] then [] else [q[0].buf] + Bufs(q[1..])
  }

  function Printed(q: seq<Token>): string
    requires |q| > 0
  {
    Join(Bufs(q), " ")
  }

  /** Tokens that filled token_read's buffer, and so were cut without a delimiter. */
  function Full(q: seq<Token>): nat {
    if q == [] then 0 else (if |q[0].buf| >= MAX_LINE_LENGTH then 1 else 0) + Full(q[1..])
  }

  lemma {:induction false} NoneFull(q: seq<Token>)
    ensures Full(q) == 0 <==> forall i | 0 <= i < |q| :: |q[i].buf| < MAX_LINE_LENGTH
  {
    if q != [] {
      NoneFull(q[1..]);
      assert forall i | 1 <= i < |q| :: q[i] == q[1..][i - 1];
    }
  }

  /** What token_read makes of the bytes `used`, having gathered `acc` before. */
  ghost predicate TextOf(t: Token, acc: string, used: string) {
    if |t.buf| < MAX_LINE_LENGTH then
      && used != "" && used[|used| - 1] == (if t.IsEol() then '\n' else ' ')
      && t.buf == acc + StripCR(used[..|used| - 1])
    else
      t == Token(acc + StripCR(used), Plain) && |t.buf| == MAX_LINE_LENGTH
  }

  lemma TextOfCons(t: Token, acc: string, c: char, used: string)
    requires c == '\r' ==> TextOf(t, acc, used)
    requires c != '\r' ==> TextOf(t, acc + [c], used)
    ensures TextOf(t, acc, [c] + used)
  {
    assert ([c] + used)[1..] == used;
    if used != "" {
      assert ([c] + used)[..|used|] == [c] + used[..|used| - 1];
      assert ([c] + used[..|used| - 1])[1..] == used[..|used| - 1];
    }
  }

  lemma EmptyStrips()
    ensures StripCR("") == ""
  {
  }

  lemma {:induction false} TokenText(s: string, acc: string, quoted: bool, mode: Mode, m: nat, t: Token, rest: string)
    requires !mode.literal && |acc| <= MAX_LINE_LENGTH
    requires ScanToken(s, acc, quoted, None, mode, m) == Cut(t, rest)
    ensures |rest| <= |s| && TextOf(t, acc, s[..|s| - |rest|])
    decreases |s|
  {
    hide StripCR;
    if |acc| < MAX_LINE_LENGTH {
      var e := Classify(s[0], quoted, |acc|, mode, m);
      if e.stop {
        EmptyStrips();
        assert s[..1][..0] == "";
      } else {
        TokenText(s[1..], if e.keep then acc + [s[0]] else acc, e.quoted, mode, m, t, rest);
        TextOfCons(t, acc, s[0], s[1..][..|s| - 1 - |rest|]);
        assert s[..|s| - |rest|] == [s[0]] + s[1..][..|s| - 1 - |rest|];
      }
    } else {
      EmptyStrips();
    }
  }

  lemma PrintedCons(t: Token, q: seq<Token>)
    requires |q| > 0
    ensures Printed([t] + q) == t.buf + " " + Printed(q)
    ensures Full([t] + q) == Full([t]) + Full(q)
  {
    assert ([t] + q)[1..] == q;
    assert Bufs([t] + q) == [t.buf] + Bufs(q);
    assert ([t.buf] + Bufs(q))[1..] == Bufs(q);
  }

  lemma StripSplit(s: string, j: nat, k: nat)
    requires j <= k <= |s|
    ensures StripCR(s[..k]) == StripCR(s[..j]) + StripCR(s[j..k])
  {
    assert s[..k] == s[..j] + s[j..k];
    StripCRConcat(s[..j], s[j..k]);
  }

  /** `q` prints as `text` without its CRs, but for one extra space at every
      token of 4096 bytes. */
  ghost predicate PrintsAs(q: seq<Token>, text: string)
    requires |q| > 0
  {
    && |Printed(q)| == |StripCR(text)| + Full(q)
    && (Full(q) == 0 ==> Printed(q) == StripCR(text))
  }

  lemma LineTextStep(s: string, j: nat, k: nat, t: Token, q: seq<Token>)
    requires j < k <= |s| && |q| > 0
    requires !t.IsEol() && TextOf(t, "", s[..j])
    requires PrintsAs(q, s[j..][..k - j - 1])
    ensures PrintsAs([t] + q, s[..k - 1])
  {
    hide StripCR, Printed;
    PrintedCons(t, q);
    assert s[j..][..k - j - 1] == s[j..k - 1];
    StripSplit(s, j, k - 1);
    if |t.buf| < MAX_LINE_LENGTH {
      StripSplit(s, j - 1, j);
      assert s[..j][..j - 1] == s[..j - 1];
      assert s[j - 1..j] == " ";
      StripSpace();
    }
  }

  lemma StripSpace()
    ensures StripCR(" ") == " "
  {
  }

  lemma LineTextEnd(s: string, k: nat, t: Token)
    requires 0 < k <= |s| && t.IsEol() && TextOf(t, "", s[..k])
    ensures s[k - 1] == '\n' && PrintsAs([t], s[..k - 1])
  {
    assert s[..k][..k - 1] == s[..k - 1];
    assert Printed([t]) == t.buf;
  }

  lemma {:induction false} LineText(s: string, mode: Mode, m: nat, q: seq<Token>, rest: string)
    requires !mode.literal && ScanLine(s, None, mode, m) == Line(q, rest)
    ensures |rest| < |s| && |q| > 0 && s[|s| - |rest| - 1] == '\n' && q[|q| - 1].IsEol()
    ensures PrintsAs(q, s[..|s| - |rest| - 1])
    decreases |s|
  {
    hide ScanToken, ScanLine, StripCR;
    var t, after, last := LineUnfold(s, None, mode, m, q, rest);
    TokenText(s, "", false, mode, m, t, after);
    if last {
      LineTextEnd(s, |s| - |after|, t);
    } else {
      LineText(after, mode, m, q[1..], rest);
      LineTextStep(s, |s| - |after|, |s| - |rest|, t, q[1..]);
      assert q == [t] + q[1..];
    }
  }

  /** Tokenize then print is the identity, exactly when no token fills the buffer. */
  lemma TokenizePrintIdentity(s: string, mode: Mode, m: nat, q: seq<Token>, rest: string)
    requires !mode.literal && ScanLine(s, None, mode, m) == Line(q, rest)
    ensures |q| > 0 && |rest| < |s|
    ensures Printed(q) == StripCR(s[..|s| - |rest| - 1]) <==> forall t | t in q :: |t.buf| < MAX_LINE_LENGTH
  {
    LineText(s, mode, m, q, rest);
    NoneFull(q);
  }

  /** A POP3 password is all the text after the command's space. */
  lemma TextAfterFirstToken(s: string, mode: Mode, m: nat, q: seq<Token>, rest: string)
    requires !mode.literal && ScanLine(s, None, mode, m) == Line(q, rest)
    requires |q| > 1 && Full(q) == 0
    ensures |rest| < |s| && StripCR(s[..|s| - |rest| - 1]) == q[0].buf + " " + Printed(q[1..])
  {
    LineText(s, mode, m, q, rest);
    assert q == [q[0]] + q[1..];
    PrintedCons(q[0], q[1..]);
  }

  // ----- a line is its text split at the unquoted spaces -----

  /** The text `s` split at the spaces outside quotes, after `acc` in state `quoted`. */
  function Pieces(s: string, acc: string, quoted: bool, quotes: bool): (r: seq<string>)
    ensures |r| > 0
  {
    if s == "" then [acc]
    else if s[0] == ' ' && !quoted then [acc] + Pieces(s[1..], "", false, quotes)
    else Pieces(s[1..], acc + [s[0]], quoted != (s[0] == '\"' && quotes), quotes)
  }

  function Split(s: string, mode: Mode): seq<string> {
    Pieces(s, "", false, mode.quotes)
  }

  lemma {:induction false} PiecesJoin(s: string, acc: string, quoted: bool, quotes: bool)
    ensures Join(Pieces(s, acc, quoted, quotes), " ") == acc + s
    decreases |s|
  {
    if s == "" {
      assert acc + s == acc;
    } else if s[0] == ' ' && !quoted {
      PiecesJoin(s[1..], "", false, quotes);
      var more := Pieces(s[1..], "", false, quotes);
      assert ([acc] + more)[1..] == more;
      assert "" + s[1..] == s[1..] && acc + " " + s[1..] == acc + s;
    } else {
      PiecesJoin(s[1..], acc + [s[0]], quoted != (s[0] == '\"' && quotes), quotes);
      assert acc + [s[0]] + s[1..] == acc + s;
    }
  }

  /** The tokens of a line: only the last carries the end-of-line flag. */
  function Marked(parts: seq<string>): (r: seq<Token>)
    requires |parts| > 0
    ensures |r| == |parts|
  {
    if |parts| == 1 then [Token(parts[0], Eol)] else [Token(parts[0], Plain)] + Marked(parts[1..])
  }

  /** Reading a line from the middle of its first token. */
  function LineFrom(s: string, acc: string, quoted: bool, mode: Mode): LineScan {
    match ScanToken(s, acc, quoted, None, mode, 0)
    case Starved => LineStarved
    case Cut(t, rest) =>
      if mode.literal || t.IsEol() then Line([t], rest) else Prepend([t], ScanLine(rest, None, mode, 0))
  }

  lemma LineFromStart(s: string, mode: Mode)
    ensures LineFrom(s, "", false, mode) == ScanLine(s, None, mode, 0)
  {
    hide ScanToken;
  }

  /** The line of the text `s`, whatever its length: split at the spaces outside
      quotes, and a token that reaches 4096 bytes cut there, without a delimiter and
      with the quotes forgotten. */
  function Chop(s: string, acc: string, quoted: bool, quotes: bool): (r: seq<Token>)
    ensures |r| > 0
    decreases |s|, |acc|
  {
    if |acc| >= MAX_LINE_LENGTH then [Token(acc, Plain)] + Chop(s, "", false, quotes)
    else if s == "" then [Token(acc, Eol)]
    else if s[0] == ' ' && !quoted then [Token(acc, Plain)] + Chop(s[1..], "", false, quotes)
    else Chop(s[1..], acc + [s[0]], quoted != (s[0] == '\"' && quotes), quotes)
  }

  /** The word before the first space is the first token, however long the line. */
  lemma {:induction false} FirstChop(w: string, rest: string, acc: string, quotes: bool)
    requires ' ' !in w && '\"' !in w && |acc| + |w| < MAX_LINE_LENGTH
    ensures Chop(w + " " + rest, acc, false, quotes) == [Token(acc + w, Plain)] + Chop(rest, "", false, quotes)
    ensures Chop(w, acc, false, quotes) == [Token(acc + w, Eol)]
    decreases |w|
  {
    var s := w + " " + rest;
    if w == "" {
      assert s[0] == ' ' && s[1..] == rest && acc + w == acc;
    } else {
      assert s[0] == w[0] && s[1..] == w[1..] + " " + rest && acc + [w[0]] + w[1..] == acc + w;
      FirstChop(w[1..], rest, acc + [w[0]], quotes);
    }
  }

  /** A line that begins with a word, or is one, read. */
  lemma WordLine(w: string, rest: string, mode: Mode, tail: string)
    requires !mode.literal && !mode.wholeLine && ' ' !in w && '\"' !in w && |w| < MAX_LINE_LENGTH
    requires '\r' !in w && '\n' !in w && '\r' !in rest && '\n' !in rest
    ensures ScanLine(w + " " + rest + "\r\n" + tail, None, mode, 0) ==
              Line([Token(w, Plain)] + Chop(rest, "", false, mode.quotes), tail)
    ensures ScanLine(w + "\r\n" + tail, None, mode, 0) == Line([Token(w, Eol)], tail)
  {
    hide ScanLine, Chop;
    var line := w + " " + rest;
    StripLineEnd(line);
    StripLineEnd(w);
    assert line + "\r\n" + tail == line + "\r" + "\n" + tail && w + "\r\n" + tail == w + "\r" + "\n" + tail;
    ReadLineChops(line + "\r", mode, tail);
    ReadLineChops(w + "\r", mode, tail);
    FirstChop(w, rest, "", mode.quotes);
    assert "" + w == w;
  }

  lemma {:induction false} StripLineEnd(line: string)
    requires '\r' !in line
    ensures StripCR(line + "\r") == line
    decreases |line|
  {
    if line != "" {
      assert (line + "\r")[0] == line[0] && (line + "\r")[1..] == line[1..] + "\r" && line[0] in line;
      StripLineEnd(line[1..]);
    }
  }

  lemma {:induction false} LineFromChops(s: string, acc: string, quoted: bool, mode: Mode, tail: string)
    requires !mode.literal && !mode.wholeLine && '\n' !in s
    ensures LineFrom(s + "\n" + tail, acc, quoted, mode) == Line(Chop(StripCR(s), acc, quoted, mode.quotes), tail)
    decreases |s|, |acc|
  {
    hide ScanToken, ScanLine;
    var input := s + "\n" + tail;
    if |acc| >= MAX_LINE_LENGTH {
      ScanStop(input, acc, quoted, None, mode, 0);
      LineFromChops(s, "", false, mode, tail);
      LineFromStart(input, mode);
    } else {
      ScanStep(input, acc, quoted, None, mode, 0);
      if s == "" {
        assert input[0] == '\n' && input[1..] == tail;
      } else {
        var c := s[0];
        assert input[0] == c && input[1..] == s[1..] + "\n" + tail && '\n' !in s[1..];
        if c == ' ' && !quoted {
          LineFromChops(s[1..], "", false, mode, tail);
          LineFromStart(input[1..], mode);
        } else {
          var e := Classify(c, quoted, |acc|, mode, 0);
          LineFromChops(s[1..], if e.keep then acc + [c] else acc, e.quoted, mode, tail);
        }
      }
    }
  }

  /** read_line against a splitter that knows nothing of buffers or connections, for
      lines of any length. */
  lemma ReadLineChops(text: string, mode: Mode, tail: string)
    requires !mode.literal && !mode.wholeLine && '\n' !in text
    ensures ScanLine(text + "\n" + tail, None, mode, 0) == Line(Chop(StripCR(text), "", false, mode.quotes), tail)
  {
    hide ScanToken, ScanLine;
    LineFromChops(text, "", false, mode, tail);
    LineFromStart(text + "\n" + tail, mode);
  }

  /** No piece fills token_read's buffer. */
  predicate Short(parts: seq<string>) {
    forall i | 0 <= i < |parts| :: |parts[i]| < MAX_LINE_LENGTH
  }

  lemma {:induction false} PieceGrows(s: string, acc: string, quoted: bool, quotes: bool)
    ensures |acc| <= |Pieces(s, acc, quoted, quotes)[0]|
    decreases |s|
  {
    if s != "" && (s[0] != ' ' || quoted) {
      PieceGrows(s[1..], acc + [s[0]], quoted != (s[0] == '\"' && quotes), quotes);
    }
  }

  lemma {:induction false} ChopOfShort(s: string, acc: string, quoted: bool, quotes: bool)
    requires Short(Pieces(s, acc, quoted, quotes))
    ensures Chop(s, acc, quoted, quotes) == Marked(Pieces(s, acc, quoted, quotes))
    decreases |s|
  {
    PieceGrows(s, acc, quoted, quotes);
    if s == "" {
    } else if s[0] == ' ' && !quoted {
      var more := Pieces(s[1..], "", false, quotes);
      assert ([acc] + more)[1..] == more;
      assert forall i | 0 <= i < |more| :: more[i] == ([acc] + more)[i + 1];
      ChopOfShort(s[1..], "", false, quotes);
    } else {
      ChopOfShort(s[1..], acc + [s[0]], quoted != (s[0] == '\"' && quotes), quotes);
    }
  }

  lemma {:induction false} BufsMarked(parts: seq<string>)
    requires |parts| > 0
    ensures Bufs(Marked(parts)) == parts
  {
    if |parts| > 1 {
      BufsMarked(parts[1..]);
      assert ([Token(parts[0], Plain)] + Marked(parts[1..]))[1..] == Marked(parts[1..]);
    }
  }

  lemma {:induction false} BufsAt(q: seq<Token>, i: nat)
    requires i < |q|
    ensures Bufs(q)[i] == q[i].buf
  {
    if i > 0 {
      BufsAt(q[1..], i - 1);
    }
  }

  /** A line is its text, less the CRs, split at the unquoted spaces, exactly when no
      piece of it fills the buffer; how long the line is does not matter. */
  lemma ReadLineSplits(text: string, mode: Mode, tail: string)
    requires !mode.literal && !mode.wholeLine && '\n' !in text
    ensures ScanLine(text + "\n" + tail, None, mode, 0) == Line(Marked(Split(StripCR(text), mode)), tail)
       <==> Short(Split(StripCR(text), mode))
  {
    hide ScanToken, ScanLine, Pieces, Marked, Chop;
    var s, parts := text + "\n" + tail, Split(StripCR(text), mode);
    ReadLineChops(text, mode, tail);
    if Short(parts) {
      ChopOfShort(StripCR(text), "", false, mode.quotes);
    }
    if ScanLine(s, None, mode, 0) == Line(Marked(parts), tail) {
      LineText(s, mode, 0, Marked(parts), tail);
      assert s[..|s| - |tail| - 1] == text;
      BufsMarked(parts);
      PiecesJoin(StripCR(text), "", false, mode.quotes);
      assert "" + StripCR(text) == StripCR(text);
      NoneFull(Marked(parts));
      forall i | 0 <= i < |parts| ensures |parts[i]| < MAX_LINE_LENGTH {
        BufsAt(Marked(parts), i);
      }
    }
  }

  /** No piece of a short text fills the buffer. */
  lemma {:induction false} ShortText(s: string, acc: string, quoted: bool, quotes: bool)
    requires |acc| + |s| < MAX_LINE_LENGTH
    ensures Short(Pieces(s, acc, quoted, quotes))
    decreases |s|
  {
    if s == "" {
    } else if s[0] == ' ' && !quoted {
      ShortText(s[1..], "", false, quotes);
    } else {
      ShortText(s[1..], acc + [s[0]], quoted != (s[0] == '\"' && quotes), quotes);
    }
  }

  lemma {:induction false} StripCRShortens(s: string)
    ensures |StripCR(s)| <= |s|
  {
    if s != "" {
      StripCRShortens(s[1..]);
    }
  }

  /** A line shorter than the buffer is split whatever its pieces are. */
  lemma ShortLineSplits(text: string, mode: Mode, tail: string)
    requires !mode.literal && !mode.wholeLine && '\n' !in text && |text| < MAX_LINE_LENGTH
    ensures ScanLine(text + "\n" + tail, None, mode, 0) == Line(Marked(Split(StripCR(text), mode)), tail)
  {
    hide ScanLine, Pieces;
    StripCRShortens(text);
    ShortText(StripCR(text), "", false, mode.quotes);
    ReadLineSplits(text, mode, tail);
  }

  // ----- room to spare -----

  /** A capture buffer that a token fits makes no difference to it. */
  lemma {:induction false} TokenFits(s: string, acc: string, quoted: bool, n: nat, mode: Mode, m: nat)
    requires ScanToken(s, acc, quoted, None, mode, m).Cut?
    requires |s| - |ScanToken(s, acc, quoted, None, mode, m).rest| <= n
    ensures ScanToken(s, acc, quoted, Some(n), mode, m) == ScanToken(s, acc, quoted, None, mode, m)
    decreases |s|
  {
    ScanTakesPrefix(s, acc, quoted, None, mode, m);
    if |acc| < MAX_LINE_LENGTH {
      var e := Classify(s[0], quoted, |acc|, mode, m);
      if !e.stop {
        TokenFits(s[1..], if e.keep then acc + [s[0]] else acc, e.quoted, n - 1, mode, m);
      }
    }
  }

  /** Nor does one that a line fits. */
  lemma {:induction false} LineFits(s: string, n: nat, mode: Mode, m: nat, q: seq<Token>, rest: string)
    requires n > 0 && ScanLine(s, None, mode, m) == Line(q, rest) && |s| - |rest| <= n
    ensures ScanLine(s, Some(n), mode, m) == Line(q, rest)
    decreases |s|
  {
    hide ScanToken;
    var t, after, last := LineUnfold(s, None, mode, m, q, rest);
    TokenFits(s, "", false, n, mode, m);
    if !last {
      LineUnfoldShorter(s, after, q, rest, mode, m);
      LineFits(after, n - (|s| - |after|), mode, m, q[1..], rest);
      assert q == [t] + q[1..];
    }
  }

  lemma LineUnfoldShorter(s: string, after: string, q: seq<Token>, rest: string, mode: Mode, m: nat)
    requires |q| > 1 && ScanLine(after, None, mode, m) == Line(q[1..], rest)
    ensures |rest| < |after|
  {
  }

  /** Where the whole line is wanted, its spaces and quotes are part of the token. */
  lemma {:induction false} WholeLineToken(text: string, acc: string, quoted: bool, mode: Mode, more: string)
    requires mode.wholeLine && !mode.literal && '\r' !in text && '\n' !in text && |acc| + |text| < MAX_LINE_LENGTH
    ensures ScanToken(text + "\n" + more, acc, quoted, None, mode, 0) == Cut(Token(acc + text, Eol), more)
    decreases |text|
  {
    var s := text + "\n" + more;
    if text == "" {
      assert s[0] == '\n' && s[1..] == more && acc + text == acc;
    } else {
      assert s[0] == text[0] && s[1..] == text[1..] + "\n" + more && acc + [text[0]] + text[1..] == acc + text;
      var e := Classify(s[0], quoted, |acc|, mode, 0);
      WholeLineToken(text[1..], acc + [text[0]], e.quoted, mode, more);
    }
  }

  /** A capture buffer that is full ends the token where it is. */
  lemma {:induction false} FullRoomCuts(w: string, acc: string, mode: Mode, more: string)
    requires !mode.literal && |acc| + |w| < MAX_LINE_LENGTH
    requires ' ' !in w && '\"' !in w && '\r' !in w && '\n' !in w
    ensures ScanToken(w + more, acc, false, Some(|w|), mode, 0) == Cut(Token(acc + w, Plain), more)
    decreases |w|
  {
    var s := w + more;
    if w == "" {
      assert s == more && acc + w == acc;
    } else {
      assert s[0] == w[0] && s[1..] == w[1..] + more && acc + [w[0]] + w[1..] == acc + w;
      FullRoomCuts(w[1..], acc + [w[0]], mode, more);
    }
  }

  // ----- literals -----

  /** The bytes token_read takes for a literal of `n`. */
  function Taken(n: nat): nat {
    if n < MAX_LINE_LENGTH then n else MAX_LINE_LENGTH
  }

  /** A literal is cut by counting alone, or the input ends before it does. */
  lemma {:induction false} LiteralCuts(s: string, acc: string, m: nat)
    requires |acc| < Taken(m)
    ensures var k := Taken(m) - |acc|;
            ScanToken(s, acc, false, None, LITERAL, m) ==
              if |s| < k then Starved else Cut(Token(acc + s[..k], Plain), s[k..])
    decreases |s|
  {
    if s != "" {
      hide ScanToken;
      ScanStep(s, acc, false, None, LITERAL, m);
      var k, acc' := Taken(m) - |acc|, acc + [s[0]];
      ScanStop(s[1..], acc', false, None, LITERAL, m);
      if k == 1 {
        assert acc' == acc + s[..1];
      } else {
        LiteralCuts(s[1..], acc', m);
        assert |s| >= k ==> acc' + s[1..][..k - 1] == acc + s[..k] && s[1..][k - 1..] == s[k..];
      }
    }
  }

  // ----- cutting and joining again -----

  /** What stood behind a token: nothing if it filled the buffer. */
  function Gap(t: Token): string {
    if |t.buf| >= MAX_LINE_LENGTH then "" else " "
  }

  /** The text that was cut into `q`. */
  function Glue(q: seq<Token>): string
    requires |q| > 0
  {
    if |q| == 1 then q[0].buf else q[0].buf + Gap(q[0]) + Glue(q[1..])
  }

  lemma GlueCons(t: Token, q: seq<Token>)
    requires |q| > 0
    ensures Glue([t] + q) == t.buf + Gap(t) + Glue(q)
  {
    assert ([t] + q)[1..] == q;
  }

  /** The last token never fills the buffer. */
  lemma {:induction false} LastIsShort(s: string, acc: string, quoted: bool, quotes: bool)
    ensures var q := Chop(s, acc, quoted, quotes); |q[|q| - 1].buf| < MAX_LINE_LENGTH
    decreases |s|, |acc|
  {
    if |acc| >= MAX_LINE_LENGTH {
      LastIsShort(s, "", false, quotes);
    } else if s != "" && s[0] == ' ' && !quoted {
      LastIsShort(s[1..], "", false, quotes);
    } else if s != "" {
      LastIsShort(s[1..], acc + [s[0]], quoted != (s[0] == '\"' && quotes), quotes);
    }
  }

  /** Cutting loses nothing. */
  lemma {:induction false} GlueOfChop(s: string, acc: string, quoted: bool, quotes: bool)
    ensures Glue(Chop(s, acc, quoted, quotes)) == acc + s
    decreases |s|, |acc|
  {
    if |acc| >= MAX_LINE_LENGTH {
      GlueOfChop(s, "", false, quotes);
      GlueCons(Token(acc, Plain), Chop(s, "", false, quotes));
      assert acc + "" + ("" + s) == acc + s;
    } else if s == "" {
      assert acc + s == acc;
    } else if s[0] == ' ' && !quoted {
      GlueOfChop(s[1..], "", false, quotes);
      GlueCons(Token(acc, Plain), Chop(s[1..], "", false, quotes));
      assert acc + " " + ("" + s[1..]) == acc + s;
    } else {
      GlueOfChop(s[1..], acc + [s[0]], quoted != (s[0] == '\"' && quotes), quotes);
      assert acc + [s[0]] + s[1..] == acc + s;
    }
  }

  /** If no token filled the buffer, nothing was cut but at the unquoted spaces. */
  lemma {:induction false} ChopsWereSplits(s: string, acc: string, quoted: bool, quotes: bool)
    requires forall i | 0 <= i < |Chop(s, acc, quoted, quotes)| ::
               |Chop(s, acc, quoted, quotes)[i].buf| < MAX_LINE_LENGTH
    ensures Chop(s, acc, quoted, quotes) == Marked(Pieces(s, acc, quoted, quotes))
    decreases |s|, |acc|
  {
    var q := Chop(s, acc, quoted, quotes);
    assert |q[0].buf| < MAX_LINE_LENGTH;
    if |acc| < MAX_LINE_LENGTH && s != "" {
      if s[0] == ' ' && !quoted {
        var more := Chop(s[1..], "", false, quotes);
        assert forall i | 0 <= i < |more| :: more[i] == q[i + 1];
        ChopsWereSplits(s[1..], "", false, quotes);
        var parts := Pieces(s[1..], "", false, quotes);
        assert ([acc] + parts)[1..] == parts;
      } else {
        ChopsWereSplits(s[1..], acc + [s[0]], quoted != (s[0] == '\"' && quotes), quotes);
      }
    }
  }

  /** The bytes queue_to_string allocates. */
  function SpaceFor(q: seq<Token>): nat {
    if q == [] then 0 else |q[0].buf| + 1 + SpaceFor(q[1..])
  }

  lemma {:induction false} SpaceForText(q: seq<Token>)
    requires |q| > 0
    ensures SpaceFor(q) == |Printed(q)| + 1
  {
    if |q| > 1 {
      assert Bufs(q)[1..] == Bufs(q[1..]);
      SpaceForText(q[1..]);
    }
  }

  lemma {:induction false} SpaceForConcat(a: seq<Token>, b: seq<Token>)
    ensures SpaceFor(a + b) == SpaceFor(a) + SpaceFor(b)
  {
    if a == [] {
      assert a + b == b;
    } else {
      assert (a + b)[1..] == a[1..] + b;
      SpaceForConcat(a[1..], b);
    }
  }

  /** Every token followed by a space, as the copying loop writes them. */
  function Spaced(q: seq<Token>): (r: string)
    ensures |r| == SpaceFor(q)
  {
    if q == [] then "" else q[0].buf + " " + Spaced(q[1..])
  }

  lemma {:induction false} SpacedText(q: seq<Token>)
    requires |q| > 0
    ensures Spaced(q) == Printed(q) + " "
  {
    if |q| > 1 {
      assert Bufs(q)[1..] == Bufs(q[1..]);
      SpacedText(q[1..]);
    }
  }

  lemma {:induction false} SpacedConcat(a: seq<Token>, b: seq<Token>)
    ensures Spaced(a + b) == Spaced(a) + Spaced(b)
  {
    if a == [] {
      assert a + b == b;
    } else {
      assert (a + b)[1..] == a[1..] + b;
      SpacedConcat(a[1..], b);
      assert Spaced(a + b) == a[0].buf + " " + (Spaced(a[1..]) + Spaced(b));
    }
  }

  /** The first loop of queue_to_string: count, and move the queue to a second one. */
  method Measure(q: seq<Token>) returns (stack: seq<Token>, length: nat)
    ensures stack == q && length == SpaceFor(q)
  {
    var pending := q;
    stack, length := [], 0;
    while pending != []
      invariant stack + pending == q && length == SpaceFor(stack)
      decreases |pending|
    {
      SpaceForConcat(stack, [pending[0]]);
      length := length + 1 + |pending[0].buf|;
      stack := stack + [pending[0]];
      pending := pending[1..];
    }
  }

  lemma SpacedSnoc(q: seq<Token>, i: nat)
    requires i < |q|
    ensures Spaced(q[..i + 1]) == Spaced(q[..i]) + (q[i].buf + " ")
    ensures |Spaced(q[..i + 1])| <= SpaceFor(q)
  {
    assert q[..i + 1] == q[..i] + [q[i]];
    SpacedConcat(q[..i], [q[i]]);
    assert q == q[..i + 1] + q[i + 1..];
    SpaceForConcat(q[..i + 1], q[i + 1..]);
  }

  /** queue_to_string: a buffer of exactly the size counted, filled to the end. */
  method QueueToString(q: seq<Token>) returns (str: array<char>)
    requires |q| > 0
    ensures fresh(str) && str[..] == Printed(q) + "\0"
  {
    var stack, length := Measure(q);
    SpaceForText(q);
    SpacedText(q);
    str := new char[length](_ => '\0');
    var pos := 0;
    for i := 0 to |stack|
      invariant pos == |Spaced(q[..i])| <= str.Length && str[..pos] == Spaced(q[..i])
    {
      SpacedSnoc(q, i);
      Copy(str, pos, stack[i].buf + " ");
      pos := pos + |stack[i].buf| + 1;
    }
    assert q[..|q|] == q;
    pos := pos - 1;
    str[pos] := '\0';
    assert str[..] == str[..pos] + "\0";
  }
}
