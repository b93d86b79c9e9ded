/** ManageSieve strings end to end: printed by managesieve_write, tokenized by
    read_line, decoded by acap_token_wrapper. */
module AcapRoundTrip {
  import opened Acap
  import opened AcapToken
  import opened Lines
  import opened Numbers
  import opened Text
  import opened Tokenizer

  // ----- splitting at unquoted spaces -----

  /** Whether a quote is open after `s`. */
  predicate OpenAfter(s: string, quoted: bool) {
    if s == "" then quoted else OpenAfter(s[1..], quoted != (s[0] == '\"'))
  }

  /** No space of `s` lies outside quotes. */
  predicate Whole(s: string, quoted: bool) {
    s == "" || ((s[0] != ' ' || quoted) && Whole(s[1..], quoted != (s[0] == '\"')))
  }

  lemma {:induction false} PiecesConcat(a: string, b: string, acc: string, quoted: bool)
    requires !OpenAfter(a, quoted)
    ensures Pieces(a + " " + b, acc, quoted, true) == Pieces(a, acc, quoted, true) + Pieces(b, "", false, true)
    decreases |a|
  {
    var s := a + " " + b;
    if a == "" {
      assert s[0] == ' ' && s[1..] == b;
    } else {
      assert s[0] == a[0] && s[1..] == a[1..] + " " + b;
      if a[0] == ' ' && !quoted {
        PiecesConcat(a[1..], b, "", false);
        assert [acc] + (Pieces(a[1..], "", false, true) + Pieces(b, "", false, true))
            == [acc] + Pieces(a[1..], "", false, true) + Pieces(b, "", false, true);
      } else {
        PiecesConcat(a[1..], b, acc + [a[0]], quoted != (a[0] == '\"'));
      }
    }
  }

  lemma {:induction false} PiecesOfWhole(s: string, acc: string, quoted: bool)
    ensures Whole(s, quoted) <==> |Pieces(s, acc, quoted, true)| == 1
    ensures Whole(s, quoted) ==> Pieces(s, acc, quoted, true) == [acc + s]
    ensures acc <= Pieces(s, acc, quoted, true)[0]
    decreases |s|
  {
    if s == "" {
      assert acc + s == acc;
    } else if s[0] == ' ' && !quoted {
    } else {
      PiecesOfWhole(s[1..], acc + [s[0]], quoted != (s[0] == '\"'));
      assert acc + [s[0]] + s[1..] == acc + s;
    }
  }

  lemma {:induction false} WholeConcat(a: string, b: string, quoted: bool)
    ensures Whole(a + b, quoted) <==> Whole(a, quoted) && Whole(b, OpenAfter(a, quoted))
    decreases |a|
  {
    if a == "" {
      assert a + b == b;
    } else {
      assert (a + b)[1..] == a[1..] + b;
      WholeConcat(a[1..], b, quoted != (a[0] == '\"'));
    }
  }

  lemma {:induction false} WholeWithoutSpaces(s: string, quoted: bool)
    requires ' ' !in s
    ensures Whole(s, quoted)
    decreases |s|
  {
    if s != "" {
      WholeWithoutSpaces(s[1..], quoted != (s[0] == '\"'));
    }
  }

  lemma {:induction false} StripCRNothing(s: string)
    requires '\r' !in s
    ensures StripCR(s) == s
  {
    if s != "" {
      StripCRNothing(s[1..]);
    }
  }

  lemma {:induction false} MarkedConcat(a: seq<string>, b: seq<string>)
    requires |b| > 0
    ensures |Marked(a + b)| == |a| + |b| && Marked(a + b)[|a|..] == Marked(b)
  {
    if a == [] {
      assert a + b == b;
    } else {
      assert (a + b)[1..] == a[1..] + b;
      MarkedConcat(a[1..], b);
    }
  }

  // ----- the receiver -----

  /** A command as perdition prints them: on one line, with its quotes closed. */
  predicate Command(command: string) {
    '\r' !in command && '\n' !in command && !OpenAfter(command, false)
  }

  /** The receiver reads a line and decodes what follows the words of `command`. */
  function Receive(command: string, s: string, signed: bool): (Wrapped, string) {
    match ScanLine(s, None, IMAP4, 0)
    case LineStarved => (Failed(-2), "")
    case Line(q, rest) =>
      var k := |Split(command, IMAP4)|;
      if k <= |q| then Wrap(q[k..], rest, signed) else (Failed(-2), rest)
  }

  /** What reading the line `command SP arg CR LF` gives to the decoder. */
  lemma ReceiveLine(command: string, arg: string, tail: string, signed: bool)
    requires Command(command) && '\r' !in arg && '\n' !in arg
    requires |command| + 1 + |arg| + 2 < MAX_LINE_LENGTH
    ensures Receive(command, command + " " + arg + "\r\n" + tail, signed) ==
              Wrap(Marked(Split(arg, IMAP4)), tail, signed)
  {
    var text := command + " " + arg + "\r";
    assert command + " " + arg + "\r\n" + tail == text + "\n" + tail;
    ShortLineSplits(text, IMAP4, tail);
    StripCRConcat(command + " " + arg, "\r");
    StripCRNothing(command + " " + arg);
    assert StripCR(text) == command + " " + arg;
    PiecesConcat(command, arg, "", false);
    MarkedConcat(Split(command, IMAP4), Split(arg, IMAP4));
  }

  // ----- quoted strings -----

  lemma QuotedStatus(t: Token, msg: string, signed: bool)
    requires t.buf == "\"" + msg + "\""
    ensures TokenStatus(t, signed) ==
              if |msg| <= ACAP_QUOTED_MAX - 2 && QuotedBody(msg, signed) then Quoted else Err
  {
    assert t.buf[1..|t.buf| - 1] == msg;
    assert !AtomChar(Ord(t.buf[0], signed));
  }

  lemma QuoteFirstStatus(t: Token, signed: bool)
    requires t.buf != "" && t.buf[0] == '\"'
    ensures TokenStatus(t, signed) == Err || TokenStatus(t, signed) == Quoted
  {
    assert !AtomChar(Ord(t.buf[0], signed));
  }

  lemma QuotedSplit(msg: string)
    ensures var arg := "\"" + msg + "\"";
            if Whole(msg, true) then Split(arg, IMAP4) == [arg]
            else |Split(arg, IMAP4)| > 1 && "\"" <= Split(arg, IMAP4)[0]
  {
    var arg := "\"" + msg + "\"";
    assert arg[1..] == msg + "\"" && "" + [arg[0]] == "\"";
    PiecesOfWhole(msg + "\"", "\"", true);
    WholeConcat(msg, "\"", true);
    assert "\"" + (msg + "\"") == arg;
  }

  lemma QuotedWrap(msg: string, tail: string, signed: bool)
    requires CString(msg)
    ensures var (w, s) := Wrap(Marked(Split("\"" + msg + "\"", IMAP4)), tail, signed);
            && (w.Failed? || w.kind == Quoted)
            && ((w, s) == (Wrapped(Quoted, msg, []), tail)
                <==> |msg| <= ACAP_QUOTED_MAX - 2 && QuotedBody(msg, signed) && Whole(msg, true))
  {
    hide Pieces, Whole, QuotedBody, TokenStatus;
    var arg := "\"" + msg + "\"";
    QuotedSplit(msg);
    var q := Marked(Split(arg, IMAP4));
    if Whole(msg, true) {
      QuotedStatus(q[0], msg, signed);
      assert arg[1..|arg| - 1] == msg && CStr(msg) == msg && q[1..] == [];
    } else {
      QuoteFirstStatus(q[0], signed);
    }
  }

  /** A string without CR or LF comes back from the wire exactly when it fits a
      quoted string, is made of characters that may stand between quotes, and has
      every space at an odd number of quotes. */
  lemma QuotedRoundTrip(command: string, client: bool, msg: string, tail: string, signed: bool)
    requires Command(command) && CString(msg) && !NeedsLiteral(msg)
    requires |command| + 1 + |Head(msg, client)| <= STR_WRITE_MAX
    ensures Receive(command, Wire(command, client, msg) + tail, signed) == (Wrapped(Quoted, msg, []), tail)
       <==> |msg| <= ACAP_QUOTED_MAX - 2 && QuotedBody(msg, signed) && Whole(msg, true)
    ensures var (w, _) := Receive(command, Wire(command, client, msg) + tail, signed);
            w.Failed? || w.kind == Quoted
  {
    var arg := "\"" + msg + "\"";
    assert Wire(command, client, msg) + tail == command + " " + arg + "\r\n" + tail;
    ReceiveLine(command, arg, tail, signed);
    QuotedWrap(msg, tail, signed);
  }

  // ----- literals -----

  lemma LiteralStatus(t: Token, n: nat, client: bool)
    requires t == Token("{" + Decimal(n) + (if client then "+" else "") + "}", Eol)
    requires n <= ACAP_LITERAL_MAX
    ensures forall signed :: TokenStatus(t, signed) == Literal(n, !client)
  {
    hide Strtoul, Decimal;
    var b, d := t.buf, Decimal(n);
    var tail := (if client then "+" else "") + "}";
    StrtoulOfDecimal(n, tail);
    assert b[1..] == d + tail;
    assert !client ==> b[|b| - 2] == d[|d| - 1] && IsDigit(d[|d| - 1]);
  }

  /** token_read in literal mode takes exactly `m` bytes. */
  lemma LiteralScan(s: string, tail: string, acc: string, m: nat)
    requires s != "" && |acc| + |s| == m <= MAX_LINE_LENGTH
    ensures ScanToken(s + tail, acc, false, None, LITERAL, m) == Cut(Token(acc + s, Plain), tail)
  {
    hide ScanToken;
    LiteralCuts(s + tail, acc, m);
    assert (s + tail)[..|s|] == s && (s + tail)[|s|..] == tail;
  }

  lemma HeadIsOneWord(n: nat, client: bool)
    ensures var head := "{" + Decimal(n) + (if client then "+" else "") + "}";
            Split(head, IMAP4) == [head] && '\r' !in head && '\n' !in head
  {
    var head := "{" + Decimal(n) + (if client then "+" else "") + "}";
    assert forall c | c in head :: c in "{+}" || c in Decimal(n);
    WholeWithoutSpaces(head, false);
    PiecesOfWhole(head, "", false);
    assert "" + head == head;
  }

  lemma EmptyLine(tail: string)
    ensures ScanLine("\r\n" + tail, None, POP3, 0) == Line([Token("", Eol)], tail)
  {
    ShortLineSplits("\r", POP3, tail);
    assert "\r" + "\n" + tail == "\r\n" + tail;
    assert StripCR("\r") == "" && Split("", POP3) == [""];
  }

  /** The literal's bytes, and the empty rest of its line. */
  lemma WrapLiteralBody(kind: Kind, msg: string, tail: string)
    requires kind.Literal? && kind.len == |msg| && CString(msg) && 0 < |msg| <= STR_WRITE_MAX
    ensures WrapLiteral(kind, msg + ("\r\n" + tail)) == (Wrapped(kind, msg, []), tail)
  {
    hide ScanToken, ScanLine, CStr;
    LiteralScan(msg, "\r\n" + tail, "", |msg|);
    assert "" + msg == msg;
    CStrOfCString(msg);
    EmptyLine(tail);
    assert [Token("", Eol)][1..] == [];
  }

  /** A string holding CR or LF always comes back, as a literal. */
  lemma LiteralRoundTrip(command: string, client: bool, msg: string, tail: string, signed: bool)
    requires Command(command) && CString(msg) && NeedsLiteral(msg)
    requires |command| + 1 + |Head(msg, client)| <= STR_WRITE_MAX && |msg| <= STR_WRITE_MAX
    ensures Receive(command, Wire(command, client, msg) + tail, signed) ==
              (Wrapped(Literal(|msg|, !client), msg, []), tail)
  {
    hide Decimal, WrapLiteral, TokenStatus, Receive;
    var head := Head(msg, client);
    var body := msg + "\r\n" + tail;
    assert Wire(command, client, msg) + tail == command + " " + head + "\r\n" + body;
    HeadIsOneWord(|msg|, client);
    ReceiveLine(command, head, body, signed);
    LiteralStatus(Token(head, Eol), |msg|, client);
    WrapLiteralBody(Literal(|msg|, !client), msg, tail);
    assert body == msg + ("\r\n" + tail);
  }

  /** Strings that survive the wire. */
  predicate Survives(msg: string, signed: bool) {
    NeedsLiteral(msg) || (|msg| <= ACAP_QUOTED_MAX - 2 && QuotedBody(msg, signed) && Whole(msg, true))
  }

  /** Print, tokenize, decode: the same string comes back as the last argument of
      its line, with nothing after it, exactly when it survives. */
  lemma WireRoundTrip(command: string, client: bool, msg: string, tail: string, signed: bool)
    requires Command(command) && CString(msg)
    requires |command| + 1 + |Head(msg, client)| <= STR_WRITE_MAX
    requires NeedsLiteral(msg) ==> |msg| <= STR_WRITE_MAX
    ensures (exists kind ::
               Receive(command, Wire(command, client, msg) + tail, signed) == (Wrapped(kind, msg, []), tail))
       <==> Survives(msg, signed)
  {
    if NeedsLiteral(msg) {
      LiteralRoundTrip(command, client, msg, tail, signed);
    } else {
      QuotedRoundTrip(command, client, msg, tail, signed);
    }
  }

  /** Every 7-bit string without quotes and backslashes survives, on any platform;
      where char is signed, 8-bit ones do too. */
  lemma {:induction false} PlainStringsSurvive(msg: string, signed: bool)
    requires CString(msg) && '\"' !in msg && '\\' !in msg
    requires forall i | 0 <= i < |msg| :: msg[i] as int < (if signed then 256 else 128)
    ensures QuotedBody(msg, signed) && Whole(msg, true)
    ensures |msg| <= ACAP_QUOTED_MAX - 2 ==> Survives(msg, signed)
    decreases |msg|
  {
    if msg != "" {
      assert msg[0] in msg;
      PlainStringsSurvive(msg[1..], signed);
    }
  }

  /** A literal from a client has a plus, one from a server is waited behind. */
  lemma LiteralForms(signed: bool)
    ensures Head("a\r", true) == "{2+}" && Head("a\r", false) == "{2}" && Head("ab", true) == "\"ab\""
    ensures TokenStatus(Token("{2+}", Eol), signed) == Literal(2, false)
    ensures TokenStatus(Token("{2}", Eol), signed) == Literal(2, true)
  {
    hide TokenStatus;
    assert Decimal(2) == "2";
    assert "a\r"[1] == '\r';
    assert "{" + "2" + "+" + "}" == "{2+}" && "{" + "2" + "" + "}" == "{2}";
    LiteralStatus(Token("{2+}", Eol), 2, true);
    LiteralStatus(Token("{2}", Eol), 2, false);
  }
}
