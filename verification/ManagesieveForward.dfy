/** A ManageSieve login from client to server: the challenge managesieve_out sends
    is the one managesieve_in decodes. */
module ManagesieveForward {
  import opened Acap
  import opened AcapRoundTrip
  import opened AcapToken
  import opened ClientAuth
  import opened Imap4Login
  import opened Lines
  import opened Numbers
  import opened ManagesieveIn
  import opened Text
  import opened Tokenizer
  import ManagesieveOut

  lemma {:induction false} OpenWithoutQuotes(s: string, quoted: bool)
    requires '\"' !in s
    ensures OpenAfter(s, quoted) == quoted
    ensures quoted ==> Whole(s, true)
  {
    if s != "" {
      OpenWithoutQuotes(s[1..], quoted);
    }
  }

  lemma QuotedIsWord(w: string)
    requires '\"' !in w
    ensures Word("\"" + w + "\"")
  {
    var p := "\"" + w + "\"";
    assert p[1..] == w + "\"";
    OpenWithoutQuotes(w, true);
    OpenConcat(w, "\"", true);
    WholeConcat(w, "\"", true);
  }

  lemma TwoWords(a: string, b: string)
    requires Word(a) && Word(b)
    ensures Split(a + " " + b, IMAP4) == [a, b] && !OpenAfter(a + " " + b, false)
  {
    hide Whole, Pieces;
    OneSpace(b);
    SplitHead(a, b);
    PiecesOfWhole(b, "", false);
    assert "" + b == b && [a] + [b] == [a, b];
    hide OpenAfter;
    OpenConcat(a, " " + b, false);
    assert a + (" " + b) == a + " " + b;
  }

  lemma OneSpace(b: string)
    ensures OpenAfter(" " + b, false) == OpenAfter(b, false)
  {
    assert (" " + b)[1..] == b;
  }

  lemma CommandWords()
    ensures Split(ManagesieveOut.AUTHENTICATE, IMAP4) == ["AUTHENTICATE", "\"PLAIN\""]
    ensures Command(ManagesieveOut.AUTHENTICATE)
  {
    hide Whole, OpenAfter, Split;
    var p := "\"PLAIN\"";
    assert p == "\"" + "PLAIN" + "\"";
    QuotedIsWord("PLAIN");
    PlainWord("AUTHENTICATE");
    TwoWords("AUTHENTICATE", p);
    assert ManagesieveOut.AUTHENTICATE == "AUTHENTICATE" + " " + p;
  }

  /** The line of the command, tokenized. */
  lemma CommandTokens(arg: string, tail: string)
    requires '\r' !in arg && '\n' !in arg && Whole(arg, false)
    requires |ManagesieveOut.AUTHENTICATE| + 1 + |arg| + 2 < MAX_LINE_LENGTH
    ensures ScanLine(ManagesieveOut.AUTHENTICATE + " " + arg + "\r\n" + tail, None, IMAP4, 0) ==
              Line([Token("AUTHENTICATE", Plain), Token("\"PLAIN\"", Plain), Token(arg, Eol)], tail)
  {
    hide ScanLine, Whole, OpenAfter, Split, Marked;
    var command := ManagesieveOut.AUTHENTICATE;
    var line := command + " " + arg;
    CommandWords();
    SplitCommand(command, arg);
    PieceOfWord(arg);
    assert ["AUTHENTICATE", "\"PLAIN\""] + [arg] == ["AUTHENTICATE", "\"PLAIN\"", arg];
    MarkedThree("AUTHENTICATE", "\"PLAIN\"", arg);
    StripCRLine(line);
    assert line + "\r\n" + tail == line + "\r" + "\n" + tail;
    ShortLineSplits(line + "\r", IMAP4, tail);
  }

  lemma SplitCommand(command: string, arg: string)
    requires !OpenAfter(command, false)
    ensures Split(command + " " + arg, IMAP4) == Split(command, IMAP4) + Split(arg, IMAP4)
  {
    PiecesConcat(command, arg, "", false);
  }

  lemma PieceOfWord(arg: string)
    requires Whole(arg, false)
    ensures Split(arg, IMAP4) == [arg]
  {
    PiecesOfWhole(arg, "", false);
    assert "" + arg == arg;
  }

  /** The printed string, as the decoder finds it: its token, and what else it reads. */
  lemma ChallengeWraps(challenge: string, tail: string, signed: bool)
    requires CString(challenge) && Survives(challenge, signed)
    requires NeedsLiteral(challenge) ==> |challenge| <= STR_WRITE_MAX
    ensures var arg := Head(challenge, true);
            && '\r' !in arg && '\n' !in arg && Whole(arg, false) && |arg| < 1100
            && var (w, rest) := Wrap([Token(arg, Eol)],
                                     (if NeedsLiteral(challenge) then challenge + "\r\n" else "") + tail, signed);
               Usable(w) && w.str == challenge && rest == tail
  {
    hide Pieces, TokenStatus, Decimal, QuotedBody, WrapLiteral;
    var arg := Head(challenge, true);
    var q := [Token(arg, Eol)];
    assert q[1..] == [];
    if NeedsLiteral(challenge) {
      HeadIsOneWord(|challenge|, true);
      PiecesOfWhole(arg, "", false);
      HeadIsShort(|challenge|, false);
      assert arg == Imap4Login.Announce(|challenge|, false);
      LiteralStatus(Token(arg, Eol), |challenge|, true);
      WrapLiteralBody(Literal(|challenge|, false), challenge, tail);
      assert challenge + "\r\n" + tail == challenge + ("\r\n" + tail);
    } else {
      QuotedSplit(challenge);
      PiecesOfWhole(arg, "", false);
      assert Marked([arg]) == q;
      QuotedWrap(challenge, tail, signed);
      assert "" + tail == tail;
    }
  }

  lemma SaslAct(arg: string, s: string, challenge: string, rest: string, auth: Auth, listen: bool, ssl: bool,
                capability: string, lib: Library)
    requires var (w, rest') := Wrap([Token(arg, Eol)], s, lib.signed);
             Usable(w) && w.str == challenge && rest' == rest
    requires lib.decode(challenge) == Valid(auth)
    ensures Act(Token("AUTHENTICATE", Plain), [Token("\"PLAIN\"", Plain), Token(arg, Eol)], s,
                listen, ssl, capability, lib) ==
              Step(Some(LoggedIn(auth, "")), rest, "")
  {
    hide Wrap, Noop, Bare;
    var q := [Token("\"PLAIN\"", Plain), Token(arg, Eol)];
    assert q[1..] == [Token(arg, Eol)];
    assert Is(q[0], "\"PLAIN\"");
    assert Is(Token("AUTHENTICATE", Plain), "AUTHENTICATE");
  }

  /** What managesieve_out sends for a challenge makes managesieve_in log in with what
      the challenge decodes to, for every challenge that survives the wire. */
  lemma ChallengeReachesServer(challenge: string, tail: string, auth: Auth, listen: bool, ssl: bool,
                               capability: string, lib: Library)
    requires CString(challenge) && Survives(challenge, lib.signed)
    requires NeedsLiteral(challenge) ==> |challenge| <= STR_WRITE_MAX
    requires lib.decode(challenge) == Valid(auth)
    ensures LoopRun(Wire(ManagesieveOut.AUTHENTICATE, true, challenge) + tail, listen, ssl, capability, lib) ==
              Run(LoggedIn(auth, ""), tail, "")
  {
    hide LoopRun, ScanLine, Wrap, Act, Survives, Head, Whole;
    var arg := Head(challenge, true);
    var more := (if NeedsLiteral(challenge) then challenge + "\r\n" else "") + tail;
    ChallengeWraps(challenge, tail, lib.signed);
    CommandTokens(arg, more);
    var sent := Wire(ManagesieveOut.AUTHENTICATE, true, challenge) + tail;
    assert sent == ManagesieveOut.AUTHENTICATE + " " + arg + "\r\n" + more;
    var q := [Token("AUTHENTICATE", Plain), Token("\"PLAIN\"", Plain), Token(arg, Eol)];
    assert q[1..] == [Token("\"PLAIN\"", Plain), Token(arg, Eol)];
    SaslAct(arg, more, challenge, tail, auth, listen, ssl, capability, lib);
    LoopStep(sent, listen, ssl, capability, lib);
  }
}
