/** A POP3 login from client to server: what pop3_out_authenticate sends says
    again what pop3_in_get_auth was told. */
module Pop3Forward {
  import opened ClientAuth
  import opened Delimiters
  import opened Lines
  import opened Pop3In
  import opened Text
  import opened Tokenizer
  import Acap
  import AcapRoundTrip

  // ----- what the tokens of a POP3 line can hold -----

  /** No space and no line end, which is what a token's bytes are. */
  predicate Plaintext(s: string) {
    ' ' !in s && '\r' !in s && '\n' !in s
  }

  lemma {:induction false} TokenIsPlain(s: string, acc: string, t: Token, rest: string)
    requires Plaintext(acc) && ScanToken(s, acc, false, None, POP3, 0) == Cut(t, rest)
    ensures Plaintext(t.buf)
    decreases |s|
  {
    if |acc| < MAX_LINE_LENGTH {
      var e := Classify(s[0], false, |acc|, POP3, 0);
      if !e.stop {
        TokenIsPlain(s[1..], if e.keep then acc + [s[0]] else acc, t, rest);
      }
    }
  }

  lemma {:induction false} TokensArePlain(s: string, q: seq<Token>, rest: string)
    requires ScanLine(s, None, POP3, 0) == Line(q, rest)
    ensures forall i | 0 <= i < |q| :: Plaintext(q[i].buf)
    decreases |s|
  {
    hide ScanToken, ScanLine;
    var t, after, last := LineUnfold(s, None, POP3, 0, q, rest);
    TokenIsPlain(s, "", t, after);
    if !last {
      TokensArePlain(after, q[1..], rest);
      assert forall i | 0 < i < |q| :: q[i] == q[1..][i - 1];
    }
  }

  lemma {:induction false} PrintedIsOneLine(q: seq<Token>)
    requires |q| > 0 && forall i | 0 <= i < |q| :: Plaintext(q[i].buf)
    ensures '\r' !in Printed(q) && '\n' !in Printed(q)
  {
    if |q| > 1 {
      assert Bufs(q)[1..] == Bufs(q[1..]);
      assert forall i | 0 <= i < |q| - 1 :: q[1..][i] == q[i + 1];
      PrintedIsOneLine(q[1..]);
      assert Printed(q) == q[0].buf + " " + Printed(q[1..]);
    }
  }

  /** Credentials that a USER and a PASS line can carry. */
  predicate Sendable(user: string, passwd: string) {
    user != "" && Plaintext(user) && '\r' !in passwd && '\n' !in passwd
  }

  ghost predicate SomeSendable(name: Option<string>) {
    name.Some? ==> name.value != "" && Plaintext(name.value)
  }

  /** The credentials pop3_in_get_auth returns are such. */
  lemma {:induction false} CredentialsAreSendable(s: string, name: Option<string>, user: string, passwd: string,
                                                  listen: bool, ssl: bool, capability: string)
    requires SomeSendable(name)
    requires GetAuthRun(s, name, listen, ssl, capability).answer == LoggedIn(Auth(None, user, passwd), "")
    ensures Sendable(user, passwd)
    decreases |s|
  {
    hide GetAuthRun, ScanLine, ScanToken, Act, Ends, Printed, Is;
    GetAuthStep(s, name, listen, ssl, capability);
    var Line(q, rest) := ScanLine(s, None, POP3, 0);
    TokensArePlain(s, q, rest);
    ActMeaning(q, name, listen, ssl, capability);
    var turn := Act(q, name, listen, ssl, capability).turn;
    if turn.Again? {
      CredentialsAreSendable(rest, turn.name, user, passwd, listen, ssl, capability);
    } else {
      assert turn == Login(user, passwd);
      assert forall i | 0 <= i < |q| - 1 :: q[1..][i] == q[i + 1];
      PrintedIsOneLine(q[1..]);
    }
  }

  // ----- and back -----

  lemma {:induction false} SplitWord(w: string, rest: string, acc: string)
    requires ' ' !in w
    ensures Pieces(w + " " + rest, acc, false, false) == [acc + w] + Pieces(rest, "", false, false)
    ensures Pieces(w, acc, false, false) == [acc + w]
    decreases |w|
  {
    var s := w + " " + rest;
    if w == "" {
      assert s[0] == ' ' && s[1..] == rest && acc + w == acc;
    } else {
      assert s[0] == w[0] && s[1..] == w[1..] + " " + rest && acc + [w[0]] + w[1..] == acc + w;
      SplitWord(w[1..], rest, acc + [w[0]]);
    }
  }

  /** A command and its text, read as a line. */
  lemma CommandLine(command: string, text: string, tail: string) returns (q: seq<Token>)
    requires Plaintext(command) && '\r' !in text && '\n' !in text && |command| + |text| + 2 < MAX_LINE_LENGTH
    ensures ScanLine(command + " " + text + CRLF + tail, None, POP3, 0) == Line(q, tail)
    ensures |q| > 1 && q[0].buf == command && Printed(q[1..]) == text
    ensures ' ' !in text ==> |q| == 2 && q[1].buf == text
  {
    hide ScanLine;
    var line := command + " " + text;
    AcapRoundTrip.StripCRNothing(line);
    StripCRConcat(line, "\r");
    assert StripCR(line + "\r") == line + "" == line;
    assert line + CRLF + tail == line + "\r" + "\n" + tail;
    ShortLineSplits(line + "\r", POP3, tail);
    SplitWord(command, text, "");
    assert "" + command == command && "" + text == text;
    PiecesJoin(text, "", false, false);
    var parts := Split(text, POP3);
    q := Marked(Split(line, POP3));
    assert ([command] + parts)[1..] == parts && q[1..] == Marked(parts);
    BufsMarked(parts);
    if ' ' !in text {
      SplitWord(text, "", "");
      assert q[1] == Marked(parts)[0];
    }
  }

  /** The lines pop3_out_authenticate sends when the user is accepted. */
  function LoginLines(user: string, passwd: string): string {
    "USER " + user + CRLF + ("PASS " + passwd + CRLF)
  }

  /** The first line names the user. */
  lemma UserTurn(user: string, tail: string, listen: bool, ssl: bool, capability: string)
    requires Plaintext(user) && user != "" && |user| + 5 <= Acap.STR_WRITE_MAX
    ensures var run := GetAuthRun(tail, Some(user), listen, ssl, capability);
            var all := GetAuthRun("USER " + user + CRLF + tail, None, listen, ssl, capability);
            all.answer == run.answer && all.rest == run.rest
  {
    hide GetAuthRun, ScanLine, Printed, Act, Is, NamesUser, Ends;
    var q := CommandLine("USER", user, tail);
    assert "USER " + user + CRLF + tail == "USER" + " " + user + CRLF + tail;
    GetAuthStep("USER " + user + CRLF + tail, None, listen, ssl, capability);
    IsUser(q, user, listen, ssl);
    ActMeaning(q, None, listen, ssl, capability);
  }

  lemma IsUser(q: seq<Token>, user: string, listen: bool, ssl: bool)
    requires |q| == 2 && q[0].buf == "USER" && q[1].buf == user != ""
    ensures NamesUser(q) && !Ends(q, false, listen, ssl) && NameAfter(q, None) == Some(user)
  {
    assert Is(q[0], "USER");
  }

  /** The second line logs in. */
  lemma PassTurn(user: string, passwd: string, listen: bool, ssl: bool, capability: string)
    requires '\r' !in passwd && '\n' !in passwd && |passwd| + 5 <= Acap.STR_WRITE_MAX
    ensures var run := GetAuthRun("PASS " + passwd + CRLF, Some(user), listen, ssl, capability);
            run.answer == LoggedIn(Auth(None, user, passwd), "") && run.rest == ""
  {
    hide GetAuthRun, ScanLine, Printed, Act, Is, NamesUser, Ends;
    var q := CommandLine("PASS", passwd, "");
    assert "PASS " + passwd + CRLF == "PASS" + " " + passwd + CRLF + "";
    GetAuthStep("PASS " + passwd + CRLF, Some(user), listen, ssl, capability);
    assert Is(q[0], "PASS") by { IsPass(q[0]); }
    ActMeaning(q, Some(user), listen, ssl, capability);
    assert Act(q, Some(user), listen, ssl, capability).turn == Login(user, passwd);
  }

  lemma IsPass(t: Token)
    requires t.buf == "PASS"
    ensures Is(t, "PASS")
  {
  }

  /** A server that reads as perdition itself does is told exactly the credentials. */
  lemma LoginReachesServer(user: string, passwd: string, listen: bool, ssl: bool, capability: string)
    requires Sendable(user, passwd) && |user| + 5 <= Acap.STR_WRITE_MAX && |passwd| + 5 <= Acap.STR_WRITE_MAX
    ensures var run := GetAuthRun(LoginLines(user, passwd), None, listen, ssl, capability);
            run.answer == LoggedIn(Auth(None, user, passwd), "") && run.rest == ""
  {
    hide GetAuthRun;
    UserTurn(user, "PASS " + passwd + CRLF, listen, ssl, capability);
    PassTurn(user, passwd, listen, ssl, capability);
  }

  /** From client to server nothing is lost or added: whatever lines a client logs in
      with, the lines sent to the server log in with the same credentials. */
  lemma ForwardingKeepsCredentials(s: string, user: string, passwd: string, listen: bool, ssl: bool, capability: string,
                                   listen': bool, ssl': bool, capability': string)
    requires GetAuthRun(s, None, listen, ssl, capability).answer == LoggedIn(Auth(None, user, passwd), "")
    requires |user| + 5 <= Acap.STR_WRITE_MAX && |passwd| + 5 <= Acap.STR_WRITE_MAX
    ensures GetAuthRun(LoginLines(user, passwd), None, listen', ssl', capability').answer ==
              LoggedIn(Auth(None, user, passwd), "")
  {
    hide GetAuthRun;
    CredentialsAreSendable(s, None, user, passwd, listen, ssl, capability);
    LoginReachesServer(user, passwd, listen', ssl', capability');
  }
}
