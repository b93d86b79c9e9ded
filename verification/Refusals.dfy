/** Servers that refuse or break off, and what setup makes of them: inputs at which
    the promises of imap4_out.c and pop3_out.c fail. */
module Refusals {
  import opened Delimiters
  import opened Dialogue
  import opened Imap4Login
  import opened ImapTag
  import opened Lines
  import opened Pop3Forward
  import opened Text
  import opened Tokenizer
  import Imap4Out
  import Pop3Out

  // ----- lines of words -----

  /** A word of a server's line. */
  predicate Wordlike(w: string) {
    Plaintext(w) && '\"' !in w && |w| < 1000
  }

  lemma Imap4Words(words: string, line: string, parts: seq<string>, tail: string, n: nat)
    requires line == words + CRLF && '\r' !in words && '\n' !in words && |words| < 4000
    requires Split(words, IMAP4) == parts && (n == 0 || |line| <= n)
    ensures ScanLine(line + tail, Room(n), IMAP4, 0) == Line(Marked(parts), tail)
  {
    hide ScanLine, Pieces, Marked;
    StripCRLine(words);
    assert line + tail == words + "\r" + "\n" + tail;
    ShortLineSplits(words + "\r", IMAP4, tail);
    if n > 0 {
      LineFits(line + tail, n, IMAP4, 0, Marked(parts), tail);
    }
  }

  lemma SplitWords(a: string, b: string)
    requires Wordlike(a) && Wordlike(b)
    ensures Split(a + " " + b, IMAP4) == [a, b]
  {
    PlainWord(a);
    SplitHead(a, b);
    OneWord(b);
    assert [a] + [b] == [a, b];
  }

  lemma OneWord(w: string)
    requires Wordlike(w)
    ensures Split(w, IMAP4) == [w]
  {
    PlainWord(w);
    SplitHead(w, "");
    PiecesOfWord(w);
  }

  lemma {:induction false} PiecesOfWord(w: string)
    requires ' ' !in w
    ensures Split(w, IMAP4) == [w]
  {
    WordIsPiece(w, "", false);
    assert "" + w == w;
  }

  lemma {:induction false} WordIsPiece(w: string, acc: string, quoted: bool)
    requires ' ' !in w
    ensures Pieces(w, acc, quoted, true) == [acc + w]
    decreases |w|
  {
    if w == "" {
      assert acc + w == acc;
    } else {
      WordIsPiece(w[1..], acc + [w[0]], quoted != (w[0] == '\"'));
      assert acc + [w[0]] + w[1..] == acc + w;
    }
  }

  function Reply(a: string, b: string, c: string): string { a + " " + b + " " + c + CRLF }

  /** An IMAP4 line of three words. */
  lemma ThreeWords(a: string, b: string, c: string, tail: string, n: nat)
    requires Wordlike(a) && Wordlike(b) && Wordlike(c) && (n == 0 || |Reply(a, b, c)| <= n)
    ensures ScanLine(Reply(a, b, c) + tail, Room(n), IMAP4, 0) ==
              Line([Token(a, Plain), Token(b, Plain), Token(c, Eol)], tail)
  {
    hide ScanLine, Pieces;
    PlainWord(a);
    SplitHead(a, b + " " + c);
    SplitWords(b, c);
    assert [a] + [b, c] == [a, b, c];
    MarkedThree(a, b, c);
    assert a + " " + (b + " " + c) == a + " " + b + " " + c;
    Imap4Words(a + " " + b + " " + c, Reply(a, b, c), [a, b, c], tail, n);
  }

  // ----- IMAP4 -----

  /** An untagged or tagged reply of three words. */
  lemma ReplyOfThree(tag: Option<Token>, desired: Token, a: string, b: string, c: string, tail: string, n: nat)
    requires Wordlike(a) && Wordlike(b) && Wordlike(c) && (n == 0 || |Reply(a, b, c)| <= n)
    requires if tag.Some? then a != "*" && TokenCmp(tag.value, Token(a, Plain)) else a == "*"
    ensures var n' := Imap4Out.Shrunk(n, |Reply(a, b, c)|);
            Imap4Out.Response(Reply(a, b, c) + tail, n, tag, desired, true) ==
              if TokenCmp(desired, Token(b, Plain)) then Imap4Out.TaggedResponse(1, [Token(c, Eol)], tail, n', "")
              else Imap4Out.TaggedResponse(0, [], tail, n', "")
  {
    hide ScanLine, TokenCmp, Imap4Out.Response, Reply;
    ThreeWords(a, b, c, tail, n);
    Imap4Out.ResponseStep(Reply(a, b, c) + tail, n, tag, desired, true);
    var q := [Token(a, Plain), Token(b, Plain), Token(c, Eol)];
    assert q[2..] == [Token(c, Eol)];
  }

  lemma NoReply(n: nat, tag: Option<Token>, desired: Token)
    ensures Imap4Out.Response("", n, tag, desired, true) == Imap4Out.TaggedResponse(-1, [], "", n, "")
  {
  }

  function Greeting(word: string): string { Reply("*", "OK", word) }

  lemma Greets(word: string, tail: string)
    requires Wordlike(word)
    ensures var first := Imap4Out.Response(Greeting(word) + tail, 0, None, Imap4Out.OK, true);
            first.status == 1 && Remainder(first.q) == word && first.rest == tail
  {
    hide Imap4Out.Response, Reply;
    ReplyOfThree(None, Imap4Out.OK, "*", "OK", word, tail, 0);
  }

  /** A server that greets and breaks off: the status is what strcmp made of its greeting. */
  lemma GreetingThenEnd(word: string, greeting: string, force: bool, tag: string)
    requires Wordlike(word)
    ensures Imap4Out.SetupRun(Greeting(word), greeting, true, force, tag).status == Imap4Out.Strcmp(word, greeting)
  {
    hide Imap4Out.Response, Imap4Out.Strcmp, Remainder;
    Greets(word, "");
    assert Greeting(word) + "" == Greeting(word);
    NoReply(MAX_LINE_LENGTH, None, Token("CAPABILITY", Plain));
  }

  /** So a greeting of "hi" and the end of input succeed without TLS, be it forced, and
      a greeting of "]" announces TLS nobody spoke of: perdition's own greeting begins
      with a left bracket. */
  lemma BrokenOffSucceeds(greeting: string, force: bool, tag: string)
    requires greeting != "" && greeting[0] == '['
    ensures var d := Imap4Out.SetupRun(Greeting("hi"), greeting, true, force, tag);
            d.status > 0 && !Bit(d.status, S_STARTTLS)
    ensures Bit(Imap4Out.SetupRun(Greeting("]"), greeting, true, force, tag).status, S_STARTTLS)
  {
    hide Imap4Out.SetupRun, Greeting, Imap4Out.Strcmp;
    GreetingThenEnd("hi", greeting, force, tag);
    GreetingThenEnd("]", greeting, force, tag);
    FirstBytesDiffer("hi", greeting);
    FirstBytesDiffer("]", greeting);
  }

  lemma FirstBytesDiffer(a: string, b: string)
    requires a != "" && b != "" && a[0] != b[0]
    ensures Imap4Out.Strcmp(a, b) == a[0] as int - b[0] as int
  {
  }

  /** A listing that does not disable logins, and no tagged reply: it counts as disabling
      them, and as offering TLS if that is what was asked. */
  lemma ListingThenEnd(name: string, tag: string)
    requires Wordlike(name) && !SameIgnoringCase("IMAP4", name)
    ensures var text := Reply("*", "CAPABILITY", "IMAP4");
            && Imap4Out.CapabilityRun(text, 0, tag, name).status == 1
            && var list := Imap4Out.Response(text, 0, None, Token("CAPABILITY", Plain), true);
               list.status == 1 && forall t | t in list.q :: !SameIgnoringCase(t.buf, name)
  {
    hide Imap4Out.Response, SameIgnoringCase, Reply, TokenCmp, Imap4Out.Say, Imap4Out.Mentions, Wordlike;
    LongWords();
    Tags();
    ShortWords();
    var text := Reply("*", "CAPABILITY", "IMAP4");
    assert text + "" == text;
    SameTokens();
    ReplyOfThree(None, Token("CAPABILITY", Plain), "*", "CAPABILITY", "IMAP4", "", 0);
    NoReply(0, Some(Token(tag, Plain)), Imap4Out.OK);
  }

  lemma Same(s: string)
    ensures SameIgnoringCase(s, s)
  {
  }

  lemma NextTag()
    ensures Inc("flim07") == "flim08"
  {
    IncStep("flim07", 6);
    assert "flim07"[..6] == "flim07" && "flim07"[..5] == "flim0";
  }

  const LISTED := Reply("*", "CAPABILITY", "STARTTLS")
  const DONE := Reply("flim07", "OK", "done")
  const REFUSED := Reply("flim08", "NO", "no")

  lemma LongWords()
    ensures Wordlike("CAPABILITY") && Wordlike("STARTTLS") && Wordlike("IMAP4")
  {
  }

  lemma Tags()
    ensures Wordlike("flim07") && Wordlike("flim08") && Wordlike("*")
  {
  }

  lemma ShortWords()
    ensures Wordlike("OK") && Wordlike("NO") && Wordlike("no") && Wordlike("done") && Wordlike("hi")
  {
  }

  lemma Sizes()
    ensures |LISTED| < MAX_LINE_LENGTH && |DONE| == 16 && |REFUSED| <= 16
  {
  }

  /** CAPABILITY answered, STARTTLS listed. */
  lemma StartTlsListed(tail: string)
    ensures var x := Imap4Out.CapabilityRun(LISTED + (DONE + tail), MAX_LINE_LENGTH, "flim07", "STARTTLS");
            x.status == 1 && x.rest == tail && x.n == 16 && x.tag == "flim08"
  {
    hide Imap4Out.Response, TokenCmp, Reply, Imap4Out.Say, Imap4Out.Mentions, Inc, Wordlike;
    var word := Token("CAPABILITY", Plain);
    Sizes();
    LongWords();
    Tags();
    ShortWords();
    SameTokens();
    ReplyOfThree(None, word, "*", "CAPABILITY", "STARTTLS", DONE + tail, MAX_LINE_LENGTH);
    ReplyOfThree(Some(Token("flim07", Plain)), Imap4Out.OK, "flim07", "OK", "done", tail, MAX_LINE_LENGTH);
    NextTag();
    Listed();
  }

  lemma Listed()
    ensures Imap4Out.Mentions([Token("STARTTLS", Eol)], "STARTTLS")
  {
  }

  lemma SameTokens()
    ensures TokenCmp(Token("CAPABILITY", Plain), Token("CAPABILITY", Plain))
    ensures TokenCmp(Token("flim07", Plain), Token("flim07", Plain))
    ensures TokenCmp(Token("flim08", Plain), Token("flim08", Plain))
    ensures TokenCmp(Imap4Out.OK, Token("OK", Plain)) && !TokenCmp(Imap4Out.OK, Token("NO", Plain))
  {
    assert ToUpper("OK"[0]) != ToUpper("NO"[0]);
  }

  /** A server that lists STARTTLS and answers NO to it is taken to have agreed. */
  lemma NoIsConsent(greeting: string, force: bool)
    requires CString(greeting) && greeting != "hi"
    ensures var text := Greeting("hi") + (LISTED + (DONE + REFUSED));
            Imap4Out.SetupRun(text, greeting, true, force, "flim07").status == S_OK + S_STARTTLS
  {
    hide Imap4Out.Response, TokenCmp, Imap4Out.CapabilityRun, Remainder, Imap4Out.Strcmp, Reply, Imap4Out.Say, Inc,
         Wordlike;
    Sizes();
    LongWords();
    Tags();
    ShortWords();
    Greets("hi", LISTED + (DONE + REFUSED));
    StartTlsListed(REFUSED);
    assert REFUSED + "" == REFUSED;
    SameTokens();
    ReplyOfThree(Some(Token("flim08", Plain)), Imap4Out.OK, "flim08", "NO", "no", "", 16);
  }

  // ----- POP3 -----

  lemma Pop3Answer(word: string, text: string, line: string, tail: string)
    requires Wordlike(word) && Wordlike(text) && line == word + " " + text + CRLF
    ensures var r := LineResponse(line + tail, Pop3Out.OK);
            && r.status == (if SameIgnoringCase(Pop3Out.OK, word) then 1 else 0)
            && r.rest == tail && Remainder(r.q) == text
  {
    hide ScanLine, Printed;
    var q := CommandLine(word, text, tail);
  }

  lemma Pop3Word(word: string, line: string, tail: string)
    requires Wordlike(word) && line == word + CRLF
    ensures ScanLine(line + tail, None, POP3, 0) == Line([Token(word, Eol)], tail)
  {
    hide ScanLine;
    StripCRLine(word);
    assert line + tail == word + "\r" + "\n" + tail;
    ShortLineSplits(word + "\r", POP3, tail);
    SplitWord(word, "", "");
    assert "" + word == word;
  }

  /** A server without CAPA: setup succeeds without TLS, wanted or forced. */
  lemma NoCapaSucceeds(greeting: string, force: bool, tag: string)
    requires greeting != "hi"
    ensures Pop3Out.SetupRun("+OK hi" + CRLF + ("-ERR no" + CRLF), greeting, true, force, tag).status == S_OK
  {
    hide LineResponse, Pop3Out.CapaLines;
    assert "+OK hi" + CRLF == "+OK" + " " + "hi" + CRLF && "-ERR no" + CRLF == "-ERR" + " " + "no" + CRLF;
    assert "-ERR no" + CRLF + "" == "-ERR no" + CRLF;
    Pop3Answer("+OK", "hi", "+OK hi" + CRLF, "-ERR no" + CRLF);
    Pop3Answer("-ERR", "no", "-ERR no" + CRLF, "");
    Same("+OK");
  }

  /** A server that lists STLS and answers -ERR to it is taken to have agreed. */
  lemma ErrIsConsent(greeting: string, force: bool, tag: string)
    requires greeting != "hi"
    ensures var listing := "STLS" + CRLF + ("." + CRLF + ("-ERR no" + CRLF));
            Pop3Out.SetupRun("+OK hi" + CRLF + ("+OK list" + CRLF + listing), greeting, true, force, tag).status
              == S_OK + S_STARTTLS
  {
    hide LineResponse, ScanLine, TokenCmp;
    var end := "-ERR no" + CRLF;
    var listing := "STLS" + CRLF + ("." + CRLF + end);
    assert "+OK hi" + CRLF == "+OK" + " " + "hi" + CRLF && "+OK list" + CRLF == "+OK" + " " + "list" + CRLF;
    Pop3Answer("+OK", "hi", "+OK hi" + CRLF, "+OK list" + CRLF + listing);
    Pop3Answer("+OK", "list", "+OK list" + CRLF, listing);
    Same("+OK");
    Pop3Word("STLS", "STLS" + CRLF, "." + CRLF + end);
    Pop3Word(".", "." + CRLF, end);
    assert TokenCmp(Token("STLS", Eol), Token("STLS", Eol)) && !TokenCmp(Token(".", Eol), Token("STLS", Eol))
           && TokenCmp(Token(".", Eol), Token(".", Eol)) by { DotsAndStls(); }
    assert Pop3Out.CapaLines("." + CRLF + end, true) == (true, true, end);
    assert Pop3Out.CapaLines(listing, false) == (true, true, end);
  }

  lemma DotsAndStls()
    ensures TokenCmp(Token("STLS", Eol), Token("STLS", Eol)) && !TokenCmp(Token(".", Eol), Token("STLS", Eol))
    ensures TokenCmp(Token(".", Eol), Token(".", Eol))
  {
  }
}
