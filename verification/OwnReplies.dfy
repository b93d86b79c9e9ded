/** Perdition at both ends: what it says to a client, read as it reads a server. */
module OwnReplies {
  import CapabilityList
  import opened ClientAuth
  import opened Delimiters
  import opened Dialogue
  import opened Imap4Login
  import opened Imap4Replies
  import opened ImapTag
  import opened Lines
  import opened ManagesieveListing
  import opened Offers
  import opened Protocols
  import opened Refusals
  import opened Text
  import opened Tokenizer
  import Imap4In
  import Imap4Meaning
  import Imap4Out
  import ManagesieveIn
  import ManagesieveOut
  import Pop3In
  import Pop3Out

  predicate Clean(s: string) {
    '\r' !in s && '\n' !in s
  }

  // ----- one line -----

  /** The first word of a reply decides, and its line is all that is read. */
  lemma FirstWordDecides(w: string, rest: string, s: string, desired: string)
    requires ' ' !in w && '\"' !in w && |w| < MAX_LINE_LENGTH && Clean(w) && Clean(rest)
    ensures var r := LineResponse(w + " " + rest + "\r\n" + s, desired);
            r.status == (if SameIgnoringCase(w, desired) then 1 else 0) && r.rest == s
    ensures var r := LineResponse(w + "\r\n" + s, desired);
            r.status == (if SameIgnoringCase(w, desired) then 1 else 0) && r.rest == s
  {
    hide ScanLine, Chop;
    WordLine(w, rest, POP3, s);
    SameTurned(w, desired);
  }

  lemma Words()
    ensures SameIgnoringCase("+OK", "+OK") && !SameIgnoringCase("-ERR", "+OK")
    ensures SameIgnoringCase("OK", "OK") && !SameIgnoringCase("NO", "OK")
  {
    assert ToUpper("NO"[0]) != ToUpper("OK"[0]);
  }

  /** The line by which a client is let in or refused, and that it is taken for just that. */
  lemma Pop3Verdict(c: Config, tag: string, good: bool, text: string, s: string)
    requires c.protocol.Pop3? && Clean(text)
    ensures c.Line(tag, good, text) == (if good then "+OK " else "-ERR ") + text + "\r\n"
    ensures var r := LineResponse(c.Line(tag, good, text) + s, "+OK");
            r.status == (if good then 1 else 0) && r.rest == s
  {
    hide LineResponse;
    var w := if good then "+OK" else "-ERR";
    Words();
    FirstWordDecides(w, text, s, "+OK");
    assert c.Line(tag, good, text) == w + " " + text + "\r\n";
  }

  lemma ManagesieveVerdict(c: Config, tag: string, good: bool, text: string, s: string)
    requires c.protocol.Managesieve? && Clean(text)
    ensures c.Line(tag, good, text) == (if good then "OK \"" else "NO \"") + text + "\"\r\n"
    ensures var r := LineResponse(c.Line(tag, good, text) + s, "OK"); r.status == (if good then 1 else 0) && r.rest == s
  {
    hide LineResponse;
    var w, rest := if good then "OK" else "NO", "\"" + text + "\"";
    Words();
    FirstWordDecides(w, rest, s, "OK");
    assert c.Line(tag, good, text) == w + " " + rest + "\r\n";
  }

  lemma Imap4Verdict(c: Config, tag: string, good: bool, text: string, s: string)
    requires c.protocol.Imap4? && Clean(text) && text != "" && Short(Split(text, IMAP4)) && TagLike(tag)
    ensures c.Line(tag, good, text) == tag + (if good then " OK " else " NO ") + text + "\r\n"
    ensures var r := Imap4Out.Response(c.Line(tag, good, text) + s, 0, Some(Token(tag, Plain)), Imap4Out.OK, true);
            r.status == (if good then 1 else 0) && r.rest == s && r.relayed == ""
  {
    hide Imap4Out.Response, Pieces;
    var w := if good then "OK" else "NO";
    Words();
    TaggedLine(tag, w, text, s, true);
    assert c.Line(tag, good, text) == tag + " " + w + " " + text + "\r\n";
  }

  // ----- CAPA -----

  lemma {:induction false} WholeLine(s: string, acc: string)
    requires |acc| <= MAX_LINE_LENGTH
    ensures var t := Chop(s, acc, false, false)[0];
            (t.flag == Eol <==> ' ' !in s && |acc| + |s| < MAX_LINE_LENGTH) && (t.flag == Eol ==> t.buf == acc + s)
    ensures Chop(s, acc, false, false)[0].flag != DontCare
    decreases |s|
  {
    if |acc| < MAX_LINE_LENGTH && s != "" && s[0] != ' ' {
      WholeLine(s[1..], acc + [s[0]]);
      assert acc + [s[0]] + s[1..] == acc + s;
    } else if s == "" {
      assert acc + s == acc;
    }
  }

  /** A word stands alone on a line exactly when it is the line. */
  lemma AloneOnLine(line: string, w: string)
    requires ' ' !in w && |w| < MAX_LINE_LENGTH
    ensures TokenCmp(Token(w, Eol), Chop(line, "", false, false)[0]) <==> SameIgnoringCase(line, w)
  {
    hide Chop;
    WholeLine(line, "");
    assert "" + line == line;
    SameTurned(line, w);
    if SameIgnoringCase(line, w) {
      forall i | 0 <= i < |line| ensures line[i] != ' ' {
        assert ToUpper(line[i]) == ToUpper(w[i]) && w[i] in w;
      }
    }
  }

  /** A listing of lines up to the closing dot: STLS is found exactly if it is a line. */
  lemma {:induction false} CapaReads(lines: seq<string>, stls: bool, s: string)
    requires lines != [] && forall i | 0 <= i < |lines| :: Clean(lines[i]) && lines[i] != "."
    ensures Pop3Out.CapaLines(Join(lines, "\r\n") + "\r\n.\r\n" + s, stls) ==
              (stls || exists l :: l in lines && SameIgnoringCase(l, "STLS"), true, s)
  {
    hide ScanLine, Chop;
    var line, dot := lines[0], Token(".", Eol);
    var more := if |lines| == 1 then ".\r\n" + s else Join(lines[1..], "\r\n") + "\r\n.\r\n" + s;
    assert Join(lines, "\r\n") + "\r\n.\r\n" + s == line + "\r\n" + more by {
      if |lines| == 1 {
        assert line + "\r\n.\r\n" + s == line + "\r\n" + (".\r\n" + s);
      }
    }
    ReadsLine(line, more);
    AloneOnLine(line, "STLS");
    AloneOnLine(line, ".");
    NotADot(line);
    var found := stls || SameIgnoringCase(line, "STLS");
    if |lines| == 1 {
      LastDot(s, found);
      assert forall l | l in lines :: l == line;
    } else {
      CapaReads(lines[1..], found, s);
      assert forall l :: l in lines <==> l == line || l in lines[1..];
    }
  }

  lemma NotADot(line: string)
    ensures SameIgnoringCase(line, ".") <==> line == "."
  {
  }

  lemma ReadsLine(line: string, more: string)
    requires Clean(line)
    ensures ScanLine(line + "\r\n" + more, None, POP3, 0) == Line(Chop(line, "", false, false), more)
  {
    hide ScanLine, Chop;
    StripLineEnd(line);
    assert line + "\r\n" + more == line + "\r" + "\n" + more;
    ReadLineChops(line + "\r", POP3, more);
  }

  lemma LastDot(s: string, stls: bool)
    ensures Pop3Out.CapaLines(".\r\n" + s, stls) == (stls, true, s)
  {
    hide ScanLine, Chop;
    ReadsLine(".", s);
    assert "." + "\r\n" + s == ".\r\n" + s;
    AloneOnLine(".", "STLS");
    AloneOnLine(".", ".");
  }

  /** What POP3 says to CAPA. */
  lemma Pop3CapaIsAnswered(capability: string, name: Option<string>, listen: bool, ssl: bool, s: string)
    ensures Pop3In.GetAuthRun("CAPA\r\n" + s, name, listen, ssl, capability) ==
              Said("+OK Capability list follows, mate\r\n" + capability,
                   Pop3In.GetAuthRun(s, name, listen, ssl, capability))
  {
    hide Pop3In.GetAuthRun, Pop3In.Act, ScanLine;
    CapaAct(name, listen, ssl, capability);
    WordLine("CAPA", "", POP3, s);
    assert "CAPA" + "\r\n" + s == "CAPA\r\n" + s;
    Pop3In.GetAuthStep("CAPA\r\n" + s, name, listen, ssl, capability);
  }

  /** Perdition reads from it just what it lists, up to the dot. */
  lemma Pop3CapaIsRead(configured: string, on: bool, s: string)
    requires forall l | l in Pop3Lines(configured, on) :: Clean(l) && l != "."
    ensures var r := LineResponse("+OK Capability list follows, mate\r\n" + Pop3Reply(configured, on) + s, "+OK");
            && r.status == 1
            && Pop3Out.CapaLines(r.rest, false) ==
                 (exists l :: l in Pop3Lines(configured, on) && SameIgnoringCase(l, "STLS"), true, s)
  {
    hide LineResponse, Pop3Lines, Pop3Reply, Pop3Out.CapaLines;
    JoinedReply(configured, on);
    var lines := Pop3Lines(configured, on);
    var rest := Join(lines, "\r\n") + "\r\n.\r\n" + s;
    OkLine(rest);
    Longer("+OK Capability list follows, mate\r\n", Pop3Reply(configured, on), s);
    CapaReads(lines, false, s);
  }

  lemma Longer(a: string, b: string, c: string)
    ensures a + b + c == a + (b + c)
  {
  }

  lemma OkLine(rest: string)
    ensures var r := LineResponse("+OK Capability list follows, mate\r\n" + rest, "+OK");
            r.status == 1 && r.rest == rest
  {
    hide LineResponse, Clean;
    OkWords();
    OkLineEnd();
    OkTextClean();
    OkText("Capability list follows, mate", rest);
  }

  lemma OkWords()
    ensures "+OK Capability list follows, mate" == "+OK" + " " + "Capability list follows, mate"
  {
  }

  lemma OkTextClean()
    ensures Clean("Capability list follows, mate")
  {
  }

  lemma OkLineEnd()
    ensures "+OK Capability list follows, mate\r\n" == "+OK Capability list follows, mate" + "\r\n"
  {
  }

  lemma OkText(text: string, rest: string)
    requires Clean(text)
    ensures var r := LineResponse("+OK" + " " + text + "\r\n" + rest, "+OK"); r.status == 1 && r.rest == rest
  {
    hide LineResponse;
    Words();
    FirstWordDecides("+OK", text, rest, "+OK");
  }

  lemma LinesExist(configured: string, on: bool)
    ensures |Pop3Lines(configured, on)| > 0
  {
  }

  lemma JoinedReply(configured: string, on: bool)
    ensures Pop3Lines(configured, on) != []
    ensures Pop3Reply(configured, on) == Join(Pop3Lines(configured, on), "\r\n") + "\r\n.\r\n"
  {
    hide Pop3Lines;
    LinesExist(configured, on);
  }

  lemma CapaAct(name: Option<string>, listen: bool, ssl: bool, capability: string)
    ensures Pop3In.Act([Token("CAPA", Eol)], name, listen, ssl, capability) ==
              Pop3In.Step(Pop3In.Again(name), "+OK Capability list follows, mate\r\n" + capability)
  {
    hide Pop3In.Err, Pop3In.Invalid, SameIgnoringCase;
    SameSelf("CAPA");
    assert [Token("CAPA", Eol)][1..] == [];
    assert "+OK Capability list follows, mate" + CRLF == "+OK Capability list follows, mate\r\n";
  }

  // ----- CAPABILITY -----

  /** A command that is a tag and one word. */
  lemma CommandTokens(tag: string, word: string, s: string)
    requires ValidTag(tag) && |tag| < MAX_LINE_LENGTH
    requires ' ' !in word && '\"' !in word && Clean(word) && |word| < MAX_LINE_LENGTH
    ensures ScanLine(tag + " " + word + "\r\n" + s, None, IMAP4, 0) == Line([Token(tag, Plain), Token(word, Eol)], s)
  {
    hide ScanLine, Chop, ValidTag;
    TagWord(tag);
    TagIsPlain(tag);
    WordLine(tag, word, IMAP4, s);
    FirstChop(word, "", "", true);
    assert "" + word == word;
  }

  lemma TagIsPlain(tag: string)
    requires ValidTag(tag)
    ensures ' ' !in tag && '\"' !in tag && Clean(tag) && tag != "*"
  {
    assert Reserved(' ') && Reserved('\"') && Reserved('*');
    assert forall c | c in tag :: 0x1f < c as int;
    assert "*"[0] == '*' && '*' !in tag;
  }

  /** What IMAP4 says to CAPABILITY. */
  lemma CapabilityIsAnswered(tag: string, listen: bool, ssl: bool, capability: string, s: string)
    requires ValidTag(tag) && |tag| < MAX_LINE_LENGTH && capability != ""
    ensures Imap4In.GetAuthRun(tag + " " + "CAPABILITY" + "\r\n" + s, listen, ssl, capability) ==
              Said("* CAPABILITY " + capability + "\r\n" + (tag + " OK CAPABILITY\r\n"),
                   Imap4In.GetAuthRun(s, listen, ssl, capability))
  {
    hide Imap4In.GetAuthRun, Imap4In.Act, ScanLine, ValidTag;
    CommandTokens(tag, "CAPABILITY", s);
    Imap4In.GetAuthStep(tag + " " + "CAPABILITY" + "\r\n" + s, listen, ssl, capability);
    CapabilityAct(tag, listen, ssl, capability, s);
  }

  lemma CapabilityAct(tag: string, listen: bool, ssl: bool, capability: string, s: string)
    requires ValidTag(tag) && capability != ""
    ensures Imap4In.Act([Token(tag, Plain), Token("CAPABILITY", Eol)], s, listen, ssl, capability) ==
              Imap4In.Step(None, s, "* CAPABILITY " + capability + "\r\n" + (tag + " OK CAPABILITY\r\n"))
  {
    hide Imap4In.LoginCommand, SameIgnoringCase, ValidTag;
    var q := [Token(tag, Plain), Token("CAPABILITY", Eol)];
    SameSelf("CAPABILITY");
    Imap4Meaning.CommandsDiffer(q[1]);
    assert q[2..] == [];
    assert "*" + " " + "CAPABILITY" + (" " + capability) + CRLF == "* CAPABILITY " + capability + "\r\n";
    assert tag + " " + "OK" + (" " + "CAPABILITY") + CRLF == tag + " OK CAPABILITY\r\n";
  }

  lemma ListingLine(rest: string, s: string)
    requires Clean(rest) && Short(Split(rest, IMAP4))
    ensures Imap4Out.Response("*" + " " + "CAPABILITY" + " " + rest + "\r\n" + s, 0, None,
                              Token("CAPABILITY", Plain), true) ==
              Imap4Out.TaggedResponse(1, Marked(Split(rest, IMAP4)), s, 0, "")
  {
    hide ScanLine, Imap4Out.Response, Pieces, Marked;
    var line := "*" + " " + "CAPABILITY" + " " + rest;
    var parts := Split(rest, IMAP4);
    TaggedWords("*", "CAPABILITY", rest);
    LineOf(line, s);
    Imap4Out.ResponseStep(line + "\r\n" + s, 0, None, Token("CAPABILITY", Plain), true);
    MarkedFirstTwo("*", "CAPABILITY", parts);
    SameSelf("CAPABILITY");
  }

  lemma {:induction false} MarkedHolds(parts: seq<string>, name: string)
    requires parts != []
    ensures (exists t :: t in Marked(parts) && SameIgnoringCase(t.buf, name)) <==>
              exists w :: w in parts && SameIgnoringCase(w, name)
  {
    hide SameIgnoringCase;
    forall i | 0 <= i < |parts| ensures Marked(parts)[i].buf == parts[i] {
      MarkedBuf(parts, i);
    }
    if w :| w in parts && SameIgnoringCase(w, name) {
      var i :| 0 <= i < |parts| && parts[i] == w;
      assert Marked(parts)[i] in Marked(parts);
    }
    if t :| t in Marked(parts) && SameIgnoringCase(t.buf, name) {
      var i :| 0 <= i < |parts| && Marked(parts)[i] == t;
      assert parts[i] in parts;
    }
  }

  lemma {:induction false} MarkedBuf(parts: seq<string>, i: nat)
    requires i < |parts|
    ensures Marked(parts)[i].buf == parts[i]
  {
    if i > 0 {
      MarkedBuf(parts[1..], i - 1);
    }
  }

  /** Perdition finds in it just the words it lists. */
  lemma CapabilityIsRead(tag: string, capability: string, name: string, s: string)
    requires TagLike(tag) && Clean(capability) && Short(Split(capability, IMAP4))
    ensures var x := Imap4Out.CapabilityRun("*" + " " + "CAPABILITY" + " " + capability + "\r\n" +
                                              (tag + " " + "OK" + " " + "CAPABILITY" + "\r\n" + s), 0, tag, name);
            && (x.status == 1 <==> exists w :: w in Split(capability, IMAP4) && SameIgnoringCase(w, name))
            && x.status >= 0 && x.rest == s && x.relayed == "" && x.tag == Inc(tag)
  {
    hide Imap4Out.Response, Pieces, SameIgnoringCase, Imap4Out.Mentions, Imap4Out.Say, Inc;
    var reply := tag + " " + "OK" + " " + "CAPABILITY" + "\r\n" + s;
    var input := "*" + " " + "CAPABILITY" + " " + capability + "\r\n" + reply;
    ListingLine(capability, reply);
    OneWordShort();
    TaggedLine(tag, "OK", "CAPABILITY", s, true);
    SameSelf("OK");
    Imap4Out.CapabilityMeaning(input, 0, tag, name);
    MarkedHolds(Split(capability, IMAP4), name);
  }

  lemma OneWordShort()
    ensures Short(Split("CAPABILITY", IMAP4))
  {
    hide Pieces;
    OneWord("CAPABILITY");
  }

  // ----- the ManageSieve capability -----

  const CAPABILITY_DONE := "CAPABILITY completed, mate"

  /** What ManageSieve says to CAPABILITY. */
  lemma ManagesieveCapabilityIsAnswered(s: string, listen: bool, ssl: bool, capability: string,
                                        lib: ManagesieveIn.Library)
    ensures ManagesieveIn.LoopRun("CAPABILITY\r\n" + s, listen, ssl, capability, lib) ==
              Said(capability + "\r\n" + ManagesieveIn.Ok(CAPABILITY_DONE),
                   ManagesieveIn.LoopRun(s, listen, ssl, capability, lib))
  {
    hide ManagesieveIn.LoopRun, ManagesieveIn.Act, ScanLine, ManagesieveIn.Ok;
    WordLine("CAPABILITY", "", IMAP4, s);
    assert "CAPABILITY" + "\r\n" + s == "CAPABILITY\r\n" + s;
    ManagesieveIn.LoopStep("CAPABILITY\r\n" + s, listen, ssl, capability, lib);
    ManagesieveCapabilityAct(s, listen, ssl, capability, lib);
  }

  lemma ManagesieveCapabilityAct(s: string, listen: bool, ssl: bool, capability: string, lib: ManagesieveIn.Library)
    ensures var q := [Token("CAPABILITY", Eol)];
            ManagesieveIn.Act(q[0], q[1..], s, listen, ssl, capability, lib) ==
              ManagesieveIn.Step(None, s, capability + "\r\n" + ManagesieveIn.Ok(CAPABILITY_DONE))
  {
    hide ManagesieveIn.Authenticate, ManagesieveIn.Noop, ManagesieveIn.No, ManagesieveIn.Ok;
    var t := Token("CAPABILITY", Eol);
    assert !Is(t, "AUTHENTICATE") && Is(t, "CAPABILITY");
    assert [t][1..] == [];
  }

  /** Perdition reads from it just the strings it lists. */
  lemma ManagesieveCapabilityIsRead(configured: string, on: bool, lines: seq<seq<string>>, s: string,
                                    lib: ManagesieveOut.Library)
    requires |lines| == |ManagesieveLines(configured, on)|
    requires forall i | 0 <= i < |lines| ::
               lines[i] != [] && ManagesieveLines(configured, on)[i] == QuotedText(lines[i])
    requires forall i, j | 0 <= i < |lines| && 0 <= j < |lines[i]| :: Plainstring(lines[i][j])
    ensures var x := ManagesieveOut.CapabilityRun(ManagesieveReply(configured, on) + "\r\n" +
                                                    ManagesieveIn.Ok(CAPABILITY_DONE) + s, lib);
            && x.0 > 0 && x.1 == s
            && (Bit(x.0, S_STARTTLS) <==> exists l :: l in lines && l[0] == "STARTTLS")
            && (Bit(x.0, S_SASL_PLAIN) <==> exists l :: l in lines && OffersPlain(l, lib))
  {
    hide Bit, ManagesieveOut.CapabilityRun, Gather, Plainstring, ManagesieveLines, ListingText, QuotedText;
    var end := "\"" + CAPABILITY_DONE + "\"";
    var text := ManagesieveReply(configured, on) + "\r\n";
    ReplyIsText(configured, on, lines);
    EndIsClean();
    ListingReads(lines, end, s, lib.signed);
    assert ManagesieveIn.Ok(CAPABILITY_DONE) == "OK " + end + "\r\n" by { OkQuoted(CAPABILITY_DONE); }
    assert text + ManagesieveIn.Ok(CAPABILITY_DONE) + s == text + ("OK " + end + "\r\n" + s);
    ListingMeaning(text + ("OK " + end + "\r\n" + s), lib);
  }

  lemma OkQuoted(text: string)
    ensures ManagesieveIn.Ok(text) == "OK " + ("\"" + text + "\"") + "\r\n"
  {
    assert "OK \"" == "OK " + "\"";
  }

  lemma EndIsClean()
    ensures var end := "\"" + CAPABILITY_DONE + "\""; '\r' !in end && '\n' !in end
  {
  }

  lemma ReplyIsText(configured: string, on: bool, lines: seq<seq<string>>)
    requires |lines| == |ManagesieveLines(configured, on)|
    requires forall i | 0 <= i < |lines| ::
               lines[i] != [] && ManagesieveLines(configured, on)[i] == QuotedText(lines[i])
    ensures ManagesieveReply(configured, on) + "\r\n" == ListingText(lines)
  {
    hide QuotedText, ManagesieveLines;
    SomeLines(configured, on);
    JoinIsListing(ManagesieveLines(configured, on), lines);
  }

  lemma SomeLines(configured: string, on: bool)
    ensures ManagesieveLines(configured, on) != []
  {
  }

  lemma {:induction false} JoinIsListing(texts: seq<string>, lines: seq<seq<string>>)
    requires |lines| == |texts| > 0
    requires forall i | 0 <= i < |lines| :: lines[i] != [] && texts[i] == QuotedText(lines[i])
    ensures Join(texts, "\r\n") + "\r\n" == ListingText(lines)
  {
    hide QuotedText;
    if |texts| > 1 {
      JoinIsListing(texts[1..], lines[1..]);
      assert Join(texts, "\r\n") + "\r\n" == texts[0] + "\r\n" + (Join(texts[1..], "\r\n") + "\r\n");
    } else {
      assert ListingText(lines[1..]) == "";
    }
  }

  // ----- what a session offers -----

  /** The command for the capability, and the reply to it. */
  function CapabilityCommand(c: Config, tag: string): string {
    match c.protocol
    case Pop3 => "CAPA\r\n"
    case Imap4 => tag + " " + "CAPABILITY" + "\r\n"
    case Managesieve => "CAPABILITY\r\n"
  }

  function CapabilitySaid(c: Config, tag: string, active: bool): string {
    var m := c.modes;
    match c.protocol
    case Pop3 => "+OK Capability list follows, mate\r\n" + Pop3Reply(c.capability, m.tlsListen && !active)
    case Imap4 =>
      "* CAPABILITY " + JoinAll(ImapOffer(CapabilityList.Fields(c.capability, ' '), m.tlsListen, m.listenForce, active,
                                          m.loginDisabled), " ") + "\r\n" + (tag + " OK CAPABILITY\r\n")
    case Managesieve =>
      ManagesieveReply(c.capability, m.tlsListen && !active) + "\r\n" + ManagesieveIn.Ok(CAPABILITY_DONE)
  }

  /** A client that asks for the capability is told the offer of the session, and nothing
      else comes of it. */
  lemma SessionOffers(c: Config, tag: string, s: string, ssl: bool, active: bool)
    requires c.protocol.Imap4? ==> ValidTag(tag) && |tag| < MAX_LINE_LENGTH
    requires c.protocol.Imap4? ==> CapabilityList.Fields(c.capability, ' ')[0] !in ["", STARTTLS, LOGINDISABLED]
    requires c.protocol.Managesieve? ==> !active
    ensures c.ClientRun(CapabilityCommand(c, tag) + s, ssl, active) ==
              Said(CapabilitySaid(c, tag, active), c.ClientRun(s, ssl, active))
  {
    hide Pop3In.GetAuthRun, Imap4In.GetAuthRun, ManagesieveIn.LoopRun, Pop3Reply, ManagesieveReply, ImapOffer;
    hide CapabilityList.Fields, ValidTag, JoinAll, ManagesieveIn.Ok;
    var m := c.modes;
    match c.protocol
    case Pop3 => Pop3CapaIsAnswered(Pop3Reply(c.capability, m.tlsListen && !active), None, m.tlsListen, ssl, s);
    case Imap4 =>
      var parts := CapabilityList.Fields(c.capability, ' ');
      var text := JoinAll(ImapOffer(parts, m.tlsListen, m.listenForce, active, m.loginDisabled), " ");
      SomeOffer(c.capability, m.tlsListen, m.listenForce, active, m.loginDisabled);
      CapabilityIsAnswered(tag, m.tlsListen, ssl, text, s);
    case Managesieve =>
      ManagesieveCapabilityIsAnswered(s, m.tlsListen, ssl, ManagesieveReply(c.capability, m.tlsListen), c.inLib);
      SaidNothing(ManagesieveIn.LoopRun(CapabilityCommand(c, tag) + s, m.tlsListen, ssl,
                                        ManagesieveReply(c.capability, m.tlsListen), c.inLib));
      SaidNothing(ManagesieveIn.LoopRun(s, m.tlsListen, ssl, ManagesieveReply(c.capability, m.tlsListen), c.inLib));
  }

  lemma SaidNothing(run: Run)
    ensures Said("", run) == run
  {
  }

  /** The offer of a list that is not empty is not empty. */
  lemma SomeOffer(capability: string, tlsListen: bool, force: bool, active: bool, loginDisabled: bool)
    requires CapabilityList.Fields(capability, ' ')[0] != ""
    requires CapabilityList.Fields(capability, ' ')[0] != STARTTLS
    requires CapabilityList.Fields(capability, ' ')[0] != LOGINDISABLED
    ensures JoinAll(ImapOffer(CapabilityList.Fields(capability, ' '), tlsListen, force, active, loginDisabled),
                    " ") != ""
  {
    hide CapabilityList.Fields, Offer;
    var parts := CapabilityList.Fields(capability, ' ');
    var offered := Offer(parts, STARTTLS, tlsListen && !active);
    OfferMeaning(parts, STARTTLS, tlsListen && !active);
    OfferMeaning(offered, LOGINDISABLED, !active);
  }

  // ----- quit -----

  /** The command by which perdition leaves a server ends the loop of a server that reads as
      perdition does, and the reply perdition then reads is all that server says. */
  lemma QuitIsObeyed(c: Config, tag: string, s: string, ssl: bool, active: bool, more: string)
    requires c.protocol.Imap4? ==> ValidTag(tag) && |tag| < MAX_LINE_LENGTH
    requires c.protocol.Managesieve? ==> !active
    ensures var run := c.ClientRun(QuitLine(c, tag) + s, ssl, active);
            run.answer == Quitted && run.rest == s && QuitRest(c, run.said + more, tag) == more
  {
    hide Config.ClientRun, QuitLine, QuitRest, ValidTag;
    match c.protocol
    case Pop3 => Pop3Quits(c, tag, s, ssl, active, more);
    case Imap4 => Imap4Quits(c, tag, s, ssl, active, more);
    case Managesieve => ManagesieveQuits(c, tag, s, ssl, more);
  }

  lemma Pop3Quits(c: Config, tag: string, s: string, ssl: bool, active: bool, more: string)
    requires c.protocol.Pop3?
    ensures var run := c.ClientRun(QuitLine(c, tag) + s, ssl, active);
            run.answer == Quitted && run.rest == s && QuitRest(c, run.said + more, tag) == more
  {
    hide Pop3In.GetAuthRun, Pop3In.Act, Pop3Reply, ScanLine, LineResponse;
    var m := c.modes;
    var reply := Pop3Reply(c.capability, m.tlsListen && !active);
    WordLine("QUIT", "", POP3, s);
    Pop3In.GetAuthStep("QUIT" + CRLF + s, None, m.tlsListen, ssl, reply);
    QuitAct(m.tlsListen, ssl, reply);
    Words();
    FirstWordDecides("+OK", "QUIT", more, "+OK");
    assert "+OK" + " " + "QUIT" + "\r\n" == "+OK QUIT\r\n";
  }

  lemma QuitAct(listen: bool, ssl: bool, capability: string)
    ensures Pop3In.Act([Token("QUIT", Eol)], None, listen, ssl, capability) ==
              Pop3In.Step(Pop3In.Quit, "+OK QUIT\r\n")
  {
    hide Pop3In.Err, Pop3In.Invalid, SameIgnoringCase;
    SameSelf("QUIT");
    var t := Token("QUIT", Eol);
    Pop3In.CommandsDiffer(t);
    assert [t][1..] == [];
    assert "+OK " + "QUIT" + CRLF == "+OK QUIT\r\n";
  }

  lemma ManagesieveQuits(c: Config, tag: string, s: string, ssl: bool, more: string)
    requires c.protocol.Managesieve?
    ensures var run := c.ClientRun(QuitLine(c, tag) + s, ssl, false);
            run.answer == Quitted && run.rest == s && QuitRest(c, run.said + more, tag) == more
  {
    hide ManagesieveIn.LoopRun, ManagesieveIn.Act, ManagesieveReply, ScanLine, LineResponse, ManagesieveIn.Ok, Clean;
    var m := c.modes;
    var capability := ManagesieveReply(c.capability, m.tlsListen);
    LogoutIsClean();
    WordLine("LOGOUT", "", IMAP4, s);
    ManagesieveIn.LoopStep("LOGOUT" + CRLF + s, m.tlsListen, ssl, capability, c.inLib);
    LogoutAct(s, m.tlsListen, ssl, capability, c.inLib);
    OkIsRead(LOGOUT_DONE, more);
    var said := ManagesieveIn.Ok(LOGOUT_DONE);
    assert "" + said == said;
  }

  const LOGOUT_DONE := "LOGOUT completed, mate"

  lemma LogoutIsClean()
    ensures Clean(LOGOUT_DONE)
  {
  }

  lemma OkIsRead(text: string, more: string)
    requires Clean(text)
    ensures var r := LineResponse(ManagesieveIn.Ok(text) + more, "OK"); r.status == 1 && r.rest == more
  {
    hide LineResponse;
    Words();
    FirstWordDecides("OK", "\"" + text + "\"", more, "OK");
    assert "OK \"" + text + "\"" + CRLF == "OK" + " " + ("\"" + text + "\"") + "\r\n";
  }

  lemma LogoutAct(s: string, listen: bool, ssl: bool, capability: string, lib: ManagesieveIn.Library)
    ensures var q := [Token("LOGOUT", Eol)];
            ManagesieveIn.Act(q[0], q[1..], s, listen, ssl, capability, lib) ==
              ManagesieveIn.Step(Some(Quitted), s, ManagesieveIn.Ok(LOGOUT_DONE))
  {
    hide ManagesieveIn.Authenticate, ManagesieveIn.Noop, ManagesieveIn.No, ManagesieveIn.CapabilityMessage;
    hide ManagesieveIn.Ok;
    var t := Token("LOGOUT", Eol);
    assert !Is(t, "AUTHENTICATE") && !Is(t, "CAPABILITY") && Is(t, "LOGOUT");
    assert [t][1..] == [];
  }

  const BYE_REASON := "IMAP4 server logging out, mate"

  function Bye(reason: string): string { "* " + ("BYE" + " " + reason) }

  lemma Imap4Quits(c: Config, tag: string, s: string, ssl: bool, active: bool, more: string)
    requires c.protocol.Imap4? && ValidTag(tag) && |tag| < MAX_LINE_LENGTH
    ensures var run := c.ClientRun(QuitLine(c, tag) + s, ssl, active);
            run.answer == Quitted && run.rest == s && QuitRest(c, run.said + more, tag) == more
  {
    hide Imap4In.GetAuthRun, Imap4In.Act, Imap4In.Advertised, ScanLine, Imap4Out.Response, ValidTag, Pieces;
    hide Untagged, Bye;
    var m, bye := c.modes, Bye(BYE_REASON);
    var capability := Imap4In.Advertised(c.capability, m.tlsListen, m.listenForce, active, m.loginDisabled);
    assert tag + " LOGOUT" + CRLF + s == tag + " " + "LOGOUT" + "\r\n" + s;
    CommandTokens(tag, "LOGOUT", s);
    Imap4In.GetAuthStep(tag + " " + "LOGOUT" + "\r\n" + s, m.tlsListen, ssl, capability);
    Imap4LogoutAct(tag, m.tlsListen, ssl, capability, s);
    var done := tag + " " + "OK" + " " + "LOGOUT" + "\r\n";
    ReasonIsClean();
    ByeIsUntagged(BYE_REASON);
    UntaggedSkipped(bye, done + more, Token(tag, Plain), Imap4Out.OK);
    assert bye + "\r\n" + done + more == bye + "\r\n" + (done + more);
    TagIsPlain(tag);
    LogoutShort();
    SameSelf("OK");
    TaggedLine(tag, "OK", "LOGOUT", more, false);
  }

  lemma Imap4LogoutAct(tag: string, listen: bool, ssl: bool, capability: string, s: string)
    requires ValidTag(tag)
    ensures Imap4In.Act([Token(tag, Plain), Token("LOGOUT", Eol)], s, listen, ssl, capability) ==
              Imap4In.Step(Some(Quitted), s, Bye(BYE_REASON) + "\r\n" + (tag + " " + "OK" + " " + "LOGOUT" + "\r\n"))
  {
    hide Imap4In.LoginCommand, SameIgnoringCase, ValidTag, Bye, Imap4In.Say;
    var q := [Token(tag, Plain), Token("LOGOUT", Eol)];
    SameSelf("LOGOUT");
    Imap4Meaning.CommandsDiffer(q[1]);
    assert q[2..] == [];
    SaysBye(BYE_REASON);
    SaysDone(tag, "LOGOUT");
  }

  lemma SaysBye(reason: string)
    requires reason != ""
    ensures Imap4In.Say("*", "BYE", reason) == Bye(reason) + "\r\n"
  {
    assert "*" + " " == "* ";
    assert "*" + " " + "BYE" + (" " + reason) == "* " + ("BYE" + " " + reason);
  }

  lemma SaysDone(tag: string, command: string)
    requires command != ""
    ensures Imap4In.Say(tag, "OK", command) == tag + " " + "OK" + " " + command + "\r\n"
  {
    assert tag + " " + "OK" + (" " + command) == tag + " " + "OK" + " " + command;
  }

  lemma LogoutShort()
    ensures Short(Split("LOGOUT", IMAP4))
  {
    hide Pieces;
    OneWord("LOGOUT");
  }

  lemma ReasonIsClean()
    ensures Clean(BYE_REASON) && |BYE_REASON| < 1000
  {
  }

  lemma ByeIsUntagged(reason: string)
    requires Clean(reason) && |reason| < 1000
    ensures Untagged(Bye(reason))
  {
    hide Pieces;
    ShortText(Bye(reason), "", false, true);
  }

  // ----- what every command is answered -----

  /** A POP3 command that is obeyed with a reply. */
  predicate Pop3Granted(q: seq<Token>, listen: bool, ssl: bool) {
    || (|q| == 1 && (Is(q[0], "CAPA") || Is(q[0], "QUIT")))
    || (|q| == 1 && Is(q[0], "STLS") && listen && !ssl)
    || (|q| == 2 && Is(q[0], "USER") && q[1].buf != "")
  }

  /** It is answered +OK, a PASS that is passed on is not answered yet, and everything else
      is answered -ERR. */
  lemma Pop3Answers(q: seq<Token>, name: Option<string>, listen: bool, ssl: bool, capability: string)
    requires q != []
    ensures var said := Pop3In.Act(q, name, listen, ssl, capability).said;
            if Pop3Granted(q, listen, ssl) then |said| > 4 && said[..4] == "+OK "
            else if |q| > 1 && Is(q[0], "PASS") && name.Some? then said == ""
            else |said| > 5 && said[..5] == "-ERR "
  {
    hide SameIgnoringCase, Printed;
    Pop3In.CommandsDiffer(q[0]);
    assert |q| == 1 <==> q[1..] == [];
  }

  /** An IMAP4 command other than LOGIN that is obeyed. */
  predicate Imap4Granted(t: Token, args: seq<Token>, listen: bool, ssl: bool) {
    args == [] && (Is(t, "NOOP") || Is(t, "CAPABILITY") || Is(t, "LOGOUT") || (Is(t, "STARTTLS") && listen && !ssl))
  }

  ghost predicate AnsweredOk(said: string, tag: string) {
    exists before, text :: said == before + Imap4In.Say(tag, "OK", text)
  }

  ghost predicate AnsweredNo(said: string, tag: string) {
    exists text :: said == Imap4In.Say(tag, "NO", text) || said == Imap4In.Say(tag, "BAD", text)
  }

  lemma OkBehind(before: string, tag: string, text: string)
    ensures AnsweredOk(before + Imap4In.Say(tag, "OK", text), tag)
    ensures AnsweredOk(Imap4In.Say(tag, "OK", text), tag)
  {
    hide Imap4In.Say;
    var said := Imap4In.Say(tag, "OK", text);
    assert said == "" + said;
  }

  /** It is answered with its tag and OK, everything else with its tag and NO or BAD. */
  lemma Imap4Answers(tag: string, t: Token, args: seq<Token>, listen: bool, ssl: bool, capability: string)
    ensures var said := Imap4In.Command(tag, t, args, listen, ssl, capability).said;
            if Imap4Granted(t, args, listen, ssl) then AnsweredOk(said, tag) else AnsweredNo(said, tag)
  {
    hide Imap4In.Command, AnsweredOk, AnsweredNo, Imap4Granted;
    if Imap4Granted(t, args, listen, ssl) {
      GrantedIsAnswered(tag, t, args, listen, ssl, capability);
    } else {
      OtherIsRefused(tag, t, args, listen, ssl, capability);
    }
  }

  lemma GrantedIsAnswered(tag: string, t: Token, args: seq<Token>, listen: bool, ssl: bool, capability: string)
    requires Imap4Granted(t, args, listen, ssl)
    ensures AnsweredOk(Imap4In.Command(tag, t, args, listen, ssl, capability).said, tag)
  {
    hide SameIgnoringCase, Imap4In.Say, AnsweredOk, Imap4In.BadReply;
    Imap4Meaning.CommandsDiffer(t);
    AllAnswers(tag);
  }

  lemma OtherIsRefused(tag: string, t: Token, args: seq<Token>, listen: bool, ssl: bool, capability: string)
    requires !Imap4Granted(t, args, listen, ssl)
    ensures AnsweredNo(Imap4In.Command(tag, t, args, listen, ssl, capability).said, tag)
  {
    hide SameIgnoringCase, Imap4In.Say, AnsweredNo, Imap4In.BadReply, Imap4In.NoArgument, Imap4In.Command;
    AllAnswers(tag);
    AllRefusals(tag, args);
    var reply := Imap4In.Command(tag, t, args, listen, ssl, capability);
    if args != [] {
      ArgumentIsRefused(tag, t, args, listen, ssl, capability);
    } else if Is(t, "STARTTLS") {
      TlsIsRefused(tag, t, listen, ssl, capability);
    } else {
      UnknownIsRefused(tag, t, args, listen, ssl, capability);
    }
  }

  lemma TlsIsRefused(tag: string, t: Token, listen: bool, ssl: bool, capability: string)
    requires Is(t, "STARTTLS") && (!listen || ssl)
    ensures AnsweredNo(Imap4In.Command(tag, t, [], listen, ssl, capability).said, tag)
  {
    hide SameIgnoringCase, Imap4In.Say, AnsweredNo, Imap4In.BadReply;
    Imap4Meaning.CommandsDiffer(t);
    AllRefusals(tag, []);
  }

  lemma ArgumentIsRefused(tag: string, t: Token, args: seq<Token>, listen: bool, ssl: bool, capability: string)
    requires args != []
    ensures AnsweredNo(Imap4In.Command(tag, t, args, listen, ssl, capability).said, tag)
  {
    hide SameIgnoringCase, Imap4In.Command, AnsweredNo;
    if t.buf == "" || Is(t, "NOOP") || Is(t, "STARTTLS") {
      FirstIsRefused(tag, t, args, listen, ssl, capability);
    } else if Is(t, "CAPABILITY") || Is(t, "LOGOUT") {
      SecondIsRefused(tag, t, args, listen, ssl, capability);
    } else {
      UnknownIsRefused(tag, t, args, listen, ssl, capability);
    }
  }

  lemma FirstIsRefused(tag: string, t: Token, args: seq<Token>, listen: bool, ssl: bool, capability: string)
    requires args != [] && (t.buf == "" || Is(t, "NOOP") || Is(t, "STARTTLS"))
    ensures AnsweredNo(Imap4In.Command(tag, t, args, listen, ssl, capability).said, tag)
  {
    hide SameIgnoringCase, Imap4In.Say, AnsweredNo, Imap4In.BadReply, Imap4In.NoArgument;
    AllRefusals(tag, args);
  }

  lemma SecondIsRefused(tag: string, t: Token, args: seq<Token>, listen: bool, ssl: bool, capability: string)
    requires args != [] && (Is(t, "CAPABILITY") || Is(t, "LOGOUT"))
    ensures AnsweredNo(Imap4In.Command(tag, t, args, listen, ssl, capability).said, tag)
  {
    hide SameIgnoringCase, Imap4In.Say, AnsweredNo, Imap4In.BadReply, Imap4In.NoArgument;
    Imap4Meaning.CommandsDiffer(t);
    AllRefusals(tag, args);
  }

  lemma UnknownIsRefused(tag: string, t: Token, args: seq<Token>, listen: bool, ssl: bool, capability: string)
    requires !Is(t, "NOOP") && !Is(t, "CAPABILITY") && !Is(t, "LOGOUT") && !Is(t, "STARTTLS")
    ensures AnsweredNo(Imap4In.Command(tag, t, args, listen, ssl, capability).said, tag)
  {
    hide SameIgnoringCase, Imap4In.Command, AnsweredNo;
    if Is(t, "AUTHENTICATE") {
      AuthenticateIsRefused(tag, t, args, listen, ssl, capability);
    } else {
      OtherWordIsRefused(tag, t, args, listen, ssl, capability);
    }
  }

  lemma AuthenticateIsRefused(tag: string, t: Token, args: seq<Token>, listen: bool, ssl: bool, capability: string)
    requires Is(t, "AUTHENTICATE")
    ensures AnsweredNo(Imap4In.Command(tag, t, args, listen, ssl, capability).said, tag)
  {
    hide SameIgnoringCase, Imap4In.Say, AnsweredNo, Imap4In.BadReply, Imap4In.NoArgument;
    Imap4Meaning.CommandsDiffer(t);
    AllAnswers(tag);
    AllRefusals(tag, args);
  }

  lemma OtherWordIsRefused(tag: string, t: Token, args: seq<Token>, listen: bool, ssl: bool, capability: string)
    requires !Is(t, "NOOP") && !Is(t, "CAPABILITY") && !Is(t, "LOGOUT") && !Is(t, "STARTTLS")
    requires !Is(t, "AUTHENTICATE")
    ensures AnsweredNo(Imap4In.Command(tag, t, args, listen, ssl, capability).said, tag)
  {
    hide SameIgnoringCase, Imap4In.Say, AnsweredNo, Imap4In.BadReply, Imap4In.NoArgument;
    AllRefusals(tag, args);
  }

  lemma AllRefusals(tag: string, args: seq<Token>)
    ensures forall reason :: AnsweredNo(Imap4In.BadReply(tag, reason).said, tag)
    ensures forall command, done: Imap4In.Reply ::
              if args == [] then Imap4In.NoArgument(tag, command, args, done) == done
              else AnsweredNo(Imap4In.NoArgument(tag, command, args, done).said, tag)
  {
    hide Imap4In.Say, AnsweredNo;
    AllAnswers(tag);
  }

  lemma AllAnswers(tag: string)
    ensures forall text :: AnsweredOk(Imap4In.Say(tag, "OK", text), tag)
    ensures forall before, text :: AnsweredOk(before + Imap4In.Say(tag, "OK", text), tag)
    ensures forall text :: AnsweredNo(Imap4In.Say(tag, "NO", text), tag)
    ensures forall text :: AnsweredNo(Imap4In.Say(tag, "BAD", text), tag)
  {
    hide Imap4In.Say;
    forall before, text ensures AnsweredOk(before + Imap4In.Say(tag, "OK", text), tag) {
      OkBehind(before, tag, text);
    }
    forall text ensures AnsweredOk(Imap4In.Say(tag, "OK", text), tag) {
      OkBehind("", tag, text);
    }
  }

  /** A ManageSieve command without a challenge that is obeyed. */
  predicate ManagesieveGranted(t: Token, q: seq<Token>, listen: bool, ssl: bool) {
    q == [] && (Is(t, "CAPABILITY") || Is(t, "LOGOUT") || Is(t, "NOOP") || (Is(t, "STARTTLS") && listen && !ssl))
  }

  /** It is answered OK at the end, every other command that takes no argument NO. */
  lemma ManagesieveAnswers(t: Token, q: seq<Token>, s: string, listen: bool, ssl: bool, capability: string,
                           lib: ManagesieveIn.Library)
    requires !Is(t, "AUTHENTICATE") && (Is(t, "NOOP") ==> q == [])
    ensures var said := ManagesieveIn.Act(t, q, s, listen, ssl, capability, lib).said;
            if ManagesieveGranted(t, q, listen, ssl)
            then SaidOk(said) else SaidNo(said)
  {
    hide SameIgnoringCase, ManagesieveIn.Ok, ManagesieveIn.No, ManagesieveIn.Authenticate, SaidOk, SaidNo;
    hide ManagesieveIn.Bare, ManagesieveIn.Refusal, ManagesieveIn.CapabilityMessage;
    AllSaid();
    AllBare(q, s, capability);
  }

  lemma AllBare(q: seq<Token>, s: string, capability: string)
    ensures forall text :: SaidNo(ManagesieveIn.Refusal(s, text).said)
    ensures forall tail :: SaidOk(ManagesieveIn.CapabilityMessage(capability, tail))
    ensures forall command, answer, said :: var step := ManagesieveIn.Bare(q, s, command, answer, said);
                                            if q == [] then step.said == said else SaidNo(step.said)
  {
    hide ManagesieveIn.Ok, ManagesieveIn.No, SaidOk, SaidNo;
    AllSaid();
  }

  ghost predicate SaidOk(said: string) {
    exists before, text :: said == before + ManagesieveIn.Ok(text)
  }

  ghost predicate SaidNo(said: string) {
    exists text :: said == ManagesieveIn.No(text)
  }

  lemma AllSaid()
    ensures forall before, text :: SaidOk(before + ManagesieveIn.Ok(text))
    ensures forall text :: SaidOk(ManagesieveIn.Ok(text)) && SaidNo(ManagesieveIn.No(text))
  {
    hide ManagesieveIn.Ok, ManagesieveIn.No;
    forall text ensures SaidOk(ManagesieveIn.Ok(text)) {
      assert "" + ManagesieveIn.Ok(text) == ManagesieveIn.Ok(text);
    }
  }
}
