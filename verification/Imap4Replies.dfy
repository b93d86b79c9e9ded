/** What imap4_out_response makes of the lines a server sends. */
module Imap4Replies {
  import opened Dialogue
  import opened Imap4Login
  import opened Lines
  import opened Refusals
  import opened Text
  import opened Tokenizer
  import Imap4Out

  /** A line of a server that is no reply: a star, and something behind it. */
  predicate Untagged(line: string) {
    && |line| >= 2 && line[..2] == "* " && '\r' !in line && '\n' !in line
    && Short(Split(line, IMAP4))
  }

  /** A line as it is passed on: a space at its end is lost if only one word comes before. */
  function Kept(line: string): string {
    var parts := Split(line, IMAP4);
    if |parts| == 3 && parts[2] == "" && line != "" then line[..|line| - 1] else line
  }

  function Sent(lines: seq<string>): string {
    if lines == [] then "" else lines[0] + "\r\n" + Sent(lines[1..])
  }

  function PassedOn(lines: seq<string>): string {
    if lines == [] then "" else Kept(lines[0]) + "\r\n" + PassedOn(lines[1..])
  }

  lemma LineOf(line: string, s: string)
    requires '\r' !in line && '\n' !in line && Short(Split(line, IMAP4))
    ensures ScanLine(line + "\r\n" + s, None, IMAP4, 0) == Line(Marked(Split(line, IMAP4)), s)
  {
    hide ScanLine, Pieces, Marked;
    StripCRLine(line);
    assert line + "\r\n" + s == line + "\r" + "\n" + s;
    ReadLineSplits(line + "\r", IMAP4, s);
  }

  /** The words of an untagged line, and the line printed from them. */
  lemma UntaggedWords(line: string) returns (more: seq<string>)
    requires Untagged(line)
    ensures more != [] && Split(line, IMAP4) == ["*"] + more
    ensures Marked(Split(line, IMAP4)) == [Token("*", Plain)] + Marked(more)
    ensures line == "* " + Join(more, " ")
  {
    hide Pieces;
    var rest := line[2..];
    assert line == "*" + " " + rest;
    PlainWord("*");
    SplitHead("*", rest);
    more := Split(rest, IMAP4);
    PiecesJoin(rest, "", false, true);
    assert (["*"] + more)[1..] == more;
    assert "" + rest == rest;
  }

  /** One of them is passed on to the client, and the reply is that of what follows. */
  lemma UntaggedLine(line: string, s: string, tag: Token, desired: Token)
    requires Untagged(line)
    ensures var r := Imap4Out.Response(s, 0, Some(tag), desired, true);
            Imap4Out.Response(line + "\r\n" + s, 0, Some(tag), desired, true) ==
              Imap4Out.TaggedResponse(r.status, r.q, r.rest, r.n, Kept(line) + "\r\n" + r.relayed)
  {
    hide ScanLine, Imap4Out.Response, Pieces, Marked;
    var more := UntaggedWords(line);
    LineOf(line, s);
    Imap4Out.ResponseStep(line + "\r\n" + s, 0, Some(tag), desired, true);
    RelayedLine(line, more);
  }

  lemma RelayedLine(line: string, more: seq<string>)
    requires more != [] && Split(line, IMAP4) == ["*"] + more && line == "* " + Join(more, " ")
    ensures var q := [Token("*", Plain)] + Marked(more);
            |q| > 1 && Imap4Out.Relay(q) == Kept(line) + "\r\n"
  {
    hide Pieces;
    var q, w := [Token("*", Plain)] + Marked(more), more[0];
    assert q[1].buf == w && ["*"] + more != [];
    if |more| == 1 {
      assert q[2..] == [] && Join(more, " ") == w;
      assert "*" + " " + w + "" + "\r\n" == line + "\r\n";
    } else {
      var rest := Join(more[1..], " ");
      assert q[2..] == Marked(more[1..]);
      BufsMarked(more[1..]);
      assert Remainder(q[2..]) == rest;
      EmptyJoin(more[1..]);
      assert (["*"] + more)[2] == more[1];
      assert line == "* " + (w + " " + rest);
      if rest == "" {
        assert line[..|line| - 1] == "* " + w;
        assert "*" + " " + w + "" + "\r\n" == "* " + w + "\r\n";
      } else {
        assert "*" + " " + w + (" " + rest) + "\r\n" == line + "\r\n";
      }
    }
  }

  lemma EmptyJoin(parts: seq<string>)
    requires parts != []
    ensures Join(parts, " ") == "" <==> parts == [""]
  {
  }

  /** However many untagged lines come before the reply with the awaited tag: the reply is
      that of what follows them, and they are passed on to the client, in order, as text. */
  lemma {:induction false} UntaggedLines(lines: seq<string>, s: string, tag: Token, desired: Token)
    requires forall i | 0 <= i < |lines| :: Untagged(lines[i])
    ensures var r := Imap4Out.Response(s, 0, Some(tag), desired, true);
            Imap4Out.Response(Sent(lines) + s, 0, Some(tag), desired, true) ==
              Imap4Out.TaggedResponse(r.status, r.q, r.rest, r.n, PassedOn(lines) + r.relayed)
  {
    hide Imap4Out.Response, Kept, Untagged;
    if lines == [] {
      assert Sent(lines) + s == s && PassedOn(lines) == "";
      var r := Imap4Out.Response(s, 0, Some(tag), desired, true);
      assert "" + r.relayed == r.relayed;
    } else {
      var l, more := lines[0], Sent(lines[1..]) + s;
      assert Sent(lines) + s == l + "\r\n" + more;
      UntaggedLines(lines[1..], s, tag, desired);
      UntaggedLine(l, more, tag, desired);
      var r := Imap4Out.Response(s, 0, Some(tag), desired, true);
      assert Kept(l) + "\r\n" + (PassedOn(lines[1..]) + r.relayed) == PassedOn(lines) + r.relayed;
    }
  }

  /** Without a client to pass them on to, they are skipped. */
  lemma UntaggedSkipped(line: string, s: string, tag: Token, desired: Token)
    requires Untagged(line)
    ensures Imap4Out.Response(line + "\r\n" + s, 0, Some(tag), desired, false) ==
              Imap4Out.Response(s, 0, Some(tag), desired, false)
  {
    hide ScanLine, Imap4Out.Response, Pieces, Marked;
    var more := UntaggedWords(line);
    LineOf(line, s);
    Imap4Out.ResponseStep(line + "\r\n" + s, 0, Some(tag), desired, false);
    Imap4Out.PassedTwice("", "", Imap4Out.Response(s, 0, Some(tag), desired, false));
  }

  /** The line that is the reply: its first word is the tag, and its second decides. */
  lemma TaggedLine(tag: string, word: string, rest: string, s: string, relay: bool)
    requires TagLike(tag) && ' ' !in word && '\"' !in word && '\r' !in word + rest && '\n' !in word + rest
    requires |word| < MAX_LINE_LENGTH && Short(Split(rest, IMAP4))
    ensures var r := Imap4Out.Response(tag + " " + word + " " + rest + "\r\n" + s, 0, Some(Token(tag, Plain)),
                                       Imap4Out.OK, relay);
            && r.status == (if SameIgnoringCase(word, "OK") then 1 else 0)
            && r.rest == s && r.relayed == "" && r.n == 0
            && r.q == (if SameIgnoringCase(word, "OK") then Marked(Split(rest, IMAP4)) else [])
  {
    hide ScanLine, Imap4Out.Response, Pieces, Marked;
    var line := tag + " " + word + " " + rest;
    var parts := Split(rest, IMAP4);
    TaggedWords(tag, word, rest);
    LineOf(line, s);
    Imap4Out.ResponseStep(line + "\r\n" + s, 0, Some(Token(tag, Plain)), Imap4Out.OK, relay);
    MarkedFirstTwo(tag, word, parts);
    SameSelf(tag);
    SameTurned(word, "OK");
  }

  /** A line that is neither untagged nor tagged as awaited ends the reply with an error. */
  lemma StrangeLine(first: string, rest: string, s: string, tag: Token, desired: Token, relay: bool)
    requires ' ' !in first && '\"' !in first && '\r' !in first + rest && '\n' !in first + rest && first != "*"
    requires |first| < MAX_LINE_LENGTH && Short(Split(rest, IMAP4)) && !SameIgnoringCase(tag.buf, first)
    ensures Imap4Out.Response(first + " " + rest + "\r\n" + s, 0, Some(tag), desired, relay) ==
              Imap4Out.TaggedResponse(-1, [], s, 0, "")
  {
    hide ScanLine, Imap4Out.Response, Pieces, Marked;
    var line := first + " " + rest;
    PlainWord(first);
    SplitHead(first, rest);
    var parts := Split(rest, IMAP4);
    ShortCons(first, parts);
    LineOf(line, s);
    Imap4Out.ResponseStep(line + "\r\n" + s, 0, Some(tag), desired, relay);
    MarkedFirst(first, parts);
  }

  /** So does, where an untagged line is awaited, one that does not begin with a star. */
  lemma StrangeListing(first: string, rest: string, s: string, desired: Token, relay: bool)
    requires ' ' !in first && '\"' !in first && '\r' !in first + rest && '\n' !in first + rest && first != "*"
    requires |first| < MAX_LINE_LENGTH && Short(Split(rest, IMAP4))
    ensures Imap4Out.Response(first + " " + rest + "\r\n" + s, 0, None, desired, relay) ==
              Imap4Out.TaggedResponse(-1, [], s, 0, "")
  {
    hide ScanLine, Imap4Out.Response, Pieces, Marked;
    var line := first + " " + rest;
    PlainWord(first);
    SplitHead(first, rest);
    var parts := Split(rest, IMAP4);
    ShortCons(first, parts);
    LineOf(line, s);
    Imap4Out.ResponseStep(line + "\r\n" + s, 0, None, desired, relay);
    MarkedFirst(first, parts);
  }

  predicate TagLike(tag: string) {
    tag != "*" && ' ' !in tag && '\"' !in tag && '\r' !in tag && '\n' !in tag && |tag| < MAX_LINE_LENGTH
  }

  lemma TaggedWords(tag: string, word: string, rest: string)
    requires ' ' !in tag && '\"' !in tag && ' ' !in word && '\"' !in word
    requires |tag| < MAX_LINE_LENGTH && |word| < MAX_LINE_LENGTH && Short(Split(rest, IMAP4))
    ensures var parts := Split(tag + " " + word + " " + rest, IMAP4);
            parts == [tag, word] + Split(rest, IMAP4) && Short(parts)
  {
    hide Pieces;
    PlainWord(tag);
    PlainWord(word);
    assert tag + " " + word + " " + rest == tag + " " + (word + " " + rest);
    SplitHead(tag, word + " " + rest);
    SplitHead(word, rest);
    var parts := Split(rest, IMAP4);
    ShortCons(word, parts);
    ShortCons(tag, [word] + parts);
    assert [tag] + ([word] + parts) == [tag, word] + parts;
  }

  lemma ShortCons(w: string, parts: seq<string>)
    requires |w| < MAX_LINE_LENGTH && Short(parts)
    ensures Short([w] + parts)
  {
  }

  lemma MarkedFirst(w: string, parts: seq<string>)
    requires parts != []
    ensures Marked([w] + parts) == [Token(w, Plain)] + Marked(parts)
  {
    assert ([w] + parts)[1..] == parts;
  }

  lemma MarkedFirstTwo(a: string, b: string, parts: seq<string>)
    requires parts != []
    ensures Marked([a, b] + parts) == [Token(a, Plain), Token(b, Plain)] + Marked(parts)
  {
    MarkedFirst(b, parts);
    MarkedFirst(a, [b] + parts);
    assert [a] + ([b] + parts) == [a, b] + parts;
  }

  lemma SameSelf(s: string)
    ensures SameIgnoringCase(s, s)
  {
  }

  lemma SameTurned(a: string, b: string)
    ensures SameIgnoringCase(a, b) <==> SameIgnoringCase(b, a)
  {
  }

  /** A listing that comes before the reply it is not part of. */
  lemma ListingBeforeReply(s: string)
    ensures var r := Imap4Out.Response("* CAPABILITY IMAP4rev1\r\n" + ("flim08 OK done\r\n" + s), 0,
                                       Some(Token("flim08", Plain)), Imap4Out.OK, true);
            r.status == 1 && r.rest == s && r.relayed == "* CAPABILITY IMAP4rev1\r\n"
  {
    hide Imap4Out.Response, Kept, Untagged, TagLike, Pieces;
    var line, reply := "* CAPABILITY IMAP4rev1", "flim08 OK done" + "\r\n" + s;
    ListingWords();
    UntaggedLine(line, reply, Token("flim08", Plain), Imap4Out.OK);
    DoneWords();
    assert "flim08" + " " + "OK" + " " + "done" == "flim08 OK done";
    TaggedLine("flim08", "OK", "done", s, true);
    SameSelf("OK");
    assert line + "\r\n" == "* CAPABILITY IMAP4rev1\r\n" && "flim08 OK done" + "\r\n" == "flim08 OK done\r\n";
    assert line + "\r\n" + "" == line + "\r\n";
  }

  lemma ListingWords()
    ensures Untagged("* CAPABILITY IMAP4rev1") && Kept("* CAPABILITY IMAP4rev1") == "* CAPABILITY IMAP4rev1"
  {
    hide Pieces, Split;
    ListingPlain();
    ListingParts();
  }

  lemma ListingPlain()
    ensures var line := "* CAPABILITY IMAP4rev1"; line[..2] == "* " && '\r' !in line && '\n' !in line
  {
  }

  lemma ListingParts()
    ensures Split("* CAPABILITY IMAP4rev1", IMAP4) == ["*", "CAPABILITY", "IMAP4rev1"]
    ensures Short(["*", "CAPABILITY", "IMAP4rev1"])
  {
    hide Pieces;
    var line := "* CAPABILITY IMAP4rev1";
    assert line == "*" + " " + "CAPABILITY IMAP4rev1" && "CAPABILITY IMAP4rev1" == "CAPABILITY" + " " + "IMAP4rev1";
    PlainWord("*");
    SplitHead("*", "CAPABILITY IMAP4rev1");
    SplitWords("CAPABILITY", "IMAP4rev1");
    assert ["*"] + ["CAPABILITY", "IMAP4rev1"] == ["*", "CAPABILITY", "IMAP4rev1"];
  }

  lemma DoneWords()
    ensures TagLike("flim08") && Short(Split("done", IMAP4))
  {
    hide Pieces;
    OneWord("done");
  }
}
