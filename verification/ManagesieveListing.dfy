/** What a ManageSieve server's capability says, and what perdition makes of it. */
module ManagesieveListing {
  import opened AcapRoundTrip
  import opened AcapToken
  import opened Dialogue
  import opened Imap4Login
  import opened Imap4Replies
  import opened Lines
  import opened ManagesieveOut
  import opened Text
  import opened Tokenizer
  import ManagesieveForward

  /** The strings of a listing, line by line, up to the word that ends it; the status is 1
      if that is OK, 0 if it is another, and -1 if the listing breaks off. */
  datatype Listing = Listing(lines: seq<seq<string>>, status: int, rest: string)

  function Behind(line: seq<string>, l: Listing): Listing {
    Listing([line] + l.lines, l.status, l.rest)
  }

  /** The listing from the middle of a line of which `line` has been read. */
  function Gather(q: seq<Token>, s: string, line: seq<string>, signed: bool): Listing
    requires q == [] ==> line == []
    decreases |s|, |q|
  {
    if q == [] then
      match ScanLine(s, None, IMAP4, 0)
      case LineStarved => Listing([], -1, "")
      case Line(q', rest) => Gather(q', rest, [], signed)
    else
      var (w, rest) := Wrap(q, s, signed);
      WrapProgress(q, s, signed);
      if w.Failed? then Listing([], -1, rest)
      else if w.kind.Atom? then Listing(if line == [] then [] else [line], if w.str == "OK" then 1 else 0, rest)
      else if w.more == [] then Behind(line + [w.str], Gather([], rest, [], signed))
      else Gather(w.more, rest, line + [w.str], signed)
  }

  predicate OffersPlain(line: seq<string>, lib: Library) {
    line != [] && line[0] == "SASL" && exists i | 0 < i < |line| :: lib.hasPlain(line[i])
  }

  predicate OffersTls(line: seq<string>) {
    line != [] && line[0] == "STARTTLS"
  }

  /** The variables of the parsing loop say what has been read. */
  predicate Agrees(p: Parse, line: seq<string>, lib: Library) {
    && p.first == (line == []) && p.sasl == (line != [] && line[0] == "SASL")
    && (OffersTls(line) ==> p.stls) && (OffersPlain(line, lib) ==> p.plain)
  }

  lemma NextAgrees(p: Parse, line: seq<string>, str: string, last: bool, lib: Library)
    requires Agrees(p, line, lib)
    ensures var p', line' := p.Next(str, last, lib), line + [str];
            && Agrees(p', if last then [] else line', lib)
            && p'.stls == (p.stls || OffersTls(line'))
            && p'.plain == (p.plain || OffersPlain(line', lib))
  {
    var line' := line + [str];
    assert line'[|line|] == str;
    if OffersPlain(line', lib) {
      var i :| 0 < i < |line'| && lib.hasPlain(line'[i]);
      assert i < |line| ==> line[i] == line'[i];
    }
    if OffersPlain(line, lib) {
      var i :| 0 < i < |line| && lib.hasPlain(line[i]);
      assert line[i] == line'[i];
    }
  }

  ghost predicate AnyTls(lines: seq<seq<string>>) {
    exists l :: l in lines && OffersTls(l)
  }

  ghost predicate AnyPlain(lines: seq<seq<string>>, lib: Library) {
    exists l :: l in lines && OffersPlain(l, lib)
  }

  lemma AnyCons(line: seq<string>, lines: seq<seq<string>>, lib: Library)
    ensures AnyTls([line] + lines) <==> OffersTls(line) || AnyTls(lines)
    ensures AnyPlain([line] + lines, lib) <==> OffersPlain(line, lib) || AnyPlain(lines, lib)
  {
    assert forall l :: l in [line] + lines <==> l == line || l in lines;
  }

  /** The status of a listing: what has been read already counts as well. */
  ghost predicate Found(status: int, g: Listing, p: Parse, lib: Library) {
    if g.status < 1 then status == g.status
    else status == Parse(true, false, p.stls || AnyTls(g.lines), p.plain || AnyPlain(g.lines, lib)).Status()
  }

  lemma {:induction false} ParseMeaning(q: seq<Token>, s: string, line: seq<string>, p: Parse, lib: Library)
    requires (q == [] ==> line == []) && Agrees(p, line, lib)
    ensures var g, r := Gather(q, s, line, lib.signed), CapabilityFrom(q, s, p, lib);
            r.1 == g.rest && Found(r.0, g, p, lib)
    decreases |s|, |q|
  {
    hide ScanLine, Wrap, Found, Agrees, OffersTls, OffersPlain;
    if q == [] {
      match ScanLine(s, None, IMAP4, 0)
      case LineStarved => FoundNothing(p, lib);
      case Line(q', rest) => ParseMeaning(q', rest, [], p, lib);
    } else {
      var (w, rest) := Wrap(q, s, lib.signed);
      WrapProgress(q, s, lib.signed);
      if w.Failed? {
        FoundNothing(p, lib);
      } else if w.kind.Atom? {
        FoundAll(line, p, lib);
      } else {
        var p', line' := p.Next(w.str, w.more == [], lib), line + [w.str];
        NextAgrees(p, line, w.str, w.more == [], lib);
        ParseMeaning(w.more, rest, if w.more == [] then [] else line', p', lib);
        if w.more != [] {
          GatherContinues(w.more, rest, line', lib.signed);
        }
        FoundNext(p, p', line', Gather(w.more, rest, if w.more == [] then [] else line', lib.signed),
                  CapabilityFrom(w.more, rest, p', lib).0, w.more == [], lib);
      }
    }
  }

  lemma FoundNothing(p: Parse, lib: Library)
    ensures forall rest :: Found(-1, Listing([], -1, rest), p, lib)
  {
  }

  lemma FoundAll(line: seq<string>, p: Parse, lib: Library)
    requires Agrees(p, line, lib)
    ensures var lines := if line == [] then [] else [line];
            forall rest ::
              Found(0, Listing(lines, 0, rest), p, lib) && Found(p.Status(), Listing(lines, 1, rest), p, lib)
  {
    AnyCons(line, [], lib);
    assert [line] + [] == [line];
    assert p.Status() == Parse(true, false, p.stls, p.plain).Status();
  }

  /** The line begun goes on into the listing. */
  predicate Continued(line: seq<string>, g: Listing) {
    g.status >= 1 ==> |g.lines| > 0 && line <= g.lines[0]
  }

  lemma {:induction false} GatherContinues(q: seq<Token>, s: string, line: seq<string>, signed: bool)
    requires q != [] && line != []
    ensures Continued(line, Gather(q, s, line, signed))
    decreases |s|, |q|
  {
    hide ScanLine, Wrap;
    var (w, rest) := Wrap(q, s, signed);
    WrapProgress(q, s, signed);
    if w.Wrapped? && !w.kind.Atom? && w.more != [] {
      GatherContinues(w.more, rest, line + [w.str], signed);
    }
  }

  lemma LongerOffers(line: seq<string>, longer: seq<string>, lib: Library)
    requires line <= longer
    ensures OffersTls(line) ==> OffersTls(longer)
    ensures OffersPlain(line, lib) ==> OffersPlain(longer, lib)
  {
    if OffersPlain(line, lib) {
      var i :| 0 < i < |line| && lib.hasPlain(line[i]);
      assert longer[i] == line[i];
    }
  }

  lemma FoundNext(p: Parse, p': Parse, line: seq<string>, g: Listing, status: int, last: bool, lib: Library)
    requires p'.stls == (p.stls || OffersTls(line)) && p'.plain == (p.plain || OffersPlain(line, lib))
    requires Found(status, g, p', lib)
    ensures last ==> Found(status, Behind(line, g), p, lib)
    ensures !last && Continued(line, g) ==> Found(status, g, p, lib)
  {
    hide OffersTls, OffersPlain;
    AnyCons(line, g.lines, lib);
    if g.status >= 1 && Continued(line, g) {
      LongerOffers(line, g.lines[0], lib);
      assert g.lines[0] in g.lines;
    }
  }

  /** Whatever the server sends: setup reads on to the first word that is no string, and it
      finds STARTTLS exactly if that is the first string of a line, and SASL PLAIN exactly
      if it is among the strings behind SASL on a line. */
  lemma ListingMeaning(s: string, lib: Library)
    ensures var g, r := Gather([], s, [], lib.signed), CapabilityRun(s, lib);
            && r.1 == g.rest
            && if g.status < 1 then r.0 == g.status
               else
                 && r.0 > 0
                 && (Bit(r.0, S_STARTTLS) <==> exists l :: l in g.lines && l != [] && l[0] == "STARTTLS")
                 && (Bit(r.0, S_SASL_PLAIN) <==> exists l :: l in g.lines && OffersPlain(l, lib))
  {
    hide Bit;
    var g := Gather([], s, [], lib.signed);
    ParseMeaning([], s, [], Parse(true, false, false, false), lib);
    StatusBits(AnyTls(g.lines), AnyPlain(g.lines, lib));
  }

  // ----- as text -----

  function QuotedText(strs: seq<string>): string
    requires strs != []
  {
    if |strs| == 1 then "\"" + strs[0] + "\"" else "\"" + strs[0] + "\" " + QuotedText(strs[1..])
  }

  function ListingText(lines: seq<seq<string>>): string
    requires forall i | 0 <= i < |lines| :: lines[i] != []
  {
    if lines == [] then "" else QuotedText(lines[0]) + "\r\n" + ListingText(lines[1..])
  }

  /** A string that quotes hold as it is. */
  predicate Plainstring(str: string) {
    && CString(str) && '\"' !in str && '\\' !in str && '\r' !in str && '\n' !in str && |str| <= ACAP_QUOTED_MAX - 2
    && forall i | 0 <= i < |str| :: str[i] as int < 128
  }

  function Quotes(strs: seq<string>): (r: seq<string>)
    ensures |r| == |strs|
  {
    if strs == [] then [] else ["\"" + strs[0] + "\""] + Quotes(strs[1..])
  }

  lemma {:induction false} QuotedSplits(strs: seq<string>)
    requires strs != [] && forall i | 0 <= i < |strs| :: Plainstring(strs[i])
    ensures Split(QuotedText(strs), IMAP4) == Quotes(strs) && Short(Quotes(strs))
    ensures '\r' !in QuotedText(strs) && '\n' !in QuotedText(strs)
  {
    hide Pieces;
    var str := strs[0];
    var w := "\"" + str + "\"";
    PlainStringsSurvive(str, false);
    ManagesieveForward.QuotedIsWord(str);
    QuotedSplit(str);
    if |strs| > 1 {
      var more := QuotedText(strs[1..]);
      QuotedSplits(strs[1..]);
      assert QuotedText(strs) == w + " " + more;
      SplitHead(w, more);
      ShortCons(w, Quotes(strs[1..]));
    } else {
      assert Quotes(strs[1..]) == [] && Quotes(strs) == [w];
    }
  }

  lemma {:induction false} LineGathers(strs: seq<string>, line: seq<string>, s: string, signed: bool)
    requires strs != [] && forall i | 0 <= i < |strs| :: Plainstring(strs[i])
    ensures Gather(Marked(Quotes(strs)), s, line, signed) == Behind(line + strs, Gather([], s, [], signed))
    decreases |strs|
  {
    hide TokenStatus, Wrap, ScanLine, Plainstring;
    var q, str := Marked(Quotes(strs)), strs[0];
    QuotedHead(q, str, s, signed);
    WrapProgress(q, s, signed);
    if |strs| == 1 {
      assert Quotes(strs[1..]) == [] && q[1..] == [] && line + [str] == line + strs;
    } else {
      assert Quotes(strs)[1..] == Quotes(strs[1..]);
      assert q[1..] == Marked(Quotes(strs[1..]));
      LineGathers(strs[1..], line + [str], s, signed);
      assert line + [str] + strs[1..] == line + strs;
    }
  }

  lemma QuotedHead(q: seq<Token>, str: string, s: string, signed: bool)
    requires q != [] && q[0].buf == "\"" + str + "\"" && Plainstring(str)
    ensures Wrap(q, s, signed) == (Wrapped(Quoted, str, q[1..]), s)
  {
    hide TokenStatus, QuotedBody, Whole;
    PlainStringsSurvive(str, signed);
    QuotedStatus(q[0], str, signed);
    assert q[0].buf[1..|q[0].buf| - 1] == str;
    CStrOfCString(str);
  }

  /** A listing of plain strings, as text, is read as what it says, up to an OK. */
  lemma {:induction false} ListingReads(lines: seq<seq<string>>, end: string, s: string, signed: bool)
    requires forall i | 0 <= i < |lines| :: lines[i] != [] && forall j | 0 <= j < |lines[i]| :: Plainstring(lines[i][j])
    requires '\r' !in end && '\n' !in end
    ensures Gather([], ListingText(lines) + ("OK " + end + "\r\n" + s), [], signed) == Listing(lines, 1, s)
    decreases |lines|
  {
    hide ScanLine, Wrap, QuotedText;
    var last := "OK " + end + "\r\n" + s;
    if lines == [] {
      assert ListingText(lines) + last == last == "OK" + " " + end + "\r\n" + s;
      WordLine("OK", end, IMAP4, s);
      OkEnds([Token("OK", Plain)] + Chop(end, "", false, true), s, signed);
    } else {
      var text, more := QuotedText(lines[0]), ListingText(lines[1..]) + last;
      assert ListingText(lines) + last == text + "\r\n" + more;
      QuotedSplits(lines[0]);
      LineOf(text, more);
      LineGathers(lines[0], [], more, signed);
      ListingReads(lines[1..], end, s, signed);
      assert [] + lines[0] == lines[0] && [lines[0]] + lines[1..] == lines;
    }
  }

  lemma OkEnds(q: seq<Token>, s: string, signed: bool)
    requires q != [] && q[0] == Token("OK", Plain)
    ensures Gather(q, s, [], signed) == Listing([], 1, s)
  {
    assert IsAtom("OK", signed);
    CStrOfCString("OK");
  }

  /** A server that lists STARTTLS on a line of its own. */
  lemma TlsListed(s: string, lib: Library)
    ensures var r := CapabilityRun("\"STARTTLS\"\r\nOK done\r\n" + s, lib);
            r.0 > 0 && r.1 == s && Bit(r.0, S_STARTTLS) && !Bit(r.0, S_SASL_PLAIN)
  {
    hide Bit, CapabilityRun, Gather, ListingText, Plainstring;
    var lines := [["STARTTLS"]];
    var text := "\"STARTTLS\"\r\n";
    ListedText();
    ListingReads(lines, "done", s, lib.signed);
    assert text + ("OK " + "done" + "\r\n" + s) == "\"STARTTLS\"\r\nOK done\r\n" + s;
    ListingMeaning(text + ("OK " + "done" + "\r\n" + s), lib);
    assert lines[0] in lines && forall l | l in lines :: l == lines[0];
  }

  lemma ListedText()
    ensures ListingText([["STARTTLS"]]) == "\"STARTTLS\"\r\n" && Plainstring("STARTTLS")
  {
    assert [["STARTTLS"]][1..] == [];
  }
}
