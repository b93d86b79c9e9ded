/** The capability each protocol advertises, as a function of the TLS state:
    protocol.c, imap4.c, pop3_in.c and managesieve.c. */
module Offers {
  import opened Capability
  import opened CapabilityList
  import opened Delimiters
  import opened SpaceLists
  import opened Text

  // ----- the offer as a list -----

  function Offer(parts: seq<string>, n: string, on: bool): seq<string> {
    if !on then Without(parts, n) else if n in parts then parts else parts + [n]
  }

  /** An offer lists the capability exactly when it is on, and disturbs nothing else. */
  lemma OfferMeaning(parts: seq<string>, n: string, on: bool)
    ensures n in Offer(parts, n, on) <==> on
    ensures Without(Offer(parts, n, on), n) == Without(parts, n)
    ensures forall p | p != n :: p in Offer(parts, n, on) <==> p in parts
    ensures |parts| > 0 && parts[0] != n ==> |Offer(parts, n, on)| > 0 && Offer(parts, n, on)[0] == parts[0]
  {
    WithoutConcat(parts, [n], n);
    assert Without(parts, n) + [] == Without(parts, n);
    WithoutAbsent(Without(parts, n), n);
  }

  /** What str_append_substring_if_missing and str_delete_substring need of their
      haystack: no occurrence whose look-behind would leave the buffer. */
  predicate Reachable(s: string, d: string, n: string) {
    forall p: nat | p < |d| :: !At(s, p, n)
  }

  /** protocol_capability on strings. */
  function Edited(s: string, d: string, n: string, on: bool): string {
    if on then Add(s, d, n) else Del(s, d, n)
  }

  predicate Editable(s: string, d: string, n: string, on: bool) {
    if on then Reachable(s, d, n) else !First(s, d, n)
  }

  /** protocol_capability. */
  method ProtocolCapability(add: bool, existing: string, n: string, d: string) returns (r: string)
    requires Apart(d, n) && Editable(existing, d, n, add)
    ensures r == Edited(existing, d, n, add)
  {
    if add {
      r := AppendSubstringIfMissing(existing, n, d);
    } else {
      var a, len := DeleteSubstring(existing, n, d);
      r := a[..len];
    }
  }

  // ----- POP3 and ManageSieve: a reply of lines -----

  /** Edit the configured list, then exchange its delimiter for line ends. */
  method Reply(configured: string, d: string, n: string, on: bool, tail: string) returns (wire: string)
    requires Apart(d, n) && Editable(configured, d, n, on)
    ensures wire == JoinAll(SplitOn(Edited(configured, d, n, on), d), CRLF) + tail
  {
    var edited := ProtocolCapability(on, configured, n, d);
    var out := Mangle(edited, d, tail);
    wire := out[..out.Length - 1];
  }

  lemma NeverFirst(s: string, d: string, n: string)
    requires d != "" && Reachable(s, d, n)
    ensures !First(s, d, n)
  {
  }

  /** With a delimiter of one character the lines are the offer, for every list. */
  lemma LinesAreOffer(s: string, c: char, n: string, on: bool)
    requires n != "" && c !in n && !First(s, [c], n)
    ensures SplitOn(Edited(s, [c], n, on), [c]) == Offer(SplitOn(s, [c]), n, on)
  {
    hide SplitOn, Add, Del, First;
    LinesAreFields(s, c);
    LinesAreFields(Edited(s, [c], n, on), c);
    if Fields(s, c)[0] == n {
      FirstLine(s, [c], n);
    }
    EditsAreListEdits(s, c, n);
  }

  lemma LinesAreFields(s: string, c: char)
    ensures SplitOn(s, [c]) == Fields(s, c)
  {
    FieldsJoin(s, c);
    FieldsAreClean(s, c);
    SplitOnJoin(Fields(s, c), [c]);
  }

  const STLS := "STLS"
  const POP3_DELIMITER := "."
  const POP3_OLD_DELIMITER := SPACES
  const POP3_TAIL := "\r\n.\r\n"

  function Pop3Delimiter(configured: string): (d: string)
    ensures d == POP3_DELIMITER || d == POP3_OLD_DELIMITER
  {
    if Find(configured, 0, POP3_DELIMITER).Some? then POP3_DELIMITER else POP3_OLD_DELIMITER
  }

  /** The lines of the reply to CAPA before its closing dot. */
  function Pop3Lines(configured: string, on: bool): seq<string> {
    var d := Pop3Delimiter(configured);
    SplitOn(Edited(configured, d, STLS, on), d)
  }

  function Pop3Reply(configured: string, on: bool): string {
    JoinAll(Pop3Lines(configured, on), CRLF) + POP3_TAIL
  }

  predicate Pop3Configured(configured: string, on: bool) {
    Editable(configured, Pop3Delimiter(configured), STLS, on)
  }

  /** pop3_in_capability; `tlsActive` is the listen bit of tls_state. */
  method Pop3Capability(configured: string, tlsListen: bool, tlsActive: bool) returns (wire: string)
    requires Pop3Configured(configured, tlsListen && !tlsActive)
    ensures wire == Pop3Reply(configured, tlsListen && !tlsActive)
  {
    wire := Reply(configured, Pop3Delimiter(configured), STLS, tlsListen && !tlsActive, POP3_TAIL);
  }

  /** STLS can be made a line of the reply: the delimiter is the dot, or it is one, or no
      space too many is in its way. */
  predicate Pop3Shows(configured: string) {
    '.' in configured || Showable(SplitOn(configured, "  "), "STLS")
  }

  /** The dot delimits a list that has one, two spaces any other. */
  lemma DelimiterIs(configured: string)
    ensures Pop3Delimiter(configured) == if '.' in configured then "." else "  "
  {
    if '.' in configured {
      var i :| 0 <= i < |configured| && configured[i] == '.';
      assert configured[i..i + 1] == ".";
      assert At(configured, i, ".");
    } else {
      NoDot(configured);
    }
  }

  /** For every list with a dot: the lines of the reply are the fields between its dots,
      with STLS added or taken out and nothing else touched. */
  lemma DottedList(configured: string, on: bool)
    requires '.' in configured && Editable(configured, ".", "STLS", on)
    ensures Pop3Lines(configured, on) == Offer(Fields(configured, '.'), "STLS", on)
    ensures "STLS" in Pop3Lines(configured, on) <==> on
  {
    hide SplitOn, Edited, Offer, First, Reachable;
    DelimiterIs(configured);
    if on {
      NeverFirst(configured, ".", "STLS");
    }
    LinesAreOffer(configured, '.', "STLS", on);
    LinesAreFields(configured, '.');
    OfferMeaning(Fields(configured, '.'), "STLS", on);
  }

  /** For every list without: STLS is a line of the reply exactly when it is on and the
      list can show it; and exactly when the lines are those between its two-space
      delimiters, with STLS added or taken out and nothing else touched. */
  lemma SpacedList(configured: string, on: bool)
    requires '.' !in configured && Editable(configured, "  ", "STLS", on)
    ensures var parts := SplitOn(configured, "  ");
            && ("STLS" in Pop3Lines(configured, on) <==> on && Showable(parts, "STLS"))
            && (Pop3Lines(configured, on) == Offer(parts, "STLS", on) <==> ListEditable(parts, "STLS", on))
  {
    hide SplitOn, Edited, Offer, First, Reachable, Showable, ListEditable;
    DelimiterIs(configured);
    if on {
      NeverFirst(configured, "  ", "STLS");
    }
    TwoSpaceReply(configured, "STLS", on);
  }

  /** For every configured list: STLS is a line of the reply exactly when it is on and
      the list can show it. */
  lemma Pop3CapabilityMeaning(configured: string, on: bool)
    requires Editable(configured, if '.' in configured then "." else "  ", "STLS", on)
    ensures "STLS" in Pop3Lines(configured, on) <==> on && Pop3Shows(configured)
  {
    hide SplitOn, Edited, Offer, First, Reachable, Showable, ListEditable, Pop3Lines, Editable;
    if '.' in configured {
      DottedList(configured, on);
    } else {
      SpacedList(configured, on);
    }
  }

  /** The list perdition has if none is configured. */
  lemma DefaultPop3List()
    ensures Pop3Reply("UIDL.USER", false) == "UIDL\r\nUSER\r\n.\r\n"
    ensures Pop3Reply("UIDL.USER", true) == "UIDL\r\nUSER\r\nSTLS\r\n.\r\n"
  {
    hide Pop3Lines, Offer, JoinAll;
    DefaultLines(false);
    DefaultLines(true);
    DefaultOffer();
    assert "UIDL\r\nUSER" + POP3_TAIL == "UIDL\r\nUSER\r\n.\r\n";
    assert "UIDL\r\nUSER\r\nSTLS" + POP3_TAIL == "UIDL\r\nUSER\r\nSTLS\r\n.\r\n";
  }

  lemma DefaultLines(on: bool)
    ensures Pop3Lines("UIDL.USER", on) == Offer(["UIDL", "USER"], "STLS", on)
  {
    hide Pop3Lines, Offer;
    var s := "UIDL.USER";
    assert '.' in s by { assert s[4] == '.'; }
    DefaultReach();
    DottedList(s, on);
    DefaultFields();
  }

  lemma DefaultReach()
    ensures Editable("UIDL.USER", ".", "STLS", true) && Editable("UIDL.USER", ".", "STLS", false)
  {
    var s := "UIDL.USER";
    forall p: nat | p < 1 ensures !At(s, p, "STLS") {
      assert s[0..4][0] == 'U';
    }
    NeverFirst(s, ".", "STLS");
  }

  lemma DefaultFields()
    ensures Fields("UIDL.USER", '.') == ["UIDL", "USER"]
  {
    assert Join(["UIDL", "USER"], ['.']) == "UIDL.USER" by {
      assert ["UIDL", "USER"][1..] == ["USER"];
    }
    FieldsOfJoin(["UIDL", "USER"], '.');
  }

  lemma DefaultOffer()
    ensures JoinAll(Offer(["UIDL", "USER"], "STLS", false), CRLF) == "UIDL\r\nUSER"
    ensures JoinAll(Offer(["UIDL", "USER"], "STLS", true), CRLF) == "UIDL\r\nUSER\r\nSTLS"
  {
    var parts := ["UIDL", "USER"];
    WithoutAbsent(parts, "STLS");
    assert parts[1..] == ["USER"];
    var more := parts + ["STLS"];
    assert more[1..] == ["USER", "STLS"] && more[1..][1..] == ["STLS"];
  }

  lemma TwoSpaceReply(configured: string, n: string, on: bool)
    requires Solid(n) && !First(configured, SPACES, n)
    ensures var parts, lines := SplitOn(configured, SPACES), SplitOn(Edited(configured, SPACES, n, on), SPACES);
            && (n in lines <==> on && Showable(parts, n))
            && (lines == Offer(parts, n, on) <==> ListEditable(parts, n, on))
  {
    if on {
      AddIsListed(configured, n);
    } else {
      DelIsUnlisted(configured, n);
    }
  }

  /** A space at the end of a list with the old delimiter joins the one put there, and
      STLS is no line of the reply; two spaces do no harm. */
  lemma SpaceHidesStls()
    ensures Pop3Reply("USER ", true) == "USER" + CRLF + " STLS" + POP3_TAIL && !Pop3Shows("USER ")
    ensures Pop3Shows("USER  ")
  {
    hide SplitOn;
    NoDot("USER ");
    NoDot("USER  ");
    assert !Has("USER ", SPACES, STLS);
    SplitAppended("USER ", STLS);
    SplitOneSpace();
    SplitTwoSpaces();
  }

  lemma NoDot(s: string)
    requires '.' !in s
    ensures Pop3Delimiter(s) == POP3_OLD_DELIMITER
  {
    forall p: nat ensures !At(s, p, POP3_DELIMITER) {
      assert p < |s| ==> s[p..p + 1] == [s[p]];
    }
  }

  lemma SplitOneSpace()
    ensures SplitOn("USER ", SPACES) == ["USER "]
  {
    var s := "USER ";
    forall p: nat ensures !At(s, p, SPACES) {
      AtSpaces(s, p);
    }
  }

  lemma SplitTwoSpaces()
    ensures SplitOn("USER  ", SPACES) == ["USER", ""]
  {
    var s := "USER  ";
    forall p: nat ensures At(s, p, SPACES) <==> p == 4 {
      AtSpaces(s, p);
    }
    FindIs(s, 4);
    assert s[..4] == "USER" && s[6..] == "" && SplitOn("", SPACES) == [""];
  }

  const QUOTED_STARTTLS := "\"STARTTLS\""
  const MANAGESIEVE_DELIMITER := SPACES

  function ManagesieveLines(configured: string, on: bool): seq<string> {
    SplitOn(Edited(configured, MANAGESIEVE_DELIMITER, QUOTED_STARTTLS, on), MANAGESIEVE_DELIMITER)
  }

  function ManagesieveReply(configured: string, on: bool): string {
    JoinAll(ManagesieveLines(configured, on), CRLF)
  }

  predicate ManagesieveConfigured(configured: string, on: bool) {
    Editable(configured, MANAGESIEVE_DELIMITER, QUOTED_STARTTLS, on)
  }

  predicate ManagesieveShows(configured: string) {
    Showable(SplitOn(configured, MANAGESIEVE_DELIMITER), QUOTED_STARTTLS)
  }

  /** managesieve_capability. */
  method ManagesieveCapability(configured: string, tlsListen: bool, tlsActive: bool) returns (wire: string)
    requires ManagesieveConfigured(configured, tlsListen && !tlsActive)
    ensures wire == ManagesieveReply(configured, tlsListen && !tlsActive)
  {
    wire := Reply(configured, MANAGESIEVE_DELIMITER, QUOTED_STARTTLS, tlsListen && !tlsActive, "");
  }

  /** The same exact conditions as for a POP3 list without a dot. */
  lemma ManagesieveCapabilityMeaning(configured: string, on: bool)
    requires Editable(configured, "  ", "\"STARTTLS\"", on)
    ensures var parts, lines, n := SplitOn(configured, "  "), ManagesieveLines(configured, on), "\"STARTTLS\"";
            && (n in lines <==> on && Showable(parts, n))
            && (lines == Offer(parts, n, on) <==> ListEditable(parts, n, on))
    ensures QUOTED_STARTTLS in ManagesieveLines(configured, on) <==> on && ManagesieveShows(configured)
  {
    hide SplitOn, Edited, Offer, First, Reachable, Showable, ListEditable;
    if on {
      NeverFirst(configured, MANAGESIEVE_DELIMITER, QUOTED_STARTTLS);
    }
    TwoSpaceReply(configured, QUOTED_STARTTLS, on);
  }

  // ----- IMAP4 -----

  /** The list perdition has if none is configured, with TLS forced and not yet begun. */
  lemma DefaultImapList()
    ensures JoinAll(ImapOffer(Fields("IMAP4 IMAP4REV1", ' '), true, true, false, false), " ") ==
              "IMAP4 IMAP4REV1 STARTTLS LOGINDISABLED"
  {
    hide Offer, Fields, Join;
    var parts := ["IMAP4", "IMAP4REV1"];
    ImapFields();
    OfferAbsent(parts, "STARTTLS");
    OfferAbsent(parts + ["STARTTLS"], "LOGINDISABLED");
    JoinAppend(parts, ["STARTTLS"], " ");
    JoinAppend(parts + ["STARTTLS"], ["LOGINDISABLED"], " ");
    JoinOne("STARTTLS", " ");
    JoinOne("LOGINDISABLED", " ");
    assert "IMAP4 IMAP4REV1" + " " + "STARTTLS" + " " + "LOGINDISABLED" == "IMAP4 IMAP4REV1 STARTTLS LOGINDISABLED";
  }

  lemma ImapFields()
    ensures Join(["IMAP4", "IMAP4REV1"], " ") == "IMAP4 IMAP4REV1"
    ensures Fields("IMAP4 IMAP4REV1", ' ') == ["IMAP4", "IMAP4REV1"]
  {
    var parts := ["IMAP4", "IMAP4REV1"];
    assert parts[1..] == ["IMAP4REV1"] && [' '] == " ";
    FieldsOfJoin(parts, ' ');
  }

  lemma OfferAbsent(parts: seq<string>, n: string)
    requires n !in parts
    ensures Offer(parts, n, true) == parts + [n] && Offer(parts, n, false) == parts
  {
    WithoutAbsent(parts, n);
  }

  const STARTTLS := "STARTTLS"
  const LOGINDISABLED := "LOGINDISABLED"

  /** imap4_capability on the list. */
  function ImapOffer(parts: seq<string>, tlsListen: bool, force: bool, tlsActive: bool, loginDisabled: bool)
    : seq<string>
  {
    var offered := Offer(parts, STARTTLS, tlsListen && !tlsActive);
    if !loginDisabled && !(tlsListen && force) then offered else Offer(offered, LOGINDISABLED, !tlsActive)
  }

  lemma {:induction false} FieldPrefix(s: string, c: char, n: string)
    requires c !in n
    ensures At(s, 0, n) <==> At(Fields(s, c)[0], 0, n)
    decreases |s|
  {
    if s != "" && n != "" {
      PrefixHead(s, n);
      PrefixHead(Fields(s, c)[0], n);
      if s[0] == n[0] {
        FieldPrefix(s[1..], c, n[1..]);
        PrefixTail(s, n);
        assert s[0] != c && Fields(s, c)[0][1..] == Fields(s[1..], c)[0];
        PrefixTail(Fields(s, c)[0], n);
      }
    }
  }

  lemma PrefixHead(s: string, n: string)
    requires n != ""
    ensures At(s, 0, n) ==> s != "" && s[0] == n[0]
  {
    assert s != "" && |n| <= |s| ==> s[0] == s[0..|n|][0];
  }

  lemma PrefixTail(s: string, n: string)
    requires s != "" && n != "" && s[0] == n[0]
    ensures At(s, 0, n) <==> At(s[1..], 0, n[1..])
  {
    if |n| <= |s| {
      assert s[0..|n|] == [s[0]] + s[1..][0..|n| - 1] && n == [n[0]] + n[1..];
      assert s[0..|n|][1..] == s[1..][0..|n| - 1];
    }
  }

  /** One edit of an IMAP4 capability, space delimited. */
  method ImapEdit(on: bool, capability: string, n: string) returns (r: string)
    requires n != "" && ' ' !in n && !At(capability, 0, n)
    ensures Fields(r, ' ') == Offer(Fields(capability, ' '), n, on)
    ensures Fields(r, ' ')[0] == Fields(capability, ' ')[0]
  {
    FieldPrefix(capability, ' ', n);
    EditsAreListEdits(capability, ' ', n);
    OfferMeaning(Fields(capability, ' '), n, on);
    r := ProtocolCapability(on, capability, n, " ");
  }

  /** imap4_capability. */
  method ImapCapability(configured: string, tlsListen: bool, force: bool, tlsActive: bool, loginDisabled: bool)
    returns (capability: string)
    requires !At(configured, 0, STARTTLS) && !At(configured, 0, LOGINDISABLED)
    ensures Fields(capability, ' ') ==
              ImapOffer(Fields(configured, ' '), tlsListen, force, tlsActive, loginDisabled)
  {
    capability := ImapEdit(tlsListen && !tlsActive, configured, STARTTLS);
    if !loginDisabled && (!tlsListen || !force) {
      return;
    }
    FieldPrefix(configured, ' ', LOGINDISABLED);
    FieldPrefix(capability, ' ', LOGINDISABLED);
    capability := ImapEdit(!tlsActive, capability, LOGINDISABLED);
  }

  /** IMAP4 lists STARTTLS exactly when TLS is offered and the listen bit of tls_state is
      clear; LOGINDISABLED as configured, unless login is disabled or TLS is forced, and
      then exactly while the bit is clear. Everything else is as configured. The bit is
      not the connection: a clean-up clears it and leaves TLS as it is. */
  lemma ImapOfferMeaning(parts: seq<string>, tlsListen: bool, force: bool, tlsActive: bool, loginDisabled: bool)
    ensures var offer := ImapOffer(parts, tlsListen, force, tlsActive, loginDisabled);
            && (STARTTLS in offer <==> tlsListen && !tlsActive)
            && (LOGINDISABLED in offer <==>
                  if loginDisabled || (tlsListen && force) then !tlsActive else LOGINDISABLED in parts)
            && Without(Without(offer, STARTTLS), LOGINDISABLED) == Without(Without(parts, STARTTLS), LOGINDISABLED)
  {
    var offered := Offer(parts, STARTTLS, tlsListen && !tlsActive);
    OfferMeaning(parts, STARTTLS, tlsListen && !tlsActive);
    if loginDisabled || (tlsListen && force) {
      OfferMeaning(offered, LOGINDISABLED, !tlsActive);
      WithoutCommutes(Offer(offered, LOGINDISABLED, !tlsActive), STARTTLS, LOGINDISABLED);
      WithoutCommutes(offered, STARTTLS, LOGINDISABLED);
    }
  }

  lemma {:induction false} WithoutCommutes(parts: seq<string>, a: string, b: string)
    ensures Without(Without(parts, a), b) == Without(Without(parts, b), a)
  {
    if parts != [] {
      WithoutCommutes(parts[1..], a, b);
      var x, y := Without(parts[1..], a), Without(parts[1..], b);
      assert ([parts[0]] + x)[1..] == x && ([parts[0]] + y)[1..] == y;
    }
  }
}
