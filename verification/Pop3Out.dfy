/** pop3_out.c: greeting, CAPA and STLS, USER and PASS. */
module Pop3Out {
  import opened Delimiters
  import opened Dialogue
  import opened Pop3In
  import opened Text
  import opened Tokenizer

  const OK := "+OK"

  /** The lines after the reply to CAPA, up to the one that is a dot or to the end of
      input: whether one of them was STLS, alone on its line. */
  function CapaLines(s: string, stls: bool): (r: (bool, bool, string))
    decreases |s|
  {
    match ScanLine(s, None, POP3, 0)
    case LineStarved => (stls, false, "")
    case Line(q, rest) =>
      var stls' := stls || TokenCmp(Token("STLS", Eol), q[0]);
      if TokenCmp(Token(".", Eol), q[0]) then (stls', true, rest) else CapaLines(rest, stls')
  }

  /** The way out, by `ok` or `leave`: a status of 1 gives way to what has been found. */
  function Leave(status: int, found: int): int {
    if status == 1 then found else status
  }

  /** The dialogue once the greeting is accepted. `status` is what the reply to it left in
      the status variable, which the replies that follow go past. */
  function Negotiate(s: string, status: int, force: bool, tag: string): Dialogue {
    var capa := LineResponse(s, OK);
    if capa.status < 1 then
      Dialogue(Leave(if capa.status == 0 && !force then 1 else status, S_OK), capa.rest, "CAPA" + CRLF, "", tag)
    else
      var (stls, ended, rest) := CapaLines(capa.rest, false);
      if !ended then Dialogue(Leave(status, if stls then S_OK + S_STARTTLS else S_OK), rest, "CAPA" + CRLF, "", tag)
      else if !stls then Dialogue(Leave(if force then status else 1, S_OK), rest, "CAPA" + CRLF, "", tag)
      else RequestTls(rest, status, tag)
  }

  function RequestTls(s: string, status: int, tag: string): Dialogue {
    var stls := LineResponse(s, OK);
    var left := if stls.status < 0 then status else if status == 0 then 0 else 1;
    Dialogue(Leave(left, S_OK + S_STARTTLS), stls.rest, "CAPA" + CRLF + "STLS" + CRLF, "", tag)
  }

  /** pop3_out_setup; `greeting` is perdition's own, met again when it has been
      directed to itself. */
  function SetupRun(s: string, greeting: string, outgoing: bool, force: bool, tag: string): Dialogue {
    var first := LineResponse(s, OK);
    if first.status < 1 then Dialogue(first.status, first.rest, "", "", tag)
    else if Remainder(first.q) == greeting then Dialogue(0, first.rest, "", "", tag)
    else if !outgoing then Dialogue(Leave(1, S_OK), first.rest, "", "", tag)
    else Negotiate(first.rest, first.status, force, tag)
  }

  /** pop3_out_authenticate. */
  function AuthRun(s: string, user: string, passwd: string, tag: string): Dialogue {
    var named := LineResponse(s, OK);
    var said := "USER " + user + CRLF;
    if named.status < 1 then Dialogue(named.status, named.rest, said, "", tag)
    else
      var logged := LineResponse(named.rest, OK);
      Dialogue(logged.status, logged.rest, said + ("PASS " + passwd + CRLF), "", tag)
  }

  // ----- the program -----

  method ReadCapa(tb: TokenBuffer, server: Io) returns (stls: bool, ended: bool)
    requires tb.Valid()
    modifies tb, tb.data, server`chunks
    ensures tb.Valid() && (stls, ended, tb.Stream(server)) == CapaLines(old(tb.Stream(server)), false)
  {
    hide ScanLine;
    stls, ended := false, false;
    while !ended
      invariant tb.Valid()
      invariant CapaLines(old(tb.Stream(server)), false) ==
                  if ended then (stls, true, tb.Stream(server)) else CapaLines(tb.Stream(server), stls)
      decreases !ended, |tb.Stream(server)|
    {
      var q := tb.Line(server, POP3);
      if q.None? {
        return;
      }
      if !stls && TokenCmp(Token("STLS", Eol), q.value[0]) {
        stls := true;
      }
      ended := TokenCmp(Token(".", Eol), q.value[0]);
    }
  }

  method DoNegotiate(tb: TokenBuffer, server: Io, status: int, force: bool, ghost tag: string) returns (r: int)
    requires tb.Valid()
    modifies tb, tb.data, server`chunks, server`sent
    ensures tb.Valid()
    ensures var d := Negotiate(old(tb.Stream(server)), status, force, tag);
            r == d.status && tb.Stream(server) == d.rest && server.sent == old(server.sent) + d.said
  {
    hide LineResponse, CapaLines;
    var found := S_OK;
    SendLine(tb, server, "CAPA");
    var capa, _ := ReadLineResponse(tb, server, OK);
    if capa < 0 {
      return Leave(status, found);
    }
    if capa == 0 {
      return Leave(if force then status else 1, found);
    }
    var stls, ended := ReadCapa(tb, server);
    found := if stls then S_OK + S_STARTTLS else S_OK;
    if !ended {
      return Leave(status, found);
    }
    if !stls {
      return Leave(if force then status else 1, found);
    }
    SendLine(tb, server, "STLS");
    var granted, _ := ReadLineResponse(tb, server, OK);
    if granted < 0 {
      return Leave(status, found);
    }
    if status == 0 {
      return 0;
    }
    return Leave(1, found);
  }

  /** pop3_out_setup. */
  method Setup(tb: TokenBuffer, server: Io, greeting: string, outgoing: bool, force: bool, ghost tag: string)
    returns (status: int)
    requires tb.Valid()
    modifies tb, tb.data, server`chunks, server`sent
    ensures tb.Valid()
    ensures var d := SetupRun(old(tb.Stream(server)), greeting, outgoing, force, tag);
            status == d.status && tb.Stream(server) == d.rest && server.sent == old(server.sent) + d.said
  {
    hide LineResponse, Negotiate;
    var q;
    status, q := ReadLineResponse(tb, server, OK);
    if status < 1 {
      return;
    }
    var read := PrintRemainder(q);
    if read == greeting {
      return 0;
    }
    if !outgoing {
      return Leave(1, S_OK);
    }
    status := DoNegotiate(tb, server, status, force, tag);
  }

  /** pop3_out_authenticate. */
  method Authenticate(tb: TokenBuffer, server: Io, user: string, passwd: string, ghost tag: string)
    returns (status: int)
    requires tb.Valid()
    modifies tb, tb.data, server`chunks, server`sent
    ensures tb.Valid()
    ensures var d := AuthRun(old(tb.Stream(server)), user, passwd, tag);
            status == d.status && tb.Stream(server) == d.rest && server.sent == old(server.sent) + d.said
  {
    hide LineResponse;
    SendLine(tb, server, "USER " + user);
    var q;
    status, q := ReadLineResponse(tb, server, OK);
    if status < 1 {
      return;
    }
    SendLine(tb, server, "PASS " + passwd);
    status, q := ReadLineResponse(tb, server, OK);
  }

  // ----- what it means -----

  /** Line `k` of `s` is STLS alone, and no line before it ends the listing. */
  predicate ListsStls(s: string, k: nat) {
    var r := ReadLines(s, k + 1);
    && r.Some? && TokenCmp(Token("STLS", Eol), r.value.0[k][0])
    && forall j | 0 <= j < k :: !TokenCmp(Token(".", Eol), r.value.0[j][0])
  }

  lemma ListsStlsStep(s: string, k: nat, q: seq<Token>, rest: string)
    requires ScanLine(s, None, POP3, 0) == Line(q, rest)
    ensures ListsStls(s, k) <==>
              if k == 0 then TokenCmp(Token("STLS", Eol), q[0])
              else !TokenCmp(Token(".", Eol), q[0]) && ListsStls(rest, k - 1)
  {
    hide ScanLine, TokenCmp;
    var more := ReadLines(rest, k);
    if more.Some? {
      var all := [q] + more.value.0;
      assert ReadLines(s, k + 1).value.0 == all;
      assert forall j | 0 <= j < |all| :: all[j] == if j == 0 then q else more.value.0[j - 1];
      assert all[0] == q && (k > 0 ==> all[k] == more.value.0[k - 1]);
      assert ListsStls(s, k) <==> TokenCmp(Token("STLS", Eol), all[k][0]) &&
                                  forall j | 0 <= j < k :: !TokenCmp(Token(".", Eol), all[j][0]);
      if ListsStls(s, k) && k > 0 {
        forall j | 0 <= j < k - 1 ensures !TokenCmp(Token(".", Eol), more.value.0[j][0]) {
          assert all[j + 1] == more.value.0[j];
        }
      }
    } else if k == 0 {
      assert false;
    }
  }

  lemma {:induction false} CapaLinesMeaning(s: string, stls: bool)
    ensures CapaLines(s, stls).0 <==> stls || exists k: nat :: ListsStls(s, k)
    decreases |s|
  {
    hide ScanLine, TokenCmp;
    match ScanLine(s, None, POP3, 0)
    case LineStarved =>
      forall k: nat ensures !ListsStls(s, k) { }
    case Line(q, rest) =>
      CapaLinesKeeps(rest, stls);
      ListsStlsStep(s, 0, q, rest);
      if TokenCmp(Token(".", Eol), q[0]) {
        forall k: nat | k > 0 ensures !ListsStls(s, k) { ListsStlsStep(s, k, q, rest); }
      } else {
        CapaLinesMeaning(rest, stls || TokenCmp(Token("STLS", Eol), q[0]));
        forall k: nat ensures ListsStls(rest, k) ==> ListsStls(s, k + 1) { ListsStlsStep(s, k + 1, q, rest); }
        forall k: nat | k > 0 ensures ListsStls(s, k) ==> ListsStls(rest, k - 1) { ListsStlsStep(s, k, q, rest); }
      }
  }

  lemma {:induction false} CapaLinesKeeps(s: string, stls: bool)
    ensures stls ==> CapaLines(s, stls).0
    decreases |s|
  {
    hide ScanLine, TokenCmp;
    match ScanLine(s, None, POP3, 0)
    case LineStarved =>
    case Line(q, rest) => CapaLinesKeeps(rest, stls || TokenCmp(Token("STLS", Eol), q[0]));
  }

  /** STLS is asked for exactly when the server knows CAPA, and its listing has STLS and a
      closing dot. */
  ghost predicate StlsAsked(capa: Response) {
    && capa.status == 1 && (exists k: nat :: ListsStls(capa.rest, k))
    && CapaLines(capa.rest, false).1
  }

  /** Setup succeeds exactly when the server greets it with +OK and is not perdition
      itself; it then announces TLS exactly when TLS is wanted, the server knows CAPA
      and STLS is a line of its listing. Being forced makes no difference: the status of
      the greeting outlives every failure. */
  lemma SetupMeaning(s: string, greeting: string, outgoing: bool, force: bool, tag: string)
    ensures var d := SetupRun(s, greeting, outgoing, force, tag);
            var first := LineResponse(s, OK);
            && (d.status > 0 <==> first.status == 1 && Remainder(first.q) != greeting)
            && (d.status > 0 ==> d.status == S_OK || d.status == S_OK + S_STARTTLS)
            && (Bit(d.status, S_STARTTLS) <==>
                  d.status > 0 && outgoing && LineResponse(first.rest, OK).status == 1 &&
                  exists k: nat :: ListsStls(LineResponse(first.rest, OK).rest, k))
            && d.said == (if d.status > 0 && outgoing
                          then "CAPA\r\n" + (if StlsAsked(LineResponse(first.rest, OK)) then "STLS\r\n" else "")
                          else "")
            && d == SetupRun(s, greeting, outgoing, !force, tag)
  {
    hide LineResponse, CapaLines, ListsStls, Remainder;
    var first := LineResponse(s, OK);
    LineResponseStatus(s, OK);
    LineResponseStatus(first.rest, OK);
    CapaLinesMeaning(LineResponse(first.rest, OK).rest, false);
    BitsOfStatus();
    assert "CAPA" + CRLF == "CAPA\r\n" && "CAPA" + CRLF + "STLS" + CRLF == "CAPA\r\n" + "STLS\r\n";
    assert "CAPA\r\n" + "" == "CAPA\r\n";
  }

  /** The password is sent exactly when the server has accepted the user, and the
      login succeeds exactly when it then accepts the password. */
  lemma AuthMeaning(s: string, user: string, passwd: string, tag: string)
    ensures var d := AuthRun(s, user, passwd, tag);
            var named := LineResponse(s, OK);
            && d.said == "USER " + user + CRLF + (if named.status == 1 then "PASS " + passwd + CRLF else "")
            && (d.status == 1 <==> named.status == 1 && LineResponse(named.rest, OK).status == 1)
  {
    hide LineResponse;
    LineResponseStatus(s, OK);
    LineResponseStatus(LineResponse(s, OK).rest, OK);
    var said := "USER " + user + CRLF;
    assert said + "" == said;
  }
}
