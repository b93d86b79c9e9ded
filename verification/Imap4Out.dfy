/** imap4_out.c: tagged and untagged replies, CAPABILITY, STARTTLS and LOGIN. */
module Imap4Out {
  import opened Delimiters
  import opened Dialogue
  import opened Imap4Login
  import opened ImapTag
  import opened Text
  import opened Tokenizer
  import Acap
  import Imap4In
  import opened ClientAuth

  const OK := Token("OK", DontCare)
  const GO_ON := Token("+", DontCare)

  function Say(tag: string, command: string, text: string): string { Imap4In.Say(tag, command, text) }

  // ----- one reply -----

  /** A reply, as Dialogue.Response; `n` is the length of the capture buffer, which
      every line read shrinks to what it took, and 0 for no buffer. */
  datatype TaggedResponse = TaggedResponse(status: int, q: seq<Token>, rest: string, n: nat, relayed: string)

  /** What one line decides: the reply, or that it is still to be read. */
  datatype Verdict = Final(status: int, q: seq<Token>) | Skip(relayed: string)

  const NONE := Final(-1, [])

  /** The word behind the tag. */
  function Judge(q: seq<Token>, desired: Token): Verdict {
    if |q| < 2 then NONE
    else if TokenCmp(desired, q[1]) then Final(1, q[2..])
    else Final(0, [])
  }

  /** imap4_out_write_queue. */
  function Relay(q: seq<Token>): string
    requires |q| > 1
  {
    Say("*", q[1].buf, Remainder(q[2..]))
  }

  function Passed(relayed: string, r: TaggedResponse): TaggedResponse {
    TaggedResponse(r.status, r.q, r.rest, r.n, relayed + r.relayed)
  }

  /** One line of imap4_out_response: without a tag it must be untagged; with one,
      untagged lines are passed on to the client, if there is one to pass them to,
      and skipped. */
  function Decide(q: seq<Token>, tag: Option<Token>, desired: Token, relay: bool): Verdict
    requires q != []
  {
    if tag.None? then if q[0].buf == "*" then Judge(q, desired) else NONE
    else if q[0].buf != "*" then if TokenCmp(tag.value, q[0]) then Judge(q, desired) else NONE
    else if !relay then Skip("")
    else if |q| == 1 then NONE
    else Skip(Relay(q))
  }

  /** imap4_out_response. */
  function Response(s: string, n: nat, tag: Option<Token>, desired: Token, relay: bool): TaggedResponse
    decreases |s|
  {
    match ScanLine(s, Room(n), IMAP4, 0)
    case LineStarved => TaggedResponse(-1, [], "", n, "")
    case Line(q, rest) =>
      var n' := Shrunk(n, |s| - |rest|);
      match Decide(q, tag, desired, relay)
      case Final(status, q') => TaggedResponse(status, q', rest, n', "")
      case Skip(relayed) => Passed(relayed, Response(rest, n', tag, desired, relay))
  }

  function Shrunk(n: nat, used: nat): nat { if n > 0 then used else 0 }

  /** The reply after a verdict, the input now at `rest`. */
  function After(v: Verdict, tag: Option<Token>, desired: Token, relay: bool, rest: string, n: nat): TaggedResponse {
    match v
    case Final(status, q) => TaggedResponse(status, q, rest, n, "")
    case Skip(relayed) => Passed(relayed, Response(rest, n, tag, desired, relay))
  }

  lemma PassedTwice(a: string, b: string, r: TaggedResponse)
    ensures Passed(a, Passed(b, r)) == Passed(a + b, r) && Passed("", r) == r
  {
    assert a + (b + r.relayed) == a + b + r.relayed;
  }

  lemma ResponseStep(s: string, n: nat, tag: Option<Token>, desired: Token, relay: bool)
    ensures ScanLine(s, Room(n), IMAP4, 0).LineStarved? ==>
              Response(s, n, tag, desired, relay) == TaggedResponse(-1, [], "", n, "")
    ensures forall q, rest | ScanLine(s, Room(n), IMAP4, 0) == Line(q, rest) ::
              && |rest| < |s|
              && Response(s, n, tag, desired, relay) ==
                   After(Decide(q, tag, desired, relay), tag, desired, relay, rest, Shrunk(n, |s| - |rest|))
  {
    hide Decide;
  }

  /** One line of the loop: None when the input is at its end. */
  method TurnResponse(tb: TokenBuffer, server: Io, buf: array<char>, n: nat, tag: Option<Token>, desired: Token,
                      relay: bool)
    returns (v: Option<Verdict>, n': nat)
    requires tb.Valid() && buf != tb.data && n <= buf.Length
    modifies tb, tb.data, server`chunks, buf
    ensures tb.Valid() && n' <= buf.Length
    ensures v.None? ==> n' == n && tb.Stream(server) == ""
    ensures Response(old(tb.Stream(server)), n, tag, desired, relay) ==
              if v.None? then TaggedResponse(-1, [], "", n, "")
              else After(v.value, tag, desired, relay, tb.Stream(server), n')
    ensures v.Some? ==> |tb.Stream(server)| < |old(tb.Stream(server))|
    ensures v.Some? && n > 0 ==> n' > 0 && buf[..n'] + tb.Stream(server) == old(tb.Stream(server))
    ensures v.Some? ==> Suffix(tb.Stream(server), old(tb.Stream(server)))
    ensures v.Some? && v.value.Skip? && !relay ==> v.value.relayed == ""
  {
    hide Response, ScanLine, ScanToken, TokenCmp, Relay;
    ResponseStep(tb.Stream(server), n, tag, desired, relay);
    ghost var s := tb.Stream(server);
    var q, used := tb.ReadLine(server, buf, n, IMAP4, 0);
    if q.None? {
      return None, n;
    }
    if n > 0 {
      assert buf[..used] == s[..used] && s[..used] + s[used..] == s;
    }
    return Some(Decide(q.value, tag, desired, relay)), Shrunk(n, used);
  }

  predicate Suffix(rest: string, s: string) {
    |rest| <= |s| && s[|s| - |rest|..] == rest
  }

  lemma SuffixOfSuffix(a: string, b: string, c: string)
    requires Suffix(a, b) && Suffix(b, c)
    ensures Suffix(a, c)
  {
    assert c[|c| - |a|..] == b[|b| - |a|..];
  }

  lemma SuffixOfItself(s: string)
    ensures Suffix(s, s)
  {
  }

  /** The last line read, as it stands before `rest`. */
  predicate Captured(text: string, rest: string, s: string) {
    text != "" && Suffix(text + rest, s)
  }

  /** imap4_out_response; without `relay`, its eu_io is NULL. After a reply the buffer
      holds the bytes of its line, those just before what is left to read. */
  method ReadResponse(tb: TokenBuffer, server: Io, client: Io, relay: bool, buf: array<char>, n: nat,
                      tag: Option<Token>, desired: Token)
    returns (status: int, q: seq<Token>, n': nat, ghost relayed: string)
    requires tb.Valid() && buf != tb.data && n <= buf.Length && client != server
    modifies tb, tb.data, server`chunks, client`sent, buf
    ensures tb.Valid() && n' <= buf.Length
    ensures TaggedResponse(status, q, tb.Stream(server), n', relayed) ==
              Response(old(tb.Stream(server)), n, tag, desired, relay)
    ensures client.sent == old(client.sent) + relayed
    ensures status >= 0 && n > 0 ==> Captured(buf[..n'], tb.Stream(server), old(tb.Stream(server)))
  {
    hide Response, Decide, Suffix;
    n', relayed := n, "";
    SuffixOfItself(tb.Stream(server));
    PassedTwice("", "", Response(tb.Stream(server), n, tag, desired, relay));
    while true
      invariant tb.Valid() && n' <= buf.Length && (n > 0 ==> n' > 0)
      invariant Suffix(tb.Stream(server), old(tb.Stream(server)))
      invariant client.sent == old(client.sent) + relayed
      invariant Response(old(tb.Stream(server)), n, tag, desired, relay) ==
                  Passed(relayed, Response(tb.Stream(server), n', tag, desired, relay))
      decreases |tb.Stream(server)|
    {
      var v;
      ghost var input := tb.Stream(server);
      v, n' := TurnResponse(tb, server, buf, n', tag, desired, relay);
      if v.None? {
        return -1, [], n', relayed;
      }
      SuffixOfSuffix(tb.Stream(server), input, old(tb.Stream(server)));
      if v.value.Final? {
        return v.value.status, v.value.q, n', relayed;
      }
      if relay {
        ghost var stream := tb.Stream(server);
        client.Write(v.value.relayed);
        assert tb.Stream(server) == stream;
      }
      PassedTwice(relayed, v.value.relayed, Response(tb.Stream(server), n', tag, desired, relay));
      relayed := relayed + v.value.relayed;
    }
  }

  /** A line to the server, and its reply. */
  method Ask(tb: TokenBuffer, server: Io, client: Io, buf: array<char>, n: nat, line: string, tag: Option<Token>,
             desired: Token)
    returns (status: int, q: seq<Token>, n': nat, ghost relayed: string)
    requires tb.Valid() && buf != tb.data && n <= buf.Length && client != server
    modifies tb, tb.data, server`chunks, server`sent, client`sent, buf
    ensures tb.Valid() && n' <= buf.Length
    ensures TaggedResponse(status, q, tb.Stream(server), n', relayed) ==
              Response(old(tb.Stream(server)), n, tag, desired, true)
    ensures client.sent == old(client.sent) + relayed && server.sent == old(server.sent) + (line + CRLF)
  {
    hide Response;
    SendLine(tb, server, line);
    status, q, n', relayed := ReadResponse(tb, server, client, true, buf, n, tag, desired);
  }

  // ----- CAPABILITY -----

  /** Whether a token of the listing, up to the end of its line, is `name`. */
  predicate Mentions(q: seq<Token>, name: string) {
    q != [] && (TokenCmp(q[0], Token(name, DontCare)) || (!q[0].IsEol() && Mentions(q[1..], name)))
  }

  /** An exchange of commands and replies, as Dialogue, and the capture length left. */
  datatype Exchange = Exchange(status: int, rest: string, n: nat, said: string, relayed: string, tag: string)

  /** imap4_out_get_capability: 1 when the server lists `name`, and also, the status
      of its first reply being still there, when the tagged reply cannot be read. */
  function CapabilityRun(s: string, n: nat, tag: string, name: string): Exchange {
    var said := Say(tag, "CAPABILITY", "");
    var list := Response(s, n, None, Token("CAPABILITY", Plain), true);
    if list.status < 1 then Exchange(list.status, list.rest, list.n, said, list.relayed, tag)
    else
      var done := Response(list.rest, n, Some(Token(tag, Plain)), OK, true);
      var relayed := list.relayed + done.relayed;
      if done.status < 0 then Exchange(list.status, done.rest, done.n, said, relayed, tag)
      else Exchange(if Mentions(list.q, name) then 1 else 0, done.rest, done.n, said, relayed, Inc(tag))
  }

  /** The loop over the listing's tokens. */
  method FindName(q: seq<Token>, name: string) returns (found: bool)
    ensures found == Mentions(q, name)
  {
    hide TokenCmp;
    var rest := q;
    found := false;
    while rest != []
      invariant Mentions(q, name) == (found || Mentions(rest, name))
      decreases |rest|
    {
      var t := rest[0];
      if !found && TokenCmp(t, Token(name, DontCare)) {
        found := true;
      }
      if t.IsEol() {
        return;
      }
      rest := rest[1..];
    }
  }

  method GetCapability(tb: TokenBuffer, server: Io, client: Io, buf: array<char>, n: nat, tag: string, name: string)
    returns (status: int, n': nat, tag': string, ghost relayed: string)
    requires tb.Valid() && buf != tb.data && n <= buf.Length && client != server
    modifies tb, tb.data, server`chunks, server`sent, client`sent, buf
    ensures tb.Valid() && n' <= buf.Length
    ensures var x := CapabilityRun(old(tb.Stream(server)), n, tag, name);
            && status == x.status && n' == x.n && tag' == x.tag && tb.Stream(server) == x.rest && relayed == x.relayed
            && server.sent == old(server.sent) + x.said && client.sent == old(client.sent) + x.relayed
  {
    hide Response, TokenCmp, Mentions;
    tag' := tag;
    assert Say(tag, "CAPABILITY", "") == tag + " CAPABILITY" + CRLF;
    var q;
    status, q, n', relayed := Ask(tb, server, client, buf, n, tag + " CAPABILITY", None, Token("CAPABILITY", Plain));
    if status < 1 {
      return;
    }
    var found := FindName(q, name);
    var done;
    ghost var more;
    done, q, n', more := ReadResponse(tb, server, client, true, buf, n, Some(Token(tag, Plain)), OK);
    relayed := relayed + more;
    if done < 0 {
      return;
    }
    tag' := Inc(tag);
    status := if found then 1 else 0;
  }

  // ----- setup -----

  /** strcmp: the difference of the first bytes to differ. */
  function Strcmp(a: string, b: string): (r: int)
    ensures CString(a) && CString(b) ==> (r == 0 <==> a == b)
  {
    if a == "" && b == "" then 0
    else if a == "" then -(b[0] as int)
    else if b == "" then a[0] as int
    else if a[0] != b[0] then a[0] as int - b[0] as int
    else
      assert a == [a[0]] + a[1..] && b == [b[0]] + b[1..];
      Strcmp(a[1..], b[1..])
  }

  /** The dialogue after `x`. */
  function Upon(x: Exchange, d: Dialogue): Dialogue {
    Then(x.said, x.relayed, d)
  }

  /** From the accepted greeting on, with TLS wanted. `diff` is what strcmp made of the
      greeting, and what a broken CAPABILITY exchange leaves for a status; a refusal
      of STARTTLS is believed to be consent. */
  function Negotiate(s: string, diff: int, force: bool, tag: string): Dialogue {
    var x := CapabilityRun(s, MAX_LINE_LENGTH, tag, "STARTTLS");
    Upon(x,
         if x.status < 0 then Dialogue(diff, x.rest, "", "", x.tag)
         else if x.status == 0 then Dialogue(if force then 0 else S_OK, x.rest, "", "", x.tag)
         else StartTls(x.rest, x.n, x.tag))
  }

  function StartTls(s: string, n: nat, tag: string): Dialogue {
    var r := Response(s, n, Some(Token(tag, Plain)), OK, true);
    var said := Say(tag, "STARTTLS", "");
    if r.status < 0 then Dialogue(r.status, r.rest, said, r.relayed, tag)
    else Dialogue(S_OK + S_STARTTLS, r.rest, said, r.relayed, Inc(tag))
  }

  /** imap4_out_setup. */
  function SetupRun(s: string, greeting: string, outgoing: bool, force: bool, tag: string): Dialogue {
    var first := Response(s, 0, None, OK, true);
    var diff := Strcmp(Remainder(first.q), greeting);
    if first.status < 1 then Dialogue(first.status, first.rest, "", "", tag)
    else if diff == 0 then Dialogue(0, first.rest, "", "", tag)
    else if !outgoing then Dialogue(S_OK, first.rest, "", "", tag)
    else Negotiate(first.rest, diff, force, tag)
  }

  lemma {:induction false} ResponseStatus(s: string, n: nat, tag: Option<Token>, desired: Token, relay: bool)
    ensures var r := Response(s, n, tag, desired, relay);
            && -1 <= r.status <= 1 && |r.rest| <= |s|
            && (tag.None? ==> r.relayed == "")
    decreases |s|
  {
    hide ScanLine, TokenCmp, Relay;
    match ScanLine(s, Room(n), IMAP4, 0)
    case LineStarved =>
    case Line(q, rest) =>
      if Decide(q, tag, desired, relay).Skip? {
        ResponseStatus(rest, Shrunk(n, |s| - |rest|), tag, desired, relay);
      }
  }

  lemma {:induction false} NothingRelayed(s: string, tag: Option<Token>, desired: Token)
    ensures Response(s, 0, tag, desired, false).relayed == ""
    decreases |s|
  {
    hide ScanLine, TokenCmp, Relay;
    match ScanLine(s, None, IMAP4, 0)
    case LineStarved =>
    case Line(q, rest) => NothingRelayed(rest, tag, desired);
  }

  method DoStartTls(tb: TokenBuffer, server: Io, client: Io, buf: array<char>, n: nat, tag: string)
    returns (status: int, tag': string, ghost relayed: string)
    requires tb.Valid() && buf != tb.data && n <= buf.Length && client != server
    modifies tb, tb.data, server`chunks, server`sent, client`sent, buf
    ensures tb.Valid()
    ensures var d := StartTls(old(tb.Stream(server)), n, tag);
            && status == d.status && tag' == d.tag && tb.Stream(server) == d.rest && relayed == d.relayed
            && server.sent == old(server.sent) + d.said && client.sent == old(client.sent) + d.relayed
  {
    hide Response;
    assert Say(tag, "STARTTLS", "") == tag + " STARTTLS" + CRLF;
    var q, n';
    status, q, n', relayed := Ask(tb, server, client, buf, n, tag + " STARTTLS", Some(Token(tag, Plain)), OK);
    tag' := tag;
    if status >= 0 {
      status, tag' := S_OK + S_STARTTLS, Inc(tag);
    }
  }

  method DoNegotiate(tb: TokenBuffer, server: Io, client: Io, diff: int, force: bool, tag: string)
    returns (status: int, tag': string)
    requires tb.Valid() && client != server
    modifies tb, tb.data, server`chunks, server`sent, client`sent
    ensures tb.Valid()
    ensures var d := Negotiate(old(tb.Stream(server)), diff, force, tag);
            && status == d.status && tag' == d.tag && tb.Stream(server) == d.rest
            && server.sent == old(server.sent) + d.said && client.sent == old(client.sent) + d.relayed
  {
    hide CapabilityRun, StartTls;
    var buf := new char[MAX_LINE_LENGTH](_ => '\0');
    var n;
    ghost var relayed;
    status, n, tag', relayed := GetCapability(tb, server, client, buf, MAX_LINE_LENGTH, tag, "STARTTLS");
    if status < 0 {
      status := diff;
    } else if status == 0 {
      status := if force then 0 else S_OK;
    } else {
      status, tag', relayed := DoStartTls(tb, server, client, buf, n, tag');
    }
  }

  /** imap4_out_setup. */
  method Setup(tb: TokenBuffer, server: Io, client: Io, greeting: string, outgoing: bool, force: bool, tag: string)
    returns (status: int, tag': string)
    requires tb.Valid() && client != server
    modifies tb, tb.data, server`chunks, server`sent, client`sent
    ensures tb.Valid()
    ensures var d := SetupRun(old(tb.Stream(server)), greeting, outgoing, force, tag);
            && status == d.status && tag' == d.tag && tb.Stream(server) == d.rest
            && server.sent == old(server.sent) + d.said && client.sent == old(client.sent) + d.relayed
  {
    hide Response, Negotiate, Strcmp;
    tag' := tag;
    ResponseStatus(tb.Stream(server), 0, None, OK, true);
    var none, q, n := new char[0], [], 0;
    ghost var relayed;
    status, q, n, relayed := ReadResponse(tb, server, client, true, none, 0, None, OK);
    if status < 1 {
      return;
    }
    var read := PrintRemainder(q);
    var diff := Strcmp(read, greeting);
    if diff == 0 {
      return 0, tag;
    }
    if !outgoing {
      return S_OK, tag;
    }
    status, tag' := DoNegotiate(tb, server, client, diff, force, tag);
  }

  // ----- authentication -----

  /** The three lines of a LOGIN with literals. */
  function LoginLines(tag: string, user: string, passwd: string): string {
    Say(tag, "LOGIN", Announce(|user|, true)) + (user + " " + Announce(|passwd|, true) + CRLF) + (passwd + CRLF)
  }

  /** The replies to the three lines: only the last one counts, whatever the server
      said to the first two. */
  function LoginRun(s: string, n: nat, user: string, passwd: string, tag: string): Dialogue {
    var first := Response(s, n, Some(GO_ON), OK, true);
    var second := Response(first.rest, n, Some(GO_ON), OK, true);
    var last := Response(second.rest, n, Some(Token(tag, Plain)), OK, true);
    Dialogue(last.status, last.rest, LoginLines(tag, user, passwd), first.relayed + second.relayed + last.relayed,
             Inc(tag))
  }

  /** imap4_out_authenticate: 2 for a server that lists LOGINDISABLED. */
  function AuthRun(s: string, n: nat, user: string, passwd: string, tag: string): Dialogue {
    var x := CapabilityRun(s, n, tag, "LOGINDISABLED");
    Upon(x, if x.status == 0 then LoginRun(x.rest, n, user, passwd, x.tag)
            else Dialogue(if x.status < 0 then -1 else 2, x.rest, "", "", Inc(x.tag)))
  }

  lemma LoginSay(tag: string, head: string)
    requires head != ""
    ensures Say(tag, "LOGIN", head) == tag + " LOGIN " + head + CRLF
  {
    assert tag + " " + "LOGIN" + (" " + head) == tag + " LOGIN " + head;
  }

  lemma ConcatFour(a: string, b: string, c: string, d: string)
    ensures a + b + c + d == a + (b + c + d)
  {
  }

  method DoLogin(tb: TokenBuffer, server: Io, client: Io, buf: array<char>, n: nat, user: string, passwd: string,
                 tag: string)
    returns (status: int)
    requires tb.Valid() && buf != tb.data && n <= buf.Length && client != server
    modifies tb, tb.data, server`chunks, server`sent, client`sent, buf
    ensures tb.Valid()
    ensures var d := LoginRun(old(tb.Stream(server)), n, user, passwd, tag);
            && status == d.status && tb.Stream(server) == d.rest
            && server.sent == old(server.sent) + d.said && client.sent == old(client.sent) + d.relayed
  {
    hide Response;
    hide Say, Announce;
    var q, n';
    ghost var a, b, c, sent, passed := "", "", "", server.sent, client.sent;
    LoginSay(tag, Announce(|user|, true));
    status, q, n', a := Ask(tb, server, client, buf, n, tag + " LOGIN " + Announce(|user|, true), Some(GO_ON), OK);
    status, q, n', b := Ask(tb, server, client, buf, n, user + " " + Announce(|passwd|, true), Some(GO_ON), OK);
    status, q, n', c := Ask(tb, server, client, buf, n, passwd, Some(Token(tag, Plain)), OK);
    ConcatFour(passed, a, b, c);
    ConcatFour(sent, tag + " LOGIN " + Announce(|user|, true) + CRLF, user + " " + Announce(|passwd|, true) + CRLF,
               passwd + CRLF);
  }

  /** imap4_out_authenticate; `n` of 0 is a NULL buffer. */
  method Authenticate(tb: TokenBuffer, server: Io, client: Io, buf: array<char>, n: nat, user: string, passwd: string,
                      tag: string)
    returns (status: int, tag': string)
    requires tb.Valid() && buf != tb.data && n <= buf.Length && client != server
    modifies tb, tb.data, server`chunks, server`sent, client`sent, buf
    ensures tb.Valid()
    ensures var d := AuthRun(old(tb.Stream(server)), n, user, passwd, tag);
            && status == d.status && tag' == d.tag && tb.Stream(server) == d.rest
            && server.sent == old(server.sent) + d.said && client.sent == old(client.sent) + d.relayed
  {
    hide CapabilityRun, LoginRun;
    var n';
    ghost var relayed;
    status, n', tag', relayed := GetCapability(tb, server, client, buf, n, tag, "LOGINDISABLED");
    if status == 0 {
      LoginTag(tb.Stream(server), n, user, passwd, tag');
      status := DoLogin(tb, server, client, buf, n, user, passwd, tag');
    } else {
      status := if status < 0 then -1 else 2;
    }
    tag' := Inc(tag');
  }

  lemma LoginTag(s: string, n: nat, user: string, passwd: string, tag: string)
    ensures LoginRun(s, n, user, passwd, tag).tag == Inc(tag)
  {
  }

  // ----- what it means -----

  /** Tokens as read_line gives them: none but the last ends the line. */
  predicate OneLineOf(q: seq<Token>) {
    forall i | 0 <= i < |q| - 1 :: !q[i].IsEol()
  }

  lemma {:induction false} LinesAreLines(s: string, room: Option<nat>, mode: Mode, m: nat)
    requires room != Some(0) && ScanLine(s, room, mode, m).Line?
    ensures OneLineOf(ScanLine(s, room, mode, m).q)
    decreases |s|
  {
    hide ScanToken;
    match ScanToken(s, "", false, room, mode, m)
    case Cut(t, rest) =>
      var left := Less(room, |s| - |rest|);
      if !(mode.literal || t.IsEol() || left == Some(0)) {
        LinesAreLines(rest, left, mode, m);
        var q := ScanLine(rest, left, mode, m).q;
        assert forall i | 0 < i < |q| + 1 :: ([t] + q)[i] == q[i - 1];
      }
  }

  /** A capability is found exactly when some token of the listing is its name. */
  lemma {:induction false} MentionsMeaning(q: seq<Token>, name: string)
    requires OneLineOf(q)
    ensures Mentions(q, name) <==> exists t :: t in q && SameIgnoringCase(t.buf, name)
  {
    if q != [] {
      assert forall i | 0 <= i < |q| - 1 :: q[1..][i] == q[i + 1];
      MentionsMeaning(q[1..], name);
      assert q == [q[0]] + q[1..];
      assert q[0].IsEol() ==> q[1..] == [];
    }
  }

  lemma {:induction false} RepliesAreLines(s: string, n: nat, tag: Option<Token>, desired: Token, relay: bool)
    ensures OneLineOf(Response(s, n, tag, desired, relay).q)
    decreases |s|
  {
    hide ScanLine, ScanToken, TokenCmp, Relay;
    match ScanLine(s, Room(n), IMAP4, 0)
    case LineStarved =>
    case Line(q, rest) =>
      LinesAreLines(s, Room(n), IMAP4, 0);
      if Decide(q, tag, desired, relay).Skip? {
        RepliesAreLines(rest, Shrunk(n, |s| - |rest|), tag, desired, relay);
      } else if |q| > 2 {
        assert forall i | 0 <= i < |q| - 2 :: q[2..][i] == q[i + 2];
      }
  }

  /** imap4_out_get_capability answers yes exactly when the server lists the name, or
      when its listing is not followed by a reply that can be read; it fails exactly
      when no listing can be read. */
  lemma CapabilityMeaning(s: string, n: nat, tag: string, name: string)
    ensures var list := Response(s, n, None, Token("CAPABILITY", Plain), true);
            var done := Response(list.rest, n, Some(Token(tag, Plain)), OK, true);
            var x := CapabilityRun(s, n, tag, name);
            && -1 <= x.status <= 1
            && (x.status == 1 <==>
                  (list.status == 1 && (done.status < 0 || exists t :: t in list.q && SameIgnoringCase(t.buf, name))))
            && (x.status < 0 <==> list.status < 0)
  {
    hide Response, Mentions, SameIgnoringCase, Say, OneLineOf;
    var list := Response(s, n, None, Token("CAPABILITY", Plain), true);
    ResponseStatus(s, n, None, Token("CAPABILITY", Plain), true);
    RepliesAreLines(s, n, None, Token("CAPABILITY", Plain), true);
    MentionsMeaning(list.q, name);
  }

  /** Exactly when setup succeeds, and exactly when it announces TLS. Without TLS
      wanted nothing is asked. With it, and CAPABILITY answered, STARTTLS is announced
      when it is listed and any tagged reply comes to it, be it NO. With CAPABILITY
      not answered the status is what strcmp made of the greeting. */
  lemma SetupMeaning(s: string, greeting: string, outgoing: bool, force: bool, tag: string)
    ensures var d := SetupRun(s, greeting, outgoing, force, tag);
            var first := Response(s, 0, None, OK, true);
            var diff := Strcmp(Remainder(first.q), greeting);
            var x := CapabilityRun(first.rest, MAX_LINE_LENGTH, tag, "STARTTLS");
            var r := Response(x.rest, x.n, Some(Token(x.tag, Plain)), OK, true);
            && (d.status > 0 <==>
                  (first.status == 1 && diff != 0 &&
                   (!outgoing || if x.status < 0 then diff > 0 else if x.status == 0 then !force else r.status >= 0)))
            && (Bit(d.status, S_STARTTLS) <==>
                  (first.status == 1 && diff != 0 && outgoing &&
                   if x.status < 0 then Bit(diff, S_STARTTLS) else x.status > 0 && r.status >= 0))
            && (d.status > 0 && outgoing && x.status < 0 ==> d.status == diff)
            && (!outgoing ==> d.status <= S_OK)
            && d.said == (if first.status == 1 && diff != 0 && outgoing
                          then tag + " CAPABILITY\r\n" + (if x.status > 0 then x.tag + " STARTTLS\r\n" else "")
                          else "")
  {
    hide Response, Strcmp, Remainder, Say;
    ResponseStatus(s, 0, None, OK, true);
    var first := Response(s, 0, None, OK, true);
    var x := CapabilityRun(first.rest, MAX_LINE_LENGTH, tag, "STARTTLS");
    ResponseStatus(x.rest, x.n, Some(Token(x.tag, Plain)), OK, true);
    SaysCommand(tag, "CAPABILITY", " CAPABILITY\r\n");
    SaysCommand(x.tag, "STARTTLS", " STARTTLS\r\n");
    assert Say(tag, "CAPABILITY", "") + "" == Say(tag, "CAPABILITY", "");
  }

  lemma SaysCommand(tag: string, command: string, line: string)
    requires line == " " + command + "\r\n"
    ensures Say(tag, command, "") == tag + line
  {
    assert tag + " " + command + "" + CRLF == tag + (" " + command + "\r\n");
  }

  /** What setup sends: CAPABILITY where TLS is wanted, and STARTTLS after it, under
      the next tag unless the reply to CAPABILITY could not be read. */
  lemma SetupSays(s: string, greeting: string, outgoing: bool, force: bool, tag: string)
    ensures var said := SetupRun(s, greeting, outgoing, force, tag).said;
            var capability := Say(tag, "CAPABILITY", "");
            || said == ""
            || (outgoing && (said == capability || said == capability + Say(tag, "STARTTLS", "")
                             || said == capability + Say(Inc(tag), "STARTTLS", "")))
  {
    hide Response, Strcmp, Remainder, Mentions, Inc, Imap4In.Say;
    var first := Response(s, 0, None, OK, true);
    var x := CapabilityRun(first.rest, MAX_LINE_LENGTH, tag, "STARTTLS");
    assert x.said + "" == x.said;
  }

  /** The credentials are sent exactly when LOGINDISABLED is not found, and then in
      full whatever the server says to each line of them; the login succeeds exactly
      when the reply with the command's own tag is OK. */
  lemma AuthMeaning(s: string, n: nat, user: string, passwd: string, tag: string)
    ensures var d := AuthRun(s, n, user, passwd, tag);
            var x := CapabilityRun(s, n, tag, "LOGINDISABLED");
            var first := Response(x.rest, n, Some(GO_ON), OK, true);
            var second := Response(first.rest, n, Some(GO_ON), OK, true);
            var last := Response(second.rest, n, Some(Token(x.tag, Plain)), OK, true);
            && d.said == Say(tag, "CAPABILITY", "") + (if x.status == 0 then LoginLines(x.tag, user, passwd) else "")
            && (d.status == 1 <==> x.status == 0 && last.status == 1)
            && (d.status == 2 <==> x.status > 0)
            && d.tag == Inc(x.tag)
  {
    hide Response, Say, LoginLines;
    var x := CapabilityRun(s, n, tag, "LOGINDISABLED");
    var first := Response(x.rest, n, Some(GO_ON), OK, true);
    var second := Response(first.rest, n, Some(GO_ON), OK, true);
    ResponseStatus(second.rest, n, Some(Token(x.tag, Plain)), OK, true);
  }

  /** What is sent to the server says, to a server that reads it as perdition itself
      would, exactly the credentials it was given, if and only if neither is empty. */
  lemma LoginReachesServer(tag: string, user: string, passwd: string, listen: bool, ssl: bool, capability: string)
    requires ValidTag(tag) && CString(user) && CString(passwd) && |passwd| <= Acap.STR_WRITE_MAX
    requires |user| + 1 + |Announce(|passwd|, true)| <= Acap.STR_WRITE_MAX
    requires |tag| + 7 + |Announce(|user|, true)| <= Acap.STR_WRITE_MAX
    ensures Imap4In.GetAuthRun(LoginLines(tag, user, passwd), listen, ssl, capability) ==
              Run(LoggedIn(Auth(None, user, passwd), tag), CRLF, Imap4In.GO_AHEAD + Imap4In.GO_AHEAD)
       <==> user != "" && passwd != ""
  {
    hide Imap4In.GetAuthRun;
    var h, k := Announce(|user|, true), Announce(|passwd|, true);
    LoginSay(tag, h);
    assert LoginLines(tag, user, passwd) == LoginLine(tag, h) + CRLF + LiteralLines(user, passwd, true, CRLF);
    LiteralLogin(tag, user, passwd, true, CRLF, listen, ssl, capability);
  }
}
