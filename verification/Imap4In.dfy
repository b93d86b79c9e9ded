/** imap4_in.c: tagged commands, and the LOGIN arguments sent as quoted strings
    or as literals. */
module Imap4In {
  import AcapToken
  import opened CapabilityList
  import opened ClientAuth
  import opened Delimiters
  import opened ImapTag
  import opened Offers
  import opened Text
  import opened Tokenizer
  import opened Unescape

  /** imap4_write_str. */
  function Say(tag: string, command: string, text: string): (r: string)
    ensures r != ""
  {
    tag + " " + command + (if text == "" then "" else " " + text) + CRLF
  }

  // ----- LOGIN arguments -----

  /** token_to_string with the quotes taken off; for one quote alone, where the
      length wraps, the empty string. */
  function Bare(b: string): string {
    if b == "\"" then "" else Stripped(b)
  }

  datatype Form = QuotedString | Literal(size: nat, sync: bool) | BadLiteral

  predicate AllDigits(s: string) {
    forall i | 0 <= i < |s| :: IsDigit(s[i])
  }

  /** imap4_token_is_literal. */
  function FormOf(t: Token): Form {
    var str := CStr(Bare(t.buf));
    if !t.IsEol() || str == "" || str[0] != '{' || str[|str| - 1] != '}' then QuotedString
    else
      var plus := str[|str| - 2] == '+';
      var digits := str[1..if plus then |str| - 2 else |str| - 1];
      if !AllDigits(digits) then QuotedString
      else
        var size := AcapToken.Strtoul(digits).0;
        if size == AcapToken.ULONG_MAX then BadLiteral else Literal(size, !plus)
  }

  /** imap4_token_wrapper: the argument, or None for a syntax error, what is left to
      read, and what the client was told meanwhile. */
  datatype Argument = Argument(t: Option<Token>, rest: string, said: string)

  const GO_AHEAD := Say("+", "OK", "ready for additional input")

  function WrapArgument(t: Token, more: seq<Token>, s: string): (r: Argument)
    ensures |r.rest| <= |s|
  {
    match FormOf(t)
    case QuotedString => Argument(Some(t), s, "")
    case BadLiteral => Argument(None, s, "")
    case Literal(size, sync) =>
      if more != [] then Argument(None, s, "")
      else
        var said := if sync then GO_AHEAD else "";
        if size == 0 then Argument(Some(Token("", Plain)), s, said)
        else match ScanToken(s, "", false, None, LITERAL, size)
          case Starved => Argument(None, "", said)
          case Cut(bytes, rest) => Argument(Some(bytes), rest, said)
  }

  /** imap4_token_to_string. */
  function Decode(t: Token, quoted: bool): string {
    if quoted then SecondPass(FirstPass(CStr(Bare(t.buf)))) else CStr(t.buf)
  }

  // ----- commands -----

  /** What a command leads to: no answer for another turn of the loop. */
  datatype Step = Step(answer: Option<Answer>, rest: string, said: string)

  function Bad(tag: string, reason: string, rest: string): Step {
    Step(None, rest, Say(tag, "BAD", reason))
  }

  /** A step after more has been said. */
  function Then(said: string, step: Step): Step {
    Step(step.answer, step.rest, said + step.said)
  }

  const LOGIN_USAGE := "Mate, try LOGIN <username> <passwd>"

  /** The second half of LOGIN: `name` is the first argument, sent in form `quoted`,
      which is also how the password is decoded. */
  function LoginPassword(tag: string, name: Token, quoted: bool, args: seq<Token>, s: string): (r: Step)
    ensures |r.rest| <= |s|
  {
    if name.buf == "" || |args| != 1 then Bad(tag, LOGIN_USAGE, s)
    else
      var a := WrapArgument(args[0], [], s);
      if a.t.None? || a.t.value.buf == "" then Then(a.said, Bad(tag, LOGIN_USAGE, a.rest))
      else Step(Some(LoggedIn(Auth(None, Decode(name, quoted), Decode(a.t.value, quoted)), tag)), a.rest, a.said)
  }

  /** LOGIN once the first argument is in: after a literal, the command's line goes
      on behind it. */
  function LoginName(tag: string, name: Token, quoted: bool, more: seq<Token>, s: string): (r: Step)
    ensures |r.rest| <= |s|
  {
    if quoted then LoginPassword(tag, name, true, more, s)
    else match ScanLine(s, None, IMAP4, 0)
      case LineStarved => Step(Some(Answer.Failed), "", "")
      case Line(q, rest) =>
        if |q| != 2 then Bad(tag, LOGIN_USAGE, rest) else LoginPassword(tag, name, false, q[1..], rest)
  }

  function LoginCommand(tag: string, args: seq<Token>, s: string): (r: Step)
    ensures |r.rest| <= |s|
  {
    if |args| != 1 && |args| != 2 then Bad(tag, LOGIN_USAGE, s)
    else
      var a := WrapArgument(args[0], args[1..], s);
      Then(a.said, if a.t.None? then Bad(tag, LOGIN_USAGE, a.rest)
                   else LoginName(tag, a.t.value, FormOf(args[0]).QuotedString?, args[1..], a.rest))
  }

  /** An answer and a reply, nothing more being read. */
  datatype Reply = Reply(answer: Option<Answer>, said: string)

  function BadReply(tag: string, reason: string): Reply { Reply(None, Say(tag, "BAD", reason)) }

  function NoArgument(tag: string, command: string, args: seq<Token>, done: Reply): Reply {
    if args != [] then BadReply(tag, "Argument given to " + command + " but there shouldn't be one, mate") else done
  }

  /** Every command but LOGIN. */
  function Command(tag: string, t: Token, args: seq<Token>, listen: bool, ssl: bool, capability: string): Reply {
    if t.buf == "" then BadReply(tag, "Null command, mate")
    else if Is(t, "NOOP") then NoArgument(tag, "NOOP", args, Reply(None, Say(tag, "OK", "NOOP")))
    else if Is(t, "STARTTLS") then
      NoArgument(tag, "STARTTLS", args,
                 if !listen then BadReply(tag, "STARTTLS disabled, mate")
                 else if ssl then BadReply(tag, "SSL already active, mate")
                 else Reply(Some(Upgrade), Say(tag, "OK", "Begin TLS negotiation now")))
    else if Is(t, "CAPABILITY") then
      NoArgument(tag, "CAPABILITY", args,
                 Reply(None, Say("*", "CAPABILITY", capability) + Say(tag, "OK", "CAPABILITY")))
    else if Is(t, "AUTHENTICATE") then
      if |args| != 1 then BadReply(tag, "Mate, try AUTHENTICATE <mechanism>")
      else Reply(None, Say(tag, "NO", "AUTHENTICATE mechanism not supported, mate"))
    else if Is(t, "LOGOUT") then
      NoArgument(tag, "LOGOUT", args,
                 Reply(Some(Quitted), Say("*", "BYE", "IMAP4 server logging out, mate") + Say(tag, "OK", "LOGOUT")))
    else BadReply(tag, "Unrecognised command, mate")
  }

  /** One turn of the loop, on the line `q` with `s` still to be read. */
  function Act(q: seq<Token>, s: string, listen: bool, ssl: bool, capability: string): Step
    requires q != []
  {
    var tag := q[0].buf;
    if !ValidTag(tag) then Bad("*", "Invalid tag, mate", s)
    else if q[0].IsEol() then Bad(tag, "Missing command, mate", s)
    else if |q| == 1 then Step(Some(Answer.Failed), s, "")
    else if Is(q[1], "LOGIN") then LoginCommand(tag, q[2..], s)
    else var reply := Command(tag, q[1], q[2..], listen, ssl, capability); Step(reply.answer, s, reply.said)
  }

  lemma ActConsumes(q: seq<Token>, s: string, listen: bool, ssl: bool, capability: string)
    requires q != []
    ensures |Act(q, s, listen, ssl, capability).rest| <= |s|
  {
    hide LoginCommand;
  }

  function GetAuthRun(s: string, listen: bool, ssl: bool, capability: string): Run
    decreases |s|
  {
    match ScanLine(s, None, IMAP4, 0)
    case LineStarved => Run(Failed, "", "")
    case Line(q, rest) =>
      var step := Act(q, rest, listen, ssl, capability);
      ActConsumes(q, rest, listen, ssl, capability);
      if step.answer.None? then Said(step.said, GetAuthRun(step.rest, listen, ssl, capability))
      else Run(step.answer.value, step.rest, step.said)
  }

  /** What the loop still does after a step. */
  function After(step: Step, listen: bool, ssl: bool, capability: string): Run {
    if step.answer.None? then Said(step.said, GetAuthRun(step.rest, listen, ssl, capability))
    else Run(step.answer.value, step.rest, step.said)
  }

  lemma GetAuthStep(s: string, listen: bool, ssl: bool, capability: string)
    ensures ScanLine(s, None, IMAP4, 0).LineStarved? ==> GetAuthRun(s, listen, ssl, capability) == Run(Failed, "", "")
    ensures forall q, rest | ScanLine(s, None, IMAP4, 0) == Line(q, rest) ::
              var step := Act(q, rest, listen, ssl, capability);
              && |step.rest| < |s|
              && GetAuthRun(s, listen, ssl, capability) == After(step, listen, ssl, capability)
  {
    hide ScanLine, Act;
    match ScanLine(s, None, IMAP4, 0)
    case LineStarved =>
    case Line(q, rest) => ActConsumes(q, rest, listen, ssl, capability);
  }

  // ----- the program -----

  /** imap4_token_wrapper. */
  method TokenWrapper(tb: TokenBuffer, io: Io, t: Token, more: seq<Token>) returns (bytes: Option<Token>)
    requires tb.Valid()
    modifies tb, tb.data, io`chunks, io`sent
    ensures tb.Valid()
    ensures var a := WrapArgument(t, more, old(tb.Stream(io)));
            bytes == a.t && tb.Stream(io) == a.rest && io.sent == old(io.sent) + a.said
  {
    hide ScanToken, FormOf;
    var form := FormOf(t);
    if !form.Literal? {
      return if form.QuotedString? then Some(t) else None;
    }
    if more != [] {
      return None;
    }
    if form.sync {
      io.Write(GO_AHEAD);
    }
    if form.size == 0 {
      return Some(Token("", Plain));
    }
    var none, used := new char[0], 0;
    bytes, used := tb.TokenRead(io, none, 0, 0, LITERAL, form.size);
  }

  lemma EmptyDecodes()
    ensures SecondPass(FirstPass(CStr(""))) == ""
  {
  }

  /** imap4_token_to_string. */
  method DecodeToken(t: Token, quoted: bool) returns (str: string)
    ensures str == Decode(t, quoted)
  {
    if quoted && t.buf == "\"" {
      EmptyDecodes();
      return "";
    }
    str := TokenToString(t, quoted);
  }

  /** A tagged BAD reply, and another turn of the loop. */
  method Refuse(io: Io, tag: string, reason: string) returns (answer: Option<Answer>)
    modifies io`sent
    ensures answer == None && io.sent == old(io.sent) + Say(tag, "BAD", reason)
  {
    io.Write(Say(tag, "BAD", reason));
    answer := None;
  }

  method ReadPassword(tb: TokenBuffer, io: Io, tag: string, name: Token, quoted: bool, args: seq<Token>)
    returns (answer: Option<Answer>)
    requires tb.Valid()
    modifies tb, tb.data, io`chunks, io`sent
    ensures tb.Valid()
    ensures var step := LoginPassword(tag, name, quoted, args, old(tb.Stream(io)));
            answer == step.answer && tb.Stream(io) == step.rest && io.sent == old(io.sent) + step.said
  {
    hide WrapArgument, Decode;
    if name.buf == "" || |args| != 1 {
      answer := Refuse(io, tag, LOGIN_USAGE);
      return;
    }
    var t := TokenWrapper(tb, io, args[0], []);
    if t.None? || t.value.buf == "" {
      answer := Refuse(io, tag, LOGIN_USAGE);
      return;
    }
    var user := DecodeToken(name, quoted);
    var passwd := DecodeToken(t.value, quoted);
    answer := Some(LoggedIn(Auth(None, user, passwd), tag));
  }

  method ReadName(tb: TokenBuffer, io: Io, tag: string, name: Token, quoted: bool, more: seq<Token>)
    returns (answer: Option<Answer>)
    requires tb.Valid()
    modifies tb, tb.data, io`chunks, io`sent
    ensures tb.Valid()
    ensures var step := LoginName(tag, name, quoted, more, old(tb.Stream(io)));
            answer == step.answer && tb.Stream(io) == step.rest && io.sent == old(io.sent) + step.said
  {
    hide ScanLine, LoginPassword;
    if quoted {
      answer := ReadPassword(tb, io, tag, name, true, more);
      return;
    }
    var q := tb.Line(io, IMAP4);
    if q.None? {
      return Some(Answer.Failed);
    }
    if |q.value| != 2 {
      answer := Refuse(io, tag, LOGIN_USAGE);
      return;
    }
    answer := ReadPassword(tb, io, tag, name, false, q.value[1..]);
  }

  method DoLogin(tb: TokenBuffer, io: Io, tag: string, args: seq<Token>) returns (answer: Option<Answer>)
    requires tb.Valid()
    modifies tb, tb.data, io`chunks, io`sent
    ensures tb.Valid()
    ensures var step := LoginCommand(tag, args, old(tb.Stream(io)));
            answer == step.answer && tb.Stream(io) == step.rest && io.sent == old(io.sent) + step.said
  {
    hide WrapArgument, FormOf, LoginName, Say;
    if |args| != 1 && |args| != 2 {
      answer := Refuse(io, tag, LOGIN_USAGE);
      return;
    }
    var t := TokenWrapper(tb, io, args[0], args[1..]);
    if t.None? {
      answer := Refuse(io, tag, LOGIN_USAGE);
      return;
    }
    answer := ReadName(tb, io, tag, t.value, FormOf(args[0]).QuotedString?, args[1..]);
  }

  method Perform(tb: TokenBuffer, io: Io, q: seq<Token>, listen: bool, capability: string)
    returns (answer: Option<Answer>)
    requires tb.Valid() && q != []
    modifies tb, tb.data, io`chunks, io`sent
    ensures tb.Valid()
    ensures var step := Act(q, old(tb.Stream(io)), listen, io.ssl, capability);
            answer == step.answer && tb.Stream(io) == step.rest && io.sent == old(io.sent) + step.said
  {
    hide LoginCommand, Command, Is, Say;
    var tag := q[0].buf;
    var valid := VerifyTag(tag);
    if !valid {
      answer := Refuse(io, "*", "Invalid tag, mate");
    } else if q[0].IsEol() {
      answer := Refuse(io, tag, "Missing command, mate");
    } else if |q| == 1 {
      answer := Some(Answer.Failed);
    } else if Is(q[1], "LOGIN") {
      answer := DoLogin(tb, io, tag, q[2..]);
    } else {
      var reply := Command(tag, q[1], q[2..], listen, io.ssl, capability);
      io.Write(reply.said);
      answer := reply.answer;
    }
  }

  /** One turn of the loop, performed. */
  method Turns(tb: TokenBuffer, io: Io, listen: bool, capability: string)
    returns (answer: Option<Answer>, ghost step: Step)
    requires tb.Valid()
    modifies tb, tb.data, io`chunks, io`sent
    ensures tb.Valid() && answer == step.answer && tb.Stream(io) == step.rest && io.sent == old(io.sent) + step.said
    ensures GetAuthRun(old(tb.Stream(io)), listen, io.ssl, capability) == After(step, listen, io.ssl, capability)
    ensures answer.None? ==> |tb.Stream(io)| < |old(tb.Stream(io))|
  {
    hide GetAuthRun, ScanToken, ScanLine, Act;
    GetAuthStep(tb.Stream(io), listen, io.ssl, capability);
    var q := tb.Line(io, IMAP4);
    if q.None? {
      return Some(Answer.Failed), Step(Some(Answer.Failed), "", "");
    }
    step := Act(q.value, tb.Stream(io), listen, io.ssl, capability);
    answer := Perform(tb, io, q.value, listen, capability);
  }

  /** imap4_in_get_auth, the capability made once and for all. */
  method Loop(tb: TokenBuffer, io: Io, listen: bool, capability: string) returns (answer: Answer)
    requires tb.Valid()
    modifies tb, tb.data, io`chunks, io`sent
    ensures tb.Valid()
    ensures var run := GetAuthRun(old(tb.Stream(io)), listen, io.ssl, capability);
            answer == run.answer && tb.Stream(io) == run.rest && io.sent == old(io.sent) + run.said
  {
    hide GetAuthRun;
    ghost var total := "";
    SaidTwice("", "", GetAuthRun(tb.Stream(io), listen, io.ssl, capability));
    while true
      invariant tb.Valid() && io.sent == old(io.sent) + total
      invariant GetAuthRun(old(tb.Stream(io)), listen, io.ssl, capability) ==
                  Said(total, GetAuthRun(tb.Stream(io), listen, io.ssl, capability))
      decreases |tb.Stream(io)|
    {
      var a, step := Turns(tb, io, listen, capability);
      if a.Some? {
        return a.value;
      }
      SaidTwice(total, step.said, GetAuthRun(tb.Stream(io), listen, io.ssl, capability));
      total := total + step.said;
    }
  }

  predicate Configured(configured: string) {
    !At(configured, 0, STARTTLS) && !At(configured, 0, LOGINDISABLED)
  }

  /** The capability advertised, `active` being the listen bit of tls_state: STARTTLS
      exactly when TLS is offered and the bit is clear. */
  function Advertised(configured: string, listen: bool, force: bool, active: bool, loginDisabled: bool): string {
    JoinAll(ImapOffer(Fields(configured, ' '), listen, force, active, loginDisabled), " ")
  }

  /** imap4_in_get_auth; `active` is the listen bit of tls_state. */
  method GetAuth(tb: TokenBuffer, io: Io, configured: string, listen: bool, force: bool, active: bool,
                 loginDisabled: bool)
    returns (answer: Answer)
    requires tb.Valid() && Configured(configured)
    modifies tb, tb.data, io`chunks, io`sent
    ensures tb.Valid()
    ensures var run := GetAuthRun(old(tb.Stream(io)), listen, io.ssl,
                                  Advertised(configured, listen, force, active, loginDisabled));
            answer == run.answer && tb.Stream(io) == run.rest && io.sent == old(io.sent) + run.said
  {
    hide GetAuthRun;
    var capability := ImapCapability(configured, listen, force, active, loginDisabled);
    FieldsJoin(capability, ' ');
    answer := Loop(tb, io, listen, capability);
  }

  /** TLS is begun only when it is on offer and not yet in use; and an answer takes at
      least a line. */
  lemma {:induction false} UpgradeOnlyInClear(s: string, listen: bool, ssl: bool, capability: string)
    ensures GetAuthRun(s, listen, ssl, capability).answer == Upgrade ==> listen && !ssl
    ensures var run := GetAuthRun(s, listen, ssl, capability); !run.answer.Failed? ==> |run.rest| < |s|
    decreases |s|
  {
    hide ScanLine, ScanToken, GetAuthRun, Act;
    GetAuthStep(s, listen, ssl, capability);
    match ScanLine(s, None, IMAP4, 0)
    case LineStarved =>
    case Line(q, rest) =>
      ActUpgrades(q, rest, listen, ssl, capability);
      var step := Act(q, rest, listen, ssl, capability);
      if step.answer.None? {
        UpgradeOnlyInClear(step.rest, listen, ssl, capability);
      }
  }

  lemma ActUpgrades(q: seq<Token>, s: string, listen: bool, ssl: bool, capability: string)
    requires q != []
    ensures Act(q, s, listen, ssl, capability).answer == Some(Upgrade) ==> listen && !ssl
  {
    hide LoginCommand, Command, Is, Say, ValidTag;
    if |q| > 1 {
      LoginUpgrades(q[0].buf, q[2..], s);
      CommandUpgrades(q[0].buf, q[1], q[2..], listen, ssl, capability);
    }
  }

  lemma CommandUpgrades(tag: string, t: Token, args: seq<Token>, listen: bool, ssl: bool, capability: string)
    ensures Command(tag, t, args, listen, ssl, capability).answer == Some(Upgrade) ==> listen && !ssl
  {
    hide Is, Say;
  }

  lemma LoginUpgrades(tag: string, args: seq<Token>, s: string)
    ensures LoginCommand(tag, args, s).answer != Some(Upgrade)
  {
    hide ScanLine, WrapArgument, FormOf, Decode, Say;
  }
}
