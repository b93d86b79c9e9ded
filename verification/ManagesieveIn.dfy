/** managesieve_in.c: the status machine of the ManageSieve commands. */
module ManagesieveIn {
  import opened AcapToken
  import opened ClientAuth
  import opened Delimiters
  import opened Offers
  import opened Text
  import opened Tokenizer

  /** sasl_plain_challenge_decode. */
  datatype Sasl = Valid(auth: Auth) | Invalid(reason: string) | Error

  /** What comes from code outside the model: the decoding of a SASL challenge, the
      text of a reply with a response code, and the signedness of char. */
  datatype Library = Library(decode: string -> Sasl, tagged: string -> string, signed: bool)

  /** managesieve_ok and managesieve_no with a short plain message. */
  function Ok(text: string): string { "OK \"" + text + "\"" + CRLF }
  function No(text: string): string { "NO \"" + text + "\"" + CRLF }

  /** What a command leads to: no answer for another turn of the loop, which a status
      of 0 and one of -1 both mean. */
  datatype Step = Step(answer: Option<Answer>, rest: string, said: string)

  function Refusal(s: string, text: string): Step { Step(None, s, No(text)) }

  /** A string argument that must be the last of its line and no atom. */
  predicate Usable(w: Wrapped) {
    w.Wrapped? && w.more == [] && !w.kind.Atom?
  }

  const BROKEN := Wrapped.Failed(-2)

  function SaslPlain(q: seq<Token>, s: string, lib: Library): Step {
    if |q| != 1 then Refusal(s, "Incorrect argument count, expected AUTHENTICATE \"PLAIN\" <challenge>, mate")
    else
      var (w, rest) := Wrap(q, s, lib.signed);
      if w == BROKEN then Step(Some(Answer.Failed), rest, "")
      else if !Usable(w) then Refusal(rest, "Invalid AUTHENTICATE \"PLAIN\" challenge, mate")
      else match lib.decode(w.str)
        case Valid(auth) => Step(Some(LoggedIn(auth, "")), rest, "")
        case Invalid(reason) => Refusal(rest, reason)
        case Error => Step(None, rest, "")
  }

  function Authenticate(q: seq<Token>, s: string, lib: Library): Step {
    if q == [] || |q| > 2 then
      Refusal(s, "Incorrect argument count, expected AUTHENTICATE <mechanism> [<challenge>], mate")
    else if Is(q[0], "\"PLAIN\"") then SaslPlain(q[1..], s, lib)
    else Refusal(s, "Unknown SASL mechanism, mate")
  }

  function NoopString(q: seq<Token>, s: string, lib: Library): Step {
    var (w, rest) := Wrap(q, s, lib.signed);
    if w == BROKEN then Step(Some(Answer.Failed), rest, "")
    else if !Usable(w) then Refusal(rest, "Invalid AUTHENTICATE PLAIN challenge, mate")
    else Step(None, rest, lib.tagged(w.str))
  }

  function Noop(q: seq<Token>, s: string, lib: Library): Step {
    if q == [] then Step(None, s, Ok("NOOP completed, mate"))
    else if |q| == 1 then NoopString(q, s, lib)
    else Refusal(s, "Too many arguments, expected NOOP [String], mate")
  }

  /** A command without arguments. */
  function Bare(q: seq<Token>, s: string, command: string, answer: Option<Answer>, said: string): Step {
    if q == [] then Step(answer, s, said) else Refusal(s, "Too many arguments, expected " + command + ", mate")
  }

  /** managesieve_capability_msg, and the line end of managesieve_write_raw. */
  function CapabilityMessage(capability: string, tail: string): string {
    capability + CRLF + Ok(tail)
  }

  function Act(t: Token, q: seq<Token>, s: string, listen: bool, ssl: bool, capability: string, lib: Library): Step {
    if Is(t, "AUTHENTICATE") then Authenticate(q, s, lib)
    else if Is(t, "CAPABILITY") then
      Bare(q, s, "CAPABILITY", None, CapabilityMessage(capability, "CAPABILITY completed, mate"))
    else if Is(t, "LOGOUT") then Bare(q, s, "LOGOUT", Some(Quitted), Ok("LOGOUT completed, mate"))
    else if Is(t, "NOOP") then Noop(q, s, lib)
    else if listen && !ssl && Is(t, "STARTTLS") then
      Bare(q, s, "STARTTLS", Some(Upgrade), Ok("Begin TLS negotiation, mate"))
    else Refusal(s, "Unknown command, mate")
  }

  lemma WrapConsumes(q: seq<Token>, s: string, signed: bool)
    ensures |Wrap(q, s, signed).1| <= |s|
  {
  }

  lemma SaslConsumes(q: seq<Token>, s: string, lib: Library)
    ensures |SaslPlain(q, s, lib).rest| <= |s| && SaslPlain(q, s, lib).answer != Some(Upgrade)
  {
    hide Wrap, No, Usable;
    WrapConsumes(q, s, lib.signed);
  }

  lemma AuthenticateConsumes(q: seq<Token>, s: string, lib: Library)
    ensures |Authenticate(q, s, lib).rest| <= |s| && Authenticate(q, s, lib).answer != Some(Upgrade)
  {
    hide SaslPlain, Is, No;
    if q != [] {
      SaslConsumes(q[1..], s, lib);
    }
  }

  lemma NoopConsumes(q: seq<Token>, s: string, lib: Library)
    ensures |Noop(q, s, lib).rest| <= |s| && Noop(q, s, lib).answer != Some(Upgrade)
  {
    hide Wrap, Ok, No;
    WrapConsumes(q, s, lib.signed);
  }

  /** No command reads backwards, and TLS is begun only when it is on offer and not yet in use. */
  lemma ActConsumes(t: Token, q: seq<Token>, s: string, listen: bool, ssl: bool, capability: string, lib: Library)
    ensures |Act(t, q, s, listen, ssl, capability, lib).rest| <= |s|
    ensures Act(t, q, s, listen, ssl, capability, lib).answer == Some(Upgrade) ==> listen && !ssl
  {
    hide Authenticate, Noop, Is, Ok, No, CapabilityMessage;
    AuthenticateConsumes(q, s, lib);
    NoopConsumes(q, s, lib);
  }

  /** The loop of managesieve_in_get_auth. */
  function LoopRun(s: string, listen: bool, ssl: bool, capability: string, lib: Library): Run
    decreases |s|
  {
    match ScanLine(s, None, IMAP4, 0)
    case LineStarved => Run(Answer.Failed, "", "")
    case Line(q, rest) =>
      var step := Act(q[0], q[1..], rest, listen, ssl, capability, lib);
      ActConsumes(q[0], q[1..], rest, listen, ssl, capability, lib);
      if step.answer.None? then Said(step.said, LoopRun(step.rest, listen, ssl, capability, lib))
      else Run(step.answer.value, step.rest, step.said)
  }

  /** managesieve_in_get_auth: over TLS begun by STARTTLS the capability is sent again first. */
  function GetAuthRun(s: string, listen: bool, ssl: bool, active: bool, capability: string, lib: Library): Run {
    Said(if active then CapabilityMessage(capability, "TLS negotiation completed, mate") else "",
         LoopRun(s, listen, ssl, capability, lib))
  }

  function After(step: Step, listen: bool, ssl: bool, capability: string, lib: Library): Run {
    if step.answer.None? then Said(step.said, LoopRun(step.rest, listen, ssl, capability, lib))
    else Run(step.answer.value, step.rest, step.said)
  }

  lemma LoopStep(s: string, listen: bool, ssl: bool, capability: string, lib: Library)
    ensures ScanLine(s, None, IMAP4, 0).LineStarved? ==>
              LoopRun(s, listen, ssl, capability, lib) == Run(Answer.Failed, "", "")
    ensures forall q, rest | ScanLine(s, None, IMAP4, 0) == Line(q, rest) ::
              var step := Act(q[0], q[1..], rest, listen, ssl, capability, lib);
              && |step.rest| < |s|
              && LoopRun(s, listen, ssl, capability, lib) == After(step, listen, ssl, capability, lib)
  {
    hide ScanLine, Act;
    match ScanLine(s, None, IMAP4, 0)
    case LineStarved =>
    case Line(q, rest) => ActConsumes(q[0], q[1..], rest, listen, ssl, capability, lib);
  }

  /** TLS is begun only when it is on offer and not yet in use; and an answer takes at
      least a line. */
  lemma {:induction false} UpgradeOnlyInClear(s: string, listen: bool, ssl: bool, capability: string, lib: Library)
    ensures LoopRun(s, listen, ssl, capability, lib).answer == Upgrade ==> listen && !ssl
    ensures var run := LoopRun(s, listen, ssl, capability, lib); !run.answer.Failed? ==> |run.rest| < |s|
    decreases |s|
  {
    hide ScanLine, ScanToken, LoopRun, Act;
    LoopStep(s, listen, ssl, capability, lib);
    match ScanLine(s, None, IMAP4, 0)
    case LineStarved =>
    case Line(q, rest) =>
      var step := Act(q[0], q[1..], rest, listen, ssl, capability, lib);
      ActConsumes(q[0], q[1..], rest, listen, ssl, capability, lib);
      if step.answer.None? {
        UpgradeOnlyInClear(step.rest, listen, ssl, capability, lib);
      }
  }

  // ----- the program -----

  method DoSaslPlain(tb: TokenBuffer, io: Io, q: seq<Token>, lib: Library) returns (answer: Option<Answer>)
    requires tb.Valid()
    modifies tb, tb.data, io`chunks, io`sent
    ensures tb.Valid()
    ensures var step := SaslPlain(q, old(tb.Stream(io)), lib);
            answer == step.answer && tb.Stream(io) == step.rest && io.sent == old(io.sent) + step.said
  {
    hide Wrap, No, Ok;
    answer := None;
    if |q| != 1 {
      io.Write(No("Incorrect argument count, expected AUTHENTICATE \"PLAIN\" <challenge>, mate"));
      return;
    }
    var w := TokenWrapper(tb, io, q, lib.signed);
    if w == BROKEN {
      return Some(Answer.Failed);
    }
    if !Usable(w) {
      io.Write(No("Invalid AUTHENTICATE \"PLAIN\" challenge, mate"));
      return;
    }
    match lib.decode(w.str) {
      case Valid(auth) => answer := Some(LoggedIn(auth, ""));
      case Invalid(reason) => io.Write(No(reason));
      case Error =>
    }
  }

  method DoAuthenticate(tb: TokenBuffer, io: Io, q: seq<Token>, lib: Library) returns (answer: Option<Answer>)
    requires tb.Valid()
    modifies tb, tb.data, io`chunks, io`sent
    ensures tb.Valid()
    ensures var step := Authenticate(q, old(tb.Stream(io)), lib);
            answer == step.answer && tb.Stream(io) == step.rest && io.sent == old(io.sent) + step.said
  {
    hide SaslPlain, Is, No;
    answer := None;
    if q == [] || |q| > 2 {
      io.Write(No("Incorrect argument count, expected AUTHENTICATE <mechanism> [<challenge>], mate"));
    } else if Is(q[0], "\"PLAIN\"") {
      answer := DoSaslPlain(tb, io, q[1..], lib);
    } else {
      io.Write(No("Unknown SASL mechanism, mate"));
    }
  }

  method DoNoop(tb: TokenBuffer, io: Io, q: seq<Token>, lib: Library) returns (answer: Option<Answer>)
    requires tb.Valid()
    modifies tb, tb.data, io`chunks, io`sent
    ensures tb.Valid()
    ensures var step := Noop(q, old(tb.Stream(io)), lib);
            answer == step.answer && tb.Stream(io) == step.rest && io.sent == old(io.sent) + step.said
  {
    hide Wrap, No, Ok;
    answer := None;
    if q == [] {
      io.Write(Ok("NOOP completed, mate"));
    } else if |q| > 1 {
      io.Write(No("Too many arguments, expected NOOP [String], mate"));
    } else {
      var w := TokenWrapper(tb, io, q, lib.signed);
      if w == BROKEN {
        return Some(Answer.Failed);
      }
      io.Write(if Usable(w) then lib.tagged(w.str) else No("Invalid AUTHENTICATE PLAIN challenge, mate"));
    }
  }

  method DoBare(tb: TokenBuffer, io: Io, q: seq<Token>, command: string, answer: Option<Answer>, said: string)
    returns (result: Option<Answer>)
    requires tb.Valid()
    modifies io`sent
    ensures tb.Valid()
    ensures var step := Bare(q, old(tb.Stream(io)), command, answer, said);
            result == step.answer && tb.Stream(io) == step.rest && io.sent == old(io.sent) + step.said
  {
    io.Write(if q == [] then said else No("Too many arguments, expected " + command + ", mate"));
    result := if q == [] then answer else None;
  }

  /** The commands of managesieve_in_get_auth_loop. */
  method Perform(tb: TokenBuffer, io: Io, t: Token, q: seq<Token>, listen: bool, capability: string, lib: Library)
    returns (answer: Option<Answer>)
    requires tb.Valid()
    modifies tb, tb.data, io`chunks, io`sent
    ensures tb.Valid()
    ensures var step := Act(t, q, old(tb.Stream(io)), listen, io.ssl, capability, lib);
            answer == step.answer && tb.Stream(io) == step.rest && io.sent == old(io.sent) + step.said
  {
    hide Authenticate, Noop, Bare, Is, Ok, No, CapabilityMessage;
    if Is(t, "AUTHENTICATE") {
      answer := DoAuthenticate(tb, io, q, lib);
    } else if Is(t, "CAPABILITY") {
      answer := DoBare(tb, io, q, "CAPABILITY", None, CapabilityMessage(capability, "CAPABILITY completed, mate"));
    } else if Is(t, "LOGOUT") {
      answer := DoBare(tb, io, q, "LOGOUT", Some(Quitted), Ok("LOGOUT completed, mate"));
    } else if Is(t, "NOOP") {
      answer := DoNoop(tb, io, q, lib);
    } else if listen && !io.ssl && Is(t, "STARTTLS") {
      answer := DoBare(tb, io, q, "STARTTLS", Some(Upgrade), Ok("Begin TLS negotiation, mate"));
    } else {
      io.Write(No("Unknown command, mate"));
      answer := None;
    }
  }

  /** managesieve_in_get_auth_loop. */
  method Turns(tb: TokenBuffer, io: Io, listen: bool, capability: string, lib: Library)
    returns (answer: Option<Answer>, ghost step: Step)
    requires tb.Valid()
    modifies tb, tb.data, io`chunks, io`sent
    ensures tb.Valid() && answer == step.answer && tb.Stream(io) == step.rest && io.sent == old(io.sent) + step.said
    ensures LoopRun(old(tb.Stream(io)), listen, io.ssl, capability, lib) == After(step, listen, io.ssl, capability, lib)
    ensures answer.None? ==> |tb.Stream(io)| < |old(tb.Stream(io))|
  {
    hide LoopRun, ScanToken, ScanLine, Act;
    LoopStep(tb.Stream(io), listen, io.ssl, capability, lib);
    var q := tb.Line(io, IMAP4);
    if q.None? {
      return Some(Answer.Failed), Step(Some(Answer.Failed), "", "");
    }
    var t, args := q.value[0], q.value[1..];
    step := Act(t, args, tb.Stream(io), listen, io.ssl, capability, lib);
    answer := Perform(tb, io, t, args, listen, capability, lib);
  }

  method Loop(tb: TokenBuffer, io: Io, listen: bool, capability: string, lib: Library) returns (answer: Answer)
    requires tb.Valid()
    modifies tb, tb.data, io`chunks, io`sent
    ensures tb.Valid()
    ensures var run := LoopRun(old(tb.Stream(io)), listen, io.ssl, capability, lib);
            answer == run.answer && tb.Stream(io) == run.rest && io.sent == old(io.sent) + run.said
  {
    hide LoopRun;
    ghost var total := "";
    SaidTwice("", "", LoopRun(tb.Stream(io), listen, io.ssl, capability, lib));
    while true
      invariant tb.Valid() && io.sent == old(io.sent) + total
      invariant LoopRun(old(tb.Stream(io)), listen, io.ssl, capability, lib) ==
                  Said(total, LoopRun(tb.Stream(io), listen, io.ssl, capability, lib))
      decreases |tb.Stream(io)|
    {
      var a, step := Turns(tb, io, listen, capability, lib);
      if a.Some? {
        return a.value;
      }
      SaidTwice(total, step.said, LoopRun(tb.Stream(io), listen, io.ssl, capability, lib));
      total := total + step.said;
    }
  }

  /** managesieve_in_get_auth; `active` is the listen bit of tls_state. */
  method GetAuth(tb: TokenBuffer, io: Io, configured: string, listen: bool, active: bool, lib: Library)
    returns (answer: Answer)
    requires tb.Valid() && ManagesieveConfigured(configured, listen && !active)
    modifies tb, tb.data, io`chunks, io`sent
    ensures tb.Valid()
    ensures var run := GetAuthRun(old(tb.Stream(io)), listen, io.ssl, active,
                                  ManagesieveReply(configured, listen && !active), lib);
            answer == run.answer && tb.Stream(io) == run.rest && io.sent == old(io.sent) + run.said
  {
    hide LoopRun;
    var capability := ManagesieveCapability(configured, listen, active);
    if active {
      ghost var stream := tb.Stream(io);
      io.Write(CapabilityMessage(capability, "TLS negotiation completed, mate"));
      assert tb.Stream(io) == stream;
    }
    answer := Loop(tb, io, listen, capability, lib);
  }
}
