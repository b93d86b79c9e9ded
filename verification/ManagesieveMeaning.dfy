/** What managesieve_in_get_auth means: when, over every input, it logs in, and with
    which credentials. */
module ManagesieveMeaning {
  import opened AcapToken
  import opened ClientAuth
  import opened Lines
  import opened ManagesieveIn
  import opened Text
  import opened Tokenizer

  // ----- the string an argument stands for -----

  /** The argument `t`, the last of its line and with `s` behind it, is the string
      `str` and leaves `rest`: what stands between quotes; or as many bytes as were
      announced, and behind them the end of a line. */
  predicate Denotes(t: Token, s: string, str: string, rest: string, signed: bool) {
    var kind := TokenStatus(t, signed);
    if kind.Quoted? then str == CStr(t.buf[1..|t.buf| - 1]) && rest == s
    else if kind.Literal? && kind.len == 0 then str == "" && rest == s
    else
      && kind.Literal? && Taken(kind.len) <= |s| && str == CStr(s[..Taken(kind.len)])
      && match ScanLine(s[Taken(kind.len)..], None, POP3, 0)
         case LineStarved => false
         case Line(q, after) => |q| == 1 && q[0].buf == "" && after == rest
  }

  /** The input ends within a literal or its line. */
  predicate Breaks(t: Token, s: string, signed: bool) {
    var kind := TokenStatus(t, signed);
    kind.Literal? && kind.len > 0
    && (Taken(kind.len) > |s| || ScanLine(s[Taken(kind.len)..], None, POP3, 0).LineStarved?)
  }

  lemma ArgumentMeaning(t: Token, s: string, str: string, rest: string, signed: bool)
    ensures var (w, rest') := Wrap([t], s, signed);
            && (Denotes(t, s, str, rest, signed) <==> Usable(w) && w.str == str && rest' == rest)
            && (Breaks(t, s, signed) <==> w == BROKEN)
  {
    hide ScanToken, ScanLine, IsAtom, IsQuoted, Strtoul, CStr;
    assert [t][1..] == [];
    var kind := TokenStatus(t, signed);
    if kind.Literal? && kind.len > 0 {
      LiteralMeaning(kind, s);
      var k := Taken(kind.len);
      if k <= |s| && ScanLine(s[k..], None, POP3, 0).Line? {
        var q := ScanLine(s[k..], None, POP3, 0).q;
        assert q[1..] == [] <==> |q| == 1;
      }
    }
  }

  lemma LiteralMeaning(kind: Kind, s: string)
    requires kind.Literal? && kind.len > 0
    ensures var k := Taken(kind.len);
            WrapLiteral(kind, s) ==
              if |s| < k then (Wrapped.Failed(-2), "")
              else match ScanLine(s[k..], None, POP3, 0)
                case LineStarved => (Wrapped.Failed(-2), "")
                case Line(q, after) =>
                  if q[0].buf != "" then (Wrapped.Failed(-1), after) else (Wrapped(kind, CStr(s[..k]), q[1..]), after)
  {
    hide ScanToken, ScanLine, CStr;
    LiteralCuts(s, "", kind.len);
    assert |s| >= Taken(kind.len) ==> "" + s[..Taken(kind.len)] == s[..Taken(kind.len)];
  }

  // ----- commands -----

  lemma CommandsDiffer(t: Token)
    ensures Is(t, "AUTHENTICATE") ==> |t.buf| == 12
    ensures Is(t, "CAPABILITY") ==> |t.buf| == 10
    ensures Is(t, "LOGOUT") ==> |t.buf| == 6
    ensures Is(t, "NOOP") ==> |t.buf| == 4
    ensures Is(t, "STARTTLS") ==> |t.buf| == 8
  {
  }

  /** The line AUTHENTICATE "PLAIN" with one argument. */
  predicate SaslLine(q: seq<Token>) {
    |q| == 3 && Is(q[0], "AUTHENTICATE") && Is(q[1], "\"PLAIN\"")
  }

  /** The line NOOP with one argument. */
  predicate NoopLine(q: seq<Token>) {
    |q| == 2 && Is(q[0], "NOOP")
  }

  /** The command line `q`, with `s` behind it, logs in: it is AUTHENTICATE "PLAIN"
      with a challenge that decodes to `auth`. */
  ghost predicate LogsIn(q: seq<Token>, s: string, lib: Library, auth: Auth, rest: string) {
    && SaslLine(q)
    && exists challenge :: Denotes(q[2], s, challenge, rest, lib.signed) && lib.decode(challenge) == Valid(auth)
  }

  /** A command that ends the loop otherwise: LOGOUT, STARTTLS where it is on offer and
      not in use, and an argument the input breaks off. */
  predicate Leaves(q: seq<Token>, s: string, listen: bool, ssl: bool, lib: Library) {
    || (|q| == 1 && Is(q[0], "LOGOUT"))
    || (|q| == 1 && Is(q[0], "STARTTLS") && listen && !ssl)
    || (SaslLine(q) && Breaks(q[2], s, lib.signed))
    || (NoopLine(q) && Breaks(q[1], s, lib.signed))
  }

  ghost predicate Ends(q: seq<Token>, s: string, listen: bool, ssl: bool, lib: Library) {
    Leaves(q, s, listen, ssl, lib) || exists auth, rest :: LogsIn(q, s, lib, auth, rest)
  }

  /** What the command line `q` leaves of `s`: all of it, but for an argument read on. */
  function Unread(q: seq<Token>, s: string, lib: Library): string {
    if SaslLine(q) then Wrap([q[2]], s, lib.signed).1
    else if NoopLine(q) then Wrap([q[1]], s, lib.signed).1
    else s
  }

  lemma SaslMeaning(t: Token, s: string, lib: Library, auth: Auth, rest: string)
    ensures var step := SaslPlain([t], s, lib);
            && (step.answer == Some(LoggedIn(auth, "")) && step.rest == rest <==>
                  exists challenge ::
                    Denotes(t, s, challenge, rest, lib.signed) && lib.decode(challenge) == Valid(auth))
            && (step.answer.Some? && !step.answer.value.LoggedIn? <==> Breaks(t, s, lib.signed))
            && step.rest == Wrap([t], s, lib.signed).1
            && (step.answer.Some? && step.answer.value.LoggedIn? ==> step.answer.value.tag == "")
  {
    hide Wrap, Denotes, Breaks, No;
    var (w, rest') := Wrap([t], s, lib.signed);
    var step := SaslPlain([t], s, lib);
    ArgumentMeaning(t, s, "", rest, lib.signed);
    if Usable(w) {
      ArgumentMeaning(t, s, w.str, rest', lib.signed);
    }
    if challenge :| Denotes(t, s, challenge, rest, lib.signed) && lib.decode(challenge) == Valid(auth) {
      ArgumentMeaning(t, s, challenge, rest, lib.signed);
    }
  }

  lemma NoopMeaning(q: seq<Token>, s: string, lib: Library)
    ensures var step := Noop(q, s, lib);
            && (step.answer.Some? ==> !step.answer.value.LoggedIn?)
            && (step.answer.Some? <==> |q| == 1 && Breaks(q[0], s, lib.signed))
            && step.rest == if |q| == 1 then Wrap([q[0]], s, lib.signed).1 else s
  {
    hide Wrap, Breaks, Ok, No;
    if |q| == 1 {
      assert q == [q[0]];
      ArgumentMeaning(q[0], s, "", "", lib.signed);
    }
  }

  lemma SaslTurn(q: seq<Token>, s: string, listen: bool, ssl: bool, capability: string, lib: Library, auth: Auth,
                 rest: string)
    requires SaslLine(q)
    ensures var step := Act(q[0], q[1..], s, listen, ssl, capability, lib);
            && (step.answer == Some(LoggedIn(auth, "")) && step.rest == rest <==> LogsIn(q, s, lib, auth, rest))
            && (step.answer.None? <==> !Ends(q, s, listen, ssl, lib))
            && step.rest == Unread(q, s, lib)
  {
    hide SaslPlain, Noop, Bare, Wrap, Denotes, Breaks, Is, Ok, No, CapabilityMessage;
    var args := q[1..];
    var step := SaslPlain([q[2]], s, lib);
    CommandsDiffer(q[0]);
    assert args[1..] == [q[2]] && args[0] == q[1];
    assert Act(q[0], args, s, listen, ssl, capability, lib) == step;
    SaslMeaning(q[2], s, lib, auth, rest);
    if step.answer.Some? && step.answer.value.LoggedIn? {
      var a := step.answer.value.auth;
      SaslMeaning(q[2], s, lib, a, step.rest);
      assert LogsIn(q, s, lib, a, step.rest);
    }
    forall a, r ensures LogsIn(q, s, lib, a, r) ==> step.answer == Some(LoggedIn(a, "")) {
      SaslMeaning(q[2], s, lib, a, r);
    }
  }

  lemma OtherTurn(q: seq<Token>, s: string, listen: bool, ssl: bool, capability: string, lib: Library)
    requires q != [] && !SaslLine(q)
    ensures var step := Act(q[0], q[1..], s, listen, ssl, capability, lib);
            && (step.answer.Some? ==> !step.answer.value.LoggedIn?)
            && (step.answer.None? <==> !Leaves(q, s, listen, ssl, lib))
            && step.rest == Unread(q, s, lib)
  {
    hide Authenticate, Noop, Wrap, Breaks, Is, Ok, No, CapabilityMessage;
    var args := q[1..];
    CommandsDiffer(q[0]);
    assert |q| == 1 <==> args == [];
    NoopMeaning(args, s, lib);
    if Is(q[0], "AUTHENTICATE") {
      WrongSasl(args, s, lib);
    }
  }

  lemma NoChallenge(s: string, lib: Library)
    ensures SaslPlain([], s, lib).answer.None? && SaslPlain([], s, lib).rest == s
  {
    hide Wrap, No;
  }

  lemma WrongSasl(q: seq<Token>, s: string, lib: Library)
    requires !(|q| == 2 && Is(q[0], "\"PLAIN\""))
    ensures Authenticate(q, s, lib).answer.None? && Authenticate(q, s, lib).rest == s
  {
    hide SaslPlain, Is, No;
    if |q| == 1 {
      assert q[1..] == [];
      NoChallenge(s, lib);
    }
  }

  /** One turn: it logs in exactly when the line is an AUTHENTICATE "PLAIN" whose
      challenge decodes, and goes on exactly when the line ends nothing. */
  lemma ActMeaning(q: seq<Token>, s: string, listen: bool, ssl: bool, capability: string, lib: Library, auth: Auth,
                   rest: string)
    requires q != []
    ensures var step := Act(q[0], q[1..], s, listen, ssl, capability, lib);
            && (step.answer == Some(LoggedIn(auth, "")) && step.rest == rest <==> LogsIn(q, s, lib, auth, rest))
            && (step.answer.None? <==> !Ends(q, s, listen, ssl, lib))
            && step.rest == Unread(q, s, lib)
  {
    hide Act, SaslLine, Leaves, Unread;
    if SaslLine(q) {
      SaslTurn(q, s, listen, ssl, capability, lib, auth, rest);
    } else {
      OtherTurn(q, s, listen, ssl, capability, lib);
    }
  }

  // ----- the loop -----

  /** `k` commands are read from `s`, none of which ends the loop, and leave `mid`. */
  ghost predicate Passes(s: string, k: nat, mid: string, listen: bool, ssl: bool, lib: Library)
    decreases k
  {
    if k == 0 then s == mid
    else match ScanLine(s, None, IMAP4, 0)
      case LineStarved => false
      case Line(q, after) =>
        !Ends(q, after, listen, ssl, lib) && Passes(Unread(q, after, lib), k - 1, mid, listen, ssl, lib)
  }

  /** After `k` commands that ended nothing comes a line that logs in. */
  ghost predicate LoginIn(s: string, k: nat, mid: string, listen: bool, ssl: bool, lib: Library, auth: Auth,
                          rest: string) {
    && Passes(s, k, mid, listen, ssl, lib)
    && match ScanLine(mid, None, IMAP4, 0)
       case LineStarved => false
       case Line(q, after) => LogsIn(q, after, lib, auth, rest)
  }

  lemma LoginInStep(s: string, k: nat, mid: string, listen: bool, ssl: bool, lib: Library, auth: Auth, rest: string,
                    q: seq<Token>, after: string)
    requires k > 0 && ScanLine(s, None, IMAP4, 0) == Line(q, after)
    ensures LoginIn(s, k, mid, listen, ssl, lib, auth, rest) <==>
              && !Ends(q, after, listen, ssl, lib)
              && LoginIn(Unread(q, after, lib), k - 1, mid, listen, ssl, lib, auth, rest)
  {
    hide ScanLine, Ends, LogsIn, Unread;
  }

  lemma {:induction false} AnswerReads(s: string, listen: bool, ssl: bool, capability: string, lib: Library,
                                       auth: Auth, rest: string)
    returns (k: nat, mid: string)
    requires var run := LoopRun(s, listen, ssl, capability, lib);
             run.answer == LoggedIn(auth, "") && run.rest == rest
    ensures LoginIn(s, k, mid, listen, ssl, lib, auth, rest)
    decreases |s|
  {
    hide LoopRun, ScanLine, ScanToken, Act, Ends, LogsIn, Unread;
    LoopStep(s, listen, ssl, capability, lib);
    var Line(q, after) := ScanLine(s, None, IMAP4, 0);
    ActMeaning(q, after, listen, ssl, capability, lib, auth, rest);
    if Act(q[0], q[1..], after, listen, ssl, capability, lib).answer.None? {
      k, mid := AnswerReads(Unread(q, after, lib), listen, ssl, capability, lib, auth, rest);
      k := k + 1;
      LoginInStep(s, k, mid, listen, ssl, lib, auth, rest, q, after);
    } else {
      k, mid := 0, s;
    }
  }

  /** Commands that end nothing have no bearing on what comes after them. */
  lemma {:induction false} NothingBefore(s: string, k: nat, mid: string, listen: bool, ssl: bool, capability: string,
                                         lib: Library)
    requires Passes(s, k, mid, listen, ssl, lib)
    ensures LoopRun(s, listen, ssl, capability, lib).answer == LoopRun(mid, listen, ssl, capability, lib).answer
    ensures LoopRun(s, listen, ssl, capability, lib).rest == LoopRun(mid, listen, ssl, capability, lib).rest
    decreases k
  {
    hide LoopRun, ScanLine, ScanToken, Act, Ends, LogsIn, Unread;
    if k > 0 {
      LoopStep(s, listen, ssl, capability, lib);
      var Line(q, after) := ScanLine(s, None, IMAP4, 0);
      ActMeaning(q, after, listen, ssl, capability, lib, Auth(None, "", ""), "");
      NothingBefore(Unread(q, after, lib), k - 1, mid, listen, ssl, capability, lib);
    }
  }

  /** A call logs in exactly when some command of it is an AUTHENTICATE "PLAIN" whose
      challenge decodes to the credentials and no command before it ended the loop;
      what was said, refused or asked before that has no part in them. */
  lemma GetAuthMeaning(s: string, listen: bool, ssl: bool, active: bool, capability: string, lib: Library, auth: Auth,
                       rest: string)
    ensures var run := GetAuthRun(s, listen, ssl, active, capability, lib);
            run.answer == LoggedIn(auth, "") && run.rest == rest <==>
              exists k: nat, mid :: LoginIn(s, k, mid, listen, ssl, lib, auth, rest)
  {
    hide LoopRun, ScanLine, ScanToken, Act, Ends, LogsIn, Passes, CapabilityMessage;
    var run := LoopRun(s, listen, ssl, capability, lib);
    if run.answer == LoggedIn(auth, "") && run.rest == rest {
      var k, mid := AnswerReads(s, listen, ssl, capability, lib, auth, rest);
    }
    if k: nat, mid :| LoginIn(s, k, mid, listen, ssl, lib, auth, rest) {
      NothingBefore(s, k, mid, listen, ssl, capability, lib);
      LoopStep(mid, listen, ssl, capability, lib);
      var Line(q, after) := ScanLine(mid, None, IMAP4, 0);
      ActMeaning(q, after, listen, ssl, capability, lib, auth, rest);
    }
  }
}
