/** pop3_in.c: the command loop that gathers USER and PASS. */
module Pop3In {
  import opened ClientAuth
  import opened Delimiters
  import opened Lines
  import opened Offers
  import opened Text
  import opened Tokenizer

  /** What one command line leads to. */
  datatype Turn = Again(name: Option<string>) | Login(user: string, passwd: string) | Quit | StartTls

  /** A turn, and the reply written to the client. */
  datatype Step = Step(turn: Turn, said: string)

  function Ok(text: string): string { "+OK " + text + CRLF }
  function Err(text: string): string { "-ERR " + text + CRLF }

  function Invalid(listen: bool, ssl: bool, reason: string): string {
    Err("Mate, " + reason + "must be one of " + (if listen && !ssl then "STLS, " else "") + "CAPA, USER, PASS or QUIT")
  }

  /** One turn of the loop: `name` is the user named so far, `capability` the reply
      to CAPA, `listen` whether TLS is offered to clients. */
  function Act(q: seq<Token>, name: Option<string>, listen: bool, ssl: bool, capability: string): Step
    requires q != []
  {
    var t, args := q[0], q[1..];
    if t.buf == "" then Step(Again(name), Err("Null command, mate"))
    else if |t.buf| != 4 then Step(Again(name), Invalid(listen, ssl, "the command is too short, "))
    else if Is(t, "CAPA") then
      if args != [] then Step(Again(name), Err("Mate, try: CAPA"))
      else Step(Again(name), "+OK Capability list follows, mate" + CRLF + capability)
    else if listen && Is(t, "STLS") then
      if args != [] then Step(Again(name), Err("Mate, try: STLS"))
      else if ssl then Step(Again(name), Err("TLS already active, mate"))
      else Step(StartTls, Ok("Begin TLS negotiation, mate"))
    else if Is(t, "USER") then
      if |args| != 1 || args[0].buf == "" then Step(Again(name), Err("Mate, try: USER <username>"))
      else Step(Again(Some(args[0].buf)), Ok("USER " + args[0].buf + " set, mate"))
    else if Is(t, "PASS") then
      if name.None? then Step(Again(name), Err("USER not yet set, mate"))
      else if args == [] then Step(Again(name), Err("Mate, try: PASS <password>"))
      else Step(Login(name.value, Printed(args)), "")
    else if Is(t, "QUIT") then
      if args != [] then Step(Again(name), Err("Mate, try: QUIT")) else Step(Quit, Ok("QUIT"))
    else Step(Again(name), Invalid(listen, ssl, "the command "))
  }

  function Final(turn: Turn): Answer
    requires !turn.Again?
  {
    match turn
    case Login(user, passwd) => LoggedIn(Auth(None, user, passwd), "")
    case Quit => Quitted
    case StartTls => Upgrade
  }

  function GetAuthRun(s: string, name: Option<string>, listen: bool, ssl: bool, capability: string): Run
    decreases |s|
  {
    match ScanLine(s, None, POP3, 0)
    case LineStarved => Run(Failed, "", "")
    case Line(q, rest) =>
      var step := Act(q, name, listen, ssl, capability);
      if step.turn.Again? then Said(step.said, GetAuthRun(rest, step.turn.name, listen, ssl, capability))
      else Run(Final(step.turn), rest, step.said)
  }

  /** What the loop still does after a turn, the input now at `rest`. */
  function After(turn: Turn, said: string, rest: string, listen: bool, ssl: bool, capability: string): Run {
    if turn.Again? then Said(said, GetAuthRun(rest, turn.name, listen, ssl, capability))
    else Run(Final(turn), rest, said)
  }

  lemma GetAuthStep(s: string, name: Option<string>, listen: bool, ssl: bool, capability: string)
    ensures ScanLine(s, None, POP3, 0).LineStarved? ==>
              GetAuthRun(s, name, listen, ssl, capability) == Run(Failed, "", "")
    ensures forall q, rest | ScanLine(s, None, POP3, 0) == Line(q, rest) ::
              var step := Act(q, name, listen, ssl, capability);
              GetAuthRun(s, name, listen, ssl, capability) == After(step.turn, step.said, rest, listen, ssl, capability)
  {
  }

  /** One turn of the loop, performed. */
  method Turns(tb: TokenBuffer, io: Io, name: Option<string>, listen: bool, capability: string)
    returns (turn: Option<Turn>, ghost said: string)
    requires tb.Valid()
    modifies tb, tb.data, io`chunks, io`sent
    ensures tb.Valid() && io.sent == old(io.sent) + said
    ensures var run := GetAuthRun(old(tb.Stream(io)), name, listen, io.ssl, capability);
            match turn
            case None => run == Run(Failed, "", "") && said == "" && tb.Stream(io) == ""
            case Some(t) => run == After(t, said, tb.Stream(io), listen, io.ssl, capability)
    ensures turn.Some? ==> |tb.Stream(io)| < |old(tb.Stream(io))|
  {
    hide GetAuthRun, ScanToken, ScanLine, Act;
    said := "";
    GetAuthStep(tb.Stream(io), name, listen, io.ssl, capability);
    var q := tb.Line(io, POP3);
    if q.None? {
      return None, said;
    }
    var step := Act(q.value, name, listen, io.ssl, capability);
    ghost var stream := tb.Stream(io);
    io.Write(step.said);
    assert tb.Stream(io) == stream;
    return Some(step.turn), step.said;
  }

  /** pop3_in_get_auth, once the capability has been made. */
  method Loop(tb: TokenBuffer, io: Io, listen: bool, capability: string) returns (answer: Answer)
    requires tb.Valid()
    modifies tb, tb.data, io`chunks, io`sent
    ensures tb.Valid()
    ensures var run := GetAuthRun(old(tb.Stream(io)), None, listen, io.ssl, capability);
            answer == run.answer && tb.Stream(io) == run.rest && io.sent == old(io.sent) + run.said
  {
    hide GetAuthRun, ScanToken, ScanLine;
    var name: Option<string> := None;
    ghost var total := "";
    SaidTwice("", "", GetAuthRun(tb.Stream(io), None, listen, io.ssl, capability));
    while true
      invariant tb.Valid() && io.sent == old(io.sent) + total
      invariant GetAuthRun(old(tb.Stream(io)), None, listen, io.ssl, capability) ==
                  Said(total, GetAuthRun(tb.Stream(io), name, listen, io.ssl, capability))
      decreases |tb.Stream(io)|
    {
      var turn, said := Turns(tb, io, name, listen, capability);
      if turn.None? {
        return Failed;
      }
      if !turn.value.Again? {
        return Final(turn.value);
      }
      name := turn.value.name;
      SaidTwice(total, said, GetAuthRun(tb.Stream(io), name, listen, io.ssl, capability));
      total := total + said;
    }
  }

  /** pop3_in_get_auth; `active` is the listen bit of tls_state. */
  method GetAuth(tb: TokenBuffer, io: Io, configured: string, listen: bool, active: bool) returns (answer: Answer)
    requires tb.Valid() && Pop3Configured(configured, listen && !active)
    modifies tb, tb.data, io`chunks, io`sent
    ensures tb.Valid()
    ensures var run := GetAuthRun(old(tb.Stream(io)), None, listen, io.ssl, Pop3Reply(configured, listen && !active));
            answer == run.answer && tb.Stream(io) == run.rest && io.sent == old(io.sent) + run.said
  {
    hide GetAuthRun;
    var capability := Pop3Capability(configured, listen, active);
    answer := Loop(tb, io, listen, capability);
  }

  // ----- what the loop means, said of the lines it reads -----

  /** The first `k` lines of `s`, tokenized, and what follows them. */
  function ReadLines(s: string, k: nat): (r: Option<(seq<seq<Token>>, string)>)
    ensures r.Some? ==> |r.value.0| == k && forall i | 0 <= i < k :: r.value.0[i] != []
    decreases k
  {
    if k == 0 then Some(([], s))
    else match ScanLine(s, None, POP3, 0)
      case LineStarved => None
      case Line(q, rest) =>
        var more := ReadLines(rest, k - 1);
        if more.None? then None else Some(([q] + more.value.0, more.value.1))
  }

  /** A USER command that is obeyed. */
  predicate NamesUser(q: seq<Token>) {
    |q| == 2 && Is(q[0], "USER") && q[1].buf != ""
  }

  /** A command that ends the loop, once `named` says a user has been named. */
  predicate Ends(q: seq<Token>, named: bool, listen: bool, ssl: bool) {
    || (|q| > 1 && Is(q[0], "PASS") && named)
    || (|q| == 1 && Is(q[0], "QUIT"))
    || (|q| == 1 && Is(q[0], "STLS") && listen && !ssl)
  }

  /** The user named by line `i`, and by no later line. */
  ghost predicate LastNamed(qs: seq<seq<Token>>, i: nat, user: string) {
    && i < |qs| && NamesUser(qs[i]) && qs[i][1].buf == user
    && forall j | i < j < |qs| :: !NamesUser(qs[j])
  }

  ghost predicate Named(qs: seq<seq<Token>>, name: Option<string>) {
    name.Some? || exists i | 0 <= i < |qs| :: NamesUser(qs[i])
  }

  /** Which user the lines `qs` leave named. */
  ghost predicate LeavesNamed(qs: seq<seq<Token>>, name: Option<string>, user: string) {
    (exists i: nat :: LastNamed(qs, i, user)) || (!Named(qs, None) && name == Some(user))
  }

  /** The lines `qs`, starting with `name` named, log in as `user` with `passwd`:
      only the last of them ends the loop, it is a PASS, and `user` is the argument
      of the last obeyed USER before it. */
  ghost predicate LogsIn(qs: seq<seq<Token>>, name: Option<string>, user: string, passwd: string, listen: bool,
                         ssl: bool) {
    var n := |qs| - 1;
    && n >= 0 && |qs[n]| > 1 && Is(qs[n][0], "PASS") && passwd == Printed(qs[n][1..])
    && (forall j | 0 <= j < n :: !Ends(qs[j], Named(qs[..j], name), listen, ssl))
    && LeavesNamed(qs[..n], name, user)
  }

  /** The user named after line `q`. */
  function NameAfter(q: seq<Token>, name: Option<string>): Option<string> {
    if NamesUser(q) then Some(q[1].buf) else name
  }

  lemma NamedStep(qs: seq<seq<Token>>, name: Option<string>)
    requires qs != []
    ensures Named(qs, name) <==> Named(qs[1..], NameAfter(qs[0], name))
  {
    if i :| 0 <= i < |qs[1..]| && NamesUser(qs[1..][i]) {
      assert NamesUser(qs[i + 1]);
    }
    if i :| 0 < i < |qs| && NamesUser(qs[i]) {
      assert NamesUser(qs[1..][i - 1]);
    }
  }

  lemma LeavesNamedStep(qs: seq<seq<Token>>, name: Option<string>, user: string)
    requires qs != []
    ensures LeavesNamed(qs, name, user) <==> LeavesNamed(qs[1..], NameAfter(qs[0], name), user)
  {
    var more := qs[1..];
    NamedStep(qs, None);
    if i: nat :| LastNamed(qs, i, user) {
      forall j | 0 <= j < |more| ensures more[j] == qs[j + 1] { }
      if i > 0 {
        assert LastNamed(more, i - 1, user);
      }
    }
    if i: nat :| LastNamed(more, i, user) {
      forall j | 0 < j < |qs| ensures qs[j] == more[j - 1] { }
      assert LastNamed(qs, i + 1, user);
    }
    if !Named(more, None) && NamesUser(qs[0]) && qs[0][1].buf == user {
      forall j | 0 < j < |qs| ensures !NamesUser(qs[j]) { assert qs[j] == more[j - 1]; }
      assert LastNamed(qs, 0, user);
    }
  }

  lemma LogsInOne(q: seq<Token>, name: Option<string>, user: string, passwd: string, listen: bool, ssl: bool)
    ensures LogsIn([q], name, user, passwd, listen, ssl) <==>
              |q| > 1 && Is(q[0], "PASS") && name == Some(user) && passwd == Printed(q[1..])
  {
    assert [q][..0] == [];
  }

  lemma LogsInMore(qs: seq<seq<Token>>, name: Option<string>, user: string, passwd: string, listen: bool, ssl: bool)
    requires |qs| > 1
    ensures LogsIn(qs, name, user, passwd, listen, ssl) <==>
              !Ends(qs[0], name.Some?, listen, ssl) &&
              LogsIn(qs[1..], NameAfter(qs[0], name), user, passwd, listen, ssl)
  {
    hide Ends, LeavesNamed, Printed;
    var more, n, name' := qs[1..], |qs| - 1, NameAfter(qs[0], name);
    assert qs[..n][1..] == more[..n - 1];
    LeavesNamedStep(qs[..n], name, user);
    forall j | 0 <= j < n
      ensures Named(qs[..j], name) <==> if j == 0 then name.Some? else Named(more[..j - 1], name')
      ensures j > 0 ==> qs[j] == more[j - 1]
    {
      if j > 0 {
        NamedStep(qs[..j], name);
        assert qs[..j][1..] == more[..j - 1];
      }
    }
    forall j | 0 <= j < n - 1
      ensures Named(more[..j], name') <==> Named(qs[..j + 1], name)
    {
    }
    assert more[n - 1] == qs[n];
  }

  lemma CommandsDiffer(t: Token)
    ensures Is(t, "CAPA") || Is(t, "STLS") || Is(t, "USER") || Is(t, "PASS") || Is(t, "QUIT") ==> |t.buf| == 4
    ensures Is(t, "CAPA") ==> !Is(t, "STLS") && !Is(t, "USER") && !Is(t, "PASS") && !Is(t, "QUIT")
    ensures Is(t, "STLS") ==> !Is(t, "USER") && !Is(t, "PASS") && !Is(t, "QUIT")
    ensures Is(t, "USER") ==> !Is(t, "PASS") && !Is(t, "QUIT")
    ensures Is(t, "PASS") ==> !Is(t, "QUIT")
  {
    if |t.buf| == 4 {
      assert ToUpper('C') == 'C' && ToUpper('S') == 'S' && ToUpper('U') == 'U';
      assert ToUpper('P') == 'P' && ToUpper('Q') == 'Q';
      assert forall w: string | |w| == 4 && Is(t, w) :: ToUpper(t.buf[0]) == ToUpper(w[0]);
    }
  }

  /** The turn of the loop: it goes on exactly when the line does not end it. */
  lemma ActMeaning(q: seq<Token>, name: Option<string>, listen: bool, ssl: bool, capability: string)
    requires q != []
    ensures var turn := Act(q, name, listen, ssl, capability).turn;
            && (turn.Again? <==> !Ends(q, name.Some?, listen, ssl))
            && (turn.Again? ==> turn.name == NameAfter(q, name))
            && (forall user, passwd :: turn == Login(user, passwd) <==>
                  |q| > 1 && Is(q[0], "PASS") && name == Some(user) && passwd == Printed(q[1..]))
  {
    hide Printed, Is;
    CommandsDiffer(q[0]);
    assert |q| == 1 <==> q[1..] == [];
  }

  /** Reading `k` lines of `s` logs in and leaves `rest`. */
  ghost predicate LoginIn(s: string, k: nat, name: Option<string>, user: string, passwd: string, rest: string,
                          listen: bool, ssl: bool)
  {
    var r := ReadLines(s, k);
    r.Some? && r.value.1 == rest && LogsIn(r.value.0, name, user, passwd, listen, ssl)
  }

  lemma LoginInStep(s: string, k: nat, name: Option<string>, user: string, passwd: string, rest: string,
                    listen: bool, ssl: bool, q: seq<Token>, after: string)
    requires k > 0 && ScanLine(s, None, POP3, 0) == Line(q, after)
    ensures LoginIn(s, k, name, user, passwd, rest, listen, ssl) <==>
              if k == 1 then
                && after == rest && |q| > 1 && Is(q[0], "PASS")
                && name == Some(user) && passwd == Printed(q[1..])
              else
                && !Ends(q, name.Some?, listen, ssl)
                && LoginIn(after, k - 1, NameAfter(q, name), user, passwd, rest, listen, ssl)
  {
    hide ScanLine, Ends, LogsIn, Printed;
    LogsInOne(q, name, user, passwd, listen, ssl);
    if k > 1 {
      var more := ReadLines(after, k - 1);
      if more.Some? {
        assert ([q] + more.value.0)[1..] == more.value.0;
        LogsInMore([q] + more.value.0, name, user, passwd, listen, ssl);
      }
    } else {
      assert ReadLines(s, 1).value.0 == [q];
    }
  }

  lemma {:induction false} AnswerReads(s: string, name: Option<string>, user: string, passwd: string, rest: string,
                                       listen: bool, ssl: bool, capability: string)
    returns (k: nat)
    requires var run := GetAuthRun(s, name, listen, ssl, capability);
             run.answer == LoggedIn(Auth(None, user, passwd), "") && run.rest == rest
    ensures LoginIn(s, k, name, user, passwd, rest, listen, ssl)
    decreases |s|
  {
    hide GetAuthRun, ScanLine, ScanToken, LoginIn, Act, Ends, Printed;
    GetAuthStep(s, name, listen, ssl, capability);
    var Line(q, after) := ScanLine(s, None, POP3, 0);
    ActMeaning(q, name, listen, ssl, capability);
    var turn := Act(q, name, listen, ssl, capability).turn;
    k := 0;
    if turn.Again? {
      k := AnswerReads(after, turn.name, user, passwd, rest, listen, ssl, capability);
      LoginNeedsLine(after, turn.name, user, passwd, rest, listen, ssl);
    }
    k := k + 1;
    LoginInStep(s, k, name, user, passwd, rest, listen, ssl, q, after);
  }

  lemma LoginNeedsLine(s: string, name: Option<string>, user: string, passwd: string, rest: string, listen: bool,
                       ssl: bool)
    ensures !LoginIn(s, 0, name, user, passwd, rest, listen, ssl)
  {
  }

  lemma {:induction false} ReadsAnswer(s: string, k: nat, name: Option<string>, user: string, passwd: string,
                                       rest: string,
                                       listen: bool, ssl: bool, capability: string)
    requires LoginIn(s, k, name, user, passwd, rest, listen, ssl)
    ensures var run := GetAuthRun(s, name, listen, ssl, capability);
            run.answer == LoggedIn(Auth(None, user, passwd), "") && run.rest == rest
    decreases k
  {
    LoginNeedsLine(s, name, user, passwd, rest, listen, ssl);
    assert ScanLine(s, None, POP3, 0).Line?;
    hide GetAuthRun, ScanLine, ScanToken, LoginIn, Act, Ends, Printed;
    GetAuthStep(s, name, listen, ssl, capability);
    var Line(q, after) := ScanLine(s, None, POP3, 0);
    ActMeaning(q, name, listen, ssl, capability);
    LoginInStep(s, k, name, user, passwd, rest, listen, ssl, q, after);
    if k > 1 {
      ReadsAnswer(after, k - 1, NameAfter(q, name), user, passwd, rest, listen, ssl, capability);
    }
  }

  /** A call logs in exactly when some line of it is a PASS with text, an obeyed USER
      came before it in the same call, and no earlier line ended the loop; and then
      the user is the argument of the last obeyed USER, and the password the text
      printed from that PASS line. Whatever else the client sent between them is of
      no account, and nothing sent before the call is. */
  lemma GetAuthMeaning(s: string, user: string, passwd: string, rest: string, listen: bool, ssl: bool,
                       capability: string)
    ensures var run := GetAuthRun(s, None, listen, ssl, capability);
            (run.answer == LoggedIn(Auth(None, user, passwd), "") && run.rest == rest) <==>
              exists k: nat :: LoginIn(s, k, None, user, passwd, rest, listen, ssl)
  {
    hide GetAuthRun, LoginIn;
    var run := GetAuthRun(s, None, listen, ssl, capability);
    if run.answer == LoggedIn(Auth(None, user, passwd), "") && run.rest == rest {
      var k := AnswerReads(s, None, user, passwd, rest, listen, ssl, capability);
    }
    if k: nat :| LoginIn(s, k, None, user, passwd, rest, listen, ssl) {
      ReadsAnswer(s, k, None, user, passwd, rest, listen, ssl, capability);
    }
  }

  /** TLS is begun only when it is on offer and not yet in use; and an answer takes at
      least a line. */
  lemma {:induction false} UpgradeOnlyInClear(s: string, name: Option<string>, listen: bool, ssl: bool,
                                              capability: string)
    ensures GetAuthRun(s, name, listen, ssl, capability).answer == Upgrade ==> listen && !ssl
    ensures !GetAuthRun(s, name, listen, ssl, capability).answer.Failed? ==>
              |GetAuthRun(s, name, listen, ssl, capability).rest| < |s|
    decreases |s|
  {
    hide ScanLine, ScanToken, Printed;
    GetAuthStep(s, name, listen, ssl, capability);
    match ScanLine(s, None, POP3, 0)
    case LineStarved =>
    case Line(q, rest) =>
      var turn := Act(q, name, listen, ssl, capability).turn;
      if turn.Again? {
        UpgradeOnlyInClear(rest, turn.name, listen, ssl, capability);
      }
  }
}
