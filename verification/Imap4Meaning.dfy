/** What imap4_in_get_auth means: when, over every input, it logs in, and as whom. */
module Imap4Meaning {
  import opened ClientAuth
  import opened Imap4In
  import opened ImapTag
  import opened Lines
  import opened Text
  import opened Tokenizer

  // ----- the bytes an argument stands for -----

  /** The argument `t`, with `s` behind its line, stands for `bytes` and leaves `rest`. */
  predicate Denotes(t: Token, s: string, bytes: string, rest: string) {
    match FormOf(t)
    case QuotedString => bytes == t.buf && rest == s
    case BadLiteral => false
    case Literal(n, _) => |bytes| == Taken(n) && s == bytes + rest
  }

  lemma ArgumentMeaning(t: Token, s: string, bytes: string, rest: string)
    ensures var a := WrapArgument(t, [], s);
            Denotes(t, s, bytes, rest) <==> a.t.Some? && a.t.value.buf == bytes && a.rest == rest
  {
    hide ScanToken, FormOf;
    match FormOf(t)
    case QuotedString =>
    case BadLiteral =>
    case Literal(n, _) =>
      if n > 0 {
        LiteralCuts(s, "", n);
        var k := Taken(n);
        if |s| >= k {
          assert "" + s[..k] == s[..k] && s == s[..k] + s[k..];
          assert s == bytes + rest && |bytes| == k ==> bytes == s[..k] && rest == s[k..];
        }
      }
  }

  // ----- LOGIN -----

  /** The password `t` stands for is not empty and decodes to `passwd`. */
  ghost predicate PasswordIs(t: Token, s: string, quoted: bool, passwd: string, rest: string) {
    exists bytes :: bytes != "" && Denotes(t, s, bytes, rest) && passwd == Decode(Token(bytes, Plain), quoted)
  }

  /** The arguments of a LOGIN, with `s` behind its line, are `user` and `passwd`: a
      name in the line and a password at its end; or a name in a literal, and then a
      line of a space and a password. */
  ghost predicate LoginSays(args: seq<Token>, s: string, user: string, passwd: string, rest: string) {
    if |args| == 2 then
      && FormOf(args[0]).QuotedString? && args[0].buf != ""
      && user == Decode(args[0], true) && PasswordIs(args[1], s, true, passwd, rest)
    else
      && |args| == 1 && FormOf(args[0]).Literal? && 0 < Taken(FormOf(args[0]).size) <= |s|
      && var k := Taken(FormOf(args[0]).size);
         user == CStr(s[..k]) &&
         match ScanLine(s[k..], None, IMAP4, 0)
         case LineStarved => false
         case Line(q, after) => |q| == 2 && PasswordIs(q[1], after, false, passwd, rest)
  }

  /** A LOGIN that ends the call in failure: the input ends behind a name in a literal. */
  predicate LoginBreaks(args: seq<Token>, s: string) {
    && |args| == 1 && FormOf(args[0]).Literal? && Taken(FormOf(args[0]).size) <= |s|
    && ScanLine(s[Taken(FormOf(args[0]).size)..], None, IMAP4, 0).LineStarved?
  }

  lemma DecodeForgetsFlag(t: Token, quoted: bool)
    ensures Decode(t, quoted) == Decode(Token(t.buf, Plain), quoted)
  {
  }

  lemma PasswordMeaning(tag: string, name: Token, quoted: bool, t: Token, s: string, user: string, passwd: string,
                        rest: string)
    ensures var step := LoginPassword(tag, name, quoted, [t], s);
            && (step.answer == Some(LoggedIn(Auth(None, user, passwd), tag)) && step.rest == rest <==>
                  name.buf != "" && user == Decode(name, quoted) && PasswordIs(t, s, quoted, passwd, rest))
            && step.answer != Some(Answer.Failed)
  {
    hide WrapArgument, Denotes, Decode, Say;
    var a := WrapArgument(t, [], s);
    if a.t.Some? {
      ArgumentMeaning(t, s, a.t.value.buf, a.rest);
      DecodeForgetsFlag(a.t.value, quoted);
    }
    if bytes :| bytes != "" && Denotes(t, s, bytes, rest) && passwd == Decode(Token(bytes, Plain), quoted) {
      ArgumentMeaning(t, s, bytes, rest);
    }
  }

  lemma NameMeaning(t: Token, s: string)
    requires FormOf(t).Literal?
    ensures var a, k := WrapArgument(t, [], s), Taken(FormOf(t).size);
            && (a.t.Some? <==> k <= |s|)
            && (k <= |s| ==> a.t.value.buf == s[..k] && a.rest == s[k..])
  {
    hide WrapArgument, FormOf;
    var a, k := WrapArgument(t, [], s), Taken(FormOf(t).size);
    if k <= |s| {
      assert s == s[..k] + s[k..];
      ArgumentMeaning(t, s, s[..k], s[k..]);
    } else if a.t.Some? {
      ArgumentMeaning(t, s, a.t.value.buf, a.rest);
    }
  }

  lemma LoginMeaning(tag: string, args: seq<Token>, s: string, user: string, passwd: string, rest: string)
    ensures var step := LoginCommand(tag, args, s);
            && (step.answer == Some(LoggedIn(Auth(None, user, passwd), tag)) && step.rest == rest <==>
                  LoginSays(args, s, user, passwd, rest))
            && (step.answer == Some(Answer.Failed) <==> LoginBreaks(args, s))
  {
    hide ScanLine, WrapArgument, FormOf, Decode, Say, LoginPassword, PasswordIs;
    if |args| == 2 {
      assert args[1..] == [args[1]];
      if FormOf(args[0]).QuotedString? {
        QuotedArgument(args[0], args[1..], s);
        PasswordMeaning(tag, args[0], true, args[1], s, user, passwd, rest);
      } else {
        OtherArgument(args[0], args[1..], s);
      }
    } else if |args| == 1 {
      assert args[1..] == [];
      if FormOf(args[0]).QuotedString? {
        QuotedArgument(args[0], [], s);
        NoPassword(tag, args[0], s);
      } else if FormOf(args[0]).BadLiteral? {
        OtherArgument(args[0], [], s);
      } else {
        assert args == [args[0]];
        LiteralNameMeaning(tag, args[0], s, user, passwd, rest);
      }
    }
  }

  lemma QuotedArgument(t: Token, more: seq<Token>, s: string)
    requires FormOf(t).QuotedString?
    ensures WrapArgument(t, more, s) == Argument(Some(t), s, "")
  {
  }

  lemma OtherArgument(t: Token, more: seq<Token>, s: string)
    requires FormOf(t).BadLiteral? || (FormOf(t).Literal? && more != [])
    ensures WrapArgument(t, more, s) == Argument(None, s, "")
  {
  }

  lemma NoPassword(tag: string, name: Token, s: string)
    ensures LoginPassword(tag, name, true, [], s).answer.None?
  {
  }

  lemma LiteralNameMeaning(tag: string, t: Token, s: string, user: string, passwd: string, rest: string)
    requires FormOf(t).Literal?
    ensures var step := LoginCommand(tag, [t], s);
            && (step.answer == Some(LoggedIn(Auth(None, user, passwd), tag)) && step.rest == rest <==>
                  LoginSays([t], s, user, passwd, rest))
            && (step.answer == Some(Answer.Failed) <==> LoginBreaks([t], s))
  {
    hide ScanLine, WrapArgument, FormOf, Say, LoginPassword, PasswordIs;
    NameMeaning(t, s);
    assert [t][1..] == [];
    var k := Taken(FormOf(t).size);
    if k <= |s| {
      match ScanLine(s[k..], None, IMAP4, 0)
      case LineStarved =>
      case Line(q, after) =>
        if |q| == 2 {
          assert q[1..] == [q[1]];
          var name := WrapArgument(t, [], s).t.value;
          PasswordMeaning(tag, name, false, q[1], after, user, passwd, rest);
        }
    }
  }

  // ----- the loop -----

  lemma CommandsDiffer(t: Token)
    ensures Is(t, "NOOP") ==> |t.buf| == 4
    ensures Is(t, "STARTTLS") ==> |t.buf| == 8
    ensures Is(t, "CAPABILITY") ==> |t.buf| == 10
    ensures Is(t, "AUTHENTICATE") ==> |t.buf| == 12
    ensures Is(t, "LOGOUT") ==> |t.buf| == 6
    ensures Is(t, "LOGIN") ==> |t.buf| == 5
  {
  }

  /** A line that is a command: a valid tag, and something behind it. */
  predicate Tagged(q: seq<Token>) {
    q != [] && ValidTag(q[0].buf) && !q[0].IsEol()
  }

  /** The command line `q`, with `s` behind it, logs in. */
  ghost predicate LogsIn(q: seq<Token>, s: string, tag: string, user: string, passwd: string, rest: string) {
    Tagged(q) && |q| > 1 && q[0].buf == tag && Is(q[1], "LOGIN") && LoginSays(q[2..], s, user, passwd, rest)
  }

  /** A command that ends the loop otherwise: a tag that fills the buffer, STARTTLS
      where it is on offer and not in use, LOGOUT, and a LOGIN the input breaks off. */
  predicate Leaves(q: seq<Token>, s: string, listen: bool, ssl: bool) {
    Tagged(q) &&
    (|q| == 1
     || (|q| == 2 && Is(q[1], "STARTTLS") && listen && !ssl)
     || (|q| == 2 && Is(q[1], "LOGOUT"))
     || (Is(q[1], "LOGIN") && LoginBreaks(q[2..], s)))
  }

  ghost predicate Ends(q: seq<Token>, s: string, listen: bool, ssl: bool) {
    Leaves(q, s, listen, ssl) || exists tag, user, passwd, rest :: LogsIn(q, s, tag, user, passwd, rest)
  }

  lemma CommandMeaning(tag: string, t: Token, args: seq<Token>, listen: bool, ssl: bool, capability: string)
    ensures var answer := Command(tag, t, args, listen, ssl, capability).answer;
            && (answer.Some? ==> !answer.value.LoggedIn?)
            && (answer.Some? <==> args == [] && ((Is(t, "STARTTLS") && listen && !ssl) || Is(t, "LOGOUT")))
  {
    hide Is, Say;
    CommandsDiffer(t);
  }

  lemma LoginAnswers(tag: string, args: seq<Token>, s: string)
    ensures var answer := LoginCommand(tag, args, s).answer;
            answer.Some? ==> answer == Some(Answer.Failed)
                             || (answer.value.LoggedIn? && answer.value.auth.authz.None? && answer.value.tag == tag)
  {
    hide ScanLine, ScanToken, FormOf, Decode, Say;
  }

  /** One turn: it logs in exactly when the line is a LOGIN whose arguments are the
      credentials, and goes on exactly when the line ends nothing. */
  lemma ActMeaning(q: seq<Token>, s: string, listen: bool, ssl: bool, capability: string,
                   tag: string, user: string, passwd: string, rest: string)
    requires q != []
    ensures var step := Act(q, s, listen, ssl, capability);
            && (step.answer == Some(LoggedIn(Auth(None, user, passwd), tag)) && step.rest == rest <==>
                  LogsIn(q, s, tag, user, passwd, rest))
            && (step.answer.None? <==> !Ends(q, s, listen, ssl))
  {
    hide LoginCommand, LoginSays, LoginBreaks, Command, Is, Say, ValidTag;
    var step := Act(q, s, listen, ssl, capability);
    if Tagged(q) && |q| > 1 {
      var args := q[2..];
      assert args == [] <==> |q| == 2;
      CommandsDiffer(q[1]);
      if Is(q[1], "LOGIN") {
        LoginAnswers(q[0].buf, args, s);
        LoginMeaning(q[0].buf, args, s, user, passwd, rest);
        forall user', passwd', rest'
          ensures step.answer == Some(LoggedIn(Auth(None, user', passwd'), q[0].buf)) && step.rest == rest' <==>
                    LoginSays(args, s, user', passwd', rest')
        {
          LoginMeaning(q[0].buf, args, s, user', passwd', rest');
        }
        if step.answer.Some? && step.answer.value.LoggedIn? {
          var a := step.answer.value.auth;
          assert a == Auth(None, a.user, a.passwd);
          assert LogsIn(q, s, q[0].buf, a.user, a.passwd, step.rest);
        }
      } else {
        CommandMeaning(q[0].buf, q[1], args, listen, ssl, capability);
      }
    }
  }

  /** `k` commands are read from `s`, none of which ends the loop, and leave `mid`; a
      command other than LOGIN takes its line and no more. */
  ghost predicate Passes(s: string, k: nat, mid: string, listen: bool, ssl: bool)
    decreases k
  {
    if k == 0 then s == mid
    else match ScanLine(s, None, IMAP4, 0)
      case LineStarved => false
      case Line(q, after) => !Ends(q, after, listen, ssl) && Passes(Unread(q, after), k - 1, mid, listen, ssl)
  }

  /** What the command line `q` leaves of `s`. */
  function Unread(q: seq<Token>, s: string): string {
    if Tagged(q) && |q| > 1 && Is(q[1], "LOGIN") then LoginCommand(q[0].buf, q[2..], s).rest else s
  }

  lemma ActLeaves(q: seq<Token>, s: string, listen: bool, ssl: bool, capability: string)
    requires q != []
    ensures Act(q, s, listen, ssl, capability).rest == Unread(q, s)
  {
    hide LoginCommand, Command, Is, Say, ValidTag;
  }

  /** After `k` commands that ended nothing comes a line that logs in. */
  ghost predicate LoginIn(s: string, k: nat, mid: string, listen: bool, ssl: bool,
                          tag: string, user: string, passwd: string, rest: string)
  {
    && Passes(s, k, mid, listen, ssl)
    && match ScanLine(mid, None, IMAP4, 0)
       case LineStarved => false
       case Line(q, after) => LogsIn(q, after, tag, user, passwd, rest)
  }

  lemma LoginInStep(s: string, k: nat, mid: string, listen: bool, ssl: bool,
                    tag: string, user: string, passwd: string, rest: string, q: seq<Token>, after: string)
    requires k > 0 && ScanLine(s, None, IMAP4, 0) == Line(q, after)
    ensures LoginIn(s, k, mid, listen, ssl, tag, user, passwd, rest) <==>
              && !Ends(q, after, listen, ssl)
              && LoginIn(Unread(q, after), k - 1, mid, listen, ssl, tag, user, passwd, rest)
  {
    hide ScanLine, Ends, LogsIn, Unread;
  }

  lemma {:induction false} AnswerReads(s: string, listen: bool, ssl: bool, capability: string,
                                       tag: string, user: string, passwd: string, rest: string)
    returns (k: nat, mid: string)
    requires var run := GetAuthRun(s, listen, ssl, capability);
             run.answer == LoggedIn(Auth(None, user, passwd), tag) && run.rest == rest
    ensures LoginIn(s, k, mid, listen, ssl, tag, user, passwd, rest)
    decreases |s|
  {
    hide GetAuthRun, ScanLine, ScanToken, Act, Ends, LogsIn, Unread;
    GetAuthStep(s, listen, ssl, capability);
    var Line(q, after) := ScanLine(s, None, IMAP4, 0);
    ActMeaning(q, after, listen, ssl, capability, tag, user, passwd, rest);
    ActLeaves(q, after, listen, ssl, capability);
    if Act(q, after, listen, ssl, capability).answer.None? {
      k, mid := AnswerReads(Unread(q, after), listen, ssl, capability, tag, user, passwd, rest);
      k := k + 1;
      LoginInStep(s, k, mid, listen, ssl, tag, user, passwd, rest, q, after);
    } else {
      k, mid := 0, s;
    }
  }

  /** Commands that end nothing have no bearing on what comes after them. */
  lemma {:induction false} NothingBefore(s: string, k: nat, mid: string, listen: bool, ssl: bool, capability: string)
    requires Passes(s, k, mid, listen, ssl)
    ensures GetAuthRun(s, listen, ssl, capability).answer == GetAuthRun(mid, listen, ssl, capability).answer
    ensures GetAuthRun(s, listen, ssl, capability).rest == GetAuthRun(mid, listen, ssl, capability).rest
    decreases k
  {
    hide GetAuthRun, ScanLine, ScanToken, Act, Ends, LogsIn, Unread;
    if k > 0 {
      GetAuthStep(s, listen, ssl, capability);
      var Line(q, after) := ScanLine(s, None, IMAP4, 0);
      ActMeaning(q, after, listen, ssl, capability, "", "", "", "");
      ActLeaves(q, after, listen, ssl, capability);
      NothingBefore(Unread(q, after), k - 1, mid, listen, ssl, capability);
    }
  }

  /** A call logs in exactly when some command of it is a LOGIN whose two arguments
      stand for the credentials and no command before it ended the loop; what was
      said, refused or asked before that has no part in them. */
  lemma GetAuthMeaning(s: string, listen: bool, ssl: bool, capability: string,
                       tag: string, user: string, passwd: string, rest: string)
    ensures var run := GetAuthRun(s, listen, ssl, capability);
            run.answer == LoggedIn(Auth(None, user, passwd), tag) && run.rest == rest <==>
              exists k: nat, mid :: LoginIn(s, k, mid, listen, ssl, tag, user, passwd, rest)
  {
    hide GetAuthRun, ScanLine, ScanToken, Act, Ends, LogsIn, Passes;
    var run := GetAuthRun(s, listen, ssl, capability);
    if run.answer == LoggedIn(Auth(None, user, passwd), tag) && run.rest == rest {
      var k, mid := AnswerReads(s, listen, ssl, capability, tag, user, passwd, rest);
    }
    if k: nat, mid :| LoginIn(s, k, mid, listen, ssl, tag, user, passwd, rest) {
      NothingBefore(s, k, mid, listen, ssl, capability);
      GetAuthStep(mid, listen, ssl, capability);
      var Line(q, after) := ScanLine(mid, None, IMAP4, 0);
      ActMeaning(q, after, listen, ssl, capability, tag, user, passwd, rest);
    }
  }
}
