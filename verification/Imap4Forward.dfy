/** What an IMAP4 client logs in with is what the server is told, unless it is empty. */
module Imap4Forward {
  import opened AcapRoundTrip
  import opened ClientAuth
  import opened Delimiters
  import opened Imap4In
  import opened Imap4Login
  import opened Imap4Meaning
  import opened ImapTag
  import opened Lines
  import opened Text
  import opened Tokenizer
  import opened Unescape
  import Acap
  import Imap4Out

  // ----- the credentials a client logs in with -----

  lemma {:induction false} ReplaceKeepsString(s: string, m: string, r: string)
    requires m != "" && CString(s) && CString(r)
    ensures CString(Replace(s, m, r))
    decreases |s|
  {
    if s != "" {
      if At(s, 0, m) {
        ReplaceKeepsString(s[|m|..], m, r);
      } else {
        assert s[0] in s;
        ReplaceKeepsString(s[1..], m, r);
      }
    }
  }

  lemma DecodeIsString(t: Token, quoted: bool)
    ensures CString(Decode(t, quoted))
  {
    if quoted {
      var b := CStr(Bare(t.buf));
      ReplaceKeepsString(b, [BACKSLASH, QUOTE], [QUOTE]);
      ReplaceKeepsString(FirstPass(b), [BACKSLASH, BACKSLASH], [BACKSLASH]);
    }
  }

  lemma PasswordIsString(t: Token, s: string, quoted: bool, passwd: string, rest: string)
    requires PasswordIs(t, s, quoted, passwd, rest)
    ensures CString(passwd)
  {
    hide Denotes, Decode;
    var bytes :| bytes != "" && Denotes(t, s, bytes, rest) && passwd == Decode(Token(bytes, Plain), quoted);
    DecodeIsString(Token(bytes, Plain), quoted);
  }

  lemma ArgumentsAreStrings(args: seq<Token>, s: string, user: string, passwd: string, rest: string)
    requires LoginSays(args, s, user, passwd, rest)
    ensures CString(user) && CString(passwd)
  {
    hide PasswordIs, FormOf, Decode, ScanLine;
    if |args| == 2 {
      DecodeIsString(args[0], true);
      PasswordIsString(args[1], s, true, passwd, rest);
    } else {
      var k := Taken(FormOf(args[0]).size);
      match ScanLine(s[k..], None, IMAP4, 0)
      case LineStarved =>
      case Line(q, after) => PasswordIsString(q[1], after, false, passwd, rest);
    }
  }

  lemma CredentialsAreStrings(s: string, listen: bool, ssl: bool, capability: string,
                              tag: string, user: string, passwd: string)
    requires GetAuthRun(s, listen, ssl, capability).answer == LoggedIn(Auth(None, user, passwd), tag)
    ensures CString(user) && CString(passwd)
  {
    hide GetAuthRun, Passes, LoginSays, ScanLine;
    var rest := GetAuthRun(s, listen, ssl, capability).rest;
    GetAuthMeaning(s, listen, ssl, capability, tag, user, passwd, rest);
    var k: nat, mid :| LoginIn(s, k, mid, listen, ssl, tag, user, passwd, rest);
    match ScanLine(mid, None, IMAP4, 0)
    case LineStarved =>
    case Line(q, after) => ArgumentsAreStrings(q[2..], after, user, passwd, rest);
  }

  // ----- and on to the server -----

  /** From client to server nothing is lost or added: whatever commands a client logs in
      with, the literals sent to the server log in with the same credentials, if and only
      if neither is empty. */
  lemma ForwardingKeepsCredentials(s: string, listen: bool, ssl: bool, capability: string,
                                   user: string, passwd: string, clientTag: string, tag: string,
                                   listen': bool, ssl': bool, capability': string)
    requires GetAuthRun(s, listen, ssl, capability).answer == LoggedIn(Auth(None, user, passwd), clientTag)
    requires ValidTag(tag) && |passwd| <= Acap.STR_WRITE_MAX
    requires |user| + 1 + |Announce(|passwd|, true)| <= Acap.STR_WRITE_MAX
    requires |tag| + 7 + |Announce(|user|, true)| <= Acap.STR_WRITE_MAX
    ensures GetAuthRun(Imap4Out.LoginLines(tag, user, passwd), listen', ssl', capability') ==
              Run(LoggedIn(Auth(None, user, passwd), tag), CRLF, GO_AHEAD + GO_AHEAD)
       <==> user != "" && passwd != ""
  {
    hide GetAuthRun, ValidTag;
    CredentialsAreStrings(s, listen, ssl, capability, clientTag, user, passwd);
    Imap4Out.LoginReachesServer(tag, user, passwd, listen', ssl', capability');
  }

  /** A client may log in without a name: in quotes it is a token of two bytes. */
  lemma EmptyNameAccepted(listen: bool, ssl: bool, capability: string)
    ensures GetAuthRun("a LOGIN \"\" \"x\"" + CRLF, listen, ssl, capability).answer ==
              LoggedIn(Auth(None, "", "x"), "a")
  {
    hide GetAuthRun, FormOf;
    var line := LoginLine("a", Quoted("") + " " + Quoted("x"));
    assert Quoted("") == "\"\"" && Quoted("x") == "\"x\"";
    assert line + CRLF + "" == "a LOGIN \"\" \"x\"" + CRLF;
    assert ValidTag("a");
    FormOfShort();
    ShortWords();
    QuotedLogin("a", "", "x", "", listen, ssl, capability);
  }

  lemma ShortWords()
    ensures Word("\"\"") && Whole("\"x\"", false)
  {
    assert "\"\""[1..] == "\"" && "\""[1..] == "";
    assert "\"x\""[1..] == "x\"" && "x\""[1..] == "\"";
  }

  lemma FormOfShort()
    ensures FormOf(Token("\"x\"", Eol)).QuotedString?
  {
    var str := Bare("\"x\"");
    assert str == "x";
    CStrOfCString(str);
  }
}
