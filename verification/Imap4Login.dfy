/** What a client's LOGIN says and what imap4_in_get_auth makes of it. */
module Imap4Login {
  import AcapToken
  import opened AcapRoundTrip
  import opened ClientAuth
  import opened Delimiters
  import opened Imap4In
  import opened ImapTag
  import opened Lines
  import opened Numbers
  import opened Text
  import opened Tokenizer
  import opened Unescape

  // ----- words of a line -----

  /** One token of the line, and quotes closed behind it. */
  predicate Word(w: string) {
    Whole(w, false) && !OpenAfter(w, false)
  }

  lemma SplitHead(w: string, rest: string)
    requires Word(w)
    ensures Split(w + " " + rest, IMAP4) == [w] + Split(rest, IMAP4)
  {
    PiecesConcat(w, rest, "", false);
    PiecesOfWhole(w, "", false);
    assert "" + w == w;
  }

  lemma {:induction false} PlainWord(w: string)
    requires ' ' !in w && '\"' !in w
    ensures Word(w)
  {
    if w != "" {
      PlainWord(w[1..]);
    }
  }

  lemma TagWord(tag: string)
    requires ValidTag(tag)
    ensures Word(tag) && '\r' !in tag && '\n' !in tag
  {
    PlainWord(tag);
  }

  /** The first token of a line is the word before the first unquoted space. */
  lemma {:induction false} FirstPiece(a: string, b: string, acc: string, quoted: bool)
    ensures Pieces(a + " " + b, acc, quoted, true)[0] == acc + a <==> Whole(a, quoted) && !OpenAfter(a, quoted)
    decreases |a|
  {
    var s := a + " " + b;
    if a == "" {
      assert s[0] == ' ' && s[1..] == b && acc + a == acc;
      PiecesOfWholePrefix(b, acc + [' '], quoted);
    } else {
      assert s[0] == a[0] && s[1..] == a[1..] + " " + b;
      assert acc + [a[0]] + a[1..] == acc + a;
      if a[0] == ' ' && !quoted {
        assert |acc| < |acc + a|;
      } else {
        FirstPiece(a[1..], b, acc + [a[0]], quoted != (a[0] == '\"'));
      }
    }
  }

  lemma PiecesOfWholePrefix(s: string, acc: string, quoted: bool)
    ensures |Pieces(s, acc, quoted, true)[0]| >= |acc|
  {
    PiecesOfWhole(s, acc, quoted);
  }

  // ----- quoted arguments -----

  function Quoted(s: string): string { "\"" + Escape(s) + "\"" }

  lemma {:induction false} OpenConcat(a: string, b: string, quoted: bool)
    ensures OpenAfter(a + b, quoted) == OpenAfter(b, OpenAfter(a, quoted))
    decreases |a|
  {
    if a == "" {
      assert a + b == b;
    } else {
      assert (a + b)[1..] == a[1..] + b;
      OpenConcat(a[1..], b, quoted != (a[0] == '\"'));
    }
  }

  /** A quoted string is a word exactly when it holds an even number of quotes and
      every space in it stands behind an even number of them. */
  lemma QuotedIsWord(s: string)
    ensures Whole(Quoted(s), false) <==> Whole(Escape(s), true)
    ensures OpenAfter(Quoted(s), false) <==> !OpenAfter(Escape(s), true)
  {
    var e := Escape(s);
    assert Quoted(s)[1..] == e + "\"";
    WholeConcat(e, "\"", true);
    OpenConcat(e, "\"", true);
  }

  /** Two quoted arguments are told apart exactly when the first is a word and the
      second has no space outside quotes. */
  lemma TwoArguments(user: string, passwd: string)
    ensures Split(Quoted(user) + " " + Quoted(passwd), IMAP4) == [Quoted(user), Quoted(passwd)] <==>
              Word(Quoted(user)) && Whole(Quoted(passwd), false)
  {
    var u, p := Quoted(user), Quoted(passwd);
    FirstPiece(u, p, "", false);
    assert "" + u == u && "" + p == p;
    PiecesOfWhole(p, "", false);
    if Word(u) {
      SplitHead(u, p);
      assert ([u] + Split(p, IMAP4))[1..] == Split(p, IMAP4);
      assert [u, p][1..] == [p];
    }
  }

  /** The line of a command with two arguments. */
  function LoginLine(tag: string, args: string): string { tag + " LOGIN " + args }

  lemma LoginTokens(tag: string, args: string, tail: string)
    requires ValidTag(tag) && '\r' !in args && '\n' !in args
    requires |tag| < MAX_LINE_LENGTH && Short(Split(args, IMAP4))
    ensures ScanLine(LoginLine(tag, args) + CRLF + tail, None, IMAP4, 0) ==
              Line(Marked([tag, "LOGIN"] + Split(args, IMAP4)), tail)
  {
    hide ScanLine, Pieces, Marked;
    var line := LoginLine(tag, args);
    TagWord(tag);
    LoginSplits(tag, args);
    StripCRLine(line);
    assert line + CRLF + tail == line + "\r" + "\n" + tail;
    ReadLineSplits(line + "\r", IMAP4, tail);
  }

  lemma LoginSplits(tag: string, args: string)
    requires ValidTag(tag)
    ensures Split(LoginLine(tag, args), IMAP4) == [tag, "LOGIN"] + Split(args, IMAP4)
  {
    hide Pieces;
    TagWord(tag);
    PlainWord("LOGIN");
    assert LoginLine(tag, args) == tag + " " + ("LOGIN" + " " + args);
    SplitHead(tag, "LOGIN" + " " + args);
    SplitHead("LOGIN", args);
    assert [tag] + (["LOGIN"] + Split(args, IMAP4)) == [tag, "LOGIN"] + Split(args, IMAP4);
  }

  lemma StripCRLine(line: string)
    requires '\r' !in line
    ensures StripCR(line + "\r") == line
  {
    StripCRConcat(line, "\r");
    StripCRNothing(line);
    assert line + "" == line;
  }

  lemma MarkedTwo(a: string, b: string)
    ensures Marked([a, b]) == [Token(a, Plain), Token(b, Eol)]
  {
    assert [a, b][1..] == [b];
    assert Marked([b]) == [Token(b, Eol)];
  }

  lemma MarkedThree(a: string, b: string, c: string)
    ensures Marked([a, b, c]) == [Token(a, Plain), Token(b, Plain), Token(c, Eol)]
  {
    MarkedTwo(b, c);
    assert [a, b, c][1..] == [b, c];
  }

  lemma MarkedFour(a: string, b: string, c: string, d: string)
    ensures Marked([a, b, c, d]) == [Token(a, Plain), Token(b, Plain), Token(c, Plain), Token(d, Eol)]
  {
    MarkedThree(b, c, d);
    assert [a, b, c, d][1..] == [b, c, d];
  }

  /** A string without line ends, which a quoted string must be. */
  predicate OneLine(s: string) { CString(s) && '\r' !in s && '\n' !in s }

  lemma {:induction false} EscapeOneLine(s: string)
    requires OneLine(s)
    ensures OneLine(Escape(s))
  {
    if s != "" {
      assert s[0] in s && forall c | c in s[1..] :: c in s;
      EscapeOneLine(s[1..]);
    }
  }

  lemma DecodeQuoted(s: string, flag: Flag)
    requires CString(s)
    ensures Decode(Token(Quoted(s), flag), true) == s && Quoted(s) != "" && Quoted(s) != "\""
  {
    DecodeInvertsQuote(s);
  }

  /** LOGIN with two tokens after it. */
  lemma LoginAct(tag: string, word: string, user: string, passwd: string, s: string,
                 listen: bool, ssl: bool, capability: string)
    requires ValidTag(tag) && SameIgnoringCase(word, "LOGIN") && user != "" && passwd != ""
    requires FormOf(Token(user, Plain)).QuotedString? && FormOf(Token(passwd, Eol)).QuotedString?
    ensures Act([Token(tag, Plain), Token(word, Plain), Token(user, Plain), Token(passwd, Eol)], s, listen, ssl,
                capability) ==
              Step(Some(LoggedIn(Auth(None, Decode(Token(user, Plain), true), Decode(Token(passwd, Eol), true)), tag)),
                   s, "")
  {
    hide FormOf, Decode, ValidTag;
    var q := [Token(tag, Plain), Token(word, Plain), Token(user, Plain), Token(passwd, Eol)];
    var args := q[2..];
    assert args == [Token(user, Plain), Token(passwd, Eol)] && args[1..] == [Token(passwd, Eol)];
    assert Is(q[1], "LOGIN");
    var step := LoginPassword(tag, args[0], true, args[1..], s);
    assert step.said == "";
    assert Act(q, s, listen, ssl, capability) == Then("", step);
    assert "" + step.said == step.said;
  }

  lemma QuotedLoginSucceeds(tag: string, user: string, passwd: string, tail: string, listen: bool, ssl: bool,
                            capability: string)
    requires ValidTag(tag) && OneLine(user) && OneLine(passwd)
    requires Word(Quoted(user)) && Whole(Quoted(passwd), false) && FormOf(Token(Quoted(passwd), Eol)).QuotedString?
    requires |tag| < MAX_LINE_LENGTH && |Quoted(user)| < MAX_LINE_LENGTH && |Quoted(passwd)| < MAX_LINE_LENGTH
    ensures GetAuthRun(LoginLine(tag, Quoted(user) + " " + Quoted(passwd)) + CRLF + tail, listen, ssl, capability) ==
              Run(LoggedIn(Auth(None, user, passwd), tag), tail, "")
  {
    hide FormOf, Decode, ValidTag, GetAuthRun, Act, Escape, Split, ScanLine, Marked;
    var u, p := Quoted(user), Quoted(passwd);
    EscapeOneLine(user);
    EscapeOneLine(passwd);
    TwoArguments(user, passwd);
    LoginTokens(tag, u + " " + p, tail);
    assert [tag, "LOGIN"] + [u, p] == [tag, "LOGIN", u, p];
    MarkedFour(tag, "LOGIN", u, p);
    DecodeQuoted(user, Plain);
    DecodeQuoted(passwd, Eol);
    assert FormOf(Token(u, Plain)).QuotedString? by { NotEolNotLiteral(u); }
    LoginAct(tag, "LOGIN", u, p, tail, listen, ssl, capability);
    GetAuthStep(LoginLine(tag, u + " " + p) + CRLF + tail, listen, ssl, capability);
  }

  lemma NotEolNotLiteral(s: string)
    ensures FormOf(Token(s, Plain)).QuotedString?
  {
  }

  // ----- when it does not -----

  /** The characters that no unescaping adds or takes away. */
  function Solid(s: string): nat {
    if s == "" then 0 else (if s[0] == BACKSLASH then 0 else 1) + Solid(s[1..])
  }

  lemma {:induction false} SolidConcat(a: string, b: string)
    ensures Solid(a + b) == Solid(a) + Solid(b)
  {
    if a == "" {
      assert a + b == b;
    } else {
      assert (a + b)[1..] == a[1..] + b;
      SolidConcat(a[1..], b);
    }
  }

  lemma {:induction false} SolidEscape(s: string)
    ensures Solid(Escape(s)) == Solid(s)
  {
    if s != "" {
      var head := if s[0] == QUOTE || s[0] == BACKSLASH then [BACKSLASH, s[0]] else [s[0]];
      SolidEscape(s[1..]);
      SolidConcat(head, Escape(s[1..]));
      assert head[1..] == [s[0]] || head[1..] == "";
      assert [s[0]][1..] == "";
    }
  }

  lemma {:induction false} SolidReplace(s: string, m: string, r: string)
    requires m != "" && Solid(m) == Solid(r)
    ensures Solid(Replace(s, m, r)) == Solid(s)
    decreases |s|
  {
    if s != "" {
      if At(s, 0, m) {
        SolidReplace(s[|m|..], m, r);
        SolidConcat(r, Replace(s[|m|..], m, r));
        SolidConcat(m, s[|m|..]);
        assert s == m + s[|m|..];
      } else {
        SolidReplace(s[1..], m, r);
        assert ([s[0]] + Replace(s[1..], m, r))[1..] == Replace(s[1..], m, r);
      }
    }
  }

  /** Decoding takes off a pair of quotes at most. */
  lemma DecodeKeepsSolid(t: Token)
    requires CString(t.buf)
    ensures Solid(t.buf) <= Solid(Decode(t, true)) + 2
  {
    var b := Bare(t.buf);
    assert forall c | c in b :: c in t.buf;
    CStrOfCString(b);
    var m, r := [BACKSLASH, QUOTE], [QUOTE];
    assert m[1..] == r && r[1..] == "";
    SolidReplace(b, m, r);
    var m', r' := [BACKSLASH, BACKSLASH], [BACKSLASH];
    assert m'[1..] == r' && r'[1..] == "";
    SolidReplace(FirstPass(b), m', r');
    BareSolid(t.buf);
  }

  lemma BareSolid(b: string)
    ensures Solid(b) <= Solid(Bare(b)) + 2
  {
    if b == "\"" {
      assert b[1..] == "";
    } else if b != "" && b[0] == QUOTE && b[|b| - 1] == QUOTE {
      assert b == [QUOTE] + b[1..|b| - 1] + [QUOTE];
      SolidConcat([QUOTE], b[1..|b| - 1]);
      SolidConcat([QUOTE] + b[1..|b| - 1], [QUOTE]);
      assert [QUOTE][1..] == "";
    }
  }

  lemma SolidQuoted(s: string)
    ensures Solid(Quoted(s)) == Solid(s) + 2
  {
    SolidEscape(s);
    SolidConcat("\"", Escape(s));
    SolidConcat("\"" + Escape(s), "\"");
    assert "\""[1..] == "";
  }

  lemma CutBehind(u: string, p: string, n: nat)
    requires |u| < n <= |u| + 1 + |p|
    ensures Solid((u + " " + p)[..n]) > Solid(u)
  {
    hide Solid;
    var more := p[..n - |u| - 1];
    assert (u + " " + p)[..n] == u + (" " + more);
    SolidConcat(u, " " + more);
    SolidConcat(" ", more);
    SolidSpace();
  }

  lemma CutBefore(u: string, p: string, n: nat)
    requires n < |u|
    ensures Solid((u + " " + p)[n + 1..]) > Solid(p)
  {
    hide Solid;
    var more := u[n + 1..];
    assert (u + " " + p)[n + 1..] == more + " " + p;
    SolidConcat(more + " ", p);
    SolidConcat(more, " ");
    SolidSpace();
  }

  lemma SolidSpace()
    ensures Solid(" ") == 1
  {
    assert " "[1..] == "";
  }

  /** A string cut at another place than the space between two of its parts has
      more of one part before, or more of the other behind. */
  lemma OtherCut(u: string, p: string, a: string, b: string)
    requires a + " " + b == u + " " + p
    ensures |a| > |u| ==> Solid(a) > Solid(u)
    ensures |a| < |u| ==> Solid(b) > Solid(p)
    ensures |a| == |u| ==> a == u && b == p
  {
    hide Solid;
    var s := a + " " + b;
    assert a == s[..|a|] && b == s[|a| + 1..];
    if |a| > |u| {
      CutBehind(u, p, |a|);
    } else if |a| < |u| {
      CutBefore(u, p, |a|);
    } else {
      assert u == s[..|u|] && p == s[|u| + 1..];
    }
  }

  /** Two tokens that decode to the strings quoted are the quoted strings. */
  lemma DecodedTokensAreQuoted(user: string, passwd: string, a: string, b: string, flag: Flag)
    requires CString(a) && CString(b) && a + " " + b == Quoted(user) + " " + Quoted(passwd)
    requires Decode(Token(a, Plain), true) == user && Decode(Token(b, flag), true) == passwd
    ensures a == Quoted(user) && b == Quoted(passwd)
  {
    OtherCut(Quoted(user), Quoted(passwd), a, b);
    SolidQuoted(user);
    SolidQuoted(passwd);
    DecodeKeepsSolid(Token(a, Plain));
    DecodeKeepsSolid(Token(b, flag));
  }

  /** Nor are they with nothing between them: a space is missing. */
  lemma UncutTokensDecodeOtherwise(user: string, passwd: string, a: Token, b: Token)
    requires CString(a.buf) && CString(b.buf) && a.buf + b.buf == Quoted(user) + " " + Quoted(passwd)
    ensures Decode(a, true) != user || Decode(b, true) != passwd
  {
    hide Solid, Decode, Quoted;
    SolidConcat(a.buf, b.buf);
    SolidConcat(Quoted(user) + " ", Quoted(passwd));
    SolidConcat(Quoted(user), " ");
    SolidSpace();
    SolidQuoted(user);
    SolidQuoted(passwd);
    DecodeKeepsSolid(a);
    DecodeKeepsSolid(b);
  }

  /** A LOGIN that is answered without a word and without reading on has two quoted
      arguments. */
  lemma SilentLogin(tag: string, args: seq<Token>, s: string, auth: Auth)
    requires LoginCommand(tag, args, s) == Step(Some(LoggedIn(auth, tag)), s, "")
    ensures |args| == 2 && FormOf(args[1]).QuotedString? && args[0].buf != "" && args[1].buf != ""
    ensures auth == Auth(None, Decode(args[0], true), Decode(args[1], true))
  {
    hide Decode, FormOf, ScanLine, Say;
  }

  lemma LoginTag(tag: string, args: seq<Token>, s: string)
    ensures var answer := LoginCommand(tag, args, s).answer;
            answer.Some? && answer.value.LoggedIn? ==> answer.value.tag == tag
  {
    hide Decode, FormOf, ScanLine, ScanToken, Say;
  }

  lemma RefusalSays(tag: string, args: seq<Token>, s: string)
    ensures LoginCommand(tag, args, s).answer.None? ==> LoginCommand(tag, args, s).said != ""
  {
    hide Decode, FormOf, ScanLine, ScanToken;
  }

  lemma CommandSays(tag: string, t: Token, args: seq<Token>, listen: bool, ssl: bool, capability: string)
    ensures Imap4In.Command(tag, t, args, listen, ssl, capability).said != ""
    ensures var answer := Imap4In.Command(tag, t, args, listen, ssl, capability).answer;
            answer.Some? ==> !answer.value.LoggedIn?
  {
    hide Is, Say;
  }

  /** A line answered with credentials, without a word and without reading on, is a
      LOGIN with two quoted arguments; and no line is refused without a word. */
  lemma SilentAct(q: seq<Token>, s: string, listen: bool, ssl: bool, capability: string, auth: Auth, tag: string)
    requires q != []
    requires After(Act(q, s, listen, ssl, capability), listen, ssl, capability) == Run(LoggedIn(auth, tag), s, "")
    ensures |q| == 4 && q[0].buf == tag && Is(q[1], "LOGIN") && FormOf(q[3]).QuotedString?
    ensures q[2].buf != "" && q[3].buf != ""
    ensures auth == Auth(None, Decode(q[2], true), Decode(q[3], true))
  {
    hide Decode, FormOf, Say, LoginCommand, Imap4In.Command, GetAuthRun, ValidTag, Is;
    if |q| > 1 {
      CommandSays(q[0].buf, q[1], q[2..], listen, ssl, capability);
      RefusalSays(q[0].buf, q[2..], s);
      LoginTag(q[0].buf, q[2..], s);
    }
    assert Act(q, s, listen, ssl, capability) == Step(Some(LoggedIn(auth, tag)), s, "");
    assert |q| > 1 && Is(q[1], "LOGIN");
    SilentLogin(tag, q[2..], s, auth);
  }

  /** The text of four tokens of which the last two are a LOGIN's arguments. */
  lemma GlueFour(a: Token, b: Token, c: Token, d: Token)
    ensures Glue([a, b, c, d]) == a.buf + Gap(a) + (b.buf + Gap(b) + (c.buf + Gap(c) + d.buf))
  {
    assert [a, b, c, d][1..] == [b, c, d] && [b, c, d][1..] == [c, d] && [c, d][1..] == [d];
    assert Glue([d]) == d.buf;
    assert Glue([c, d]) == c.buf + Gap(c) + d.buf;
    assert Glue([b, c, d]) == b.buf + Gap(b) + Glue([c, d]);
  }

  /** If the four tokens make up the line, the first two are the tag and the word,
      and neither was cut. */
  lemma LoginLineCuts(tag: string, args: string, b: Token, c: Token, d: Token, gap: string)
    requires gap == "" || gap == " "
    requires Is(b, "LOGIN") && tag + gap + (b.buf + Gap(b) + (c.buf + Gap(c) + d.buf)) == LoginLine(tag, args)
    ensures gap == " " && b.buf == "LOGIN" && c.buf + Gap(c) + d.buf == args
  {
    hide Gap;
    GapOfShort(b);
    var rest := c.buf + Gap(c) + d.buf;
    var line := LoginLine(tag, args);
    assert line[|tag|..] == " " + ("LOGIN" + " " + args);
    assert line == tag + (gap + (b.buf + " " + rest));
    assert line[|tag|..] == gap + (b.buf + " " + rest);
    WordAndSpace(b.buf, rest, args, gap);
  }

  lemma WordAndSpace(word: string, rest: string, args: string, gap: string)
    requires SameIgnoringCase(word, "LOGIN") && (gap == "" || gap == " ")
    requires gap + (word + " " + rest) == " " + ("LOGIN" + " " + args)
    ensures gap == " " && word == "LOGIN" && rest == args
  {
    var more := word + " " + rest;
    assert ToUpper(word[0]) == 'L' && ToUpper(' ') == ' ';
    assert more[0] == word[0];
    assert (gap + more)[0] == ' ';
    assert gap == " ";
    assert more == (" " + more)[1..] == "LOGIN" + " " + args;
    assert word == more[..5] == "LOGIN";
    assert rest == more[6..] == args;
  }

  lemma GapOfShort(t: Token)
    requires |t.buf| < MAX_LINE_LENGTH
    ensures Gap(t) == " "
  {
  }

  lemma PartsAreCString(s: string, a: string, gap: string, b: string)
    requires CString(s) && a + gap + b == s
    ensures CString(a) && CString(b)
  {
    assert forall c | c in a || c in b :: c in s;
  }

  /** The arguments of a LOGIN that decode to the strings quoted are the quoted
      strings, whether the first of them filled the buffer or not. */
  lemma ArgumentsAreQuoted(user: string, passwd: string, c: Token, d: Token)
    requires CString(Quoted(user) + " " + Quoted(passwd))
    requires c.buf + Gap(c) + d.buf == Quoted(user) + " " + Quoted(passwd)
    requires Decode(c, true) == user && Decode(d, true) == passwd
    ensures c.buf == Quoted(user) && d.buf == Quoted(passwd) && |c.buf| < MAX_LINE_LENGTH
  {
    hide Decode, Quoted;
    PartsAreCString(Quoted(user) + " " + Quoted(passwd), c.buf, Gap(c), d.buf);
    if Gap(c) == "" {
      assert c.buf + "" + d.buf == c.buf + d.buf;
      UncutTokensDecodeOtherwise(user, passwd, c, d);
    } else {
      DecodeForgetsFlag(c, Plain);
      DecodedTokensAreQuoted(user, passwd, c.buf, d.buf, d.flag);
    }
  }

  lemma DecodeForgetsFlag(t: Token, flag: Flag)
    ensures Decode(Token(t.buf, flag), true) == Decode(t, true)
  {
  }

  /** The sizes of the three tokens that the line's length would not tell. */
  predicate LoginFits(tag: string, user: string, passwd: string) {
    |tag| < MAX_LINE_LENGTH && |Quoted(user)| < MAX_LINE_LENGTH && |Quoted(passwd)| < MAX_LINE_LENGTH
  }

  /** If a LOGIN line is answered with credentials and nothing more is said or read, it was
      cut into the tag, the word and two arguments that decode to them. */
  lemma LoginLineTokens(tag: string, args: string, user: string, passwd: string, tail: string,
                        listen: bool, ssl: bool, capability: string)
    requires ValidTag(tag) && '\r' !in args && '\n' !in args
    requires GetAuthRun(LoginLine(tag, args) + CRLF + tail, listen, ssl, capability) ==
               Run(LoggedIn(Auth(None, user, passwd), tag), tail, "")
    ensures var q := Chop(LoginLine(tag, args), "", false, true);
            && |q| == 4 && q[0].buf == tag && Is(q[1], "LOGIN") && FormOf(q[3]).QuotedString?
            && q[2].buf != "" && q[3].buf != ""
            && Decode(q[2], true) == user && Decode(q[3], true) == passwd
  {
    hide FormOf, Decode, ValidTag, GetAuthRun, Escape, Act, Chop, Is, ScanLine;
    var line := LoginLine(tag, args);
    TagWord(tag);
    StripCRLine(line);
    assert line + CRLF + tail == line + "\r" + "\n" + tail;
    ReadLineChops(line + "\r", IMAP4, tail);
    GetAuthStep(line + CRLF + tail, listen, ssl, capability);
    SilentAct(Chop(line, "", false, true), tail, listen, ssl, capability, Auth(None, user, passwd), tag);
  }

  /** If a LOGIN of quoted strings is answered with just those strings, they were told
      apart, and the password taken for what it is. */
  lemma QuotedLoginNeeds(tag: string, user: string, passwd: string, tail: string, listen: bool, ssl: bool,
                         capability: string)
    requires ValidTag(tag) && OneLine(user) && OneLine(passwd)
    requires GetAuthRun(LoginLine(tag, Quoted(user) + " " + Quoted(passwd)) + CRLF + tail, listen, ssl, capability) ==
               Run(LoggedIn(Auth(None, user, passwd), tag), tail, "")
    ensures LoginFits(tag, user, passwd)
    ensures Word(Quoted(user)) && Whole(Quoted(passwd), false) && FormOf(Token(Quoted(passwd), Eol)).QuotedString?
  {
    hide FormOf, Decode, ValidTag, GetAuthRun, Escape, Pieces, Word, Whole, Chop, Glue, Is, Marked;
    var u, p := Quoted(user), Quoted(passwd);
    var args := u + " " + p;
    var line := LoginLine(tag, args);
    EscapeOneLine(user);
    EscapeOneLine(passwd);
    TagWord(tag);
    LoginLineTokens(tag, args, user, passwd, tail, listen, ssl, capability);
    var q := Chop(line, "", false, true);
    GlueOfChop(line, "", false, true);
    LastIsShort(line, "", false, true);
    assert "" + line == line && q == [q[0], q[1], q[2], q[3]];
    GlueFour(q[0], q[1], q[2], q[3]);
    LoginLineCuts(tag, args, q[1], q[2], q[3], Gap(q[0]));
    ArgumentsAreQuoted(user, passwd, q[2], q[3]);
    ChopsWereSplits(line, "", false, true);
    BufsMarked(Split(line, IMAP4));
    BufsOfFour(q[0], q[1], q[2], q[3]);
    LoginSplits(tag, args);
    assert ([tag, "LOGIN"] + Split(args, IMAP4))[2..] == Split(args, IMAP4) && [tag, "LOGIN", u, p][2..] == [u, p];
    TwoArguments(user, passwd);
    MarkedFour(tag, "LOGIN", u, p);
  }

  lemma BufsOfFour(a: Token, b: Token, c: Token, d: Token)
    ensures Bufs([a, b, c, d]) == [a.buf, b.buf, c.buf, d.buf]
  {
    assert [a, b, c, d][1..] == [b, c, d] && [b, c, d][1..] == [c, d] && [c, d][1..] == [d];
    assert Bufs([d]) == [d.buf];
    assert Bufs([c, d]) == [c.buf, d.buf];
  }

  /** A LOGIN of quoted strings, of any length, gives back exactly the strings the
      client quoted, and nothing more is said or read, if and only if no token of it
      fills the buffer, the tokenizer tells the two apart, and the password does not
      itself look like a literal's length. */
  lemma QuotedLogin(tag: string, user: string, passwd: string, tail: string, listen: bool, ssl: bool,
                    capability: string)
    requires ValidTag(tag) && OneLine(user) && OneLine(passwd)
    ensures GetAuthRun(LoginLine(tag, Quoted(user) + " " + Quoted(passwd)) + CRLF + tail, listen, ssl, capability) ==
              Run(LoggedIn(Auth(None, user, passwd), tag), tail, "")
       <==> && LoginFits(tag, user, passwd)
            && Word(Quoted(user)) && Whole(Quoted(passwd), false) && FormOf(Token(Quoted(passwd), Eol)).QuotedString?
  {
    hide FormOf, GetAuthRun, Word, Whole, ValidTag, Quoted;
    var input := LoginLine(tag, Quoted(user) + " " + Quoted(passwd)) + CRLF + tail;
    if GetAuthRun(input, listen, ssl, capability) == Run(LoggedIn(Auth(None, user, passwd), tag), tail, "") {
      QuotedLoginNeeds(tag, user, passwd, tail, listen, ssl, capability);
    }
    if LoginFits(tag, user, passwd) && Word(Quoted(user)) && Whole(Quoted(passwd), false)
       && FormOf(Token(Quoted(passwd), Eol)).QuotedString? {
      QuotedLoginSucceeds(tag, user, passwd, tail, listen, ssl, capability);
    }
  }

  /** A user whose name is a quote and a space cannot log in with a quoted string. */
  lemma QuoteAndSpaceIsNoWord()
    ensures Quoted("\" ") == "\"\\\" \"" && !Word(Quoted("\" "))
  {
    var s, q := "\" ", Quoted("\" ");
    assert s[1..] == " " && " "[1..] == "";
    assert Escape(" ") == " ";
    assert Escape(s) == "\\\" ";
    assert q[1..] == "\\\" \"" && q[1..][1..] == "\" \"" && q[1..][1..][1..] == " \"";
    assert !Whole(q[1..][1..][1..], false);
    assert !Whole(q[1..][1..], true) && !Whole(q[1..], true) && !Whole(q, false);
  }

  // ----- literal arguments -----

  /** The length that announces a literal. */
  function Announce(n: nat, sync: bool): (r: string)
    ensures r != ""
  {
    "{" + Decimal(n) + (if !sync then "+" else "") + "}"
  }

  lemma {:induction false} DigitsToTheEnd(d: string, i: nat)
    requires i <= |d| && forall c | c in d :: IsDigit(c)
    ensures SkipDigits(d, i) == |d|
    decreases |d| - i
  {
    if i < |d| {
      assert d[i] in d;
      DigitsToTheEnd(d, i + 1);
    }
  }

  lemma StrtoulOfDigits(n: nat)
    requires n < AcapToken.ULONG_MAX
    ensures AcapToken.Strtoul(Decimal(n)) == (n, |Decimal(n)|)
  {
    var d := Decimal(n);
    assert d[0] in d && d[0..|d|] == d;
    DigitsToTheEnd(d, 0);
    ValueOfDecimal(n);
  }

  lemma HeadText(n: nat, sync: bool)
    ensures var h, d := Announce(n, sync), Decimal(n);
            && CStr(Bare(h)) == h && |h| == |d| + (if sync then 2 else 3)
            && h[0] == '{' && h[|h| - 1] == '}' && (h[|h| - 2] == '+' <==> !sync)
            && h[1..if !sync then |h| - 2 else |h| - 1] == d
  {
    hide Decimal, FindFirst;
    var h, d := Announce(n, sync), Decimal(n);
    assert forall c | c in h :: c in d || c in "{+}";
    assert d[|d| - 1] in d && h[|d|] == d[|d| - 1];
    assert Bare(h) == h;
    CStrOfCString(h);
  }

  lemma HeadForm(n: nat, sync: bool)
    requires n < AcapToken.ULONG_MAX
    ensures FormOf(Token(Announce(n, sync), Eol)) == Literal(n, sync)
  {
    hide Decimal, AcapToken.Strtoul, Announce, Bare;
    HeadText(n, sync);
    StrtoulOfDigits(n);
  }

  /** The bytes behind a length are the argument. */
  lemma LiteralArgument(data: string, sync: bool, tail: string)
    requires |data| <= MAX_LINE_LENGTH
    ensures WrapArgument(Token(Announce(|data|, sync), Eol), [], data + tail) ==
              Argument(Some(Token(data, Plain)), tail, Ask(sync))
  {
    hide FormOf, ScanToken;
    HeadForm(|data|, sync);
    if data != "" {
      LiteralScan(data, tail, "", |data|);
      assert "" + data == data;
    } else {
      assert data + tail == tail;
    }
  }

  function Ask(sync: bool): string { if sync then GO_AHEAD else "" }

  /** What a LOGIN of literals comes to: neither may be empty. */
  function LiteralStep(tag: string, user: string, passwd: string, sync: bool, tail: string): Step {
    if user == "" then Bad(tag, LOGIN_USAGE, passwd + tail)
    else if passwd == "" then Then(Ask(sync), Bad(tag, LOGIN_USAGE, tail))
    else Step(Some(LoggedIn(Auth(None, user, passwd), tag)), tail, Ask(sync))
  }

  lemma LiteralPassword(tag: string, user: string, passwd: string, sync: bool, tail: string)
    requires CString(user) && CString(passwd) && |passwd| <= MAX_LINE_LENGTH
    ensures LoginName(tag, Token(user, Plain), false, [], " " + Announce(|passwd|, sync) + CRLF + (passwd + tail)) ==
              LiteralStep(tag, user, passwd, sync, tail)
  {
    hide ScanLine, WrapArgument, FormOf, Split, Say;
    var h := Announce(|passwd|, sync);
    var text, input := " " + h, " " + h + CRLF + (passwd + tail);
    HeadIsOneWord(|passwd|, !sync);
    HeadIsShort(|passwd|, sync);
    assert Word("");
    SplitHead("", h);
    assert "" + " " + h == text && [""] + [h] == ["", h];
    MarkedTwo("", h);
    StripCRLine(text);
    assert input == text + "\r" + "\n" + (passwd + tail);
    ShortLineSplits(text + "\r", IMAP4, passwd + tail);
    var q := [Token("", Plain), Token(h, Eol)];
    assert ScanLine(input, None, IMAP4, 0) == Line(q, passwd + tail);
    assert q[1..] == [Token(h, Eol)];
    LiteralArgument(passwd, sync, tail);
    CStrOfCString(user);
    CStrOfCString(passwd);
  }

  lemma HeadIsShort(n: nat, sync: bool)
    requires n <= MAX_LINE_LENGTH
    ensures |Announce(n, sync)| < 10
  {
    assert n >= 10 ==> |Decimal(n)| == 1 + |Decimal(n / 10)|;
    assert n >= 100 ==> |Decimal(n / 10)| == 1 + |Decimal(n / 10 / 10)|;
    assert n >= 1000 ==> |Decimal(n / 10 / 10)| == 1 + |Decimal(n / 10 / 10 / 10)|;
  }

  /** The lines of a LOGIN of literals behind the first. */
  function LiteralLines(user: string, passwd: string, sync: bool, tail: string): string {
    user + (" " + Announce(|passwd|, sync) + CRLF + (passwd + tail))
  }

  lemma LiteralTurn(tag: string, user: string, passwd: string, sync: bool, tail: string,
                    listen: bool, ssl: bool, capability: string)
    requires ValidTag(tag) && CString(user) && CString(passwd) && |tag| < MAX_LINE_LENGTH
    requires |user| <= MAX_LINE_LENGTH && |passwd| <= MAX_LINE_LENGTH
    ensures GetAuthRun(LoginLine(tag, Announce(|user|, sync)) + CRLF + LiteralLines(user, passwd, sync, tail),
                       listen, ssl, capability) ==
              After(Then(Ask(sync), LiteralStep(tag, user, passwd, sync, tail)), listen, ssl, capability)
  {
    hide ScanLine, WrapArgument, FormOf, Split, ValidTag, GetAuthRun, LoginName, Marked, LiteralStep, Imap4In.After;
    var h := Announce(|user|, sync);
    var second := " " + Announce(|passwd|, sync) + CRLF + (passwd + tail);
    HeadIsOneWord(|user|, !sync);
    HeadIsShort(|user|, sync);
    LoginTokens(tag, h, user + second);
    assert [tag, "LOGIN"] + [h] == [tag, "LOGIN", h];
    MarkedThree(tag, "LOGIN", h);
    var q := [Token(tag, Plain), Token("LOGIN", Plain), Token(h, Eol)];
    assert q[2..] == [Token(h, Eol)] && q[2..][1..] == [];
    LiteralArgument(user, sync, second);
    LiteralPassword(tag, user, passwd, sync, tail);
    HeadForm(|user|, sync);
    assert Is(q[1], "LOGIN");
    GetAuthStep(LoginLine(tag, h) + CRLF + (user + second), listen, ssl, capability);
  }

  /** A LOGIN of literals, synchronising or not, gives back exactly the bytes sent,
      each up to what one token holds, whatever they are but NUL, and the client is told
      to go on as often as it waits for it: if and only if neither is empty. */
  lemma LiteralLogin(tag: string, user: string, passwd: string, sync: bool, tail: string,
                     listen: bool, ssl: bool, capability: string)
    requires ValidTag(tag) && CString(user) && CString(passwd) && |tag| < MAX_LINE_LENGTH
    requires |user| <= MAX_LINE_LENGTH && |passwd| <= MAX_LINE_LENGTH
    ensures GetAuthRun(LoginLine(tag, Announce(|user|, sync)) + CRLF + LiteralLines(user, passwd, sync, tail),
                       listen, ssl, capability) ==
              Run(LoggedIn(Auth(None, user, passwd), tag), tail, Ask(sync) + Ask(sync))
       <==> user != "" && passwd != ""
  {
    hide GetAuthRun, ValidTag, LiteralLines;
    LiteralTurn(tag, user, passwd, sync, tail, listen, ssl, capability);
    var bad := Say(tag, "BAD", LOGIN_USAGE);
    RefusalBegins(tag, LOGIN_USAGE);
    if user == "" {
      var more := GetAuthRun(passwd + tail, listen, ssl, capability).said;
      NotAsked(tag, bad, more, sync);
    } else if passwd == "" {
      var more := GetAuthRun(tail, listen, ssl, capability).said;
      var ask := Ask(sync);
      assert |ask + (ask + bad) + more| > |ask + ask|;
    }
  }

  /** A refusal is not taken for the request to go on, whatever its tag. */
  lemma RefusalBegins(tag: string, reason: string)
    requires ValidTag(tag)
    ensures var bad := Say(tag, "BAD", reason); |bad| > 2 && (bad[1] != ' ' || bad[2] != 'O')
  {
    assert |tag| > 1 ==> !Reserved(tag[1]);
  }

  lemma NotAsked(tag: string, bad: string, more: string, sync: bool)
    requires |bad| > 2 && (bad[1] != ' ' || bad[2] != 'O')
    ensures Ask(sync) + bad + more != Ask(sync) + Ask(sync)
  {
    var a := Ask(sync);
    assert |a + bad + more| > |a| && forall i | 0 <= i < 3 :: (a + bad + more)[|a| + i] == bad[i];
    if sync {
      assert forall i | 0 <= i < 3 :: (a + a)[|a| + i] == a[i];
      assert a[1] == ' ' && a[2] == 'O';
    }
  }
}
