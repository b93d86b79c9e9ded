/** LOGIN with arguments that are neither quoted nor literals. */
module Imap4Plain {
  import AcapToken
  import Numbers
  import opened ClientAuth
  import opened Delimiters
  import opened Imap4In
  import opened Imap4Login
  import opened ImapTag
  import opened Lines
  import opened Refusals
  import opened Text
  import opened Tokenizer
  import opened Unescape

  // ----- what a word decodes to -----

  /** A quote at either end. */
  predicate Wrapped(w: string) {
    w != "" && w[0] == '\"' && w[|w| - 1] == '\"'
  }

  /** A backslash in front of a quote or of another. */
  predicate HasEscape(w: string) {
    exists i: nat :: i + 1 < |w| && w[i] == '\\' && (w[i + 1] == '\"' || w[i + 1] == '\\')
  }

  lemma {:induction false} ReplaceShortens(s: string, m: string, r: string)
    requires |m| == 2 && |r| == 1
    ensures |Replace(s, m, r)| <= |s|
    ensures |Replace(s, m, r)| == |s| <==> forall i: nat :: !At(s, i, m)
    ensures |Replace(s, m, r)| == |s| ==> Replace(s, m, r) == s
    decreases |s|
  {
    if s != "" {
      if At(s, 0, m) {
        ReplaceShortens(s[2..], m, r);
      } else {
        ReplaceShortens(s[1..], m, r);
        forall i: nat ensures At(s, i + 1, m) <==> At(s[1..], i, m) {
          AtDrop(s, 1, i, m);
        }
        assert (forall i: nat :: !At(s, i, m)) <==> forall i: nat :: !At(s[1..], i, m) by {
          SkipFirst(s, m);
        }
      }
    }
  }

  lemma SkipFirst(s: string, m: string)
    requires s != "" && !At(s, 0, m)
    ensures (forall i: nat :: !At(s, i, m)) <==> forall i: nat :: !At(s[1..], i, m)
  {
    forall i: nat ensures At(s, i + 1, m) <==> At(s[1..], i, m) {
      AtDrop(s, 1, i, m);
    }
    if forall i: nat :: !At(s[1..], i, m) {
      forall i: nat ensures !At(s, i, m) {
        if i > 0 {
          assert !At(s[1..], i - 1, m);
        }
      }
    }
    if forall i: nat :: !At(s, i, m) {
      forall i: nat ensures !At(s[1..], i, m) {
        assert !At(s, i + 1, m);
      }
    }
  }

  lemma PairAt(w: string, i: nat, c: char)
    ensures At(w, i, ['\\', c]) <==> i + 1 < |w| && w[i] == '\\' && w[i + 1] == c
  {
    if i + 2 <= |w| {
      assert w[i..i + 2] == [w[i], w[i + 1]];
    }
  }

  /** A word stands for itself exactly when it has no quote at both ends and no escape;
      and it never decodes to anything longer. */
  lemma WordDecodes(w: string, flag: Flag)
    requires CString(w)
    ensures Decode(Token(w, flag), true) == w <==> !Wrapped(w) && !HasEscape(w)
    ensures |Decode(Token(w, flag), true)| <= |w|
  {
    hide Replace, At;
    var b := Bare(w);
    assert |b| <= |w| && (Wrapped(w) ==> |b| < |w|) && (!Wrapped(w) ==> b == w);
    BareIsString(w);
    CStrOfCString(b);
    ReplaceShortens(b, [BACKSLASH, QUOTE], [QUOTE]);
    ReplaceShortens(FirstPass(b), [BACKSLASH, BACKSLASH], [BACKSLASH]);
    EscapeIs(b);
    if !Wrapped(w) && |FirstPass(b)| == |b| && |SecondPass(b)| == |b| {
      assert Decode(Token(w, flag), true) == w;
    }
  }

  lemma EscapeIs(b: string)
    ensures !HasEscape(b) <==>
              (forall i: nat :: !At(b, i, [BACKSLASH, QUOTE])) && forall i: nat :: !At(b, i, [BACKSLASH, BACKSLASH])
  {
    hide At;
    if HasEscape(b) {
      var i: nat :| i + 1 < |b| && b[i] == '\\' && (b[i + 1] == '\"' || b[i + 1] == '\\');
      PairAt(b, i, '\"');
      PairAt(b, i, '\\');
    } else {
      forall i: nat ensures !At(b, i, [BACKSLASH, QUOTE]) && !At(b, i, [BACKSLASH, BACKSLASH]) {
        PairAt(b, i, '\"');
        PairAt(b, i, '\\');
        assert !(i + 1 < |b| && b[i] == '\\' && (b[i + 1] == '\"' || b[i + 1] == '\\'));
      }
    }
  }

  lemma BareIsString(w: string)
    requires CString(w)
    ensures CString(Bare(w))
  {
  }

  // ----- LOGIN -----

  /** What FormOf takes for a literal's length: digits in braces, with or without a plus. */
  predicate LengthLike(w: string) {
    && |w| >= 2 && w[0] == '{' && w[|w| - 1] == '}'
    && forall i | 0 < i < |w| - 1 :: IsDigit(w[i]) || (i == |w| - 2 && w[i] == '+')
  }

  lemma PasswordForm(w: string)
    requires CString(w) && !Wrapped(w)
    ensures FormOf(Token(w, Eol)).QuotedString? <==> !LengthLike(w)
  {
    hide AcapToken.Strtoul;
    CStrOfCString(w);
    assert Bare(w) == w;
    if |w| >= 2 && w[0] == '{' && w[|w| - 1] == '}' {
      DigitsBetween(w);
    }
  }

  lemma DigitsBetween(w: string)
    requires |w| >= 2 && w[0] == '{' && w[|w| - 1] == '}'
    ensures var digits := w[1..if w[|w| - 2] == '+' then |w| - 2 else |w| - 1];
            AllDigits(digits) <==> LengthLike(w)
  {
    var n := if w[|w| - 2] == '+' then |w| - 2 else |w| - 1;
    var digits := w[1..n];
    if LengthLike(w) {
      forall i | 0 <= i < |digits| ensures IsDigit(digits[i]) {
        assert digits[i] == w[i + 1];
      }
    } else {
      var i :| 0 < i < |w| - 1 && !IsDigit(w[i]) && !(i == |w| - 2 && w[i] == '+');
      assert digits[i - 1] == w[i];
    }
  }

  /** A string that can be sent as it is: no quote, no line end, no NUL. */
  predicate Sayable(w: string) {
    CString(w) && '\"' !in w && '\r' !in w && '\n' !in w
  }

  /** A word among the arguments that comes back as it was sent. */
  predicate Plainly(w: string) {
    w != "" && ' ' !in w && !HasEscape(w) && |w| < MAX_LINE_LENGTH
  }

  lemma PlainLoginSucceeds(tag: string, user: string, passwd: string, tail: string,
                           listen: bool, ssl: bool, capability: string)
    requires ValidTag(tag) && |tag| < MAX_LINE_LENGTH && Sayable(user) && Sayable(passwd)
    requires Plainly(user) && Plainly(passwd) && !LengthLike(passwd)
    ensures GetAuthRun(LoginLine(tag, user + " " + passwd) + CRLF + tail, listen, ssl, capability) ==
              Run(LoggedIn(Auth(None, user, passwd), tag), tail, "")
  {
    hide FormOf, Decode, ValidTag, GetAuthRun, Act, Split, ScanLine, Marked;
    TwoPlainWords(user, passwd);
    LoginTokens(tag, user + " " + passwd, tail);
    assert [tag, "LOGIN"] + [user, passwd] == [tag, "LOGIN", user, passwd];
    MarkedFour(tag, "LOGIN", user, passwd);
    NotWrapped(user);
    NotWrapped(passwd);
    WordDecodes(user, Plain);
    WordDecodes(passwd, Eol);
    PasswordForm(passwd);
    NameForm(user);
    LoginAct(tag, "LOGIN", user, passwd, tail, listen, ssl, capability);
    GetAuthStep(LoginLine(tag, user + " " + passwd) + CRLF + tail, listen, ssl, capability);
  }

  lemma NotWrapped(w: string)
    requires '\"' !in w
    ensures !Wrapped(w)
  {
  }

  lemma NameForm(w: string)
    ensures FormOf(Token(w, Plain)).QuotedString?
  {
  }

  lemma TwoPlainWords(a: string, b: string)
    requires ' ' !in a && '\"' !in a && ' ' !in b && '\"' !in b
    ensures Split(a + " " + b, IMAP4) == [a, b]
    ensures Short([a, b]) <==> |a| < MAX_LINE_LENGTH && |b| < MAX_LINE_LENGTH
  {
    hide Pieces;
    PlainWord(a);
    SplitHead(a, b);
    PiecesOfWord(b);
    assert [a] + [b] == [a, b];
    assert [a, b][0] == a && [a, b][1] == b;
  }

  /** Without quotes no token holds a space. */
  lemma {:induction false} NoSpaces(s: string, acc: string)
    requires '\"' !in s && ' ' !in acc
    ensures forall i | 0 <= i < |Chop(s, acc, false, true)| :: ' ' !in Chop(s, acc, false, true)[i].buf
    decreases |s|, |acc|
  {
    if |acc| >= MAX_LINE_LENGTH {
      NoSpaces(s, "");
    } else if s != "" && s[0] == ' ' {
      NoSpaces(s[1..], "");
    } else if s != "" {
      NoSpaces(s[1..], acc + [s[0]]);
    }
  }

  lemma {:induction false} LastIsEol(s: string, acc: string, quoted: bool, quotes: bool)
    ensures var q := Chop(s, acc, quoted, quotes); q[|q| - 1].flag == Eol
    decreases |s|, |acc|
  {
    if |acc| >= MAX_LINE_LENGTH {
      LastIsEol(s, "", false, quotes);
    } else if s != "" && s[0] == ' ' && !quoted {
      LastIsEol(s[1..], "", false, quotes);
    } else if s != "" {
      LastIsEol(s[1..], acc + [s[0]], quoted != (s[0] == '\"' && quotes), quotes);
    }
  }

  lemma OnlyCut(a: string, gap: string, b: string, user: string, passwd: string)
    requires ' ' !in a && ' ' !in b && (gap == "" || gap == " ")
    requires a + gap + b == user + " " + passwd && |user| <= |a| && |passwd| <= |b| && b != ""
    ensures gap == " " && a == user && b == passwd
  {
    var s := user + " " + passwd;
    assert s[|user|] == ' ';
    assert forall i | 0 <= i < |a| :: (a + gap + b)[i] == a[i];
    assert |a| == |user|;
    assert a == s[..|a|] == user;
    assert gap + b == s[|a|..] == " " + passwd;
    assert (gap + b)[0] == ' ' && b[0] in b;
    assert gap == " ";
    assert b == s[|a| + 1..] == passwd;
  }

  lemma PlainLoginNeeds(tag: string, user: string, passwd: string, tail: string,
                        listen: bool, ssl: bool, capability: string)
    requires ValidTag(tag) && Sayable(user) && Sayable(passwd)
    requires GetAuthRun(LoginLine(tag, user + " " + passwd) + CRLF + tail, listen, ssl, capability) ==
               Run(LoggedIn(Auth(None, user, passwd), tag), tail, "")
    ensures |tag| < MAX_LINE_LENGTH && Plainly(user) && Plainly(passwd) && !LengthLike(passwd)
  {
    hide FormOf, Decode, ValidTag, GetAuthRun, Chop, Glue, Is;
    var args := user + " " + passwd;
    var line := LoginLine(tag, args);
    LoginLineTokens(tag, args, user, passwd, tail, listen, ssl, capability);
    var q := Chop(line, "", false, true);
    TagHasNoQuote(tag);
    NoSpaces(line, "");
    GlueOfChop(line, "", false, true);
    LastIsShort(line, "", false, true);
    LastIsEol(line, "", false, true);
    assert "" + line == line && q == [q[0], q[1], q[2], q[3]];
    GlueFour(q[0], q[1], q[2], q[3]);
    LoginLineCuts(tag, args, q[1], q[2], q[3], Gap(q[0]));
    ArgumentsArePlain(user, passwd, q[2], q[3]);
    PasswordForm(passwd);
    assert q[3] == Token(passwd, Eol);
  }

  lemma TagHasNoQuote(tag: string)
    requires ValidTag(tag)
    ensures '\"' !in tag
  {
    assert Reserved('\"');
  }

  lemma ArgumentsArePlain(user: string, passwd: string, c: Token, d: Token)
    requires Sayable(user) && Sayable(passwd) && ' ' !in c.buf && ' ' !in d.buf && d.buf != "" && c.buf != ""
    requires c.buf + Gap(c) + d.buf == user + " " + passwd
    requires Decode(c, true) == user && Decode(d, true) == passwd
    ensures c.buf == user && d.buf == passwd && |user| < MAX_LINE_LENGTH
    ensures !HasEscape(user) && !HasEscape(passwd)
  {
    hide Decode, HasEscape;
    PartsAreCString(user + " " + passwd, c.buf, Gap(c), d.buf);
    WordDecodes(c.buf, c.flag);
    WordDecodes(d.buf, d.flag);
    OnlyCut(c.buf, Gap(c), d.buf, user, passwd);
  }

  /** A LOGIN of two words as they are gives back exactly these words, and nothing more is
      said or read, if and only if they are words, nothing in them is an escape, no token
      fills the buffer, and the password does not look like a literal's length. */
  lemma PlainLogin(tag: string, user: string, passwd: string, tail: string,
                   listen: bool, ssl: bool, capability: string)
    requires ValidTag(tag) && Sayable(user) && Sayable(passwd)
    ensures GetAuthRun(tag + " LOGIN " + user + " " + passwd + CRLF + tail, listen, ssl, capability) ==
              Run(LoggedIn(Auth(None, user, passwd), tag), tail, "")
       <==> |tag| < MAX_LINE_LENGTH && Plainly(user) && Plainly(passwd) && !LengthLike(passwd)
  {
    hide GetAuthRun, ValidTag, Plainly, LengthLike;
    var input := LoginLine(tag, user + " " + passwd) + CRLF + tail;
    assert tag + " LOGIN " + user + " " + passwd + CRLF + tail == input;
    if GetAuthRun(input, listen, ssl, capability) == Run(LoggedIn(Auth(None, user, passwd), tag), tail, "") {
      PlainLoginNeeds(tag, user, passwd, tail, listen, ssl, capability);
    }
    if |tag| < MAX_LINE_LENGTH && Plainly(user) && Plainly(passwd) && !LengthLike(passwd) {
      PlainLoginSucceeds(tag, user, passwd, tail, listen, ssl, capability);
    }
  }

  /** The command's word may be in lower case. */
  lemma LowerCaseLogin(tail: string, listen: bool, ssl: bool, capability: string)
    ensures GetAuthRun("a login bob secret" + CRLF + tail, listen, ssl, capability) ==
              Run(LoggedIn(Auth(None, "bob", "secret"), "a"), tail, "")
  {
    hide FormOf, Decode, ValidTag, GetAuthRun, Act, Split, ScanLine, Marked, Plainly;
    var line := "a login bob secret" + CRLF;
    var words := ["a", "login", "bob", "secret"];
    BobsWords();
    BobsSplit();
    Imap4Words("a login bob secret", line, words, tail, 0);
    MarkedFour("a", "login", "bob", "secret");
    WordDecodes("bob", Plain);
    WordDecodes("secret", Eol);
    PasswordForm("secret");
    NameForm("bob");
    LoginAct("a", "login", "bob", "secret", tail, listen, ssl, capability);
    GetAuthStep(line + tail, listen, ssl, capability);
  }

  lemma BobsWords()
    ensures ValidTag("a") && SameIgnoringCase("login", "LOGIN")
    ensures CString("bob") && CString("secret") && !Wrapped("bob") && !Wrapped("secret")
    ensures !HasEscape("bob") && !HasEscape("secret") && !LengthLike("secret")
  {
  }

  lemma BobsSplit()
    ensures Split("a login bob secret", IMAP4) == ["a", "login", "bob", "secret"]
  {
    hide Pieces;
    assert "a login bob secret" == "a" + " " + "login bob secret";
    assert "login bob secret" == "login" + " " + "bob secret";
    assert "bob secret" == "bob" + " " + "secret";
    PlainWord("a");
    PlainWord("login");
    SplitHead("a", "login bob secret");
    SplitHead("login", "bob secret");
    TwoPlainWords("bob", "secret");
  }

  /** A literal's length is waited behind unless it has a plus. */
  lemma LengthForms()
    ensures FormOf(Token("{3}", Eol)) == Literal(3, true)
    ensures FormOf(Token("{3+}", Eol)) == Literal(3, false)
    ensures GO_AHEAD == "+ OK " + "ready for additional input" + "\r\n"
  {
    hide FormOf, Announce;
    LengthTexts();
    HeadForm(3, true);
    HeadForm(3, false);
    SaysMore("ready for additional input");
    assert "ready for additional input" != "";
  }

  lemma LengthTexts()
    ensures Announce(3, true) == "{3}" && Announce(3, false) == "{3+}"
  {
    assert Numbers.Decimal(3) == "3";
    assert "{" + "3" + "" + "}" == "{3}" && "{" + "3" + "+" + "}" == "{3+}";
  }

  lemma SaysMore(text: string)
    requires text != ""
    ensures Say("+", "OK", text) == "+ OK " + text + "\r\n"
  {
    assert "+" + " " + "OK" + (" " + text) + CRLF == "+ OK " + text + "\r\n";
  }
}
