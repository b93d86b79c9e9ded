/** str_replace of str.c, and imap4_token_to_string of imap4_in.c: an IMAP4
    quoted string unescaped by two replacements in place. */
module Unescape {
  import opened AcapRoundTrip
  import opened Buffers
  import opened Lines
  import opened Text
  import opened Tokenizer

  // ----- str_replace -----

  /** The leftmost non-overlapping occurrences of `m` in `s` replaced by `r`. */
  function Replace(s: string, m: string, r: string): string
    requires m != ""
    decreases |s|
  {
    if s == "" then ""
    else if At(s, 0, m) then r + Replace(s[|m|..], m, r)
    else [s[0]] + Replace(s[1..], m, r)
  }

  lemma {:induction false} ReplaceAt(s: string, k: nat, m: string, r: string)
    requires m != "" && k <= |s| && forall i: nat | i < k :: !At(s, i, m)
    ensures Replace(s, m, r) == s[..k] + Replace(s[k..], m, r)
    decreases k
  {
    if k > 0 {
      forall i: nat | i < k - 1 ensures !At(s[1..], i, m) {
        AtDrop(s, 1, i, m);
      }
      ReplaceAt(s[1..], k - 1, m, r);
      PrependSlice(s, k);
      assert Replace(s, m, r) == [s[0]] + (s[1..][..k - 1] + Replace(s[k..], m, r)) by {
        assert !At(s, 0, m);
      }
    }
  }

  lemma PrependSlice(s: string, k: nat)
    requires 0 < k <= |s|
    ensures s[..k] == [s[0]] + s[1..][..k - 1] && s[1..][k - 1..] == s[k..]
  {
  }

  /** One occurrence found from the cursor `p` of the text `s`. */
  lemma ReplaceStep(s: string, p: nat, hit: nat, m: string, r: string)
    requires m != "" && p <= hit && At(s, hit, m) && forall i: nat | p <= i < hit :: !At(s, i, m)
    ensures Replace(s[p..], m, r) == s[p..hit] + r + Replace(s[hit + |m|..], m, r)
  {
    hide Replace;
    var u := s[p..];
    forall i: nat | i < hit - p ensures !At(u, i, m) {
      AtDrop(s, p, i, m);
    }
    ReplaceAt(u, hit - p, m, r);
    assert u[hit - p..] == s[hit..] && u[..hit - p] == s[p..hit];
    ReplaceHere(s, hit, m, r);
  }

  lemma ReplaceNone(s: string, p: nat, m: string, r: string)
    requires m != "" && p <= |s| && forall i: nat | p <= i :: !At(s, i, m)
    ensures Replace(s[p..], m, r) == s[p..]
  {
    var u := s[p..];
    forall i: nat | i < |u| ensures !At(u, i, m) {
      AtDrop(s, p, i, m);
    }
    ReplaceAt(u, |u|, m, r);
    assert u[..|u|] == u && u[|u|..] == "";
  }

  lemma ReplaceHere(s: string, hit: nat, m: string, r: string)
    requires m != "" && At(s, hit, m)
    ensures Replace(s[hit..], m, r) == r + Replace(s[hit + |m|..], m, r)
  {
    assert s[hit..][0..|m|] == s[hit..hit + |m|] && s[hit..][|m|..] == s[hit + |m|..];
  }

  /** A substitution no longer than what it replaces. */
  datatype Substitution = Substitution(match_: string, subst: string) {
    predicate Shrinks() { match_ != "" && |subst| <= |match_| }
  }

  function ReplaceAll(s: string, subs: seq<Substitution>): string
    requires forall i | 0 <= i < |subs| :: subs[i].Shrinks()
    decreases |subs|
  {
    if subs == [] then s
    else
      assert subs[0].Shrinks();
      ReplaceAll(Replace(s, subs[0].match_, subs[0].subst), subs[1..])
  }

  /** An occurrence at `hit` gives way to `r`: memmove, then memcpy. */
  method Substitute(a: array<char>, len: nat, hit: nat, m: nat, r: string) returns (len': nat)
    requires hit + m <= len < a.Length && a[len] == '\0' && |r| <= m
    modifies a
    ensures len' == len - m + |r| && a[len'] == '\0'
    ensures a[..len'] == old(a[..len])[..hit] + r + old(a[..len])[hit + m..]
  {
    ghost var s := a[..len];
    len' := len - (m - |r|);
    if |r| < m {
      CutOut(a, len, hit, hit + (m - |r|));
    }
    ghost var tail := a[hit + |r|..];
    assert a[..len'][hit + |r|..] == s[hit + m..] == tail[..len' - hit - |r|];
    assert a[..hit] == s[..hit] by {
      assert a[..len'][..hit] == s[..hit];
    }
    Copy(a, hit, r);
    assert a[hit + |r|..] == tail && a[len'] == tail[len' - hit - |r|];
    assert a[..len'] == a[..hit + |r|] + tail[..len' - hit - |r|];
  }

  /** One match/substitute pair of str_replace. */
  method ReplaceOne(a: array<char>, len: nat, x: Substitution) returns (len': nat)
    requires len < a.Length && a[len] == '\0' && x.Shrinks()
    modifies a
    ensures len' <= len && a[len'] == '\0' && a[..len'] == Replace(old(a[..len]), x.match_, x.subst)
  {
    hide Replace, Find, At;
    var p: nat := 0;
    len' := len;
    ghost var goal := Replace(a[..len], x.match_, x.subst);
    assert a[..len][0..] == a[..len];
    while true
      invariant p <= len' <= len && a[len'] == '\0'
      invariant goal == a[..len'][..p] + Replace(a[..len'][p..], x.match_, x.subst)
      decreases len' - p
    {
      ghost var s := a[..len'];
      var hit := Find(a[..len'], p, x.match_);
      if hit.None? {
        ReplaceNone(s, p, x.match_, x.subst);
        assert s == s[..p] + s[p..];
        break;
      }
      ReplaceStep(s, p, hit.value, x.match_, x.subst);
      ghost var before, after := s[..hit.value] + x.subst, s[hit.value + |x.match_|..];
      assert s[..p] + (s[p..hit.value] + x.subst) == before;
      len' := Substitute(a, len', hit.value, |x.match_|, x.subst);
      p := hit.value + |x.subst|;
      assert a[..len'][..p] == before && a[..len'][p..] == after;
    }
  }

  /** str_replace: the pairs in order, each over the whole string, all in place. */
  method StrReplace(a: array<char>, len: nat, subs: seq<Substitution>) returns (len': nat)
    requires len < a.Length && a[len] == '\0'
    requires forall i | 0 <= i < |subs| :: subs[i].Shrinks()
    modifies a
    ensures len' <= len && a[len'] == '\0' && a[..len'] == ReplaceAll(old(a[..len]), subs)
  {
    len' := len;
    assert subs[0..] == subs;
    for i := 0 to |subs|
      invariant len' <= len && a[len'] == '\0'
      invariant ReplaceAll(old(a[..len]), subs) == ReplaceAll(a[..len'], subs[i..])
    {
      assert subs[i..][1..] == subs[i + 1..];
      len' := ReplaceOne(a, len', subs[i]);
    }
  }

  // ----- IMAP4 quoted strings, section 9 of RFC 3501 -----

  const QUOTE := '\"'
  const BACKSLASH := '\\'

  function Escape(s: string): string {
    if s == "" then ""
    else (if s[0] == QUOTE || s[0] == BACKSLASH then [BACKSLASH, s[0]] else [s[0]]) + Escape(s[1..])
  }

  /** The body of a quoted string: no bare quote, every backslash escaping. */
  predicate Body(b: string)
    decreases |b|
  {
    if b == "" then true
    else if b[0] == BACKSLASH then |b| > 1 && (b[1] == QUOTE || b[1] == BACKSLASH) && Body(b[2..])
    else b[0] != QUOTE && Body(b[1..])
  }

  /** One left-to-right pass. */
  function Unescaped(b: string): string
    requires Body(b)
    decreases |b|
  {
    if b == "" then ""
    else if b[0] == BACKSLASH then [b[1]] + Unescaped(b[2..])
    else [b[0]] + Unescaped(b[1..])
  }

  lemma {:induction false} EscapeInverse(s: string)
    ensures Body(Escape(s)) && Unescaped(Escape(s)) == s
  {
    if s != "" {
      EscapeInverse(s[1..]);
      var e := Escape(s);
      if s[0] == QUOTE || s[0] == BACKSLASH {
        assert e[2..] == Escape(s[1..]);
      } else {
        assert e[1..] == Escape(s[1..]);
      }
      assert [s[0]] + s[1..] == s;
    }
  }

  /** imap4_token_to_string's substitutions. */
  const UNESCAPE := [Substitution([BACKSLASH, QUOTE], [QUOTE]), Substitution([BACKSLASH, BACKSLASH], [BACKSLASH])]

  function FirstPass(b: string): string { Replace(b, [BACKSLASH, QUOTE], [QUOTE]) }
  function SecondPass(b: string): string { Replace(b, [BACKSLASH, BACKSLASH], [BACKSLASH]) }

  lemma ReplaceHead(c: char, t: string, m: string, r: string)
    requires |m| == 2
    ensures t != "" && m == [c, t[0]] ==> Replace([c] + t, m, r) == r + Replace(t[1..], m, r)
    ensures t == "" || m != [c, t[0]] ==> Replace([c] + t, m, r) == [c] + Replace(t, m, r)
  {
    var s := [c] + t;
    assert s[1..] == t;
    if t != "" {
      assert s[0..2] == [c, t[0]] && s[2..] == t[1..];
    }
  }

  /** The two passes in place are one left-to-right unescape: neither sees a
      sequence the other made. */
  lemma {:induction false} TwoPassesAreOne(b: string)
    requires Body(b)
    ensures SecondPass(FirstPass(b)) == Unescaped(b)
    decreases |b|
  {
    if b != "" {
      var t := b[1..];
      assert b == [b[0]] + t;
      ReplaceHead(b[0], t, [BACKSLASH, QUOTE], [QUOTE]);
      if b[0] != BACKSLASH {
        TwoPassesAreOne(t);
        ReplaceHead(b[0], FirstPass(t), [BACKSLASH, BACKSLASH], [BACKSLASH]);
      } else {
        var u := b[2..];
        TwoPassesAreOne(u);
        assert t == [b[1]] + u && t[1..] == u;
        if b[1] == QUOTE {
          ReplaceHead(QUOTE, FirstPass(u), [BACKSLASH, BACKSLASH], [BACKSLASH]);
        } else {
          ReplaceHead(BACKSLASH, u, [BACKSLASH, QUOTE], [QUOTE]);
          assert FirstPass(b) == [BACKSLASH] + ([BACKSLASH] + FirstPass(u));
          ReplaceHead(BACKSLASH, [BACKSLASH] + FirstPass(u), [BACKSLASH, BACKSLASH], [BACKSLASH]);
          assert ([BACKSLASH] + FirstPass(u))[1..] == FirstPass(u);
        }
      }
    }
  }

  lemma UnescapeIsTwoPasses(b: string)
    ensures forall i | 0 <= i < |UNESCAPE| :: UNESCAPE[i].Shrinks()
    ensures ReplaceAll(b, UNESCAPE) == SecondPass(FirstPass(b))
  {
    var rest := UNESCAPE[1..];
    assert rest == [UNESCAPE[1]] && rest[1..] == [];
    assert ReplaceAll(b, UNESCAPE) == ReplaceAll(FirstPass(b), rest);
    assert ReplaceAll(FirstPass(b), rest) == ReplaceAll(SecondPass(FirstPass(b)), rest[1..]);
  }

  // ----- from token to string -----

  /** token_to_string with '"' as the character to strip. A token of one quote
      alone makes its length wrap. */
  function Stripped(b: string): string
    requires b != "\""
  {
    if b != "" && b[0] == QUOTE && b[|b| - 1] == QUOTE then b[1..|b| - 1] else b
  }

  /** imap4_token_to_string. */
  method TokenToString(t: Token, quoted: bool) returns (str: string)
    requires quoted ==> t.buf != "\""
    ensures str == if quoted then SecondPass(FirstPass(CStr(Stripped(t.buf)))) else CStr(t.buf)
  {
    if !quoted {
      return CStr(t.buf);
    }
    var b := CStr(Stripped(t.buf));
    var a := new char[|b| + 1](_ => '\0');
    Copy(a, 0, b);
    assert a[..|b|] == b;
    UnescapeIsTwoPasses(b);
    var len := StrReplace(a, |b|, UNESCAPE);
    return a[..len];
  }

  lemma {:induction false} EscapeKeepsCString(s: string)
    requires CString(s)
    ensures CString(Escape(s))
  {
    if s != "" {
      assert s[0] in s && forall c | c in s[1..] :: c in s;
      EscapeKeepsCString(s[1..]);
    }
  }

  /** Decoding inverts quoting, for every string. */
  lemma DecodeInvertsQuote(s: string)
    requires CString(s)
    ensures var b := "\"" + Escape(s) + "\"";
            b != "\"" && SecondPass(FirstPass(CStr(Stripped(b)))) == s
  {
    var b := "\"" + Escape(s) + "\"";
    assert b[1..|b| - 1] == Escape(s);
    EscapeKeepsCString(s);
    CStrOfCString(Escape(s));
    EscapeInverse(s);
    TwoPassesAreOne(Escape(s));
  }

  /** A quoted LOGIN argument reaches its decoder in one token exactly when every
      space of it stands at an odd number of quotes, escaped ones included; and it
      then decodes to the string that was quoted. */
  lemma QuotedArgument(s: string)
    requires CString(s)
    ensures var arg := "\"" + Escape(s) + "\"";
            && (Split(arg, IMAP4) == [arg] <==> Whole(Escape(s), true))
            && (Split(arg, IMAP4) == [arg] ==> SecondPass(FirstPass(CStr(Stripped(Split(arg, IMAP4)[0])))) == s)
  {
    QuotedSplit(Escape(s));
    DecodeInvertsQuote(s);
  }
}
