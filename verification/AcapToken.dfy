/** acap_token.c: ManageSieve atoms, quoted strings and literals read from the
    wire, and the round trip with the printer. */
module AcapToken {
  import opened Numbers
  import opened Text
  import opened Tokenizer

  const ACAP_QUOTED_MAX := 1024
  const ACAP_ATOM_MAX := 1024
  const ACAP_LITERAL_MAX := 0x1_0000_0000
  const ULONG_MAX := 0xFFFF_FFFF_FFFF_FFFF

  // ----- character classes; `signed` says whether the platform's char is signed -----

  function Ord(c: char, signed: bool): int {
    if signed && 128 <= c as int < 256 then c as int - 256 else c as int
  }

  predicate AtomChar(c: int) {
    c == 0x21 || 0x23 <= c <= 0x27 || 0x2A <= c <= 0x5B || 0x5D <= c <= 0x7A || 0x7C <= c <= 0x7E
  }

  predicate QuotedSpecial(c: int) { c == 0x22 || c == 0x5C }
  predicate Utf8Tail(c: int) { 0x80 <= c <= 0xBF }
  predicate Utf8Two(c0: int, c1: int) { 0xC0 <= c0 <= 0xDF && Utf8Tail(c1) }
  predicate Utf8Three(c0: int, c1: int, c2: int) {
    c0 >= 0xE0 && c1 <= 0xEF && Utf8Tail(c1) && Utf8Tail(c2)
  }
  predicate Utf8Four(c0: int, c1: int, c2: int, c3: int) {
    c0 >= 0xF0 && c1 <= 0xF7 && Utf8Tail(c1) && Utf8Tail(c2) && Utf8Tail(c3)
  }
  predicate SafeChar(c: int) { c != 0 && c <= 0x7f && !QuotedSpecial(c) }

  /** quoted_char: the bytes of the next character, 0 when there is none. */
  function QuotedChar(s: string, signed: bool): (n: nat)
    ensures n <= |s|
  {
    var o := (i: nat) requires i < |s| => Ord(s[i], signed);
    if |s| > 0 && SafeChar(o(0)) then 1
    else if |s| > 1 && Utf8Two(o(0), o(1)) then 2
    else if |s| > 2 && Utf8Three(o(0), o(1), o(2)) then 3
    else if |s| > 3 && Utf8Four(o(0), o(1), o(2), o(3)) then 4
    else if |s| > 1 && s[0] == '\\' && QuotedSpecial(o(1)) then 2
    else 0
  }

  /** A run of characters that may stand between the quotes. */
  predicate QuotedBody(s: string, signed: bool)
    decreases |s|
  {
    s == "" || (var n := QuotedChar(s, signed); n > 0 && QuotedBody(s[n..], signed))
  }

  predicate IsQuoted(buf: string, signed: bool) {
    && 2 <= |buf| <= ACAP_QUOTED_MAX && buf[0] == '\"' && buf[|buf| - 1] == '\"'
    && QuotedBody(buf[1..|buf| - 1], signed)
  }

  predicate IsAtom(buf: string, signed: bool) {
    |buf| <= ACAP_ATOM_MAX && forall i | 0 <= i < |buf| :: AtomChar(Ord(buf[i], signed))
  }

  /** acap_strn_is_atom. */
  method StrnIsAtom(buf: string, signed: bool) returns (r: bool)
    ensures r == IsAtom(buf, signed)
  {
    if |buf| > ACAP_ATOM_MAX {
      return false;
    }
    for i := 0 to |buf|
      invariant forall j | 0 <= j < i :: AtomChar(Ord(buf[j], signed))
    {
      if !AtomChar(Ord(buf[i], signed)) {
        return false;
      }
    }
    return true;
  }

  /** acap_strn_is_quoted. */
  method StrnIsQuoted(buf: string, signed: bool) returns (r: bool)
    ensures r == IsQuoted(buf, signed)
  {
    var n := |buf|;
    if n < 2 || n > ACAP_QUOTED_MAX || buf[0] != '\"' || buf[n - 1] != '\"' {
      return false;
    }
    var i := 1;
    while i < n - 1
      invariant 1 <= i <= n - 1
      invariant QuotedBody(buf[1..n - 1], signed) == QuotedBody(buf[i..n - 1], signed)
    {
      var j := QuotedChar(buf[i..n - 1], signed);
      if j == 0 {
        return false;
      }
      assert buf[i..n - 1][j..] == buf[i + j..n - 1];
      i := i + j;
    }
    return true;
  }

  /** The characters of an atom, where char is unsigned. */
  lemma AtomMeaning(buf: string)
    ensures IsAtom(buf, false) <==>
              |buf| <= 1024 && forall c | c in buf ::
                c == '!' || '#' <= c <= '\'' || '*' <= c <= '[' || ']' <= c <= 'z' || '|' <= c <= '~'
  {
    if !IsAtom(buf, false) && |buf| <= 1024 {
      var i :| 0 <= i < |buf| && !AtomChar(Ord(buf[i], false));
      assert buf[i] in buf;
    }
  }

  predicate Safe(a: char) { 1 <= a as int <= 0x7f && a != '\"' && a != '\\' }
  predicate TailByte(a: char) { 0x80 <= a as int <= 0xBF }

  /** What may stand between quotes, where char is unsigned: 7-bit characters but the two
      special ones, these behind a backslash, and the UTF-8 sequences of up to four bytes,
      of which the longer ones are told by their first byte from below alone. */
  lemma QuotedCharMeaning(a: char, b: char, c: char, d: char)
    ensures QuotedChar([a], false) == if Safe(a) then 1 else 0
    ensures QuotedChar([a, b], false) ==
              if Safe(a) then 1
              else if 0xC0 <= a as int <= 0xDF && TailByte(b) then 2
              else if a == '\\' && (b == '\"' || b == '\\') then 2
              else 0
    ensures QuotedChar([a, b], false) == 0 ==>
              QuotedChar([a, b, c], false) == if a as int >= 0xE0 && TailByte(b) && TailByte(c) then 3 else 0
    ensures QuotedChar([a, b], false) == 0 && QuotedChar([a, b, c], false) == 0 ==>
              QuotedChar([a, b, c, d], false) ==
                if a as int >= 0xF0 && b as int <= 0xF7 && TailByte(b) && TailByte(c) && TailByte(d) then 4 else 0
    ensures QuotedChar([a, b, c], false) != 0 ==> QuotedChar([a, b, c, d], false) == QuotedChar([a, b, c], false)
  {
  }

  // ----- strtoul -----

  predicate IsSpace(c: char) { c == ' ' || '\t' <= c <= '\r' }

  function SkipSpace(s: string, i: nat): (r: nat)
    requires i <= |s|
    ensures i <= r <= |s|
    decreases |s| - i
  {
    if i < |s| && IsSpace(s[i]) then SkipSpace(s, i + 1) else i
  }

  /** strtoul(s, &end, 10) with a 64-bit unsigned long: value and end offset. */
  function Strtoul(s: string): (r: (nat, nat))
    ensures r.1 <= |s| && r.0 <= ULONG_MAX
  {
    var i := SkipSpace(s, 0);
    var j := if i < |s| && (s[i] == '+' || s[i] == '-') then i + 1 else i;
    var k := SkipDigits(s, j);
    if j == k then (0, 0)
    else
      var v := Value(s[j..k]);
      if v > ULONG_MAX then (ULONG_MAX, k)
      else if s[i] == '-' && v > 0 then (ULONG_MAX + 1 - v, k)
      else (v, k)
  }

  lemma StrtoulOfDecimal(n: nat, tail: string)
    requires n < ULONG_MAX && tail != "" && !IsDigit(tail[0])
    ensures Strtoul(Decimal(n) + tail) == (n, |Decimal(n)|)
  {
    var d := Decimal(n);
    assert (d + tail)[0] == d[0] && IsDigit(d[0]);
    SkipsAllDigits(d, tail, 0);
    assert (d + tail)[0..|d|] == d;
    ValueOfDecimal(n);
  }

  // ----- acap_token_status -----

  datatype Kind = Err | Atom | Quoted | Literal(len: nat, sync: bool)

  function TokenStatus(t: Token, signed: bool): Kind {
    var b := t.buf;
    var n := |b|;
    if n == 0 then Err
    else if b[0] != '{' || b[n - 1] != '}' then
      if IsAtom(b, signed) then Atom
      else if IsQuoted(b, signed) then Quoted
      else Err
    else if !t.IsEol() || n < 3 then Err
    else
      var plus := b[n - 2] == '+';
      if plus && n < 4 then Err
      else
        var stop := if plus then n - 2 else n - 1;
        var (len, p) := Strtoul(b[1..]);
        if len == ULONG_MAX || len > ACAP_LITERAL_MAX || 1 + p != stop then Err
        else Literal(len, !plus)
  }

  // ----- acap_token_wrapper -----

  /** status, .type, .str and the tokens left on the line; no token left is end of line. */
  datatype Wrapped = Failed(status: int) | Wrapped(kind: Kind, str: string, more: seq<Token>)

  function WrapLiteral(kind: Kind, s: string): (Wrapped, string)
    requires kind.Literal?
  {
    if kind.len == 0 then (Wrapped(kind, "", []), s)
    else match ScanToken(s, "", false, None, LITERAL, kind.len)
      case Starved => (Failed(-2), "")
      case Cut(t, rest) =>
        match ScanLine(rest, None, POP3, 0)
        case LineStarved => (Failed(-2), "")
        case Line(q, after) =>
          if q[0].buf != "" then (Failed(-1), after) else (Wrapped(kind, CStr(t.buf), q[1..]), after)
  }

  /** The string at the head of `q`, continued from the stream `s` if it is a literal. */
  function Wrap(q: seq<Token>, s: string, signed: bool): (Wrapped, string) {
    if q == [] then (Failed(-2), s)
    else
      var kind := TokenStatus(q[0], signed);
      match kind
      case Err => (Failed(-1), s)
      case Atom => (Wrapped(kind, CStr(q[0].buf), q[1..]), s)
      case Quoted => (Wrapped(kind, CStr(q[0].buf[1..|q[0].buf| - 1]), q[1..]), s)
      case Literal(_, _) => WrapLiteral(kind, s)
  }

  /** acap_token_wrapper_literal. */
  method TokenWrapperLiteral(tb: TokenBuffer, io: Io, kind: Kind) returns (w: Wrapped)
    requires tb.Valid() && kind.Literal?
    modifies tb, tb.data, io`chunks
    ensures tb.Valid() && (w, tb.Stream(io)) == WrapLiteral(kind, old(tb.Stream(io)))
  {
    hide ScanToken, ScanLine;
    if kind.len == 0 {
      return Wrapped(kind, "", []);
    }
    var none := new char[0];
    var t, _ := tb.TokenRead(io, none, 0, 0, LITERAL, kind.len);
    if t.None? {
      return Failed(-2);
    }
    var q, _ := tb.ReadLine(io, none, 0, POP3, 0);
    if q.None? {
      return Failed(-2);
    }
    if q.value[0].buf != "" {
      return Failed(-1);
    }
    return Wrapped(kind, CStr(t.value.buf), q.value[1..]);
  }

  /** acap_token_wrapper. */
  method TokenWrapper(tb: TokenBuffer, io: Io, q: seq<Token>, signed: bool) returns (w: Wrapped)
    requires tb.Valid()
    modifies tb, tb.data, io`chunks
    ensures tb.Valid() && (w, tb.Stream(io)) == Wrap(q, old(tb.Stream(io)), signed)
  {
    if q == [] {
      return Failed(-2);
    }
    var kind := TokenStatus(q[0], signed);
    match kind {
      case Err => return Failed(-1);
      case Atom => return Wrapped(kind, CStr(q[0].buf), q[1..]);
      case Quoted => return Wrapped(kind, CStr(q[0].buf[1..|q[0].buf| - 1]), q[1..]);
      case Literal(_, _) => w := TokenWrapperLiteral(tb, io, kind);
    }
  }
}
