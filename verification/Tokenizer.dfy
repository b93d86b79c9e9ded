/** token.c and read_line of queue_func.c: the one static read buffer, refilled
    from whatever chunks the connection delivers, against a tokenizer of the
    whole byte stream. */
module Tokenizer {
  import opened Text

  const MAX_LINE_LENGTH := 4096

  datatype Flag = Plain | Eol | DontCare

  datatype Token = Token(buf: string, flag: Flag) {
    /** token_is_eol; TOKEN_DONT_CARE includes the end-of-line bit. */
    predicate IsEol() { flag != Plain }
  }

  /** token_cmp. */
  predicate TokenCmp(a: Token, b: Token) {
    && |a.buf| == |b.buf|
    && (a.flag == b.flag || a.flag == DontCare || b.flag == DontCare)
    && SameIgnoringCase(a.buf, b.buf)
  }

  /** token_casecmp_string, and strncasecmp over the length of a token. */
  predicate Is(t: Token, s: string) {
    SameIgnoringCase(t.buf, s)
  }

  /** The tokeniser's flag bits: TOKEN_EOL, TOKEN_IMAP4, TOKEN_IMAP4_LITERAL. */
  datatype Mode = Mode(wholeLine: bool, quotes: bool, literal: bool)

  const POP3 := Mode(false, false, false)
  const IMAP4 := Mode(false, true, false)
  const LITERAL := Mode(false, false, true)

  // ----- the specification: a tokenizer of the whole stream -----

  datatype Scan = Starved | Cut(tok: Token, rest: string)

  /** Room left in the caller's capture buffer after `n` more bytes. */
  function Less(room: Option<nat>, n: nat): Option<nat> {
    match room
    case None => None
    case Some(k) => Some(if n <= k then k - n else 0)
  }

  /** What one byte does: join the token or not, end it or not, and with which flag. */
  datatype Effect = Effect(keep: bool, stop: bool, flag: Flag, quoted: bool)

  function Classify(c: char, quoted: bool, len: nat, mode: Mode, m: nat): Effect {
    if mode.literal then Effect(true, len + 1 >= m, Plain, quoted)
    else match c
      case '\n' => Effect(false, true, Eol, quoted)
      case '\r' => Effect(false, false, Plain, quoted)
      case '\"' => Effect(true, false, Plain, quoted != mode.quotes)
      case ' ' => if !mode.wholeLine && !quoted then Effect(false, true, Plain, quoted)
                  else Effect(true, false, Plain, quoted)
      case _ => Effect(true, false, Plain, quoted)
  }

  function Room(n: nat): Option<nat> { if n > 0 then Some(n) else None }

  function ScanToken(s: string, acc: string, quoted: bool, room: Option<nat>, mode: Mode, m: nat): (r: Scan)
    ensures r.Cut? ==> |r.rest| <= |s|
    ensures r.Cut? && acc == "" && room != Some(0) ==> |r.rest| < |s|
    decreases |s|
  {
    if room == Some(0) || |acc| >= MAX_LINE_LENGTH then Cut(Token(acc, Plain), s)
    else if s == "" then Starved
    else
      var e := Classify(s[0], quoted, |acc|, mode, m);
      var acc' := if e.keep then acc + [s[0]] else acc;
      if e.stop then Cut(Token(acc', e.flag), s[1..])
      else ScanToken(s[1..], acc', e.quoted, Less(room, 1), mode, m)
  }

  /** The scan after a byte of effect `e`. */
  function Resume(s: string, acc: string, e: Effect, room: Option<nat>, mode: Mode, m: nat): Scan {
    if e.stop then Cut(Token(acc, e.flag), s) else ScanToken(s, acc, e.quoted, room, mode, m)
  }

  lemma ScanStep(s: string, acc: string, quoted: bool, room: Option<nat>, mode: Mode, m: nat)
    requires s != "" && room != Some(0) && |acc| < MAX_LINE_LENGTH
    ensures var e := Classify(s[0], quoted, |acc|, mode, m);
            ScanToken(s, acc, quoted, room, mode, m) ==
              Resume(s[1..], if e.keep then acc + [s[0]] else acc, e, Less(room, 1), mode, m)
  {
  }

  lemma ScanStop(s: string, acc: string, quoted: bool, room: Option<nat>, mode: Mode, m: nat)
    ensures room == Some(0) || |acc| >= MAX_LINE_LENGTH ==>
              ScanToken(s, acc, quoted, room, mode, m) == Cut(Token(acc, Plain), s)
  {
  }

  /** A token is cut from the front: what remains is a suffix, and no more than
      `room` bytes are gone. */
  lemma {:induction false} ScanTakesPrefix(s: string, acc: string, quoted: bool, room: Option<nat>, mode: Mode, m: nat)
    requires ScanToken(s, acc, quoted, room, mode, m).Cut?
    ensures var rest := ScanToken(s, acc, quoted, room, mode, m).rest;
            s[|s| - |rest|..] == rest && (room.Some? ==> |s| - |rest| <= room.value)
    decreases |s|
  {
    if room != Some(0) && |acc| < MAX_LINE_LENGTH {
      var e := Classify(s[0], quoted, |acc|, mode, m);
      if !e.stop {
        ScanTakesPrefix(s[1..], if e.keep then acc + [s[0]] else acc, e.quoted, Less(room, 1), mode, m);
      }
    }
  }

  datatype LineScan = LineStarved | Line(q: seq<Token>, rest: string)

  function Prepend(q: seq<Token>, l: LineScan): LineScan {
    match l
    case LineStarved => LineStarved
    case Line(q', rest) => Line(q + q', rest)
  }

  function ScanLine(s: string, room: Option<nat>, mode: Mode, m: nat): (r: LineScan)
    requires room != Some(0)
    ensures r.Line? ==> |r.q| > 0 && |r.rest| < |s|
    decreases |s|
  {
    match ScanToken(s, "", false, room, mode, m)
    case Starved => LineStarved
    case Cut(t, rest) =>
      var more := Less(room, |s| - |rest|);
      if mode.literal || t.IsEol() || more == Some(0) then Line([t], rest)
      else Prepend([t], ScanLine(rest, more, mode, m))
  }

  /** The line after the tokens `q`, ended or still to be read from `s`. */
  function ResumeLine(q: seq<Token>, s: string, more: bool, room: Option<nat>, mode: Mode, m: nat): LineScan
    requires more ==> room != Some(0)
  {
    if more then Prepend(q, ScanLine(s, room, mode, m)) else Line(q, s)
  }

  lemma LineStep(q: seq<Token>, s: string, room: Option<nat>, mode: Mode, m: nat)
    requires room != Some(0)
    ensures match ScanToken(s, "", false, room, mode, m)
            case Starved => ScanLine(s, room, mode, m) == LineStarved
            case Cut(t, rest) =>
              var left := Less(room, |s| - |rest|);
              Prepend(q, ScanLine(s, room, mode, m)) ==
                ResumeLine(q + [t], rest, !mode.literal && !t.IsEol() && left != Some(0), left, mode, m)
  {
    match ScanToken(s, "", false, room, mode, m)
    case Starved =>
    case Cut(t, rest) =>
      var left := Less(room, |s| - |rest|);
      if !(mode.literal || t.IsEol() || left == Some(0)) {
        match ScanLine(rest, left, mode, m)
        case LineStarved =>
        case Line(q', _) => assert q + ([t] + q') == q + [t] + q';
      }
  }

  // ----- the program: one buffer, two indices, many chunks -----

  /** What io_read can deliver in one call: at most MAX_LINE_LENGTH-1 bytes, and
      never zero before the end of input. */
  type Chunk = c: string | 1 <= |c| < MAX_LINE_LENGTH witness "x"

  function Flatten(chunks: seq<Chunk>): string {
    if chunks == [] then "" else chunks[0] + Flatten(chunks[1..])
  }

  /** A connection: its transport, and the reads it still has to deliver. */
  class Io {
    const ssl: bool
    var chunks: seq<Chunk>
    var sent: string

    constructor (ssl: bool, chunks: seq<Chunk>)
      ensures this.ssl == ssl && this.chunks == chunks && sent == ""
    {
      this.ssl := ssl;
      this.chunks := chunks;
      sent := "";
    }

    ghost function Unread(): string
      reads this
    {
      Flatten(chunks)
    }

    method Write(s: string)
      modifies this`sent
      ensures sent == old(sent) + s
    {
      sent := sent + s;
    }
  }

  class TokenBuffer {
    const data: array<char>
    var offset: nat
    var bytes: nat

    ghost predicate Valid()
      reads this, data
    {
      data.Length == MAX_LINE_LENGTH && offset <= bytes < MAX_LINE_LENGTH
    }

    /** Bytes already read from some connection and not yet parsed. */
    ghost function Pending(): string
      requires Valid()
      reads this, data
    {
      data[offset..bytes]
    }

    /** Everything the tokenizer can still see when reading from `io`. */
    ghost function Stream(io: Io): string
      requires Valid()
      reads this, data, io
    {
      Pending() + io.Unread()
    }

    constructor ()
      ensures Valid() && Pending() == ""
      ensures fresh(data)
    {
      data := new char[MAX_LINE_LENGTH](_ => '\0');
      offset, bytes := 0, 0;
    }

    method Flush()
      requires Valid()
      modifies this, data
      ensures Valid() && Pending() == ""
    {
      offset, bytes := 0, 0;
      forall i | 0 <= i < data.Length {
        data[i] := '\0';
      }
    }

    /** token_fill_buffer: reads a chunk only when nothing is pending. */
    method FillBuffer(io: Io) returns (n: nat)
      requires Valid()
      modifies this, data, io`chunks
      ensures Valid()
      ensures Stream(io) == old(Stream(io))
      ensures n > 0 <==> Stream(io) != ""
      ensures n > 0 ==> offset < bytes
      ensures old(Pending()) != "" ==> io.chunks == old(io.chunks)
    {
      if bytes > offset {
        return bytes;
      }
      offset, bytes := 0, 0;
      if io.chunks == [] {
        return 0;
      }
      var chunk := io.chunks[0];
      forall i | 0 <= i < |chunk| {
        data[i] := chunk[i];
      }
      io.chunks := io.chunks[1..];
      bytes := |chunk|;
      assert data[0..bytes] == chunk;
      return bytes;
    }

    /** token_fill_buffer and the fetch of the byte at the offset. */
    method NextByte(io: Io) returns (c: Option<char>)
      requires Valid()
      modifies this, data, io`chunks
      ensures Valid()
      ensures c.None? ==> old(Stream(io)) == "" && Stream(io) == ""
      ensures c.Some? ==> old(Stream(io)) != "" && c.value == old(Stream(io))[0] && Stream(io) == old(Stream(io))[1..]
    {
      var n := FillBuffer(io);
      if n == 0 {
        return None;
      }
      c := Some(data[offset]);
      assert data[offset..bytes] == [data[offset]] + data[offset + 1..bytes];
      offset := offset + 1;
      assert old(Stream(io)) == [c.value] + Stream(io);
    }

    /** The next byte, stored at capture[pos] as well when the caller captures. */
    method Fetch(io: Io, capture: array<char>, pos: nat, capturing: bool) returns (c: Option<char>)
      requires Valid() && capture != data
      requires capturing ==> pos < capture.Length
      modifies this, data, io`chunks, capture
      ensures Valid()
      ensures c.None? ==> old(Stream(io)) == "" && Stream(io) == ""
      ensures c.Some? ==> old(Stream(io)) != "" && c.value == old(Stream(io))[0] && Stream(io) == old(Stream(io))[1..]
      ensures c.Some? && capturing ==> capture[pos] == c.value
      ensures forall i | 0 <= i < capture.Length && !(c.Some? && capturing && i == pos) :: capture[i] == old(capture[i])
    {
      c := NextByte(io);
      if c.Some? && capturing {
        ghost var stream := Stream(io);
        capture[pos] := c.value;
        assert Stream(io) == stream;
      }
    }

    /** One turn of token_read's loop: fetch a byte, capture it, and act on it. */
    method TokenStep(io: Io, capture: array<char>, pos: nat, capturing: bool,
                     acc: string, quoted: bool, ghost room: Option<nat>, mode: Mode, m: nat)
      returns (ok: bool, acc': string, e: Effect)
      requires Valid() && capture != data
      requires capturing ==> pos < capture.Length
      requires room != Some(0) && |acc| < MAX_LINE_LENGTH
      modifies this, data, io`chunks, capture
      ensures Valid() && |acc'| <= MAX_LINE_LENGTH && (!e.stop ==> e.flag == Plain)
      ensures !ok ==> Stream(io) == "" && old(Stream(io)) == ""
      ensures !ok ==> ScanToken(old(Stream(io)), acc, quoted, room, mode, m) == Starved
      ensures ok ==> old(Stream(io)) != "" && Stream(io) == old(Stream(io))[1..]
      ensures ok ==> ScanToken(old(Stream(io)), acc, quoted, room, mode, m) ==
                       Resume(Stream(io), acc', e, Less(room, 1), mode, m)
      ensures ok && capturing ==> capture[pos] == old(Stream(io))[0]
      ensures forall i | 0 <= i < capture.Length && !(ok && capturing && i == pos) :: capture[i] == old(capture[i])
    {
      ghost var before := Stream(io);
      var next := Fetch(io, capture, pos, capturing);
      acc', e := acc, Effect(false, true, Plain, quoted);
      if next.None? {
        return false, acc', e;
      }
      ScanStep(before, acc, quoted, room, mode, m);
      e := Classify(next.value, quoted, |acc|, mode, m);
      if e.keep {
        acc' := acc + [next.value];
      }
      ok := true;
    }

    /** token_read. `capture[at..at + n]` is the caller's literal_buf; n == 0
        stands for a NULL buffer. The stack buffer the bytes gather in is `acc`. */
    method TokenRead(io: Io, capture: array<char>, at: nat, n: nat, mode: Mode, m: nat)
      returns (t: Option<Token>, used: nat)
      requires Valid() && capture != data && (n > 0 ==> at + n <= capture.Length)
      modifies this, data, io`chunks, capture
      ensures Valid()
      ensures match ScanToken(old(Stream(io)), "", false, Room(n), mode, m)
              case Starved => t == None && Stream(io) == ""
              case Cut(tok, rest) => t == Some(tok) && Stream(io) == rest
      ensures used + |Stream(io)| == |old(Stream(io))| && Stream(io) == old(Stream(io))[used..]
      ensures n > 0 ==> used <= n && forall i | 0 <= i < used :: capture[at + i] == old(Stream(io))[i]
      ensures forall i | 0 <= i < capture.Length && !(n > 0 && at <= i < at + used) :: capture[i] == old(capture[i])
    {
      hide ScanToken;
      var acc, e, ok := "", Effect(false, false, Plain, false), true;
      used := 0;
      ghost var input, left := Stream(io), Room(n);
      while !e.stop && !(n > 0 && used >= n) && |acc| < MAX_LINE_LENGTH
        invariant Valid() && (n > 0 ==> used <= n) && |acc| <= MAX_LINE_LENGTH
        invariant left == if n > 0 then Some(n - used) else None
        invariant used + |Stream(io)| == |input| && Stream(io) == input[used..]
        invariant n > 0 ==> forall i | 0 <= i < used :: capture[at + i] == input[i]
        invariant forall i | 0 <= i < capture.Length && !(n > 0 && at <= i < at + used) :: capture[i] == old(capture[i])
        invariant ScanToken(input, "", false, Room(n), mode, m) == Resume(Stream(io), acc, e, left, mode, m)
        invariant !e.stop ==> e.flag == Plain
        decreases !e.stop, |Stream(io)|
      {
        ok, acc, e := TokenStep(io, capture, at + used, n > 0, acc, e.quoted, left, mode, m);
        if !ok {
          return None, used;
        }
        used, left := used + 1, Less(left, 1);
      }
      ScanStop(Stream(io), acc, e.quoted, left, mode, m);
      return Some(Token(acc, e.flag)), used;
    }

    /** memset(buf, 0, n). */
    method Clear(capture: array<char>, n: nat)
      requires n <= capture.Length
      modifies capture
      ensures forall i | 0 <= i < capture.Length :: capture[i] == if i < n then '\0' else old(capture[i])
    {
      forall i | 0 <= i < n {
        capture[i] := '\0';
      }
    }

    /** One turn of read_line's loop. */
    method TurnLine(io: Io, capture: array<char>, at: nat, n: nat, ghost q: seq<Token>, mode: Mode, m: nat)
      returns (t: Option<Token>, used: nat)
      requires Valid() && capture != data && (n > 0 ==> at + n <= capture.Length)
      modifies this, data, io`chunks, capture
      ensures Valid()
      ensures t.None? ==> Stream(io) == "" && ScanLine(old(Stream(io)), Room(n), mode, m) == LineStarved
      ensures t.Some? ==> used > 0
      ensures t.Some? ==>
                Prepend(q, ScanLine(old(Stream(io)), Room(n), mode, m)) ==
                  ResumeLine(q + [t.value], Stream(io), !mode.literal && !t.value.IsEol() && !(n > 0 && used >= n),
                             Less(Room(n), used), mode, m)
      ensures used + |Stream(io)| == |old(Stream(io))| && Stream(io) == old(Stream(io))[used..]
      ensures n > 0 ==> used <= n && forall i | 0 <= i < used :: capture[at + i] == old(Stream(io))[i]
      ensures forall i | 0 <= i < capture.Length && !(n > 0 && at <= i < at + used) :: capture[i] == old(capture[i])
    {
      LineStep(q, Stream(io), Room(n), mode, m);
      t, used := TokenRead(io, capture, at, n, mode, m);
    }

    /** read_line. The first `n` bytes of `capture` are the caller's buf; n == 0
        stands for a NULL buf. */
    method ReadLine(io: Io, capture: array<char>, n: nat, mode: Mode, m: nat)
      returns (q: Option<seq<Token>>, used: nat)
      requires Valid() && capture != data && n <= capture.Length
      modifies this, data, io`chunks, capture
      ensures Valid()
      ensures match ScanLine(old(Stream(io)), Room(n), mode, m)
              case LineStarved => q == None && Stream(io) == ""
              case Line(toks, rest) => q == Some(toks) && Stream(io) == rest
      ensures used + |Stream(io)| == |old(Stream(io))| && Stream(io) == old(Stream(io))[used..]
      ensures n > 0 ==> used <= n && forall i | 0 <= i < used :: capture[i] == old(Stream(io))[i]
      ensures forall i | (if n > 0 then used else 0) <= i < capture.Length ::
                capture[i] == if i < n then '\0' else old(capture[i])
    {
      hide ScanToken, ScanLine;
      Clear(capture, n);
      used := 0;
      var toks: seq<Token>, more := [], true;
      ghost var input, left, cleared := Stream(io), Room(n), capture[..];
      while more
        invariant Valid() && (n > 0 ==> used <= n && (more ==> used < n))
        invariant left == if n > 0 then Some(n - used) else None
        invariant used + |Stream(io)| == |input| && Stream(io) == input[used..]
        invariant n > 0 ==> forall i | 0 <= i < used :: capture[i] == input[i]
        invariant forall i | 0 <= i < capture.Length && !(n > 0 && i < used) :: capture[i] == cleared[i]
        invariant ScanLine(input, Room(n), mode, m) == ResumeLine(toks, Stream(io), more, left, mode, m)
        decreases more, |Stream(io)|
      {
        var t, k := TurnLine(io, capture, used, if n > 0 then n - used else 0, toks, mode, m);
        if t.None? {
          return None, used + k;
        }
        used, left, toks := used + k, Less(left, k), toks + [t.value];
        more := !mode.literal && !t.value.IsEol() && !(n > 0 && used >= n);
      }
      return Some(toks), used;
    }

    /** read_line without a capture buffer. */
    method Line(io: Io, mode: Mode) returns (q: Option<seq<Token>>)
      requires Valid()
      modifies this, data, io`chunks
      ensures Valid()
      ensures match ScanLine(old(Stream(io)), None, mode, 0)
              case LineStarved => q == None && Stream(io) == ""
              case Line(toks, rest) => q == Some(toks) && Stream(io) == rest
    {
      var none := new char[0];
      var used;
      q, used := ReadLine(io, none, 0, mode, 0);
    }
  }
}
