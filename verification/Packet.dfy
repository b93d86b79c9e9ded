/** Map-daemon packets: db/daemon/lib/packet.c and packet.h. */
module Packet {

  type Byte = b: int | 0 <= b < 256 witness 0
  type Word = w: int | 0 <= w < 0x1_0000 witness 0
  type Long = l: int | 0 <= l < 0x1_0000_0000 witness 0

  const MAGIC: Long := 0x07070707
  const VERSION: Word := 1
  const CS_NONE: Word := 0
  const HEAD_LEN := 24
  const TAIL_LEN := 24
  const MAX_PACKET_LEN := 65000
  const MAX_BODY_LEN := MAX_PACKET_LEN - TAIL_LEN

  datatype Kind = Request | Response | StringRequest {
    function Flags(): Word {
      match this case Request => 1 case Response => 2 case StringRequest => 3
    }

    /** The strings a body of this kind holds. */
    function Count(): nat {
      match this case Request => 2 case Response => 3 case StringRequest => 6
    }
  }

  // ----- network byte order -----

  function Htons(x: Word, little: bool): Word {
    if little then (x % 256) * 256 + x / 256 else x
  }

  function Htonl(x: Long, little: bool): Long {
    if little then
      (x % 256) * 0x100_0000 + (x / 256 % 256) * 0x1_0000 + (x / 0x1_0000 % 256) * 256 + x / 0x100_0000
    else x
  }

  lemma NtohsInverse(x: Word, little: bool)
    ensures Htons(Htons(x, little), little) == x
  {
    if little {
      var hi, lo := x / 256, x % 256;
      assert Htons(x, little) == lo * 256 + hi;
      assert (lo * 256 + hi) % 256 == hi && (lo * 256 + hi) / 256 == lo;
    }
  }

  lemma HtonsZero(little: bool)
    ensures Htons(0, little) == 0
  {
  }

  // ----- strings in a body -----

  type Bytes = s: seq<Byte> | |s| < 0x1_0000 witness []

  /** A length in network order, and the bytes. */
  function Enc(s: Bytes): (r: seq<Byte>)
    ensures |r| == 2 + |s|
  {
    [|s| / 256, |s| % 256] + s
  }

  function EncAll(fields: seq<Bytes>): seq<Byte> {
    if fields == [] then [] else EncAll(fields[..|fields| - 1]) + Enc(fields[|fields| - 1])
  }

  lemma {:induction false} EncAllPrefix(fields: seq<Bytes>, i: nat)
    requires i < |fields|
    ensures EncAll(fields[..i + 1]) == EncAll(fields[..i]) + Enc(fields[i])
    ensures |EncAll(fields[..i + 1])| <= |EncAll(fields)|
    decreases |fields| - i
  {
    assert fields[..i + 1][..i] == fields[..i];
    if i + 1 < |fields| {
      EncAllPrefix(fields, i + 1);
    } else {
      assert fields[..i + 1] == fields;
    }
  }

  lemma EncAllOne(fields: seq<Bytes>, s: Bytes, all: seq<Bytes>)
    requires all == fields + [s]
    ensures |EncAll(all)| == |EncAll(fields)| + 2 + |s|
  {
    assert all[..|fields|] == fields;
  }

  /** The sums the init functions work out by hand. */
  lemma EncAllLengths(a: Bytes, b: Bytes, c: Bytes, d: Bytes, e: Bytes, f: Bytes)
    ensures |EncAll([a, b])| == 2 + |a| + 2 + |b|
    ensures |EncAll([a, b, c])| == 2 + |a| + 2 + |b| + 2 + |c|
    ensures |EncAll([a, b, c, d, e, f])| == 2 + |a| + 2 + |b| + 2 + |c| + 2 + |d| + 2 + |e| + 2 + |f|
  {
    EncAllOne([], a, [a]);
    EncAllOne([a], b, [a, b]);
    EncAllOne([a, b], c, [a, b, c]);
    EncAllOne([a, b, c], d, [a, b, c, d]);
    EncAllOne([a, b, c, d], e, [a, b, c, d, e]);
    EncAllOne([a, b, c, d, e], f, [a, b, c, d, e, f]);
  }

  /** A string found in a body: where it starts and how long it is. */
  datatype Span = Span(at: nat, len: nat)

  /** ntohs of the two bytes at `at`. */
  function LengthAt(body: seq<Byte>, at: nat): nat
    requires at + 2 <= |body|
  {
    var hi: int, lo: int := body[at], body[at + 1];
    hi * 256 + lo
  }

  /** The length words of `k` strings from `at` lie inside the body. */
  predicate Readable(body: seq<Byte>, at: nat, k: nat)
    decreases k
  {
    k == 0 || (at + 2 <= |body| && Readable(body, at + 2 + LengthAt(body, at), k - 1))
  }

  function Spans(body: seq<Byte>, at: nat, k: nat): (r: (seq<Span>, nat))
    requires Readable(body, at, k)
    ensures |r.0| == k
    decreases k
  {
    if k == 0 then ([], at)
    else
      var len := LengthAt(body, at);
      var (rest, end) := Spans(body, at + 2 + len, k - 1);
      ([Span(at + 2, len)] + rest, end)
  }

  lemma SpansStep(body: seq<Byte>, at: nat, k: nat)
    requires k > 0 && Readable(body, at, k)
    ensures at + 2 <= |body|
    ensures var next := at + 2 + LengthAt(body, at);
            && Readable(body, next, k - 1)
            && Spans(body, at, k).0 == [Span(at + 2, LengthAt(body, at))] + Spans(body, next, k - 1).0
            && Spans(body, at, k).1 == Spans(body, next, k - 1).1
  {
  }

  lemma SpansEnd(body: seq<Byte>, at: nat)
    ensures Spans(body, at, 0) == ([], at)
  {
  }

  // ----- packets -----

  class Packet {
    const little: bool
    var magic: Long
    var version: Word
    var flags: Word
    var length: Word
    var csType: Word
    var saddr: Long
    var sport: Word
    var daddr: Long
    var dport: Word
    const body: array<Byte>

    /** perdition_packet_create. */
    constructor (little: bool)
      ensures this.little == little && fresh(body) && body.Length == MAX_BODY_LEN
    {
      this.little := little;
      magic, version, flags, length, csType := 0, 0, 0, 0, 0;
      saddr, sport, daddr, dport := 0, 0, 0, 0;
      body := new Byte[MAX_BODY_LEN](_ => 0);
    }

    /** A packet as the init functions leave it. */
    ghost predicate Holds(kind: Kind, fields: seq<Bytes>)
      reads this, body
    {
      && |EncAll(fields)| <= MAX_BODY_LEN == body.Length
      && magic == Htonl(MAGIC, little) && version == Htons(VERSION, little)
      && flags == Htons(kind.Flags(), little) && csType == Htons(CS_NONE, little)
      && length == Htons(HEAD_LEN + |EncAll(fields)|, little)
      && body[..|EncAll(fields)|] == EncAll(fields)
    }

    /** perdition_packet_init_v1_head, on a packet cleared first. */
    method InitHead(csType: Word, flags: Word, saddr: Long, sport: Word, daddr: Long, dport: Word, bodyLen: nat)
      returns (ok: bool)
      requires body.Length == MAX_BODY_LEN
      modifies this, body
      ensures ok <==> csType == CS_NONE && bodyLen <= MAX_BODY_LEN
      ensures !ok ==> unchanged(this) && unchanged(body)
      ensures ok ==>
                && magic == Htonl(MAGIC, little) && version == Htons(VERSION, little)
                && this.flags == Htons(flags, little) && this.csType == Htons(csType, little)
                && HEAD_LEN + bodyLen < 0x1_0000 && length == Htons(HEAD_LEN + bodyLen, little)
                && this.saddr == Htonl(saddr, little) && this.sport == Htons(sport, little)
                && this.daddr == Htonl(daddr, little) && this.dport == Htons(dport, little)
    {
      if csType != CS_NONE {
        return false;
      }
      if bodyLen > MAX_BODY_LEN {
        return false;
      }
      forall i | 0 <= i < body.Length {
        body[i] := 0;
      }
      this.magic := Htonl(MAGIC, little);
      this.version := Htons(VERSION, little);
      this.flags := Htons(flags, little);
      this.length := Htons(HEAD_LEN + bodyLen, little);
      this.csType := Htons(csType, little);
      this.saddr := Htonl(saddr, little);
      this.sport := Htons(sport, little);
      this.daddr := Htonl(daddr, little);
      this.dport := Htons(dport, little);
      return true;
    }

    /** PACKET_STR_SET at the cursor. */
    method StrSet(at: nat, s: Bytes) returns (next: nat)
      requires at + 2 + |s| <= body.Length
      modifies body
      ensures next == at + 2 + |s| && body[..next] == old(body[..at]) + Enc(s)
    {
      var data := Enc(s);
      forall i | 0 <= i < |data| {
        body[at + i] := data[i];
      }
      next := at + |data|;
      assert body[..next] == body[..at] + body[at..next];
    }

    /** The strings of a body, one after the other. */
    method StrSetAll(fields: seq<Bytes>)
      requires |EncAll(fields)| <= body.Length
      modifies body
      ensures body[..|EncAll(fields)|] == EncAll(fields)
    {
      var at: nat := 0;
      for i := 0 to |fields|
        invariant at == |EncAll(fields[..i])| <= body.Length && body[..at] == EncAll(fields[..i])
      {
        EncAllPrefix(fields, i);
        at := StrSet(at, fields[i]);
      }
      assert fields[..|fields|] == fields;
    }

    /** perdition_packet_init_v1_req. */
    method InitRequest(csType: Word, saddr: Long, sport: Word, daddr: Long, dport: Word, key: Bytes, delimiter: Bytes)
      returns (ok: bool)
      requires body.Length == MAX_BODY_LEN
      modifies this, body
      ensures ok <==> csType == CS_NONE && |EncAll([key, delimiter])| <= MAX_BODY_LEN
      ensures ok ==> Holds(Request, [key, delimiter])
      ensures ok ==> this.saddr == Htonl(saddr, little) && this.sport == Htons(sport, little)
      ensures ok ==> this.daddr == Htonl(daddr, little) && this.dport == Htons(dport, little)
    {
      EncAllLengths(key, delimiter, [], [], [], []);
      ok := InitHead(csType, Request.Flags(), saddr, sport, daddr, dport, 2 + |key| + 2 + |delimiter|);
      if ok {
        StrSetAll([key, delimiter]);
      }
    }

    /** perdition_packet_init_v1_str_req. */
    method InitStringRequest(csType: Word, saddr: Bytes, sport: Bytes, daddr: Bytes, dport: Bytes, key: Bytes,
                             delimiter: Bytes)
      returns (ok: bool)
      requires body.Length == MAX_BODY_LEN
      modifies this, body
      ensures var fields := [key, delimiter, saddr, sport, daddr, dport];
              && (ok <==> csType == CS_NONE && |EncAll(fields)| <= MAX_BODY_LEN)
              && (ok ==> Holds(StringRequest, fields))
    {
      var fields := [key, delimiter, saddr, sport, daddr, dport];
      EncAllLengths(key, delimiter, saddr, sport, daddr, dport);
      ok := InitHead(csType, StringRequest.Flags(), 0, 0, 0, 0,
                     2 + |saddr| + 2 + |sport| + 2 + |daddr| + 2 + |dport| + 2 + |key| + 2 + |delimiter|);
      if ok {
        StrSetAll(fields);
      }
    }

    /** perdition_packet_init_v1_rsp. */
    method InitResponse(csType: Word, user: Bytes, server: Bytes, port: Bytes) returns (ok: bool)
      requires body.Length == MAX_BODY_LEN
      modifies this, body
      ensures ok <==> csType == CS_NONE && |EncAll([user, server, port])| <= MAX_BODY_LEN
      ensures ok ==> Holds(Response, [user, server, port])
    {
      EncAllLengths(user, server, port, [], [], []);
      ok := InitHead(csType, Response.Flags(), 0, 0, 0, 0, 2 + |user| + 2 + |server| + 2 + |port|);
      if ok {
        StrSetAll([user, server, port]);
      }
    }

    // ----- verification -----

    /** perdition_packet_verify_v1_head: a length that disagrees with the header is
        only logged. */
    predicate HeadOk(len: nat)
      reads this
    {
      && HEAD_LEN <= len <= MAX_PACKET_LEN
      && magic == Htonl(MAGIC, little) && csType == CS_NONE
    }

    /** perdition_packet_verify_v1_tail. */
    predicate TailOk(bodyLen: nat)
      reads this
    {
      bodyLen <= MAX_BODY_LEN && bodyLen + HEAD_LEN == Htons(length, little)
    }

    /** What the verify function of `kind` accepts. */
    ghost predicate Accepts(kind: Kind, len: nat)
      reads this, body
    {
      && HeadOk(len) && Htons(flags, little) == kind.Flags()
      && Readable(body[..], 0, kind.Count()) && TailOk(Spans(body[..], 0, kind.Count()).1)
    }

    /** The three verify functions: the strings are read before their total is checked. */
    method Verify(kind: Kind, len: nat) returns (ok: bool, fields: seq<Span>)
      requires HeadOk(len) && Htons(flags, little) == kind.Flags() ==> Readable(body[..], 0, kind.Count())
      ensures ok <==> Accepts(kind, len)
      ensures ok ==> fields == Spans(body[..], 0, kind.Count()).0
    {
      hide Htons, Htonl, Readable, Spans, LengthAt;
      if !HeadOk(len) {
        return false, [];
      }
      if Htons(flags, little) != kind.Flags() {
        return false, [];
      }
      var at: nat, k := 0, kind.Count();
      fields := [];
      while k > 0
        invariant 0 <= k && Readable(body[..], at, k)
        invariant Spans(body[..], 0, kind.Count()).0 == fields + Spans(body[..], at, k).0
        invariant Spans(body[..], 0, kind.Count()).1 == Spans(body[..], at, k).1
      {
        SpansStep(body[..], at, k);
        var n := LengthAt(body[..], at);
        fields := fields + [Span(at + 2, n)];
        at, k := at + 2 + n, k - 1;
      }
      SpansEnd(body[..], at);
      ok := TailOk(at);
    }
  }

  // ----- the round trip -----

  /** What is stored at `span` of `body` is the string `s`. */
  ghost predicate IsAt(body: seq<Byte>, span: Span, s: Bytes) {
    span.len == |s| && span.at + span.len <= |body| && body[span.at..span.at + span.len] == s
  }

  lemma EncAt(body: seq<Byte>, at: nat, s: Bytes)
    requires at + 2 + |s| <= |body| && body[at..at + 2 + |s|] == Enc(s)
    ensures LengthAt(body, at) == |s| && IsAt(body, Span(at + 2, |s|), s)
  {
    var e := body[at..at + 2 + |s|];
    assert e[0] == body[at] && e[1] == body[at + 1] && e[2..] == s;
    assert body[at + 2..at + 2 + |s|] == e[2..];
  }

  lemma FieldIsAt(body: seq<Byte>, fields: seq<Bytes>, i: nat)
    requires i < |fields| && |EncAll(fields)| <= |body| && body[..|EncAll(fields)|] == EncAll(fields)
    ensures var at, s := |EncAll(fields[..i])|, fields[i];
            && |EncAll(fields[..i + 1])| == at + 2 + |s| <= |EncAll(fields)|
            && LengthAt(body, at) == |s| && IsAt(body, Span(at + 2, |s|), s)
  {
    hide EncAll;
    var at := |EncAll(fields[..i])|;
    EncAllPrefix(fields, i);
    EncAllIsPrefix(fields, i + 1);
    var all, upTo := EncAll(fields), EncAll(fields[..i + 1]);
    assert upTo[at..] == Enc(fields[i]);
    assert upTo == all[..|upTo|];
    assert body[at..|upTo|] == body[..|all|][at..|upTo|] == all[at..|upTo|] == upTo[at..];
    EncAt(body, at, fields[i]);
  }

  /** Field `i` onwards, read back from where field `i` was written. */
  lemma {:induction false} SpansOfFields(body: seq<Byte>, fields: seq<Bytes>, i: nat)
    requires i <= |fields| && |EncAll(fields)| <= |body| && body[..|EncAll(fields)|] == EncAll(fields)
    ensures var at := |EncAll(fields[..i])|;
            && Readable(body, at, |fields| - i)
            && Spans(body, at, |fields| - i).1 == |EncAll(fields)|
            && forall j | i <= j < |fields| :: IsAt(body, Spans(body, at, |fields| - i).0[j - i], fields[j])
    decreases |fields| - i
  {
    hide EncAll, IsAt;
    if i == |fields| {
      assert fields[..i] == fields;
    } else {
      FieldIsAt(body, fields, i);
      SpansOfFields(body, fields, i + 1);
    }
  }

  lemma {:induction false} EncAllIsPrefix(fields: seq<Bytes>, i: nat)
    requires i <= |fields|
    ensures EncAll(fields[..i]) <= EncAll(fields)
    decreases |fields| - i
  {
    if i == |fields| {
      assert fields[..i] == fields;
    } else {
      EncAllPrefix(fields, i);
      EncAllIsPrefix(fields, i + 1);
    }
  }

  /** A packet as an init function leaves it is accepted by the verify function of
      its own kind, which finds exactly the strings that went in, and refused by
      the other two; and its length is never more than 65000, so the 16-bit
      length field is exact. */
  lemma PacketRoundTrip(p: Packet, kind: Kind, fields: seq<Bytes>, len: nat)
    requires p.Holds(kind, fields) && |fields| == kind.Count()
    requires HEAD_LEN <= len <= MAX_PACKET_LEN
    ensures p.Accepts(kind, len)
    ensures forall i | 0 <= i < |fields| :: IsAt(p.body[..], Spans(p.body[..], 0, kind.Count()).0[i], fields[i])
    ensures forall other: Kind | other != kind :: !p.Accepts(other, len)
    ensures Htons(p.length, p.little) == HEAD_LEN + |EncAll(fields)| <= MAX_PACKET_LEN
  {
    hide Htons, Htonl, Readable, Spans, IsAt;
    assert fields[..0] == [];
    HtonsZero(p.little);
    SpansOfFields(p.body[..], fields, 0);
    NtohsInverse(HEAD_LEN + |EncAll(fields)|, p.little);
    NtohsInverse(kind.Flags(), p.little);
  }

  // ----- on the wire -----

  /** The bytes of a 16-bit and a 32-bit field where they stand in memory. */
  function Bytes16(x: Word, little: bool): seq<Byte> {
    if little then [x % 256, x / 256] else [x / 256, x % 256]
  }

  function Bytes32(x: Long, little: bool): seq<Byte> {
    if little then [x % 256, x / 256 % 256, x / 0x1_0000 % 256, x / 0x100_0000]
    else [x / 0x100_0000, x / 0x1_0000 % 256, x / 256 % 256, x % 256]
  }

  /** A number with its most significant byte first. */
  function Big16(x: Word): seq<Byte> { [x / 256, x % 256] }
  function Big32(x: Long): seq<Byte> { [x / 0x100_0000, x / 0x1_0000 % 256, x / 256 % 256, x % 256] }

  /** Whatever the byte order of the machine, a field stands on the wire most significant
      byte first. */
  lemma FieldsOnWire(x: Word, y: Long, little: bool)
    ensures Bytes16(Htons(x, little), little) == Big16(x)
    ensures Bytes32(Htonl(y, little), little) == Big32(y)
  {
    if little {
      var hi, lo := x / 256, x % 256;
      assert Htons(x, little) == lo * 256 + hi;
      assert (lo * 256 + hi) % 256 == hi && (lo * 256 + hi) / 256 == lo;
      LongOnWire(y / 0x100_0000, y / 0x1_0000 % 256, y / 256 % 256, y % 256);
    }
  }

  lemma LongOnWire(a: Byte, b: Byte, c: Byte, d: Byte)
    ensures var y := d * 0x100_0000 + c * 0x1_0000 + b * 256 + a;
            y % 256 == a && y / 256 % 256 == b && y / 0x1_0000 % 256 == c && y / 0x100_0000 == d
  {
    var y := d * 0x100_0000 + c * 0x1_0000 + b * 256 + a;
    assert y / 256 == d * 0x1_0000 + c * 256 + b;
    assert y / 0x1_0000 == d * 256 + c;
  }

  /** The head as it is sent. */
  function HeadBytes(p: Packet): seq<Byte>
    reads p
  {
    Bytes32(p.magic, p.little) + Bytes16(p.version, p.little) + Bytes16(p.flags, p.little)
    + Bytes16(p.length, p.little) + Bytes16(p.csType, p.little)
    + Bytes32(p.saddr, p.little) + Bytes32(p.daddr, p.little)
    + Bytes16(p.sport, p.little) + Bytes16(p.dport, p.little)
  }

  /** The number of a kind of packet. */
  function KindNumber(kind: Kind): Byte {
    match kind case Request => 1 case Response => 2 case StringRequest => 3
  }

  /** What an init function puts on the wire, on any machine: four sevens, version 1, the
      kind, the length, and no checksum. */
  lemma HeadOnWire(p: Packet, kind: Kind, fields: seq<Bytes>)
    requires p.Holds(kind, fields)
    ensures var head, n := HeadBytes(p), 24 + |EncAll(fields)|;
            && |head| == 24 && head[..4] == [7, 7, 7, 7] && head[4..6] == [0, 1]
            && head[6..8] == [0, KindNumber(kind)] && head[8..10] == [n / 256, n % 256] && head[10..12] == [0, 0]
  {
    hide Htons, Htonl, EncAll, HeadBytes, Bytes16, Bytes32;
    HeadParts(p);
    FieldsOnWire(VERSION, MAGIC, p.little);
    FieldsOnWire(kind.Flags(), 0, p.little);
    FieldsOnWire(24 + |EncAll(fields)|, 0, p.little);
    FieldsOnWire(0, 0, p.little);
  }

  /** A field is the number its bytes on the wire spell, most significant first. */
  lemma WordOfBytes(x: Word, little: bool)
    ensures var b := Bytes16(x, little); var hi: int, lo: int := b[0], b[1]; Htons(x, little) == hi * 256 + lo
  {
  }

  lemma BytesOfWord(x: Word, little: bool, n: Byte)
    ensures Bytes16(x, little) == [0, n] <==> Htons(x, little) == n
  {
    var b := Bytes16(x, little);
    assert b == [b[0], b[1]];
    WordOfBytes(x, little);
  }

  lemma MagicBytes(x: Long, little: bool)
    ensures Bytes32(x, little) == [7, 7, 7, 7] <==> x == Htonl(MAGIC, little)
  {
    FieldsOnWire(0, MAGIC, little);
    assert Big32(MAGIC) == [7, 7, 7, 7];
    LongFromBytes(x, little);
    LongFromBytes(Htonl(MAGIC, little), little);
  }

  lemma LongFromBytes(x: Long, little: bool)
    ensures var b := Bytes32(x, little); var b0: int, b1: int, b2: int, b3: int := b[0], b[1], b[2], b[3];
            x == if little then b3 * 0x100_0000 + b2 * 0x1_0000 + b1 * 256 + b0
                 else b0 * 0x100_0000 + b1 * 0x1_0000 + b2 * 256 + b3
  {
    Digits256(x);
  }

  lemma Digits256(x: Long)
    ensures x == x / 0x100_0000 * 0x100_0000 + x / 0x1_0000 % 256 * 0x1_0000 + x / 256 % 256 * 256 + x % 256
  {
    var q, p, o := x / 256, x / 0x1_0000, x / 0x100_0000;
    assert p == q / 256 && o == p / 256;
    assert x == q * 256 + x % 256 && q == p * 256 + q % 256 && p == o * 256 + p % 256;
  }

  lemma HeadParts(p: Packet)
    ensures var head := HeadBytes(p);
            && |head| == 24 && head[..4] == Bytes32(p.magic, p.little) && head[4..6] == Bytes16(p.version, p.little)
            && head[6..8] == Bytes16(p.flags, p.little) && head[8..10] == Bytes16(p.length, p.little)
            && head[10..12] == Bytes16(p.csType, p.little)
  {
    hide Bytes16, Bytes32;
    Widths(p.magic, p.version, p.little);
    Widths(p.saddr, p.flags, p.little);
    Widths(p.daddr, p.length, p.little);
    Widths(0, p.csType, p.little);
    Widths(0, p.sport, p.little);
    Widths(0, p.dport, p.little);
    var rest := Bytes32(p.saddr, p.little) + Bytes32(p.daddr, p.little)
                + Bytes16(p.sport, p.little) + Bytes16(p.dport, p.little);
    FirstFields(Bytes32(p.magic, p.little), Bytes16(p.version, p.little), Bytes16(p.flags, p.little),
                Bytes16(p.length, p.little), Bytes16(p.csType, p.little), rest);
    assert HeadBytes(p) == Bytes32(p.magic, p.little) + Bytes16(p.version, p.little) + Bytes16(p.flags, p.little)
                           + Bytes16(p.length, p.little) + Bytes16(p.csType, p.little) + rest;
  }

  lemma Widths(x: Long, y: Word, little: bool)
    ensures |Bytes32(x, little)| == 4 && |Bytes16(y, little)| == 2
  {
  }

  lemma FirstFields(a: seq<Byte>, b: seq<Byte>, c: seq<Byte>, d: seq<Byte>, e: seq<Byte>, rest: seq<Byte>)
    requires |a| == 4 && |b| == |c| == |d| == |e| == 2
    ensures var h := a + b + c + d + e + rest;
            h[..4] == a && h[4..6] == b && h[6..8] == c && h[8..10] == d && h[10..12] == e
  {
  }

  /** What a verify function accepts, said of the bytes received: nothing with another
      magic number, of another kind, with a checksum, of an impossible length, or whose
      strings do not add up. */
  lemma AcceptsOnWire(p: Packet, kind: Kind, len: nat)
    ensures var head := HeadBytes(p);
            |head| == 24 &&
            (p.Accepts(kind, len) <==>
               && 24 <= len <= 65000 && head[..4] == [7, 7, 7, 7] && head[6..8] == [0, KindNumber(kind)]
               && head[10..12] == [0, 0] && Readable(p.body[..], 0, kind.Count())
               && var end := Spans(p.body[..], 0, kind.Count()).1;
                  var hi: int, lo: int := head[8], head[9];
                  end <= 64976 && hi * 256 + lo == 24 + end)
  {
    hide Htons, Htonl, HeadBytes, Bytes16, Bytes32, Readable, Spans;
    var head := HeadBytes(p);
    HeadParts(p);
    MagicBytes(p.magic, p.little);
    BytesOfWord(p.flags, p.little, KindNumber(kind));
    BytesOfWord(p.csType, p.little, 0);
    ZeroWord(p.csType, p.little);
    WordOfBytes(p.length, p.little);
    assert head[8..10][0] == head[8] && head[8..10][1] == head[9];
  }

  lemma ZeroWord(x: Word, little: bool)
    ensures Htons(x, little) == 0 <==> x == 0
  {
  }

  /** A string in a body: its length, most significant byte first, and its bytes. */
  lemma StringsOnWire()
    ensures EncAll([[97, 98], [64]]) == [0, 2, 97, 98, 0, 1, 64]
  {
    var fields := [[97, 98], [64]];
    assert fields[..1] == [[97, 98]] && [[97, 98]][..0] == [];
    assert Enc([97, 98]) == [0, 2, 97, 98] && Enc([64]) == [0, 1, 64];
  }
}
