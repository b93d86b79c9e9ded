/** What the three protocols' out_setup and out_authenticate functions have in
    common: their result bits, and the reading of one reply. */
module Dialogue {
  import opened Lines
  import opened Text
  import opened Tokenizer

  const S_OK := 1
  const S_STARTTLS := 2
  const S_SASL_PLAIN := 8

  predicate Bit(status: int, bit: int)
    requires bit > 0
  {
    status >= 0 && status / bit % 2 == 1
  }

  lemma BitsOfStatus()
    ensures !Bit(S_OK, S_STARTTLS) && Bit(S_OK + S_STARTTLS, S_STARTTLS)
  {
  }

  /** A status, what is left unread of the server, what was sent to it, what was
      passed on to the client, and the tag for the next command. */
  datatype Dialogue = Dialogue(status: int, rest: string, said: string, relayed: string, tag: string)

  /** The dialogue `d` after `said` and `relayed`. */
  function Then(said: string, relayed: string, d: Dialogue): Dialogue {
    Dialogue(d.status, d.rest, said + d.said, relayed + d.relayed, d.tag)
  }

  /** A reply: -1 without one, else whether it began as desired; and the rest of its line. */
  datatype Response = Response(status: int, q: seq<Token>, rest: string)

  /** pop3_out_response, which ManageSieve uses as well. */
  function LineResponse(s: string, desired: string): Response {
    match ScanLine(s, None, POP3, 0)
    case LineStarved => Response(-1, [], "")
    case Line(q, rest) => Response(if TokenCmp(Token(desired, DontCare), q[0]) then 1 else 0, q[1..], rest)
  }

  lemma LineResponseStatus(s: string, desired: string)
    ensures -1 <= LineResponse(s, desired).status <= 1
  {
  }

  method ReadLineResponse(tb: TokenBuffer, server: Io, desired: string) returns (status: int, q: seq<Token>)
    requires tb.Valid()
    modifies tb, tb.data, server`chunks
    ensures tb.Valid()
    ensures Response(status, q, tb.Stream(server)) == LineResponse(old(tb.Stream(server)), desired)
  {
    hide ScanLine;
    var line := tb.Line(server, POP3);
    if line.None? {
      return -1, [];
    }
    var t := line.value[0];
    return if TokenCmp(Token(desired, DontCare), t) then 1 else 0, line.value[1..];
  }

  /** queue_to_string of what follows a reply's first words; the empty string for an
      empty queue, where it writes in front of its buffer. */
  function Remainder(q: seq<Token>): string {
    if q == [] then "" else Printed(q)
  }

  method PrintRemainder(q: seq<Token>) returns (s: string)
    ensures s == Remainder(q)
  {
    if q == [] {
      return "";
    }
    var str := QueueToString(q);
    return str[..str.Length - 1];
  }

  method SendLine(tb: TokenBuffer, server: Io, line: string)
    requires tb.Valid()
    modifies server`sent
    ensures tb.Valid() && tb.Stream(server) == old(tb.Stream(server))
    ensures server.sent == old(server.sent) + (line + "\r\n")
  {
    server.Write(line + "\r\n");
  }
}
