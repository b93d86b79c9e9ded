/** managesieve_out.c: the server's capability, STARTTLS and AUTHENTICATE. */
module ManagesieveOut {
  import opened Acap
  import opened AcapToken
  import opened ClientAuth
  import opened Delimiters
  import opened Dialogue
  import opened Text
  import opened Tokenizer

  /** Code outside the model: the word search in a SASL capability, and the encoding
      of a challenge, which fails for want of memory or of a password. */
  datatype Library = Library(hasPlain: string -> bool, encode: Auth -> Option<string>, signed: bool)

  /** The variables of the parsing loop. */
  datatype Parse = Parse(first: bool, sasl: bool, stls: bool, plain: bool) {
    /** After the string `str`, which ends its line if `last`. */
    function Next(str: string, last: bool, lib: Library): Parse {
      var stls' := stls || (first && str == "STARTTLS");
      var sasl' := sasl || (first && str == "SASL");
      var plain' := plain || (!first && sasl && lib.hasPlain(str));
      if last then Parse(true, false, stls', plain') else Parse(false, sasl', stls', plain')
    }

    function Status(): int {
      S_OK + (if stls then S_STARTTLS else 0) + (if plain then S_SASL_PLAIN else 0)
    }
  }

  lemma WrapProgress(q: seq<Token>, s: string, signed: bool)
    requires q != []
    ensures var (w, rest) := Wrap(q, s, signed);
            |rest| < |s| || (|rest| == |s| && (w.Wrapped? ==> |w.more| < |q|))
            || (w.Failed? && |rest| <= |s|)
  {
  }

  /** managesieve_out_capability from the middle of the line `q`. */
  function CapabilityFrom(q: seq<Token>, s: string, p: Parse, lib: Library): (r: (int, string))
    ensures r.0 >= -1
    decreases |s|, |q|
  {
    if q == [] then
      match ScanLine(s, None, IMAP4, 0)
      case LineStarved => (-1, "")
      case Line(q', rest) => CapabilityFrom(q', rest, p, lib)
    else
      var r := Wrap(q, s, lib.signed);
      WrapProgress(q, s, lib.signed);
      if r.0.Failed? then (-1, r.1)
      else if r.0.kind.Atom? then (if r.0.str == "OK" then p.Status() else 0, r.1)
      else CapabilityFrom(r.0.more, r.1, p.Next(r.0.str, r.0.more == [], lib), lib)
  }

  function CapabilityRun(s: string, lib: Library): (r: (int, string))
    ensures r.0 >= -1
  {
    CapabilityFrom([], s, Parse(true, false, false, false), lib)
  }

  /** managesieve_out_setup. Where TLS is not wanted the STARTTLS bit comes back
      turned over. */
  function SetupRun(s: string, outgoing: bool, force: bool, lib: Library, tag: string): Dialogue {
    var (status, rest) := CapabilityRun(s, lib);
    if status < 1 then Dialogue(status, rest, "", "", tag)
    else if !outgoing then
      Dialogue(if Bit(status, S_STARTTLS) then status - S_STARTTLS else status + S_STARTTLS, rest, "", "", tag)
    else if !Bit(status, S_STARTTLS) then Dialogue(if force then -1 else status, rest, "", "", tag)
    else
      var r := LineResponse(rest, "OK");
      Dialogue(if r.status < 1 then r.status else status, r.rest, "STARTTLS" + CRLF, "", tag)
  }

  const AUTHENTICATE := "AUTHENTICATE \"PLAIN\""

  /** managesieve_out_authenticate: 3 when the server has no SASL PLAIN, which over
      TLS begun by STARTTLS it is asked once more. */
  function AuthRun(s: string, active: bool, plain: bool, auth: Auth, lib: Library, tag: string): Dialogue {
    var (status, rest) := if active then CapabilityRun(s, lib) else (S_OK, s);
    if status < 1 then Dialogue(status, rest, "", "", tag)
    else if !(if active then Bit(status, S_SASL_PLAIN) else plain) then Dialogue(3, rest, "", "", tag)
    else match lib.encode(auth)
      case None => Dialogue(0, rest, "", "", tag)
      case Some(challenge) =>
        var r := LineResponse(rest, "OK");
        Dialogue(r.status, r.rest, Wire(AUTHENTICATE, true, challenge), "", tag)
  }

  // ----- the program -----

  method ReadCapability(tb: TokenBuffer, server: Io, lib: Library) returns (status: int)
    requires tb.Valid()
    modifies tb, tb.data, server`chunks
    ensures tb.Valid() && (status, tb.Stream(server)) == CapabilityRun(old(tb.Stream(server)), lib)
  {
    hide ScanLine, Wrap;
    var q: seq<Token>, p := [], Parse(true, false, false, false);
    while true
      invariant tb.Valid()
      invariant CapabilityRun(old(tb.Stream(server)), lib) == CapabilityFrom(q, tb.Stream(server), p, lib)
      decreases |tb.Stream(server)|, |q|
    {
      if q == [] {
        var line := tb.Line(server, IMAP4);
        if line.None? {
          return -1;
        }
        q := line.value;
      }
      WrapProgress(q, tb.Stream(server), lib.signed);
      var w := TokenWrapper(tb, server, q, lib.signed);
      if w.Failed? {
        return -1;
      }
      if w.kind.Atom? {
        return if w.str == "OK" then p.Status() else 0;
      }
      p := p.Next(w.str, w.more == [], lib);
      q := w.more;
    }
  }

  /** managesieve_out_setup. */
  method Setup(tb: TokenBuffer, server: Io, outgoing: bool, force: bool, lib: Library, ghost tag: string)
    returns (status: int)
    requires tb.Valid()
    modifies tb, tb.data, server`chunks, server`sent
    ensures tb.Valid()
    ensures var d := SetupRun(old(tb.Stream(server)), outgoing, force, lib, tag);
            status == d.status && tb.Stream(server) == d.rest && server.sent == old(server.sent) + d.said
  {
    hide CapabilityRun, LineResponse, Bit;
    status := ReadCapability(tb, server, lib);
    if status < 1 {
      return;
    }
    if !outgoing {
      return if Bit(status, S_STARTTLS) then status - S_STARTTLS else status + S_STARTTLS;
    }
    if !Bit(status, S_STARTTLS) {
      return if force then -1 else status;
    }
    SendLine(tb, server, "STARTTLS");
    var ok, _ := ReadLineResponse(tb, server, "OK");
    if ok < 1 {
      return ok;
    }
  }

  /** managesieve_out_authenticate. */
  method Authenticate(tb: TokenBuffer, server: Io, active: bool, plain: bool, auth: Auth, lib: Library,
                      ghost tag: string)
    returns (status: int)
    requires tb.Valid()
    modifies tb, tb.data, server`chunks, server`sent
    ensures tb.Valid()
    ensures var d := AuthRun(old(tb.Stream(server)), active, plain, auth, lib, tag);
            status == d.status && tb.Stream(server) == d.rest && server.sent == old(server.sent) + d.said
  {
    hide CapabilityRun, LineResponse, Bit, Wire;
    var mech := plain;
    if active {
      status := ReadCapability(tb, server, lib);
      if status < 1 {
        return;
      }
      mech := Bit(status, S_SASL_PLAIN);
    }
    if !mech {
      return 3;
    }
    var challenge := lib.encode(auth);
    if challenge.None? {
      return 0;
    }
    ghost var stream := tb.Stream(server);
    server.Write(Wire(AUTHENTICATE, true, challenge.value));
    assert tb.Stream(server) == stream;
    var q;
    status, q := ReadLineResponse(tb, server, "OK");
  }

  // ----- what it means -----

  lemma {:induction false} CapabilityBits(q: seq<Token>, s: string, p: Parse, lib: Library)
    ensures var status := CapabilityFrom(q, s, p, lib).0;
            status == -1 || status == 0
            || exists stls, plain :: status == Parse(true, false, stls, plain).Status()
    decreases |s|, |q|
  {
    hide ScanLine, Wrap;
    if q == [] {
      match ScanLine(s, None, IMAP4, 0)
      case LineStarved =>
      case Line(q', rest) => CapabilityBits(q', rest, p, lib);
    } else {
      var r := Wrap(q, s, lib.signed);
      WrapProgress(q, s, lib.signed);
      if r.0.Wrapped? {
        if r.0.kind.Atom? {
          assert p.Status() == Parse(true, false, p.stls, p.plain).Status();
        } else {
          CapabilityBits(r.0.more, r.1, p.Next(r.0.str, r.0.more == [], lib), lib);
        }
      }
    }
  }

  lemma StatusBits(stls: bool, plain: bool)
    ensures var status := Parse(true, false, stls, plain).Status();
            status > 0 && (Bit(status, S_STARTTLS) <==> stls) && (Bit(status, S_SASL_PLAIN) <==> plain)
  {
  }

  /** With TLS wanted, setup that succeeds has the STARTTLS bit exactly when it asked
      for TLS and the server said OK; forced, it does not succeed without. Without,
      nothing is asked. */
  lemma SetupMeaning(s: string, outgoing: bool, force: bool, lib: Library, tag: string)
    ensures var d := SetupRun(s, outgoing, force, lib, tag);
            var c := CapabilityRun(s, lib);
            && d.said == (if outgoing && c.0 > 0 && Bit(c.0, S_STARTTLS) then "STARTTLS\r\n" else "")
            && (outgoing && d.status > 0 ==>
                  && d.status == c.0
                  && (Bit(d.status, S_STARTTLS) <==> d.said == "STARTTLS" + CRLF)
                  && (Bit(d.status, S_STARTTLS) ==> LineResponse(c.1, "OK").status == 1)
                  && (force ==> Bit(d.status, S_STARTTLS)))
  {
    hide CapabilityRun, LineResponse, Bit;
    LineResponseStatus(CapabilityRun(s, lib).1, "OK");
    assert "STARTTLS" + CRLF == "STARTTLS\r\n";
  }

  /** Where TLS is not wanted, the STARTTLS bit is set exactly when the server does
      not list it, and the SASL bit is left as it was. */
  lemma SetupTurnsBit(s: string, force: bool, lib: Library, tag: string)
    requires CapabilityRun(s, lib).0 > 0
    ensures var d, c := SetupRun(s, false, force, lib, tag), CapabilityRun(s, lib).0;
            && d.status > 0
            && (Bit(d.status, S_STARTTLS) <==> !Bit(c, S_STARTTLS))
            && (Bit(d.status, S_SASL_PLAIN) <==> Bit(c, S_SASL_PLAIN))
  {
    CapabilityBits([], s, Parse(true, false, false, false), lib);
    var c := CapabilityRun(s, lib).0;
    var stls, plain :| c == Parse(true, false, stls, plain).Status();
    StatusBits(stls, plain);
    StatusBits(!stls, plain);
  }

  /** The challenge is sent exactly when SASL PLAIN is on offer, as the server says it
      again over TLS begun by STARTTLS and as it said in setup otherwise; and the login
      succeeds exactly when the server's reply to it is OK. */
  lemma AuthMeaning(s: string, active: bool, plain: bool, auth: Auth, lib: Library, tag: string)
    ensures var d := AuthRun(s, active, plain, auth, lib, tag);
            var (status, rest) := if active then CapabilityRun(s, lib) else (S_OK, s);
            var sends := (if active then Bit(status, S_SASL_PLAIN) else plain) && lib.encode(auth).Some?;
            && d.said == (if sends then Wire(AUTHENTICATE, true, lib.encode(auth).value) else "")
            && (d.status == 1 <==> sends && LineResponse(rest, "OK").status == 1)
  {
    hide CapabilityRun, LineResponse, Wire;
    var status := if active then CapabilityRun(s, lib).0 else S_OK;
    assert status < 1 ==> !Bit(status, S_SASL_PLAIN);
  }
}
