/** ManageSieve strings on the wire: acap.c and managesieve_write.c print them,
    acap_token.c reads them back. */
module Acap {
  import opened Buffers
  import opened Numbers
  import opened Text
  import opened Tokenizer

  // ----- printing: acap.c -----

  /** log_10: divides until nothing is left. */
  method Log10(n: nat) returns (log: nat)
    ensures log + 1 == |Decimal(n)|
  {
    log := 0;
    var left := n;
    while true
      invariant log + |Decimal(left)| == |Decimal(n)|
      decreases left
    {
      left := left / 10;
      if left == 0 {
        break;
      }
      log := log + 1;
    }
  }

  /** n_len: exactly the number of digits %zd prints. */
  method NLen(n: nat) returns (len: nat)
    ensures len == |Decimal(n)|
  {
    var log := Log10(n);
    return log + 1;
  }

  datatype Acap = Acap(a: Option<string>, b: Option<string>)

  method QuotedFromStr(str: string) returns (out: array<char>)
    ensures fresh(out) && out[..] == "\"" + str + "\"" + "\0"
  {
    out := new char[1 + |str| + 2](_ => '\0');
    Copy(out, 0, "\"" + "\0");
    assert out[..1] == "\"";
    var end := CatTwo(out, 1, str, "\"");
    assert out[..] == out[..end] + [out[end]];
  }

  method AnyLiteralFromStr(str: string, extra: string) returns (out: array<char>)
    ensures fresh(out) && out[..] == "{" + Decimal(|str|) + extra + "}" + "\0"
  {
    var k := NLen(|str|);
    out := new char[1 + k + |extra| + 2](_ => '\0');
    var text := "{" + Decimal(|str|) + extra + "}" + "\0";
    Copy(out, 0, text);
    assert out[..] == out[..|text|];
  }

  predicate NeedsLiteral(str: string) {
    '\r' in str || '\n' in str
  }

  /** What acap_from_str prints on the command's own line. */
  function Head(str: string, client: bool): string {
    if !NeedsLiteral(str) then "\"" + str + "\""
    else "{" + Decimal(|str|) + (if client then "+" else "") + "}"
  }

  method FromStr(str: string, client: bool) returns (out: Acap)
    ensures out == Acap(Some(Head(str, client)), if NeedsLiteral(str) then Some(str) else None)
  {
    var a: array<char>;
    if '\r' !in str && '\n' !in str {
      a := QuotedFromStr(str);
      out := Acap(Some(a[..a.Length - 1]), None);
    } else if client {
      a := AnyLiteralFromStr(str, "+");
      out := Acap(Some(a[..a.Length - 1]), Some(str));
    } else {
      a := AnyLiteralFromStr(str, "");
      out := Acap(Some(a[..a.Length - 1]), Some(str));
    }
  }

  // ----- writing: managesieve_write.c -----

  /** The non-NULL arguments. */
  function Present(args: seq<Option<string>>): seq<string> {
    if args == [] then []
    else
      var before := Present(args[..|args| - 1]);
      match args[|args| - 1]
      case None => before
      case Some(s) => before + [s]
  }

  /** Each string of `parts` and the separator or NUL after it. */
  function Total(parts: seq<string>): nat {
    if parts == [] then 0 else Total(parts[..|parts| - 1]) + |parts[|parts| - 1]| + 1
  }

  lemma {:induction false} TotalOfJoin(parts: seq<string>)
    requires |parts| > 0
    ensures Total(parts) == |Join(parts, " ")| + 1
  {
    var k := |parts| - 1;
    if k > 0 {
      TotalOfJoin(parts[..k]);
      JoinAppend(parts[..k], [parts[k]], " ");
      assert parts == parts[..k] + [parts[k]];
    }
  }

  lemma PresentStep(args: seq<Option<string>>, i: nat)
    requires i < |args|
    ensures var before, after := Present(args[..i]), Present(args[..i + 1]);
            match args[i]
            case None => after == before
            case Some(s) => after == before + [s] && Total(after) == Total(before) + |s| + 1
  {
    assert args[..i + 1][..i] == args[..i];
    match args[i]
    case None =>
    case Some(s) => assert (Present(args[..i]) + [s])[..|Present(args[..i])|] == Present(args[..i]);
  }

  lemma {:induction false} TotalOfPrefix(args: seq<Option<string>>, i: nat)
    requires i <= |args|
    ensures Total(Present(args[..i])) <= Total(Present(args))
    decreases |args| - i
  {
    if i < |args| {
      PresentStep(args, i);
      TotalOfPrefix(args, i + 1);
    } else {
      assert args[..i] == args;
    }
  }

  /** managesieve_write_list: the first loop sizes the buffer, the second fills it. */
  method WriteList(args: seq<Option<string>>) returns (out: Option<string>)
    ensures out == if Present(args) == [] then None else Some(Join(Present(args), " "))
  {
    var len := 0;
    for i := 0 to |args|
      invariant len == Total(Present(args[..i]))
    {
      PresentStep(args, i);
      match args[i] {
        case None =>
        case Some(str) => len := len + |str| + 1;
      }
    }
    assert args[..|args|] == args;
    if len == 0 {
      return None;
    }
    assert Present(args) != [];
    var text := Fill(args, len);
    return Some(text);
  }

  /** A separator unless this is the first argument, then the argument. */
  method Append(out: array<char>, end: nat, first: bool, str: string) returns (end': nat)
    requires end < out.Length && out[end] == '\0'
    requires end + (if first then 0 else 1) + |str| < out.Length
    modifies out
    ensures end' == end + (if first then 0 else 1) + |str| && out[end'] == '\0'
    ensures out[..end'] == old(out[..end]) + (if first then "" else " ") + str
  {
    end' := end;
    if !first {
      StrCat(out, end, " ");
      end' := end + 1;
    }
    StrCat(out, end', str);
    end' := end' + |str|;
  }

  lemma JoinAllSnoc(parts: seq<string>, s: string)
    ensures JoinAll(parts + [s], " ") == JoinAll(parts, " ") + (if parts == [] then "" else " ") + s
    ensures Total(parts + [s]) == |JoinAll(parts + [s], " ")| + 1
  {
    TotalOfJoin(parts + [s]);
    if parts != [] {
      JoinAppend(parts, [s], " ");
    }
  }

  method Fill(args: seq<Option<string>>, len: nat) returns (text: string)
    requires len == Total(Present(args)) && len > 0
    ensures text == JoinAll(Present(args), " ") && |text| + 1 == len
  {
    hide JoinAll, Total, Present;
    var out := new char[len](_ => '\0');
    var x, end: nat := 0, 0;
    EmptyPresent(args);
    for i := 0 to |args|
      invariant x == |Present(args[..i])|
      invariant end == |JoinAll(Present(args[..i]), " ")| < out.Length
      invariant out[end] == '\0' && out[..end] == JoinAll(Present(args[..i]), " ")
    {
      PresentStep(args, i);
      TotalOfPrefix(args, i + 1);
      match args[i] {
        case None =>
        case Some(str) =>
          JoinAllSnoc(Present(args[..i]), str);
          end := Append(out, end, x == 0, str);
          x := x + 1;
      }
    }
    assert args[..|args|] == args;
    TotalOfJoinAll(Present(args));
    return out[..end];
  }

  lemma EmptyPresent(args: seq<Option<string>>)
    ensures Present(args[..0]) == [] && JoinAll([], " ") == ""
  {
  }

  lemma TotalOfJoinAll(parts: seq<string>)
    requires Total(parts) > 0
    ensures Total(parts) == |JoinAll(parts, " ")| + 1
  {
    TotalOfJoin(parts);
  }

  const STR_WRITE_MAX := MAX_LINE_LENGTH - 3

  /** str_write: one line, which must fit the static write buffer. */
  method StrWrite(io: Io, s: string)
    requires |s| <= STR_WRITE_MAX
    modifies io`sent
    ensures io.sent == old(io.sent) + s + "\r\n"
  {
    io.Write(s + "\r\n");
  }

  /** The bytes of one command and its string argument. */
  function Wire(command: string, client: bool, message: string): string {
    command + " " + Head(message, client) + "\r\n" + (if NeedsLiteral(message) then message + "\r\n" else "")
  }

  lemma PresentTwo(command: string, a: Option<string>)
    ensures var args := Present([Some(command), a]);
            args != [] && Join(args, " ") == if a.Some? then command + " " + a.value else command
  {
    hide Present, Join, Total;
    var args := [Some(command), a];
    PresentStep(args, 0);
    PresentStep(args, 1);
    assert args[..2] == args && args[..0] == [];
    assert Present([]) == [] by { PresentNone(); }
    assert Present(args) == if a.Some? then [command, a.value] else [command];
    JoinFew(command, if a.Some? then a.value else "");
  }

  lemma PresentNone()
    ensures Present([]) == []
  {
  }

  lemma JoinFew(a: string, b: string)
    ensures Join([a], " ") == a && Join([a, b], " ") == a + " " + b
  {
    assert [a, b][1..] == [b];
  }

  /** managesieve_write without a response code. */
  method ManagesieveWrite(io: Io, client: bool, command: string, message: Option<string>)
    requires |command| + (if message.Some? then 1 + |Head(message.value, client)| else 0) <= STR_WRITE_MAX
    requires message.Some? && NeedsLiteral(message.value) ==> |message.value| <= STR_WRITE_MAX
    modifies io`sent
    ensures io.sent == old(io.sent) + (if message.Some? then Wire(command, client, message.value) else command + "\r\n")
  {
    var acap := Acap(None, None);
    if message.Some? {
      acap := FromStr(message.value, client);
    }
    hide Join, Present, Head;
    var line := WriteList([Some(command), acap.a]);
    PresentTwo(command, acap.a);
    StrWrite(io, line.value);
    if acap.b.Some? {
      StrWrite(io, acap.b.value);
    }
  }
}
