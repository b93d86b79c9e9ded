/** server_port.c: [user@]server[:port] parsed out of one buffer cut with NULs,
    and printed back. */
module ServerPort {
  import opened Buffers
  import opened Text

  datatype UserServerPort = UserServerPort(user: Option<string>, server: string, port: Option<string>)

  // ----- strrstr -----

  /** The last occurrence of `needle` at or before `from`. */
  function LastAt(hay: string, needle: string, from: nat): (r: Option<nat>)
    ensures r.Some? ==> r.value <= from && At(hay, r.value, needle)
    ensures r.Some? ==> forall p: nat | r.value < p <= from :: !At(hay, p, needle)
    ensures r.None? ==> forall p: nat | p <= from :: !At(hay, p, needle)
  {
    if At(hay, from, needle) then Some(from)
    else if from == 0 then None
    else LastAt(hay, needle, from - 1)
  }

  /** strrstr: nothing is found in an empty haystack, an empty needle at the front. */
  function StrRStr(hay: string, needle: string): (r: Option<nat>)
    ensures r.Some? ==> r.value + |needle| <= |hay|
  {
    if hay == "" then None
    else if needle == "" then Some(0)
    else if |hay| < |needle| then None
    else LastAt(hay, needle, |hay| - |needle|)
  }

  /** The loop of strrstr. */
  method FindLastString(hay: string, needle: string) returns (r: Option<nat>)
    ensures r == StrRStr(hay, needle)
  {
    if hay == "" {
      return None;
    }
    if needle == "" {
      return Some(0);
    }
    if |hay| < |needle| {
      return None;
    }
    var p := |hay| - |needle|;
    while p >= 0
      invariant -1 <= p <= |hay| - |needle|
      invariant p >= 0 ==> LastAt(hay, needle, |hay| - |needle|) == LastAt(hay, needle, p)
      invariant p < 0 ==> LastAt(hay, needle, |hay| - |needle|) == None
    {
      if At(hay, p, needle) {
        return Some(p);
      }
      p := p - 1;
    }
    return None;
  }

  // ----- parsing -----

  /** Whether the text holds an IPv6 literal: at least [::]. */
  predicate Ipv6(t: string) {
    var right, left := FindLast(t, ']'), FindFirst(t, '[');
    right.Some? && left.Some? && right.value - left.value > 2
  }

  /** The colon before the port. */
  function PortAt(t: string): (r: Option<nat>)
    ensures r.Some? ==> r.value < |t| && t[r.value] == ':'
  {
    if Ipv6(t) then
      var p := FindLast(t, ']').value + 1;
      if p < |t| && t[p] == ':' then Some(p) else None
    else FindLast(t, ':')
  }

  /** FIX_IPV6_LITERAL: the brackets go. None stands for a left bracket that no
      right bracket follows, where the program would write through NULL. */
  function FixIpv6(server: string, ipv6: bool): Option<string> {
    if !ipv6 || server == "" || server[0] != '[' then Some(server)
    else match FindFirst(server, ']')
      case None => None
      case Some(k) => Some(server[1..k])
  }

  /** The text before the port, cut at the last domain delimiter. */
  function SplitHead(head: string, d: string): (Option<string>, string) {
    match StrRStr(head, d)
    case None => (None, head)
    case Some(k) => (Some(head[..k]), if d == "" then "" else head[k + |d|..])
  }

  function Parse(t: string, d: string): Option<UserServerPort> {
    var p := PortAt(t);
    var head, port := if p.Some? then t[..p.value] else t, if p.Some? then Some(t[p.value + 1..]) else None;
    var (user, server) := SplitHead(head, d);
    match FixIpv6(server, Ipv6(t))
    case None => None
    case Some(fixed) => Some(UserServerPort(user, fixed, port))
  }

  lemma CStrAt(s: string, k: nat)
    requires k < |s| && s[k] == '\0' && '\0' !in s[..k]
    ensures CStr(s) == s[..k]
  {
    var f := FindFirst(s, '\0').value;
    forall i | 0 <= i < k ensures s[i] != '\0' {
      assert s[..k][i] == s[i];
    }
    forall i | 0 <= i < f ensures s[i] != '\0' {
      assert s[..f][i] == s[i];
    }
  }

  lemma CStrSlice(s: string, from: nat, to: nat)
    requires from <= to < |s| && s[to] == '\0' && CString(s[from..to])
    ensures CStr(s[from..]) == s[from..to]
  {
    assert s[from..][..to - from] == s[from..to];
    CStrAt(s[from..], to - from);
  }

  /** A NUL written at `k`, and the two C strings the buffer then holds. */
  method CutString(a: array<char>, s: string, k: nat, j: nat) returns (left: string, right: string)
    requires |s| < a.Length && a[..|s|] == s && a[|s|] == '\0' && CString(s)
    requires k < |s| && k <= j <= |s|
    modifies a
    ensures left == s[..k] && right == (if j == k then "" else s[j..])
    ensures a[..k] == s[..k] && a[k] == '\0'
  {
    a[k] := '\0';
    ghost var t := a[..];
    assert t[0..k] == s[..k] && t[0..] == t;
    CStrSlice(t, 0, k);
    left := CStr(a[..]);
    if j == k {
      CStrSlice(t, k, k);
    } else {
      assert t[j..|s|] == s[j..];
      CStrSlice(t, j, |s|);
    }
    assert t[j..] == a[j..];
    right := CStr(a[j..]);
  }

  method FindPort(str: string) returns (ipv6: bool, p: Option<nat>)
    ensures ipv6 == Ipv6(str) && p == PortAt(str)
  {
    ipv6, p := false, FindLast(str, ']');
    if p.Some? {
      var left := FindFirst(str, '[');
      if left.Some? && p.value - left.value > 2 {
        ipv6, p := true, Some(p.value + 1);
        if p.value == |str| || str[p.value] != ':' {
          p := None;
        }
      }
    }
    if !ipv6 {
      p := FindLast(str, ':');
    }
  }

  /** The user cut from the server, in the buffer holding `head`. */
  method CutUser(a: array<char>, head: string, d: string) returns (user: Option<string>, server: string)
    requires |head| < a.Length && a[..|head|] == head && a[|head|] == '\0' && CString(head)
    modifies a
    ensures (user, server) == SplitHead(head, d)
  {
    hide StrRStr, CStr;
    var k := FindLastString(head, d);
    if k.None? {
      return None, head;
    }
    EmptyNotFound(head, d, k.value);
    var left;
    left, server := CutString(a, head, k.value, k.value + |d|);
    user := Some(left);
  }

  /** user_server_port_strn_assign: the text is copied into one buffer, and NULs
      are written over the delimiters. */
  method StrnAssign(str: string, d: string) returns (usp: UserServerPort)
    requires CString(str) && Parse(str, d).Some?
    ensures Parse(str, d) == Some(usp)
  {
    hide SplitHead, FixIpv6, PortAt, Ipv6, CStr;
    var a := new char[|str| + 1](_ => '\0');
    Copy(a, 0, str);
    assert a[..|str|] == str;
    var ipv6, p := FindPort(str);
    var port: Option<string>, head := None, str;
    if p.Some? {
      var rest;
      head, rest := CutString(a, str, p.value, p.value + 1);
      port := Some(rest);
    }
    var user, server := CutUser(a, head, d);
    usp := UserServerPort(user, FixIpv6(server, ipv6).value, port);
  }

  lemma EmptyNotFound(hay: string, needle: string, k: nat)
    requires StrRStr(hay, needle) == Some(k)
    ensures k < |hay|
  {
  }

  // ----- printing -----

  function UserText(u: UserServerPort, d: string): string {
    match u.user case None => "" case Some(s) => s + d
  }

  function PortText(u: UserServerPort): string {
    match u.port case None => "" case Some(s) => ":" + s
  }

  function Display(u: UserServerPort, d: string): string {
    UserText(u, d) + u.server + PortText(u)
  }

  /** user_server_port_length. */
  method Length(u: UserServerPort, d: string) returns (len: nat)
    ensures len == |Display(u, d)|
  {
    len := 0;
    len := len + (match u.user case None => 0 case Some(s) => |s| + |d|);
    len := len + |u.server|;
    len := len + (match u.port case None => 0 case Some(s) => |s| + 1);
  }

  /** user_server_port_display, into a buffer of the length just computed. */
  method DisplayTo(u: UserServerPort, d: string) returns (str: array<char>)
    ensures fresh(str) && str[..] == Display(u, d) + "\0"
  {
    hide UserText, PortText;
    var len := Length(u, d);
    str := new char[len + 1](_ => '\0');
    var end := CatUser(str, u, d);
    StrCat(str, end, u.server);
    end := end + |u.server|;
    end := CatPort(str, end, u);
    assert str[..] == str[..end] + "\0";
  }

  method CatUser(str: array<char>, u: UserServerPort, d: string) returns (end: nat)
    requires |UserText(u, d)| < str.Length && str[0] == '\0'
    modifies str
    ensures end == |UserText(u, d)| && str[end] == '\0' && str[..end] == UserText(u, d)
  {
    end := 0;
    if u.user.Some? {
      end := CatTwo(str, 0, u.user.value, d);
    }
  }

  method CatPort(str: array<char>, pos: nat, u: UserServerPort) returns (end: nat)
    requires pos + |PortText(u)| < str.Length && str[pos] == '\0'
    modifies str
    ensures end == pos + |PortText(u)| && str[end] == '\0' && str[..end] == old(str[..pos]) + PortText(u)
  {
    end := pos;
    if u.port.Some? {
      end := CatTwo(str, pos, ":", u.port.value);
    }
  }

  // ----- the round trip -----

  /** The printed port is the text after the last colon. */
  predicate PortOk(u: UserServerPort, d: string) {
    match u.port
    case Some(p) => ':' !in p
    case None => ':' !in UserText(u, d) + u.server
  }

  /** The printed delimiter is the last one. */
  ghost predicate UserOk(u: UserServerPort, d: string) {
    match u.user
    case Some(_) => forall p: nat | p > 0 :: !At(d + u.server, p, d)
    case None => forall p: nat :: !At(u.server, p, d)
  }

  lemma LastColon(a: string, b: string)
    ensures ':' !in b ==> FindLast(a + ":" + b, ':') == Some(|a|)
    ensures ':' in b ==> FindLast(a + ":" + b, ':').Some? && FindLast(a + ":" + b, ':').value > |a|
  {
    var t := a + ":" + b;
    assert t[|a|] == ':';
    forall i | |a| < i < |t| ensures t[i] == b[i - |a| - 1] {
    }
    if ':' !in b {
      PositionUnique(t, |a|, ':');
    } else {
      var j :| 0 <= j < |b| && b[j] == ':';
      assert t[|a| + 1 + j] == ':';
      var r := FindLast(t, ':').value;
      assert forall i | r < i < |t| :: t[i] == t[r + 1..][i - r - 1];
    }
  }

  /** The port comes back exactly when it is printed after the last colon. */
  lemma PortSplits(u: UserServerPort, d: string)
    requires !Ipv6(Display(u, d))
    ensures var t, p := Display(u, d), PortAt(Display(u, d));
            PortOk(u, d) <==>
              (if p.Some? then t[..p.value] else t) == UserText(u, d) + u.server
              && (if p.Some? then Some(t[p.value + 1..]) else None) == u.port
  {
    var t, head := Display(u, d), UserText(u, d) + u.server;
    match u.port
    case None => assert t == head;
    case Some(q) =>
      assert t == head + ":" + q;
      LastColon(head, q);
      assert t[..|head|] == head && t[|head| + 1..] == q;
  }

  /** The user comes back exactly when the delimiter printed is the last one. */
  lemma UserSplits(u: UserServerPort, d: string)
    requires d != ""
    ensures UserOk(u, d) <==> SplitHead(UserText(u, d) + u.server, d) == (u.user, u.server)
  {
    hide LastAt;
    var head := UserText(u, d) + u.server;
    var r := StrRStr(head, d);
    match u.user
    case None =>
      assert head == u.server;
      assert r.Some? ==> At(head, r.value, d);
    case Some(s) =>
      assert head[|s|..] == d + u.server && head[..|s|] == s;
      assert (d + u.server)[0..|d|] == d;
      AtDrop(head, |s|, 0, d);
      assert At(head, |s|, d) && r.Some? && r.value >= |s|;
      if r.value == |s| {
        assert head[|s| + |d|..] == u.server;
        forall p: nat | p > 0 ensures !At(d + u.server, p, d) {
          AtDrop(head, |s|, p, d);
        }
      } else {
        AtDrop(head, |s|, r.value - |s|, d);
        assert |head[..r.value]| != |s|;
      }
  }

  /** Parse undoes display, for texts without an IPv6 literal, exactly when the
      port has no colon (nor the rest, if there is no port) and the delimiter
      printed is the last to be seen. */
  lemma ParseUndoesDisplay(u: UserServerPort, d: string)
    requires d != "" && !Ipv6(Display(u, d))
    ensures Parse(Display(u, d), d) == Some(u) <==> PortOk(u, d) && UserOk(u, d)
  {
    PortSplits(u, d);
    UserSplits(u, d);
  }

  /** A bracketed IPv6 address loses its brackets, and its colons are not the port's: the
      three parts come back exactly when the delimiter printed is the last one. */
  lemma Ipv6LiteralParses(u: UserServerPort, d: string)
    requires d != "" && |u.server| >= 2 && ']' !in u.server && ']' !in PortText(u)
    ensures Parse(UserText(u, d) + ("[" + u.server + "]") + PortText(u), d) == Some(u)
       <==> UserOk(u.(server := "[" + u.server + "]"), d)
  {
    hide FindFirst, FindLast, StrRStr, UserOk, SplitHead, FixIpv6, PortAt, Ipv6, Parse;
    var host := "[" + u.server + "]";
    var head := UserText(u, d) + host;
    UserSplits(u.(server := host), d);
    Ipv6Port(u, UserText(u, d));
    HostUnbracketed(u.server);
    ParseIpv6(head + PortText(u), head, u.port, d);
    if SplitHead(head, d).0 == u.user {
      SameUserSameHost(u, d, host);
    }
  }

  lemma ParseIpv6(t: string, head: string, port: Option<string>, d: string)
    requires var p := PortAt(t);
             && Ipv6(t) && (if p.Some? then t[..p.value] else t) == head
             && (if p.Some? then Some(t[p.value + 1..]) else None) == port
    ensures var (user, server) := SplitHead(head, d);
            Parse(t, d) == match FixIpv6(server, true)
                           case None => None
                           case Some(fixed) => Some(UserServerPort(user, fixed, port))
  {
    hide PortAt, Ipv6, SplitHead, FixIpv6;
  }

  lemma SameUserSameHost(u: UserServerPort, d: string, host: string)
    requires d != "" && SplitHead(UserText(u, d) + host, d).0 == u.user
    ensures SplitHead(UserText(u, d) + host, d).1 == host
  {
    hide StrRStr;
    var head := UserText(u, d) + host;
    match u.user
    case None =>
    case Some(s) =>
      var k := StrRStr(head, d).value;
      assert |head[..k]| == k && k == |s|;
      assert head[|s| + |d|..] == host;
  }

  lemma HostUnbracketed(address: string)
    requires ']' !in address
    ensures FixIpv6("[" + address + "]", true) == Some(address)
  {
    hide FindFirst;
    var host := "[" + address + "]";
    assert forall i | 0 < i < |address| + 1 :: host[i] == address[i - 1] && address[i - 1] in address;
    PositionUnique(host, |address| + 1, ']');
    assert host[1..|address| + 1] == address;
  }

  lemma Ipv6Port(u: UserServerPort, prefix: string)
    requires |u.server| >= 2 && ']' !in PortText(u)
    ensures var head := prefix + ("[" + u.server + "]");
            var t, p := head + PortText(u), PortAt(head + PortText(u));
            && Ipv6(t)
            && (if p.Some? then t[..p.value] else t) == head
            && (if p.Some? then Some(t[p.value + 1..]) else None) == u.port
  {
    hide FindFirst, FindLast;
    var head, tail := prefix + ("[" + u.server + "]"), PortText(u);
    var t, k := head + tail, |head| - 1;
    LastBracket(head, tail);
    assert t[|prefix|] == '[';
    FirstNotLater(t, |prefix|, '[');
    if u.port.Some? {
      assert tail == ":" + u.port.value;
      assert t[k + 1] == ':' && t[..k + 1] == head && t[k + 2..] == u.port.value;
    } else {
      assert t == head;
    }
  }

  lemma LastBracket(head: string, tail: string)
    requires head != "" && head[|head| - 1] == ']' && ']' !in tail
    ensures FindLast(head + tail, ']') == Some(|head| - 1)
  {
    hide FindFirst, FindLast;
    var t, k := head + tail, |head| - 1;
    forall i | k < i < |t| ensures t[i] != ']' {
      assert t[i] == tail[i - k - 1] && tail[i - k - 1] in tail;
    }
    PositionUnique(t, k, ']');
  }

  lemma FirstNotLater(t: string, k: nat, c: char)
    requires k < |t| && t[k] == c
    ensures FindFirst(t, c).Some? && FindFirst(t, c).value <= k
  {
    var f := FindFirst(t, c).value;
    assert forall i | 0 <= i < f :: t[i] == t[..f][i];
  }

  lemma PositionUnique(t: string, k: nat, c: char)
    requires k < |t| && t[k] == c
    ensures (forall i | 0 <= i < k :: t[i] != c) ==> FindFirst(t, c) == Some(k)
    ensures (forall i | k < i < |t| :: t[i] != c) ==> FindLast(t, c) == Some(k)
  {
    var f, l := FindFirst(t, c).value, FindLast(t, c).value;
    assert forall i | 0 <= i < f :: t[i] == t[..f][i];
    assert forall i | l < i < |t| :: t[i] == t[l + 1..][i - l - 1];
  }
}
