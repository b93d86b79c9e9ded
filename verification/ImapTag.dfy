/** imap4_tag.c: the IMAP4 tag as a base-62 odometer. */
module ImapTag {
  import opened Text

  predicate TagChar(c: char) { IsDigit(c) || IsLower(c) || IsUpper(c) }

  predicate TagText(s: string) {
    forall i | 0 <= i < |s| :: TagChar(s[i])
  }

  /** Place in the order 0-9, a-z, A-Z. */
  function Digit(c: char): (r: nat)
    requires TagChar(c)
    ensures r < 62
  {
    if IsDigit(c) then c as int - '0' as int
    else if IsLower(c) then 10 + c as int - 'a' as int
    else 36 + c as int - 'A' as int
  }

  lemma DigitInjective(a: char, b: char)
    requires TagChar(a) && TagChar(b) && Digit(a) == Digit(b)
    ensures a == b
  {
    assert a as int == b as int;
  }

  function Number(s: string): nat
    requires TagText(s)
  {
    if s == "" then 0 else 62 * Number(s[..|s| - 1]) + Digit(s[|s| - 1])
  }

  function Power62(k: nat): (r: nat)
    ensures r > 0
  {
    if k == 0 then 1 else 62 * Power62(k - 1)
  }

  // ----- imap4_tag_inc -----

  /** One position: the next byte, and whether the carry stops here. */
  function Bump(c: char): (char, bool) {
    if IsDigit(c) then (if c == '9' then 'a' else (c as int + 1) as char, true)
    else if IsLower(c) then (if c == 'z' then 'A' else (c as int + 1) as char, true)
    else if IsUpper(c) && c != 'Z' then ((c as int + 1) as char, true)
    else ('0', false)
  }

  /** The incremented tag, carrying from the right. */
  function Inc(s: string): (r: string)
    ensures |r| == |s|
  {
    if s == "" then ""
    else
      var k := |s| - 1;
      var (c, last) := Bump(s[k]);
      (if last then s[..k] else Inc(s[..k])) + [c]
  }

  lemma IncStep(s: string, len: nat)
    requires 0 < len <= |s|
    ensures var (c, last) := Bump(s[len - 1]);
            Inc(s[..len]) == (if last then s[..len - 1] else Inc(s[..len - 1])) + [c]
  {
    assert s[..len][..len - 1] == s[..len - 1];
  }

  /** imap4_tag_inc, over the tag's own buffer. */
  method TagInc(buf: array<char>)
    modifies buf
    ensures buf[..] == Inc(old(buf[..]))
  {
    hide Inc;
    ghost var s := buf[..];
    var len := buf.Length;
    assert s[..len] == s && buf[len..] == "";
    while len > 0
      invariant 0 <= len <= buf.Length && buf[..len] == s[..len]
      invariant Inc(s) == Inc(s[..len]) + buf[len..]
    {
      IncStep(s, len);
      len := len - 1;
      var (c, last) := Bump(buf[len]);
      ghost var rest := buf[len + 1..];
      buf[len] := c;
      assert buf[len..] == [c] + rest;
      if last {
        assert buf[..] == s[..len] + buf[len..];
        return;
      }
    }
    IncEmpty();
  }

  lemma IncEmpty()
    ensures Inc("") == ""
  {
  }

  // ----- the odometer -----

  lemma BumpDigit(c: char)
    requires TagChar(c)
    ensures var (d, last) := Bump(c);
            TagChar(d) && Digit(d) == (Digit(c) + 1) % 62 && (last <==> Digit(c) < 61)
  {
  }

  lemma {:induction false} NumberBound(s: string)
    requires TagText(s)
    ensures Number(s) < Power62(|s|)
  {
    if s != "" {
      NumberBound(s[..|s| - 1]);
    }
  }

  /** A tag is incremented modulo 62 to its length, and stays a tag. */
  lemma {:induction false} IncIsSuccessor(s: string)
    requires TagText(s)
    ensures TagText(Inc(s))
    ensures Number(Inc(s)) == if Number(s) + 1 < Power62(|s|) then Number(s) + 1 else 0
  {
    if s != "" {
      var k := |s| - 1;
      var (c, last) := Bump(s[k]);
      BumpDigit(s[k]);
      NumberBound(s[..k]);
      IncIsSuccessor(s[..k]);
      var r := Inc(s);
      assert r[..k] == (if last then s[..k] else Inc(s[..k]));
    }
  }

  lemma {:induction false} NumberInjective(a: string, b: string)
    requires TagText(a) && TagText(b) && |a| == |b| && Number(a) == Number(b)
    ensures a == b
  {
    if a != "" {
      var k := |a| - 1;
      SameDigits(Number(a[..k]), Digit(a[k]), Number(b[..k]), Digit(b[k]));
      DigitInjective(a[k], b[k]);
      NumberInjective(a[..k], b[..k]);
      assert a == a[..k] + [a[k]] && b == b[..k] + [b[k]];
    }
  }

  lemma SameDigits(x: nat, d: nat, y: nat, e: nat)
    requires d < 62 && e < 62 && 62 * x + d == 62 * y + e
    ensures x == y && d == e
  {
  }

  function Incs(s: string, n: nat): (r: string)
    ensures |r| == |s|
  {
    if n == 0 then s else Inc(Incs(s, n - 1))
  }

  /** `a` is `x` modulo `p`. */
  predicate Residue(a: nat, x: nat, p: nat) {
    p > 0 && a == x % p
  }

  lemma ResidueZero(a: nat, p: nat)
    requires a < p
    ensures Residue(a, a, p)
  {
  }

  lemma ResidueNext(a: nat, x: nat, p: nat)
    requires Residue(a, x, p)
    ensures Residue(if a + 1 < p then a + 1 else 0, x + 1, p)
  {
    var q := x / p;
    assert x == q * p + a;
    if a + 1 < p {
      ModUnique(x + 1, p, q, a + 1);
    } else {
      assert x + 1 == (q + 1) * p;
      ModUnique(x + 1, p, q + 1, 0);
    }
  }

  /** `n` increments add `n`, modulo 62 to the length. */
  lemma {:induction false} IncsNumber(s: string, n: nat)
    requires TagText(s)
    ensures TagText(Incs(s, n)) && Residue(Number(Incs(s, n)), Number(s) + n, Power62(|s|))
  {
    hide Power62, Number, Inc, TagText, Residue;
    if n == 0 {
      NumberBound(s);
      ResidueZero(Number(s), Power62(|s|));
    } else {
      IncsNumber(s, n - 1);
      IncIsSuccessor(Incs(s, n - 1));
      ResidueNext(Number(Incs(s, n - 1)), Number(s) + (n - 1), Power62(|s|));
      assert Number(s) + (n - 1) + 1 == Number(s) + n;
    }
  }

  lemma MulBounds(d: int, p: int)
    requires p > 0
    ensures d > 0 ==> d * p >= p
    ensures d < 0 ==> d * p <= -p
  {
  }

  lemma ModUnique(x: nat, p: nat, q: nat, r: nat)
    requires p > 0 && x == q * p + r && r < p
    ensures x % p == r
  {
    var d := x / p - q;
    assert d * p == r - x % p;
    MulBounds(d, p);
  }

  lemma ResidueGap(a: nat, x: nat, y: nat, p: nat)
    requires Residue(a, x, p) && Residue(a, y, p) && x < y
    ensures y - x >= p
  {
    var d := y / p - x / p;
    assert d * p == y - x;
    MulBounds(d, p);
  }

  lemma ResidueWrap(a: nat, v: nat, p: nat)
    requires Residue(a, v + p, p) && v < p
    ensures a == v
  {
    ModUnique(v + p, p, 1, v);
  }

  /** 62^L successive tags of length L are pairwise distinct... */
  lemma TagsDistinct(s: string, i: nat, j: nat)
    requires TagText(s) && i < j && Incs(s, i) == Incs(s, j)
    ensures j - i >= Power62(|s|)
  {
    hide Power62, Number, Incs, TagText, Residue;
    IncsNumber(s, i);
    IncsNumber(s, j);
    ResidueGap(Number(Incs(s, i)), Number(s) + i, Number(s) + j, Power62(|s|));
  }

  /** ... and then they repeat. */
  lemma TagsCycle(s: string)
    requires TagText(s)
    ensures Incs(s, Power62(|s|)) == s
  {
    hide Power62, Number, Incs, TagText, Residue;
    var p := Power62(|s|);
    IncsNumber(s, p);
    NumberBound(s);
    ResidueWrap(Number(Incs(s, p)), Number(s), p);
    NumberInjective(Incs(s, p), s);
  }

  // ----- imap4_in_verify_tag_str -----

  predicate Reserved(c: char) {
    c in "\0(){ %*\"\\]"
  }

  predicate ValidTag(s: string) {
    s != "" && forall i | 0 <= i < |s| :: 0x1f < s[i] as int < 0x7f && !Reserved(s[i])
  }

  method VerifyTag(s: string) returns (ok: bool)
    ensures ok <==> ValidTag(s)
    ensures ok <==> s != "" && forall c | c in s :: '!' <= c <= '~' && c !in ['(', ')', '{', '%', '*', '\"', '\\', ']']
  {
    TagBytes(s);
    if s == "" {
      return false;
    }
    for i := 0 to |s|
      invariant forall j | 0 <= j < i :: 0x1f < s[j] as int < 0x7f && !Reserved(s[j])
    {
      if s[i] as int <= 0x1f || s[i] as int >= 0x7f || Reserved(s[i]) {
        return false;
      }
    }
    return true;
  }

  lemma TagBytes(s: string)
    ensures ValidTag(s) <==>
              s != "" && forall c | c in s :: '!' <= c <= '~' && c !in ['(', ')', '{', '%', '*', '\"', '\\', ']']
  {
    assert forall c: char :: (0x1f < c as int < 0x7f && !Reserved(c)) <==>
                               ('!' <= c <= '~' && c !in ['(', ')', '{', '%', '*', '\"', '\\', ']']);
    if ValidTag(s) {
      assert forall c | c in s :: exists i :: 0 <= i < |s| && s[i] == c;
    } else if s != "" {
      var i :| 0 <= i < |s| && !(0x1f < s[i] as int < 0x7f && !Reserved(s[i]));
      assert s[i] in s;
    }
  }

  /** Digits, then small letters, then capitals, and then a carry. */
  lemma TagExamples()
    ensures Inc("x07") == "x08" && Inc("x09") == "x0a" && Inc("x0z") == "x0A" && Inc("x0Z") == "x10"
  {
    hide Inc;
    assert "x0" + ['7'] == "x07" && "x0" + ['8'] == "x08" && "x0" + ['9'] == "x09" && "x0" + ['a'] == "x0a";
    assert "x0" + ['z'] == "x0z" && "x0" + ['A'] == "x0A" && "x" + ['0'] == "x0" && "x" + ['1'] == "x1";
    IncLast("x0", '7', '8');
    IncLast("x0", '9', 'a');
    IncLast("x0", 'z', 'A');
    IncStep("x0Z", 3);
    assert "x0Z"[..3] == "x0Z" && "x0Z"[..2] == "x0";
    IncLast("x", '0', '1');
    assert "x1" + ['0'] == "x10";
  }

  lemma IncLast(s: string, c: char, d: char)
    requires Bump(c) == (d, true)
    ensures Inc(s + [c]) == s + [d]
  {
    var t := s + [c];
    IncStep(t, |t|);
    assert t[..|t|] == t && t[..|t| - 1] == s;
  }

  const IMAP_TAG_START := "flim07"

  /** Every tag perdition sends is one it would itself accept. */
  lemma TagsAreValid(n: nat)
    ensures TagText(IMAP_TAG_START) && ValidTag(Incs(IMAP_TAG_START, n)) && |Incs(IMAP_TAG_START, n)| == 6
  {
    IncsNumber(IMAP_TAG_START, n);
    TagTextIsValid(Incs(IMAP_TAG_START, n));
  }

  lemma TagTextIsValid(s: string)
    requires TagText(s) && s != ""
    ensures ValidTag(s)
  {
    forall i | 0 <= i < |s| ensures 0x1f < s[i] as int < 0x7f && !Reserved(s[i]) {
      assert TagChar(s[i]);
    }
  }
}
