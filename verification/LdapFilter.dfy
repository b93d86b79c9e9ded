/** pldap_get_filter_str of perditiondb_ldap.c: `%Ns` placeholders expanded in
    place, in a buffer resized as it goes. */
module LdapFilter {
  import opened Buffers
  import opened Numbers
  import opened Text

  /** Every % begins a placeholder: %, digits, s. */
  predicate WellFormed(t: string)
    decreases |t|
  {
    if t == "" then true
    else if t[0] == '%' then
      var k := SkipDigits(t, 1);
      k < |t| && t[k] == 's' && WellFormed(t[k + 1..])
    else WellFormed(t[1..])
  }

  function Spaces(n: nat): (r: string)
    ensures |r| == n && forall i | 0 <= i < n :: r[i] == ' '
  {
    if n == 0 then "" else " " + Spaces(n - 1)
  }

  /** printf %*s. */
  function RightJustify(key: string, width: nat): string {
    (if width > |key| then Spaces(width - |key|) else "") + key
  }

  /** The template with every placeholder replaced by the justified key. */
  function Expand(t: string, key: string): string
    requires WellFormed(t)
    decreases |t|
  {
    if t == "" then ""
    else if t[0] == '%' then
      var k := SkipDigits(t, 1);
      RightJustify(key, Value(t[1..k])) + Expand(t[k + 1..], key)
    else [t[0]] + Expand(t[1..], key)
  }

  /** What a placeholder means: `%Ns` is the key in a field of N. */
  lemma ExpandPlaceholder(n: nat, t: string, key: string)
    requires WellFormed(t)
    ensures WellFormed("%" + Decimal(n) + "s" + t) && WellFormed("%s" + t)
    ensures Expand("%" + Decimal(n) + "s" + t, key) == RightJustify(key, n) + Expand(t, key)
    ensures Expand("%s" + t, key) == key + Expand(t, key)
  {
    PlaceholderPrefix(Decimal(n), t);
    ValueOfDecimal(n);
    PlaceholderPrefix("", t);
    assert "%" + "" + "s" + t == "%s" + t;
  }

  /** The field written out: text without a percent sign stays, and `%Ns` becomes the key
      behind as many spaces as it is short of N bytes. */
  lemma ExpandField(a: string, n: nat, pad: string, key: string, t: string)
    requires WellFormed(t) && '%' !in a
    requires |pad| == (if n > |key| then n - |key| else 0) && forall i | 0 <= i < |pad| :: pad[i] == ' '
    ensures WellFormed(a + "%" + Decimal(n) + "s" + t)
    ensures Expand(a + "%" + Decimal(n) + "s" + t, key) == a + pad + key + Expand(t, key)
  {
    hide Expand, Decimal, RightJustify, WellFormed;
    ExpandPlaceholder(n, t, key);
    JustifiedBy(key, n, pad);
    var field := "%" + Decimal(n) + "s";
    PlainText(a, field + t, key);
    Regrouped(a, field, t);
    Regrouped(a, "%", Decimal(n));
    Regrouped(a + "%", Decimal(n), "s");
    Regrouped(a, "%" + Decimal(n), "s");
    Regrouped(a, pad + key, Expand(t, key));
    Regrouped(a, pad, key);
  }

  lemma Regrouped(a: string, b: string, c: string)
    ensures a + (b + c) == a + b + c
  {
  }

  lemma JustifiedBy(key: string, n: nat, pad: string)
    requires |pad| == (if n > |key| then n - |key| else 0) && forall i | 0 <= i < |pad| :: pad[i] == ' '
    ensures RightJustify(key, n) == pad + key
  {
    assert n > |key| ==> Spaces(n - |key|) == pad;
  }

  /** Everything else stands for itself. */
  lemma {:induction false} PlainText(a: string, t: string, key: string)
    requires '%' !in a && WellFormed(t)
    ensures WellFormed(a + t) && Expand(a + t, key) == a + Expand(t, key)
    decreases |a|
  {
    if a == "" {
      assert a + t == t;
    } else {
      assert (a + t)[0] == a[0] && (a + t)[1..] == a[1..] + t;
      PlainText(a[1..], t, key);
    }
  }

  lemma UidFilter()
    ensures WellFormed("(uid=%5s)") && Expand("(uid=%5s)", "bob") == "(uid=  bob)"
  {
    hide Expand;
    assert Decimal(5) == "5";
    PlainText(")", "", "bob");
    ExpandNothing("bob");
    assert ")" + "" == ")";
    ExpandField("(uid=", 5, "  ", "bob", ")");
    assert "(uid=" + "%" + Decimal(5) + "s" + ")" == "(uid=%5s)";
    assert "(uid=" + "  " + "bob" + ")" == "(uid=  bob)";
  }

  lemma ExpandNothing(key: string)
    ensures WellFormed("") && Expand("", key) == ""
  {
  }

  lemma PlaceholderPrefix(digits: string, t: string)
    requires forall c | c in digits :: IsDigit(c)
    ensures var u := "%" + digits + "s" + t;
            var k := 1 + |digits|;
            SkipDigits(u, 1) == k && u[k] == 's' && u[k + 1..] == t && u[1..k] == digits
  {
    var u := "%" + digits + "s" + t;
    assert u[1..1 + |digits|] == digits;
    SkipTo(u, 1, 1 + |digits|);
  }

  // ----- the scan -----

  /** Inside a placeholder: `s[start]` is its %, and the rest up to `i` digits. */
  predicate InPlaceholder(s: string, start: nat, i: nat) {
    start < i <= |s| && s[start] == '%' && forall c | c in s[start + 1..i] :: IsDigit(c)
  }

  lemma {:induction false} SkipTo(s: string, i: nat, k: nat)
    requires i <= k <= |s| && forall c | c in s[i..k] :: IsDigit(c)
    ensures SkipDigits(s, i) >= k
    ensures k < |s| && !IsDigit(s[k]) ==> SkipDigits(s, i) == k
    decreases k - i
  {
    if i < k {
      assert s[i] in s[i..k];
      assert forall c | c in s[i + 1..k] :: c in s[i..k];
      SkipTo(s, i + 1, k);
    }
  }

  /** In a well-formed template the byte after the digits is a digit or the s. */
  lemma PlaceholderByte(t: string, i: nat)
    requires WellFormed(t) && InPlaceholder(t, 0, i)
    ensures i < |t| && (IsDigit(t[i]) || t[i] == 's')
    ensures t[i] == 's' ==> SkipDigits(t, 1) == i
    ensures IsDigit(t[i]) ==> InPlaceholder(t, 0, i + 1)
  {
    SkipTo(t, 1, i);
    var k := SkipDigits(t, 1);
    if i < k {
      assert t[i] in t[1..k];
      assert t[1..i + 1] == t[1..i] + [t[i]];
    }
  }

  /** The scan at `i` of the text `s`; `start` is where a placeholder began, or `i`. */
  ghost predicate Progress(goal: string, s: string, start: nat, i: nat, percent: bool, key: string) {
    && start <= i <= |s| && WellFormed(s[start..]) && goal == s[..start] + Expand(s[start..], key)
    && (if percent then InPlaceholder(s[start..], 0, i - start) else i == start)
  }

  lemma PlainByte(goal: string, s: string, i: nat, key: string)
    requires Progress(goal, s, i, i, false, key) && i < |s|
    ensures if s[i] == '%' then Progress(goal, s, i, i + 1, true, key)
            else Progress(goal, s, i + 1, i + 1, false, key)
  {
    assert s[i..][1..] == s[i + 1..] && s[..i + 1] == s[..i] + [s[i]];
  }

  lemma ExpandHere(t: string, k: nat, key: string)
    requires WellFormed(t) && InPlaceholder(t, 0, k) && k < |t| && SkipDigits(t, 1) == k
    ensures WellFormed(t[k + 1..])
    ensures Expand(t, key) == RightJustify(key, Value(t[1..k])) + Expand(t[k + 1..], key)
  {
    hide RightJustify, Value, SkipDigits;
  }

  lemma InsideByte(goal: string, s: string, start: nat, i: nat, key: string)
    requires Progress(goal, s, start, i, true, key)
    ensures i < |s| && start < i && (IsDigit(s[i]) || s[i] == 's')
    ensures forall c | c in s[start + 1..i] :: IsDigit(c)
    ensures IsDigit(s[i]) ==> Progress(goal, s, start, i + 1, true, key)
    ensures s[i] == 's' ==>
              var r := RightJustify(key, Value(s[start + 1..i]));
              Progress(goal, s[..start] + r + s[i + 1..], start + |r|, start + |r|, false, key)
  {
    hide Expand, WellFormed, RightJustify, SkipDigits, Value;
    var t, k := s[start..], i - start;
    PlaceholderByte(t, k);
    assert t[1..k] == s[start + 1..i] && t[k] == s[i];
    if s[i] == 's' {
      ExpandHere(t, k, key);
      var r := RightJustify(key, Value(t[1..k]));
      var s' := s[..start] + r + s[i + 1..];
      assert t[k + 1..] == s[i + 1..] == s'[start + |r|..];
      assert s'[..start + |r|] == s[..start] + r;
    }
  }

  /** realloc to hold `size` bytes; the buffer never has less room than it had. */
  method Resize(a: array<char>, size: nat) returns (b: array<char>)
    ensures fresh(b) && b.Length == (if size > a.Length then size else a.Length) && b[..a.Length] == a[..]
  {
    var n := if size > a.Length then size else a.Length;
    b := new char[n](i requires 0 <= i reads a => if i < a.Length then a[i] else '\0');
  }

  /** memset and memcpy: the key right-justified in a field of `width` bytes. */
  method FillField(b: array<char>, start: nat, width: nat, key: string)
    requires start + width <= b.Length && |key| <= width
    modifies b
    ensures b[..start + width] == old(b[..start]) + RightJustify(key, width)
    ensures b[start + width..] == old(b[start + width..])
  {
    var pad := width - |key|;
    ghost var before := b[..start];
    Copy(b, start, Spaces(width));
    assert b[..start + pad] == before + Spaces(width)[..pad];
    assert Spaces(width)[..pad] == Spaces(pad);
    Copy(b, start + pad, key);
    assert pad == 0 ==> Spaces(pad) == "";
    assert before + Spaces(pad) + key == before + (Spaces(pad) + key);
  }

  /** realloc and memmove: room for `width` bytes where `dead` bytes were. */
  method Shift(a: array<char>, len: nat, start: nat, dead: nat, width: nat) returns (b: array<char>)
    requires len < a.Length && start + dead <= len
    ensures fresh(b) && len + width - dead < b.Length
    ensures b[..start] == a[..start]
    ensures b[start + width..start + width + (len - start - dead)] == a[start + dead..len]
  {
    b := Resize(a, len + width - dead + 1);
    ghost var s, t := a[..], b[..];
    SliceOfPrefix(s, t, start + dead, len);
    SamePrefix(s, t, |s|, start);
    Move(b, start + width, start + dead, len - start - dead);
    SamePrefix(t, b[..], start + width, start);
  }

  lemma SamePrefix(s: string, t: string, j: nat, i: nat)
    requires i <= j <= |s| && j <= |t| && s[..j] == t[..j]
    ensures s[..i] == t[..i]
  {
    assert s[..j][..i] == t[..j][..i];
  }

  lemma SliceOfPrefix(s: string, t: string, i: nat, j: nat)
    requires |s| <= |t| && t[..|s|] == s && i <= j <= |s|
    ensures t[i..j] == s[i..j]
  {
    assert t[..|s|][i..j] == t[i..j];
  }

  /** Bytes [start, start + dead) of a string give way to the justified key. */
  method Splice(a: array<char>, len: nat, start: nat, dead: nat, width: nat, key: string)
    returns (b: array<char>, len': nat)
    requires len < a.Length && start + dead <= len && |key| <= width
    ensures fresh(b) && len' < b.Length && b[len'] == '\0'
    ensures b[..len'] == a[..len][..start] + RightJustify(key, width) + a[..len][start + dead..]
  {
    hide RightJustify, Spaces;
    len' := len + width - dead;
    b := Shift(a, len, start, dead, width);
    ghost var t, n := b[..], len - start - dead;
    SliceOfSuffix(t, start + width, n);
    SliceOfPrefix(a[..len], a[..], start + dead, len);
    SamePrefix(a[..len], a[..], len, start);
    FillField(b, start, width, key);
    ghost var u := b[..];
    SliceOfSuffix(u, start + width, n);
    b[len'] := '\0';
    SamePrefix(u, b[..], len', len');
    assert u[..len'] == u[..start + width] + u[start + width..len'];
  }

  lemma SliceOfSuffix(s: string, i: nat, n: nat)
    requires i + n <= |s|
    ensures s[i..i + n] == s[i..][..n]
  {
  }

  /** The end of a placeholder: its width read, its bytes replaced, and the cursor
      left on the last byte of the key. */
  method Substitute(a: array<char>, len: nat, i: nat, ghost start: nat, formatInt: nat, ghost goal: string, key: string)
    returns (b: array<char>, len': nat, i': int, ghost start': nat)
    requires len < a.Length && start < i < len && a[i] == 's'
    requires Progress(goal, a[..len], start, i, true, key)
    requires formatInt == if i > start + 1 then start + 1 else 0
    ensures fresh(b) && len' < b.Length && b[len'] == '\0'
    ensures -1 <= i' < len' && len' - i' == len - i
    ensures Progress(goal, b[..len'], start', i' + 1, false, key)
  {
    hide Progress, RightJustify;
    InsideByte(goal, a[..len], start, i, key);
    assert a[..len][start + 1..i] == a[start + 1..i];
    assert i == start + 1 ==> a[start + 1..i] == "" && Value("") == 0;
    var width, dead := 0, 2;
    if formatInt != 0 {
      width, dead, i' := Value(a[formatInt..i]), i - formatInt + 2, formatInt - 1;
    } else {
      i' := i - 1;
    }
    Justified(key, width);
    width := if width < |key| then |key| else width;
    assert i' == start && i' + dead == i + 1;
    b, len' := Splice(a, len, i', dead, width, key);
    i' := i' + width - 1;
    start' := i' + 1;
  }

  lemma Justified(key: string, width: nat)
    ensures var w := if width < |key| then |key| else width;
            RightJustify(key, w) == RightJustify(key, width) && |RightJustify(key, w)| == w
  {
  }

  /** pldap_get_filter_str. */
  method GetFilterStr(key: string, filter: string) returns (a: array<char>, len: nat)
    requires WellFormed(filter)
    ensures fresh(a) && len < a.Length && a[len] == '\0'
    ensures a[..len] == Expand(filter, key)
  {
    hide Progress, RightJustify, Expand, WellFormed;
    a := new char[|filter| + 1](_ => '\0');
    Copy(a, 0, filter);
    len := |filter|;
    var i: int, percent, formatInt: nat := 0, false, 0;
    ghost var goal: string, start: nat := Expand(filter, key), 0;
    assert a[..len] == filter && filter[0..] == filter;
    Begin(goal, filter, key);
    while i < len
      invariant fresh(a) && 0 <= i <= len < a.Length && a[len] == '\0'
      invariant Progress(goal, a[..len], start, i, percent, key)
      invariant percent ==> start < i
      invariant formatInt == if percent && i > start + 1 then start + 1 else 0
      decreases len - i
    {
      var c := a[i];
      if !percent {
        Ended(goal, a[..len], start, i, key);
        PlainByte(goal, a[..len], i, key);
        percent := c == '%';
        start := if percent then i else i + 1;
      } else {
        InsideByte(goal, a[..len], start, i, key);
        if IsDigit(c) {
          if formatInt == 0 {
            formatInt := i;
          }
        } else {
          a, len, i, start := Substitute(a, len, i, start, formatInt, goal, key);
          percent, formatInt := false, 0;
        }
      }
      i := i + 1;
    }
    Finished(goal, a[..len], start, percent, key);
  }

  lemma Begin(goal: string, s: string, key: string)
    requires WellFormed(s) && goal == Expand(s, key)
    ensures Progress(goal, s, 0, 0, false, key)
  {
    assert s[0..] == s;
  }

  lemma Ended(goal: string, s: string, start: nat, i: nat, key: string)
    requires Progress(goal, s, start, i, false, key)
    ensures start == i
  {
  }

  lemma Finished(goal: string, s: string, start: nat, percent: bool, key: string)
    requires Progress(goal, s, start, |s|, percent, key)
    ensures !percent && goal == s
  {
    if percent {
      InsideByte(goal, s, start, |s|, key);
    }
  }
}
