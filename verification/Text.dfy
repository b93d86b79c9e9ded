/** Text shared by every component: C strings as `string`, the searches the
    program borrows from the C library, and the case-insensitive comparison. */
module Text {

  datatype Option<+T> = None | Some(value: T)

  /** A C string holds no NUL. */
  predicate CString(s: string) {
    '\0' !in s
  }

  /** `needle` stands in `hay` at offset `p`. */
  predicate At(hay: string, p: nat, needle: string) {
    p + |needle| <= |hay| && hay[p..p + |needle|] == needle
  }

  lemma AtDrop(hay: string, p: nat, i: nat, needle: string)
    requires p <= |hay|
    ensures At(hay[p..], i, needle) <==> At(hay, p + i, needle)
  {
    assert p + i + |needle| <= |hay| ==> hay[p..][i..i + |needle|] == hay[p + i..p + i + |needle|];
  }

  lemma AtParts(hay: string, p: nat, a: string, b: string)
    ensures At(hay, p, a + b) <==> At(hay, p, a) && At(hay, p + |a|, b)
  {
    if p + |a| + |b| <= |hay| {
      assert hay[p..p + |a + b|] == hay[p..p + |a|] + hay[p + |a|..p + |a| + |b|];
      assert (a + b)[..|a|] == a && (a + b)[|a|..] == b;
      assert hay[p..p + |a + b|][..|a|] == hay[p..p + |a|];
      assert hay[p..p + |a + b|][|a|..] == hay[p + |a|..p + |a| + |b|];
    }
  }

  /** strstr(hay + from, needle): the first occurrence at or after `from`. */
  function Find(hay: string, from: nat, needle: string): (r: Option<nat>)
    requires from <= |hay|
    ensures r.Some? ==> from <= r.value <= r.value + |needle| <= |hay| && At(hay, r.value, needle)
    ensures r.Some? ==> forall p: nat :: from <= p < r.value ==> !At(hay, p, needle)
    ensures r.None? ==> forall p: nat :: from <= p ==> !At(hay, p, needle)
    decreases |hay| - from
  {
    if At(hay, from, needle) then Some(from)
    else if from == |hay| then None
    else Find(hay, from + 1, needle)
  }

  /** strrchr: the last position of `c`. */
  function FindLast(s: string, c: char): (r: Option<nat>)
    ensures r.Some? ==> r.value < |s| && s[r.value] == c && c !in s[r.value + 1..]
    ensures r.None? ==> c !in s
  {
    if s == "" then None
    else if s[|s| - 1] == c then Some(|s| - 1)
    else
      assert s == s[..|s| - 1] + [s[|s| - 1]];
      var r := FindLast(s[..|s| - 1], c);
      assert r.Some? ==> s[r.value + 1..] == s[..|s| - 1][r.value + 1..] + [s[|s| - 1]];
      r
  }

  /** strchr: the first position of `c`. */
  function FindFirst(s: string, c: char): (r: Option<nat>)
    ensures r.Some? ==> r.value < |s| && s[r.value] == c && c !in s[..r.value]
    ensures r.None? ==> c !in s
  {
    if s == "" then None
    else if s[0] == c then Some(0)
    else
      assert s == [s[0]] + s[1..];
      var r := FindFirst(s[1..], c);
      if r.None? then None
      else
        assert s[..r.value + 1] == [s[0]] + s[1..][..r.value];
        Some(r.value + 1)
  }

  /** strn_to_str: a C string ends at its first NUL. */
  function CStr(s: string): string {
    match FindFirst(s, '\0')
    case None => s
    case Some(k) => s[..k]
  }

  lemma CStrOfCString(s: string)
    requires CString(s)
    ensures CStr(s) == s
  {
  }

  predicate IsDigit(c: char) { '0' <= c <= '9' }
  predicate IsLower(c: char) { 'a' <= c <= 'z' }
  predicate IsUpper(c: char) { 'A' <= c <= 'Z' }

  function ToUpper(c: char): char {
    if IsLower(c) then (c as int - 32) as char else c
  }

  /** strncasecmp over equal lengths, in the C locale. */
  predicate SameIgnoringCase(a: string, b: string) {
    |a| == |b| && forall i | 0 <= i < |a| :: ToUpper(a[i]) == ToUpper(b[i])
  }

  /** The letters of a word made small, and no other byte changed. */
  function Lowered(s: string): (r: string)
    ensures |r| == |s|
    ensures forall i | 0 <= i < |s| :: r[i] == if 'A' <= s[i] <= 'Z' then (s[i] as int + 32) as char else s[i]
  {
    if s == "" then ""
    else [if 'A' <= s[0] <= 'Z' then (s[0] as int + 32) as char else s[0]] + Lowered(s[1..])
  }

  /** Two words are the same exactly if they are in small letters. */
  lemma SameInSmallLetters(a: string, b: string)
    ensures SameIgnoringCase(a, b) <==> Lowered(a) == Lowered(b)
  {
    hide ToUpper;
    if |a| == |b| {
      forall i | 0 <= i < |a| ensures ToUpper(a[i]) == ToUpper(b[i]) <==> Lowered(a)[i] == Lowered(b)[i] {
        SameSmallLetter(a[i], b[i]);
      }
      if SameIgnoringCase(a, b) {
        assert forall i | 0 <= i < |a| :: Lowered(a)[i] == Lowered(b)[i];
      }
    }
  }

  lemma SameSmallLetter(a: char, b: char)
    ensures var small := (c: char) => if 'A' <= c <= 'Z' then (c as int + 32) as char else c;
            ToUpper(a) == ToUpper(b) <==> small(a) == small(b)
  {
  }

  /** The strings of `parts` with `sep` between neighbours. */
  function Join(parts: seq<string>, sep: string): string
    requires |parts| > 0
  {
    if |parts| == 1 then parts[0] else parts[0] + sep + Join(parts[1..], sep)
  }

  function JoinAll(parts: seq<string>, sep: string): string {
    if parts == [] then "" else Join(parts, sep)
  }

  lemma {:induction false} JoinAppend(a: seq<string>, b: seq<string>, sep: string)
    requires |a| > 0 && |b| > 0
    ensures Join(a + b, sep) == Join(a, sep) + sep + Join(b, sep)
  {
    if |a| == 1 {
      assert (a + b)[1..] == b;
    } else {
      assert (a + b)[1..] == a[1..] + b;
      JoinAppend(a[1..], b, sep);
      assert Join(a + b, sep) == a[0] + sep + (Join(a[1..], sep) + sep + Join(b, sep));
      assert Join(a, sep) == a[0] + sep + Join(a[1..], sep);
    }
  }
}
