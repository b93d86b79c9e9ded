/** Capability lists: str_delete_substring and str_append_substring_if_missing of
    str.c edit a string in place; here they are list editing. */
module Capability {
  import opened Buffers
  import opened Text

  // ----- the edits on strings -----

  /** `s` begins with the delimiter and then the needle as a whole element. */
  predicate Match(s: string, d: string, n: string) {
    At(s, 0, d + n) && (|s| == |d| + |n| || At(s, |d| + |n|, d))
  }

  /** `s` with every matching delimiter-and-needle taken out, left to right. */
  function Del(s: string, d: string, n: string): string
    decreases |s|
  {
    if s == "" || d + n == "" then s
    else if Match(s, d, n) then Del(s[|d| + |n|..], d, n)
    else [s[0]] + Del(s[1..], d, n)
  }

  /** The needle stands at `p` as a whole element of `s`, a delimiter before it. */
  predicate Element(s: string, p: nat, d: string, n: string) {
    |d| <= p <= |s| && Match(s[p - |d|..], d, n)
  }

  predicate Has(s: string, d: string, n: string) {
    exists p: nat :: p <= |s| && Element(s, p, d, n)
  }

  function Add(s: string, d: string, n: string): string {
    if Has(s, d, n) then s else s + d + n
  }

  /** A needle and delimiter that cannot overlap. */
  predicate Apart(d: string, n: string) {
    d != "" && n != "" && forall c | c in n :: c !in d
  }

  /** The needle is the first element; str_delete_substring would step in front
      of its buffer. */
  predicate First(s: string, d: string, n: string) {
    At(s, 0, n) && (|s| == |n| || At(s, |n|, d))
  }

  lemma {:induction false} DelCopies(u: string, k: nat, d: string, n: string)
    requires k <= |u| && d + n != ""
    requires forall j | 0 <= j < k :: !Match(u[j..], d, n)
    ensures Del(u, d, n) == u[..k] + Del(u[k..], d, n)
  {
    hide Match;
    if k > 0 {
      assert u[0..] == u;
      forall j | 0 <= j < k - 1 ensures !Match(u[1..][j..], d, n) {
        assert u[1..][j..] == u[j + 1..];
      }
      DelCopies(u[1..], k - 1, d, n);
      assert u[1..][k - 1..] == u[k..] && u[..k] == [u[0]] + u[1..][..k - 1];
      assert Del(u, d, n) == [u[0]] + (u[1..][..k - 1] + Del(u[k..], d, n));
    } else {
      assert u[0..] == u;
    }
  }

  /** A match is a delimiter and then the needle. */
  lemma MatchParts(u: string, j: nat, d: string, n: string)
    requires j <= |u| && Match(u[j..], d, n)
    ensures At(u, j, d) && At(u, j + |d|, n)
  {
    AtDrop(u, j, 0, d + n);
    AtParts(u, j, d, n);
  }

  lemma MatchBegins(u: string, j: nat, d: string, n: string)
    requires j <= |u| && Match(u[j..], d, n)
    ensures j + |d| + |n| <= |u| && forall i | j <= i < j + |d| :: u[i] in d
  {
    MatchParts(u, j, d, n);
    forall i | j <= i < j + |d| ensures u[i] in d {
      assert u[i] == u[j..j + |d|][i - j];
    }
  }

  /** Around an occurrence no other element can match: delimiter and needle share
      no character. */
  lemma NoMatchOver(u: string, k: nat, j: nat, d: string, n: string)
    requires Apart(d, n) && At(u, k, n) && j <= |u|
    requires k < j + |d| && j < k + |n|
    ensures !Match(u[j..], d, n)
  {
    var i := if j < k then k else j;
    assert u[i] == u[k..k + |n|][i - k] == n[i - k] && n[i - k] in n;
    if Match(u[j..], d, n) {
      MatchBegins(u, j, d, n);
    }
  }

  lemma MatchIsLater(u: string, k: nat, j: nat, d: string, n: string)
    requires Apart(d, n) && j <= |u| && Match(u[j..], d, n)
    requires forall i: nat | i < k :: !At(u, i, n)
    ensures k <= j + |d| && At(u, j + |d|, n)
  {
    MatchParts(u, j, d, n);
  }

  /** Up to the end of a first occurrence at `k`, the only match is the element there. */
  lemma OnlyMatch(u: string, k: nat, j: nat, d: string, n: string)
    requires Apart(d, n) && At(u, k, n) && (forall i: nat | i < k :: !At(u, i, n)) && j < k + |n|
    ensures Match(u[j..], d, n) ==> k == j + |d| && Element(u, k, d, n)
  {
    if Match(u[j..], d, n) {
      MatchIsLater(u, k, j, d, n);
      if k < j + |d| {
        NoMatchOver(u, k, j, d, n);
      }
    }
  }

  /** Up to the end of a first occurrence that is no element, Del copies. */
  lemma DelSkips(u: string, k: nat, d: string, n: string)
    requires Apart(d, n) && At(u, k, n) && forall i: nat | i < k :: !At(u, i, n)
    requires !Element(u, k, d, n)
    ensures Del(u, d, n) == u[..k + |n|] + Del(u[k + |n|..], d, n)
  {
    forall j | 0 <= j < k + |n| ensures !Match(u[j..], d, n) {
      OnlyMatch(u, k, j, d, n);
    }
    DelCopies(u, k + |n|, d, n);
  }

  /** A first occurrence that is an element goes, with the delimiter before it. */
  lemma DelTakes(u: string, k: nat, d: string, n: string)
    requires Apart(d, n) && At(u, k, n) && forall i: nat | i < k :: !At(u, i, n)
    requires Element(u, k, d, n)
    ensures Del(u, d, n) == u[..k - |d|] + Del(u[k + |n|..], d, n)
  {
    forall j | 0 <= j < k - |d| ensures !Match(u[j..], d, n) {
      OnlyMatch(u, k, j, d, n);
    }
    DelCopies(u, k - |d|, d, n);
    assert u[k - |d|..][|d| + |n|..] == u[k + |n|..];
  }

  lemma DelNothing(u: string, d: string, n: string)
    requires Apart(d, n) && forall i: nat :: !At(u, i, n)
    ensures Del(u, d, n) == u
  {
    forall j | 0 <= j < |u| ensures !Match(u[j..], d, n) {
      if Match(u[j..], d, n) {
        MatchIsLater(u, 0, j, d, n);
      }
    }
    DelCopies(u, |u|, d, n);
    assert u[..|u|] == u && u[|u|..] == "";
  }

  // ----- the loops -----

  /** The cursor is not right behind a delimiter, unless in front of another one. */
  predicate CursorOk(s: string, start: nat, d: string) {
    && start <= |s|
    && (start == 0 || s[start - 1] !in d || start == |s| || At(s, start, d))
  }

  lemma FindShift(s: string, start: nat, p: nat, n: string)
    requires start <= p && At(s, p, n) && forall i: nat | start <= i < p :: !At(s, i, n)
    ensures At(s[start..], p - start, n) && forall i: nat | i < p - start :: !At(s[start..], i, n)
  {
    AtDrop(s, start, p - start, n);
    forall i: nat | i < p - start ensures !At(s[start..], i, n) {
      AtDrop(s, start, i, n);
    }
  }

  lemma NeedleAfterDelimiter(s: string, start: nat, p: nat, d: string, n: string)
    requires Apart(d, n) && At(s, start, d) && At(s, p, n) && start <= p
    ensures start + |d| <= p
  {
    assert s[p] == s[p..p + |n|][0] == n[0] && n[0] in n;
    forall i | start <= i < start + |d| ensures s[i] != n[0] {
      assert s[i] == s[start..start + |d|][i - start] == d[i - start];
    }
  }

  /** An element found at `p` begins, delimiter included, at or after the cursor. */
  lemma ElementAfterCursor(s: string, start: nat, p: nat, d: string, n: string)
    requires Apart(d, n) && CursorOk(s, start, d) && start <= p && At(s, p, n)
    ensures Element(s, p, d, n) ==> start <= p - |d|
    ensures Element(s, p, d, n) <==> Element(s[start..], p - start, d, n)
  {
    if Element(s, p, d, n) {
      var at := s[p - |d|..];
      assert at[..|d| + |n|] == d + n;
      forall i | p - |d| <= i < p ensures s[i] in d {
        assert s[i] == at[i - (p - |d|)] == (d + n)[i - (p - |d|)] == d[i - (p - |d|)];
      }
      if start > 0 && s[start - 1] in d {
        if start < |s| {
          NeedleAfterDelimiter(s, start, p, d, n);
        }
      }
      assert s[start..][p - start - |d|..] == at;
    } else if p - start >= |d| {
      assert s[start..][p - start - |d|..] == s[p - |d|..];
    }
  }

  lemma NoneBeyond(s: string, start: nat, n: string)
    requires start <= |s| && n != "" && forall p: nat :: start <= p ==> !At(s, p, n)
    ensures forall i: nat :: !At(s[start..], i, n)
  {
    forall i: nat ensures !At(s[start..], i, n) {
      AtDrop(s, start, i, n);
    }
  }

  /** The delete loop at cursor `start` of the text `s`, on its way to `goal`. */
  ghost predicate Progress(goal: string, s: string, start: nat, d: string, n: string) {
    && CursorOk(s, start, d) && !First(s, d, n)
    && goal == s[..start] + Del(s[start..], d, n)
  }

  /** The two checks the loop makes on an occurrence at `p`. */
  predicate Led(s: string, p: nat, d: string) {
    |d| <= p <= |s| && s[p - |d|..p] == d
  }

  predicate Followed(s: string, end: nat, d: string) {
    end == |s| || At(s, end, d)
  }

  /** One turn of the delete loop. */
  lemma ElementStep(goal: string, s: string, start: nat, p: nat, d: string, n: string)
    requires Apart(d, n) && Progress(goal, s, start, d, n)
    requires start <= p && At(s, p, n) && forall i: nat | start <= i < p :: !At(s, i, n)
    ensures p == 0 ==> !Followed(s, |n|, d)
    ensures Led(s, p, d) && Followed(s, p + |n|, d) ==>
              start <= p - |d| && Progress(goal, s[..p - |d|] + s[p + |n|..], p - |d|, d, n)
    ensures !(Led(s, p, d) && Followed(s, p + |n|, d)) ==> Progress(goal, s, p + |n|, d, n)
  {
    hide Progress, Element, First, Match, Led, Followed;
    FindShift(s, start, p, n);
    ElementByChecks(s, p, d, n);
    if Element(s, p, d, n) {
      ElementCut(goal, s, start, p, d, n);
    } else {
      ElementSkip(goal, s, start, p, d, n);
    }
    if p == 0 {
      NotFirst(goal, s, start, d, n);
    }
  }

  lemma NotFirst(goal: string, s: string, start: nat, d: string, n: string)
    requires Progress(goal, s, start, d, n) && At(s, 0, n)
    ensures !Followed(s, |n|, d)
  {
  }

  lemma ElementCut(goal: string, s: string, start: nat, p: nat, d: string, n: string)
    requires Apart(d, n) && Progress(goal, s, start, d, n) && start <= p && Element(s, p, d, n)
    requires At(s[start..], p - start, n) && forall i: nat | i < p - start :: !At(s[start..], i, n)
    requires At(s, p, n)
    ensures start <= p - |d| && Progress(goal, s[..p - |d|] + s[p + |n|..], p - |d|, d, n)
  {
    hide Del;
    var u, k := s[start..], p - start;
    ElementByChecks(s, p, d, n);
    ElementAfterCursor(s, start, p, d, n);
    AfterCut(s, p, d, n);
    DelTakes(u, k, d, n);
    var t := s[..p - |d|] + s[p + |n|..];
    SliceJoin(s, start, p - |d|);
    assert u[k + |n|..] == s[p + |n|..] == t[p - |d|..] && t[..p - |d|] == s[..p - |d|];
  }

  lemma SliceJoin(s: string, a: nat, b: nat)
    requires a <= b <= |s|
    ensures s[..a] + s[a..][..b - a] == s[..b]
  {
  }

  lemma ElementSkip(goal: string, s: string, start: nat, p: nat, d: string, n: string)
    requires Apart(d, n) && Progress(goal, s, start, d, n) && start <= p && !Element(s, p, d, n)
    requires At(s[start..], p - start, n) && forall i: nat | i < p - start :: !At(s[start..], i, n)
    requires At(s, p, n)
    ensures Progress(goal, s, p + |n|, d, n)
  {
    hide Del;
    var u, k := s[start..], p - start;
    ElementAfterCursor(s, start, p, d, n);
    DelSkips(u, k, d, n);
    SliceJoin(s, start, p + |n|);
    assert u[k + |n|..] == s[p + |n|..];
    assert s[p + |n| - 1] == s[p..p + |n|][|n| - 1] == n[|n| - 1] && n[|n| - 1] in n;
  }

  lemma ElementByChecks(s: string, p: nat, d: string, n: string)
    requires At(s, p, n)
    ensures Element(s, p, d, n) <==> Led(s, p, d) && Followed(s, p + |n|, d)
  {
    if p >= |d| {
      var j := p - |d|;
      AtDrop(s, j, 0, d + n);
      AtParts(s, j, d, n);
      AtDrop(s, j, |d| + |n|, d);
    }
  }

  /** A prefix up to a delimiter, with or without it, has the same first element. */
  lemma FirstOfPrefix(s: string, t: string, c: nat, d: string, n: string)
    requires Apart(d, n) && At(s, c, d)
    requires t == s[..c] || (c + |d| <= |t| && t[..c + |d|] == s[..c + |d|])
    requires First(t, d, n)
    ensures First(s, d, n)
  {
    if c < |t| {
      assert t[c] == t[..c + |d|][c] == s[c] == s[c..c + |d|][0] == d[0];
    }
    forall i | 0 <= i < |n| ensures t[i] == n[i] && t[i] != d[0] {
      assert t[i] == t[0..|n|][i] && n[i] in n;
    }
    assert |n| <= c && s[0..|n|] == t[0..|n|];
    if |t| > |n| {
      assert |n| + |d| <= c + |d| && t[|n|..|n| + |d|] == d;
      forall i | 0 <= i < |n| + |d| ensures s[i] == t[i] {
        assert t != s[..c] ==> t[i] == t[..c + |d|][i] == s[..c + |d|][i];
      }
      assert s[|n|..|n| + |d|] == t[|n|..|n| + |d|];
    }
  }

  /** After a cut the text at the cursor is nothing or a delimiter, so the needle
      has not become the first element. */
  lemma AfterCut(s: string, p: nat, d: string, n: string)
    requires Apart(d, n) && Led(s, p, d) && Followed(s, p + |n|, d)
    ensures var t := s[..p - |d|] + s[p + |n|..];
            CursorOk(t, p - |d|, d) && (First(t, d, n) ==> First(s, d, n))
  {
    hide First;
    var t, c := s[..p - |d|] + s[p + |n|..], p - |d|;
    if p + |n| < |s| {
      assert t[c..c + |d|] == s[p + |n|..p + |n| + |d|] == d;
      assert t[..c + |d|] == s[..c] + d == s[..c + |d|];
    } else {
      assert t == s[..c];
    }
    if First(t, d, n) {
      FirstOfPrefix(s, t, c, d, n);
    }
  }

  lemma LoopDone(goal: string, s: string, start: nat, d: string, n: string)
    requires Apart(d, n) && Progress(goal, s, start, d, n)
    requires forall p: nat :: start <= p ==> !At(s, p, n)
    ensures goal == s
  {
    NoneBeyond(s, start, n);
    DelNothing(s[start..], d, n);
  }

  /** str_delete_substring, on a copy of the haystack edited in place. */
  method DeleteSubstring(haystack: string, n: string, d: string) returns (a: array<char>, len: nat)
    requires Apart(d, n) && !First(haystack, d, n)
    ensures fresh(a) && len < a.Length && a[len] == '\0'
    ensures a[..len] == Del(haystack, d, n)
  {
    hide Progress, First, Apart, At, Del, Find, Followed, CursorOk;
    a := new char[|haystack| + 1](_ => '\0');
    Copy(a, 0, haystack);
    var start: nat, size: nat := 0, |haystack|;
    ghost var goal := Del(haystack, d, n);
    LoopStart(haystack, d, n);
    assert a[..size] == haystack;
    while true
      invariant start <= size < a.Length && a[size] == '\0' && Progress(goal, a[..size], start, d, n)
      decreases size - start
    {
      var found := Find(a[..size], start, n);
      if found.None? {
        LoopDone(goal, a[..size], start, d, n);
        return a, size;
      }
      start, size := DeleteTurn(a, size, start, found.value, n, d, goal);
    }
  }

  /** One turn of the loop, the needle found at `p`: the cursor goes past it, or the needle
      goes and the cursor back. */
  method DeleteTurn(a: array<char>, size: nat, start: nat, p: nat, n: string, d: string, ghost goal: string)
    returns (start': nat, size': nat)
    requires start <= p && size < a.Length && a[size] == '\0' && Apart(d, n) && Progress(goal, a[..size], start, d, n)
    requires At(a[..size], p, n) && forall i: nat | start <= i < p :: !At(a[..size], i, n)
    modifies a
    ensures start' <= size' < a.Length && a[size'] == '\0' && Progress(goal, a[..size'], start', d, n)
    ensures start <= size && size' - start' < size - start
  {
    hide Progress, First, Apart, Del, Followed, CursorOk;
    var end := p + |n|;
    NonEmpty(d, n);
    ghost var s := a[..size];
    ElementStep(goal, s, start, p, d, n);
    start', size' := end, size;
    if (p == 0 || Led(a[..size], p, d)) && Followed(a[..size], end, d) {
      assert p != 0;
      start' := p - |d|;
      CutOut(a, size, start', end);
      size' := size - (end - start');
      assert a[..size'] == s[..start'] + s[end..];
    }
  }

  lemma LoopStart(haystack: string, d: string, n: string)
    requires Apart(d, n) && !First(haystack, d, n)
    ensures Progress(Del(haystack, d, n), haystack, 0, d, n)
  {
    assert haystack[0..] == haystack;
  }

  lemma NonEmpty(d: string, n: string)
    requires Apart(d, n)
    ensures |d| > 0 && |n| > 0
  {
  }

  /** No element hides under the occurrence just rejected. */
  lemma NoElementOver(s: string, p: nat, d: string, n: string)
    requires Apart(d, n) && At(s, p, n)
    ensures forall i: nat | p < i < p + |n| :: !Element(s, i, d, n)
  {
    forall i: nat | p < i < p + |n| ensures !Element(s, i, d, n) {
      if |d| <= i <= |s| {
        NoMatchOver(s, p, i - |d|, d, n);
      }
    }
  }

  lemma ElementOccurs(s: string, p: nat, d: string, n: string)
    requires Element(s, p, d, n)
    ensures At(s, p, n)
  {
    MatchParts(s, p - |d|, d, n);
  }

  /** str_append_substring_if_missing. Its look-behind reads `|d|` bytes in front
      of every occurrence, the first included. */
  method AppendSubstringIfMissing(haystack: string, n: string, d: string) returns (r: string)
    requires Apart(d, n) && forall p: nat | p < |d| :: !At(haystack, p, n)
    ensures r == Add(haystack, d, n)
  {
    var cursor: nat, found := 0, false;
    while true
      invariant cursor <= |haystack|
      invariant forall p: nat | p < cursor :: !Element(haystack, p, d, n)
      decreases |haystack| - cursor
    {
      var hit := Find(haystack, cursor, n);
      if hit.None? {
        forall p: nat | p <= |haystack| ensures !Element(haystack, p, d, n) {
          if Element(haystack, p, d, n) {
            ElementOccurs(haystack, p, d, n);
          }
        }
        break;
      }
      var p := hit.value;
      ElementByChecks(haystack, p, d, n);
      forall i: nat | cursor <= i < p ensures !Element(haystack, i, d, n) {
        if Element(haystack, i, d, n) {
          ElementOccurs(haystack, i, d, n);
        }
      }
      if Led(haystack, p, d) && Followed(haystack, p + |n|, d) {
        found := true;
        break;
      }
      NoElementOver(haystack, p, d, n);
      cursor := p + |n|;
    }
    r := if found then haystack else haystack + d + n;
  }
}
