/** The capability edits as list editing, and the capability each protocol offers. */
module CapabilityList {
  import opened Capability
  import opened Text

  // ----- delimited lists -----

  /** An element whose delimiters on either side are the only ones to be seen. */
  predicate Clean(p: string, d: string) {
    forall i | 0 < i < |d| + |p| :: !At(d + p + d, i, d)
  }

  predicate AllClean(parts: seq<string>, d: string) {
    forall i | 0 <= i < |parts| :: Clean(parts[i], d)
  }

  function Without(parts: seq<string>, n: string): (r: seq<string>)
    ensures forall p :: p in r <==> p in parts && p != n
  {
    if parts == [] then []
    else if parts[0] == n then Without(parts[1..], n)
    else [parts[0]] + Without(parts[1..], n)
  }

  /** Every element behind its delimiter. */
  function Tail(parts: seq<string>, d: string): string {
    if parts == [] then "" else d + parts[0] + Tail(parts[1..], d)
  }

  lemma {:induction false} JoinIsTail(parts: seq<string>, d: string)
    requires |parts| > 0
    ensures Join(parts, d) == parts[0] + Tail(parts[1..], d)
  {
    if |parts| > 1 {
      JoinIsTail(parts[1..], d);
      assert parts[0] + d + (parts[1] + Tail(parts[2..], d)) == parts[0] + (d + parts[1] + Tail(parts[2..], d));
      assert parts[1..][1..] == parts[2..];
    }
  }

  lemma TailBegins(parts: seq<string>, d: string)
    ensures Tail(parts, d) == "" || At(Tail(parts, d), 0, d)
  {
  }

  /** A delimiter seen from inside `w`, with nothing or a delimiter after `w`. */
  lemma DelimiterInside(w: string, t: string, j: nat, d: string)
    requires (t == "" || At(t, 0, d)) && j < |w| && At(w + t, j, d)
    ensures At(w + d, j, d)
  {
    forall i | 0 <= i < |d| ensures (w + d)[j + i] == d[i] {
      assert (w + t)[j..j + |d|][i] == d[i];
      assert j + i >= |w| ==> t[j + i - |w|] == t[0..|d|][j + i - |w|];
    }
    assert (w + d)[j..j + |d|] == d;
  }

  lemma CleanWord(w: string, j: nat, d: string)
    requires d != "" && Clean(w, d) && j < |w|
    ensures !At(w + d, j, d)
  {
    assert d + w + d == d + (w + d);
    if At(w + d, j, d) {
      assert (d + w + d)[|d| + j..|d| + j + |d|] == (w + d)[j..j + |d|];
      assert At(d + w + d, |d| + j, d);
    }
  }

  lemma MatchHasDelimiter(u: string, i: nat, d: string, n: string)
    requires i <= |u| && Match(u[i..], d, n)
    ensures At(u, i, d)
  {
    assert u[i..i + |d|] == u[i..][0..|d| + |n|][..|d|];
  }

  /** No element begins inside a clean word. */
  lemma NoMatchInWord(w: string, t: string, j: nat, d: string, n: string)
    requires d != "" && Clean(w, d) && (t == "" || At(t, 0, d)) && j < |w|
    ensures !Match((w + t)[j..], d, n)
  {
    CleanWord(w, j, d);
    if Match((w + t)[j..], d, n) {
      MatchHasDelimiter(w + t, j, d, n);
      DelimiterInside(w, t, j, d);
    }
  }

  /** Nor inside an element and the delimiter before it. */
  lemma NoMatchInElement(p: string, t: string, i: nat, d: string, n: string)
    requires d != "" && Clean(p, d) && (t == "" || At(t, 0, d)) && 0 < i < |d| + |p|
    ensures !Match((d + p + t)[i..], d, n)
  {
    if Match((d + p + t)[i..], d, n) {
      MatchHasDelimiter(d + p + t, i, d, n);
      DelimiterInside(d + p, t, i, d);
    }
  }

  /** A clean first element is matched whole or not at all. */
  lemma FirstWhole(p: string, t: string, d: string, n: string)
    requires Apart(d, n) && Clean(p, d) && (t == "" || At(t, 0, d))
    ensures First(p + t, d, n) <==> p == n
  {
    var x := p + t;
    if p == n {
      assert x[0..|n|] == n;
      assert t != "" ==> x[|n|..|n| + |d|] == t[0..|d|];
    } else if |n| < |p| {
      CleanWord(p, |n|, d);
      if At(x, |n|, d) {
        DelimiterInside(p, t, |n|, d);
      }
    } else if |p| < |n| <= |x| {
      assert x[|p|] == t[0..|d|][0] == d[0];
      assert n[|p|] in n && x[|p|] == x[0..|n|][|p|];
    } else if |p| == |n| {
      assert x[0..|n|] == p;
    }
  }

  lemma MatchIsFirst(x: string, d: string, n: string)
    ensures Match(d + x, d, n) <==> First(x, d, n)
  {
    var u := d + x;
    if |n| <= |x| {
      assert u[0..|d| + |n|] == d + x[0..|n|];
      assert (d + n)[|d|..] == n && (d + x[0..|n|])[|d|..] == x[0..|n|];
    }
    if |n| + |d| <= |x| {
      assert u[|d| + |n|..|d| + |n| + |d|] == x[|n|..|n| + |d|];
    }
  }

  lemma TailCons(p: string, ps: seq<string>, d: string)
    ensures Tail([p] + ps, d) == d + p + Tail(ps, d)
  {
    assert ([p] + ps)[1..] == ps;
  }

  /** An element other than the needle stays, with its delimiter. */
  lemma DelKeeps(p: string, t: string, d: string, n: string)
    requires Apart(d, n) && Clean(p, d) && (t == "" || At(t, 0, d)) && p != n
    ensures Del(d + p + t, d, n) == d + p + Del(t, d, n)
  {
    var u := d + p + t;
    forall i | 0 <= i < |d| + |p| ensures !Match(u[i..], d, n) {
      if i == 0 {
        assert u[0..] == d + (p + t);
        MatchIsFirst(p + t, d, n);
        FirstWhole(p, t, d, n);
      } else {
        NoMatchInElement(p, t, i, d, n);
      }
    }
    DelCopies(u, |d| + |p|, d, n);
    assert u[..|d| + |p|] == d + p && u[|d| + |p|..] == t;
  }

  /** The needle goes, with its delimiter. */
  lemma DelDrops(t: string, d: string, n: string)
    requires Apart(d, n) && (t == "" || At(t, 0, d))
    ensures Del(d + n + t, d, n) == Del(t, d, n)
  {
    var u := d + n + t;
    assert u[0..|d| + |n|] == d + n;
    assert t != "" ==> u[|d| + |n|..|d| + |n| + |d|] == t[0..|d|];
    assert u[|d| + |n|..] == t;
  }

  lemma {:induction false} DelOfTail(ps: seq<string>, d: string, n: string)
    requires Apart(d, n) && AllClean(ps, d)
    ensures Del(Tail(ps, d), d, n) == Tail(Without(ps, n), d)
  {
    if ps != [] {
      var p, t := ps[0], Tail(ps[1..], d);
      TailBegins(ps[1..], d);
      DelOfTail(ps[1..], d, n);
      if p == n {
        DelDrops(t, d, n);
      } else {
        DelKeeps(p, t, d, n);
        TailCons(p, Without(ps[1..], n), d);
      }
    }
  }

  // ----- DEL is filter, ADD is append if absent -----

  /** Deleting a capability filters it out of the list, for any delimiter that
      shares no character with it. */
  lemma DelIsFilter(parts: seq<string>, d: string, n: string)
    requires Apart(d, n) && AllClean(parts, d) && |parts| > 0 && parts[0] != n
    ensures !First(Join(parts, d), d, n)
    ensures |Without(parts, n)| > 0 && Del(Join(parts, d), d, n) == Join(Without(parts, n), d)
  {
    var w, ps := parts[0], parts[1..];
    var u := w + Tail(ps, d);
    JoinIsTail(parts, d);
    TailBegins(ps, d);
    forall j | 0 <= j < |w| ensures !Match(u[j..], d, n) {
      NoMatchInWord(w, Tail(ps, d), j, d, n);
    }
    DelCopies(u, |w|, d, n);
    assert u[..|w|] == w && u[|w|..] == Tail(ps, d);
    DelOfTail(ps, d, n);
    JoinIsTail(Without(parts, n), d);
    FirstWhole(w, Tail(ps, d), d, n);
  }

  lemma {:induction false} WithoutAbsent(parts: seq<string>, n: string)
    requires n !in parts
    ensures Without(parts, n) == parts
  {
    if parts != [] {
      WithoutAbsent(parts[1..], n);
    }
  }

  lemma {:induction false} WithoutShorter(parts: seq<string>, n: string, d: string)
    ensures |Tail(Without(parts, n), d)| <= |Tail(parts, d)|
    ensures n in parts && |d| > 0 ==> |Tail(Without(parts, n), d)| < |Tail(parts, d)|
  {
    if parts != [] {
      WithoutShorter(parts[1..], n, d);
      if parts[0] != n {
        TailCons(parts[0], Without(parts[1..], n), d);
      }
    }
  }

  lemma ElementShift(u: string, p: nat, d: string, n: string)
    requires u != "" && d != "" && !Match(u, d, n)
    ensures Element(u, p + 1, d, n) <==> Element(u[1..], p, d, n)
  {
    if |d| <= p + 1 <= |u| {
      assert p + 1 == |d| ==> u[p + 1 - |d|..] == u;
      assert p + 1 > |d| ==> u[1..][p - |d|..] == u[p + 1 - |d|..];
    }
  }

  lemma HasShift(u: string, d: string, n: string)
    requires u != "" && d != "" && !Match(u, d, n)
    ensures Has(u, d, n) <==> Has(u[1..], d, n)
  {
    if Has(u, d, n) {
      var p: nat :| p <= |u| && Element(u, p, d, n);
      ElementShift(u, p - 1, d, n);
    }
    if Has(u[1..], d, n) {
      var p: nat :| p <= |u[1..]| && Element(u[1..], p, d, n);
      ElementShift(u, p, d, n);
    }
  }

  /** Del leaves a string alone exactly when no element matches. */
  lemma {:induction false} DelIdentity(u: string, d: string, n: string)
    requires Apart(d, n)
    ensures |Del(u, d, n)| <= |u|
    ensures Del(u, d, n) == u <==> !Has(u, d, n)
    decreases |u|
  {
    if u != "" {
      if Match(u, d, n) {
        assert u[|d| - |d|..] == u && Element(u, |d|, d, n);
        DelIdentity(u[|d| + |n|..], d, n);
      } else {
        HasShift(u, d, n);
        DelIdentity(u[1..], d, n);
        assert u == [u[0]] + u[1..];
      }
    }
  }

  /** The needle is found exactly when it is in the list. */
  lemma HasIsMember(parts: seq<string>, d: string, n: string)
    requires Apart(d, n) && AllClean(parts, d) && |parts| > 0 && parts[0] != n
    ensures Has(Join(parts, d), d, n) <==> n in parts
  {
    DelIsFilter(parts, d, n);
    DelIdentity(Join(parts, d), d, n);
    if n in parts {
      JoinIsTail(parts, d);
      JoinIsTail(Without(parts, n), d);
      assert n in parts[1..];
      WithoutShorter(parts[1..], n, d);
    } else {
      WithoutAbsent(parts, n);
    }
  }

  /** Adding a capability appends it to the list if it is absent. */
  lemma AddIsAppend(parts: seq<string>, d: string, n: string)
    requires Apart(d, n) && AllClean(parts, d) && |parts| > 0 && parts[0] != n
    ensures Add(Join(parts, d), d, n) == Join(if n in parts then parts else parts + [n], d)
  {
    HasIsMember(parts, d, n);
    JoinAppend(parts, [n], d);
  }

  lemma NeedleIsClean(d: string, n: string)
    requires Apart(d, n)
    ensures Clean(n, d)
  {
    var u := d + n + d;
    forall i | 0 < i < |d| + |n| ensures !At(u, i, d) {
      var x := if i < |d| then |d| else i;
      assert u[i..i + |d|][x - i] == u[x] == n[x - |d|] && n[x - |d|] in n;
    }
  }

  /** DEL undoes ADD of an absent capability. */
  lemma DelUndoesAdd(parts: seq<string>, d: string, n: string)
    requires Apart(d, n) && AllClean(parts, d) && |parts| > 0 && n !in parts
    ensures Del(Add(Join(parts, d), d, n), d, n) == Join(parts, d)
  {
    hide Del, Add, Join;
    assert parts[0] in parts;
    AddIsAppend(parts, d, n);
    NeedleIsClean(d, n);
    DelIsFilter(parts + [n], d, n);
    WithoutConcat(parts, [n], n);
    WithoutAbsent(parts, n);
    assert Without([n], n) == [] && parts + [] == parts;
  }

  lemma {:induction false} WithoutConcat(a: seq<string>, b: seq<string>, n: string)
    ensures Without(a + b, n) == Without(a, n) + Without(b, n)
  {
    if a == [] {
      assert a + b == b;
    } else {
      assert (a + b)[1..] == a[1..] + b;
      WithoutConcat(a[1..], b, n);
    }
  }

  // ----- one-character delimiters: every string is such a list -----

  function Fields(s: string, c: char): (r: seq<string>)
    ensures |r| > 0
  {
    if s == "" then [""]
    else
      var r := Fields(s[1..], c);
      if s[0] == c then [""] + r else [[s[0]] + r[0]] + r[1..]
  }

  lemma {:induction false} FieldsJoin(s: string, c: char)
    ensures Join(Fields(s, c), [c]) == s
    ensures forall i | 0 <= i < |Fields(s, c)| :: c !in Fields(s, c)[i]
  {
    if s != "" {
      FieldsJoin(s[1..], c);
      var r := Fields(s[1..], c);
      if s[0] == c {
        assert ([""] + r)[1..] == r;
        assert "" + [c] + s[1..] == s;
      } else {
        var f := [[s[0]] + r[0]] + r[1..];
        assert f[1..] == r[1..];
        assert |r| > 1 ==> [s[0]] + (r[0] + [c] + Join(r[1..], [c])) == [s[0]] + r[0] + [c] + Join(r[1..], [c]);
        assert [s[0]] + s[1..] == s;
      }
    }
  }

  lemma {:induction false} FieldsOfJoin(parts: seq<string>, c: char)
    requires |parts| > 0 && forall i | 0 <= i < |parts| :: c !in parts[i]
    ensures Fields(Join(parts, [c]), c) == parts
    decreases |parts|, |parts[0]|
  {
    var s, p := Join(parts, [c]), parts[0];
    if p != "" {
      var shorter := [p[1..]] + parts[1..];
      assert shorter[1..] == parts[1..];
      FieldsOfJoin(shorter, c);
      assert s[1..] == Join(shorter, [c]) && s[0] == p[0] && p[0] in p;
      assert [p[0]] + p[1..] == p;
    } else if |parts| > 1 {
      FieldsOfJoin(parts[1..], c);
      assert s[1..] == Join(parts[1..], [c]) && s[0] == c;
    }
  }

  lemma FieldsAreClean(s: string, c: char)
    ensures AllClean(Fields(s, c), [c])
  {
    FieldsJoin(s, c);
    forall i, j | 0 <= i < |Fields(s, c)| && 0 < j < 1 + |Fields(s, c)[i]|
      ensures !At([c] + Fields(s, c)[i] + [c], j, [c])
    {
      var p := Fields(s, c)[i];
      assert ([c] + p + [c])[j] == p[j - 1] && p[j - 1] in p;
    }
  }

  /** For a one-character delimiter DEL and ADD are list editing on every haystack
      whose first element is not the needle, and DEL undoes ADD. */
  lemma EditsAreListEdits(s: string, c: char, n: string)
    requires n != "" && c !in n && Fields(s, c)[0] != n
    ensures Apart([c], n) && !First(s, [c], n)
    ensures Fields(Del(s, [c], n), c) == Without(Fields(s, c), n)
    ensures Fields(Add(s, [c], n), c) == if n in Fields(s, c) then Fields(s, c) else Fields(s, c) + [n]
    ensures n !in Fields(s, c) ==> Del(Add(s, [c], n), [c], n) == s
  {
    var f := Fields(s, c);
    FieldsJoin(s, c);
    FieldsAreClean(s, c);
    DelIsFilter(f, [c], n);
    AddIsAppend(f, [c], n);
    WithoutFree(f, n, c);
    FieldsOfJoin(Without(f, n), c);
    FieldsOfJoin(if n in f then f else f + [n], c);
    if n !in f {
      DelUndoesAdd(f, [c], n);
    }
  }

  lemma {:induction false} WithoutFree(parts: seq<string>, n: string, c: char)
    requires forall i | 0 <= i < |parts| :: c !in parts[i]
    ensures forall i | 0 <= i < |Without(parts, n)| :: c !in Without(parts, n)[i]
  {
    forall i | 0 <= i < |Without(parts, n)| ensures c !in Without(parts, n)[i] {
      assert Without(parts, n)[i] in Without(parts, n);
    }
  }
}
