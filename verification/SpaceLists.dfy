/** Capability lists delimited by two spaces, where delimiters may overlap: what the
    edits of str.c make of any such list, spaces too many included. */
module SpaceLists {
  import opened Capability
  import opened CapabilityList
  import opened Delimiters
  import opened Text

  const SPACES := "  "

  /** A capability: something without a space. */
  predicate Solid(n: string) {
    n != "" && ' ' !in n
  }

  lemma AtSpaces(s: string, p: nat)
    ensures At(s, p, SPACES) <==> p + 2 <= |s| && s[p] == ' ' && s[p + 1] == ' '
  {
    if p + 2 <= |s| {
      assert s[p..p + 2] == [s[p], s[p + 1]];
    }
  }

  lemma FindIs(s: string, k: nat)
    requires At(s, k, SPACES) && forall p: nat | p < k :: !At(s, p, SPACES)
    ensures Find(s, 0, SPACES) == Some(k)
  {
  }

  // ----- adding -----

  predicate Trails(q: string) {
    q != "" && q[|q| - 1] == ' '
  }

  /** What adding makes of the elements: a space at the end of the last one joins the
      delimiter, and the delimiter's own goes to the element added. */
  function Appended(parts: seq<string>, n: string): seq<string>
    requires parts != []
  {
    var init, q := parts[..|parts| - 1], parts[|parts| - 1];
    init + if Trails(q) then [q[..|q| - 1], " " + n] else [q, n]
  }

  lemma {:induction false} SplitAppended(s: string, n: string)
    requires Solid(n)
    ensures SplitOn(s + SPACES + n, SPACES) == Appended(SplitOn(s, SPACES), n)
    decreases |s|
  {
    hide Find, At, SplitOn, Appended;
    var t := s + SPACES + n;
    var hit := Find(s, 0, SPACES);
    if hit.Some? {
      var k := hit.value;
      FindInFront(s, SPACES + n, k);
      assert s + (SPACES + n) == t;
      assert t[..k] == s[..k] && t[k + 2..] == s[k + 2..] + SPACES + n;
      SplitAppended(s[k + 2..], n);
      SplitAt(s, k);
      SplitAt(t, k);
      AppendedCons(s[..k], SplitOn(s[k + 2..], SPACES), n);
    } else {
      NoneAtAll(s);
      LastAppended(s, n);
      assert Appended([s], n) == (if Trails(s) then [s[..|s| - 1], " " + n] else [s, n]) by { AppendedOne(s, n); }
    }
  }

  lemma SplitAt(s: string, k: nat)
    requires Find(s, 0, SPACES) == Some(k)
    ensures SplitOn(s, SPACES) == [s[..k]] + SplitOn(s[k + 2..], SPACES)
  {
    hide Find;
  }

  lemma NoneAtAll(s: string)
    requires Find(s, 0, SPACES).None?
    ensures SplitOn(s, SPACES) == [s] && forall p: nat :: !At(s, p, SPACES)
  {
    hide Find;
  }

  lemma AppendedCons(p: string, parts: seq<string>, n: string)
    requires parts != []
    ensures Appended([p] + parts, n) == [p] + Appended(parts, n)
  {
    assert ([p] + parts)[..|parts|] == [p] + parts[..|parts| - 1];
  }

  lemma AppendedOne(q: string, n: string)
    ensures Appended([q], n) == if Trails(q) then [q[..|q| - 1], " " + n] else [q, n]
  {
  }

  lemma FindInFront(s: string, more: string, k: nat)
    requires Find(s, 0, SPACES) == Some(k)
    ensures Find(s + more, 0, SPACES) == Some(k)
  {
    hide Find, At;
    var t := s + more;
    AtSpaces(s, k);
    AtSpaces(t, k);
    forall p: nat | p < k ensures !At(t, p, SPACES) {
      AtSpaces(s, p);
      AtSpaces(t, p);
    }
    FindIs(t, k);
  }

  lemma LastAppended(s: string, n: string)
    requires Solid(n) && forall p: nat :: !At(s, p, SPACES)
    ensures SplitOn(s + SPACES + n, SPACES) == if Trails(s) then [s[..|s| - 1], " " + n] else [s, n]
  {
    hide Find, At, SplitOn;
    var k := if Trails(s) then |s| - 1 else |s|;
    var t := s + SPACES + n;
    FirstSpaces(s, n, k);
    FindIs(t, k);
    SplitAt(t, k);
    if Trails(s) {
      CutTrailing(s, n);
    } else {
      assert t[..k] == s && t[k + 2..] == n;
    }
    OneElement(t[k + 2..], n);
  }

  lemma CutTrailing(s: string, n: string)
    requires Trails(s)
    ensures var t, k := s + SPACES + n, |s| - 1; t[..k] == s[..k] && t[k + 2..] == " " + n
  {
  }

  lemma FirstSpaces(s: string, n: string, k: nat)
    requires (forall p: nat :: !At(s, p, SPACES)) && k == if Trails(s) then |s| - 1 else |s|
    ensures At(s + SPACES + n, k, SPACES) && forall p: nat | p < k :: !At(s + SPACES + n, p, SPACES)
  {
    hide At;
    var t := s + SPACES + n;
    AtSpaces(t, k);
    forall p: nat | p < k ensures !At(t, p, SPACES) {
      AtSpaces(t, p);
      AtSpaces(s, p);
    }
  }

  lemma OneElement(rest: string, n: string)
    requires Solid(n) && (rest == n || rest == " " + n)
    ensures SplitOn(rest, SPACES) == [rest]
  {
    hide At;
    forall p: nat ensures !At(rest, p, SPACES) {
      AtSpaces(rest, p);
    }
  }

  // ----- deleting -----

  /** Elements as SplitOn makes them. */
  ghost predicate Laid(parts: seq<string>) {
    forall i | 0 <= i < |parts| :: Uncut(parts[i], SPACES, i == |parts| - 1)
  }

  /** What is left of elements, each behind its delimiter: of one that begins with a space
      too many, that space. */
  function Left(ps: seq<string>, n: string): string {
    if ps == [] then ""
    else if ps[0] == n then Left(ps[1..], n)
    else if ps[0] == " " + n then " " + Left(ps[1..], n)
    else SPACES + ps[0] + Left(ps[1..], n)
  }

  /** Nothing, or a delimiter first. */
  predicate Ended(t: string) {
    t == "" || At(t, 0, SPACES)
  }

  /** The word `n` and then the end or a delimiter. */
  predicate Begins(u: string, n: string) {
    At(u, 0, n) && (|u| == |n| || At(u, |n|, SPACES))
  }

  lemma MatchIs(u: string, n: string)
    requires Solid(n)
    ensures Match(u, SPACES, n) <==> At(u, 0, SPACES) && Begins(u[2..], n)
    ensures Match(u, SPACES, n) ==>
              2 + |n| <= |u| && Ended(u[2 + |n|..]) && Del(u, SPACES, n) == Del(u[2 + |n|..], SPACES, n)
  {
    AtParts(u, 0, SPACES, n);
    if |u| >= 2 {
      AtDrop(u, 2, 0, n);
      AtDrop(u, 2, |n|, SPACES);
      if |u| >= 2 + |n| {
        AtDrop(u, 2 + |n|, 0, SPACES);
      }
    }
  }

  /** No delimiter begins inside an element. */
  lemma NoneInside(p: string, t: string, last: bool, i: nat)
    requires Uncut(p, SPACES, last) && Ended(t) && (last ==> t == "") && i < |p|
    ensures !At(p + t, i, SPACES)
  {
    if last {
      assert p + t == p;
    } else if At(p + t, i, SPACES) {
      DelimiterInside(p, t, i, SPACES);
    }
  }

  /** A word that begins an element and is ended is the element. */
  lemma WholeElement(p: string, t: string, n: string)
    requires Solid(n) && Ended(t) && Begins(p + t, n)
    requires forall i: nat | i < |p| :: !At(p + t, i, SPACES)
    ensures p == n
  {
    var u := p + t;
    AtSpaces(t, 0);
    assert u[0..|n|] == n;
    assert forall i | 0 <= i < |n| :: n[i] == u[i] && n[i] in n;
    assert t != "" ==> u[|p|] == ' ';
    assert u[..|n|] == p[..|n|];
  }

  lemma {:induction false} DelIsLeft(ps: seq<string>, n: string)
    requires Solid(n) && Laid(ps)
    ensures Del(Tail(ps, SPACES), SPACES, n) == Left(ps, n)
  {
    hide Del, At, Match;
    if ps != [] {
      var p, t := ps[0], Tail(ps[1..], SPACES);
      TailBegins(ps[1..], SPACES);
      assert Laid(ps[1..]) by { LaidRest(ps); }
      DelIsLeft(ps[1..], n);
      forall i: nat | i < |p| ensures !At(p + t, i, SPACES) {
        NoneInside(p, t, |ps| == 1, i);
      }
      if p == n || p == " " + n {
        DelElement(p, t, n);
      } else {
        KeepElement(p, t, n);
      }
    } else {
      DelEmpty(n);
    }
  }

  lemma LaidRest(ps: seq<string>)
    requires ps != [] && Laid(ps)
    ensures Laid(ps[1..])
  {
    hide Uncut;
    forall i | 0 <= i < |ps| - 1 ensures Uncut(ps[1..][i], SPACES, i == |ps| - 2) {
      assert ps[1..][i] == ps[i + 1];
    }
  }

  lemma DelEmpty(n: string)
    ensures Del("", SPACES, n) == ""
  {
  }

  lemma DelElement(p: string, t: string, n: string)
    requires Solid(n) && Ended(t) && (p == n || p == " " + n)
    ensures Del(SPACES + p + t, SPACES, n) == (if p == n then "" else " ") + Del(t, SPACES, n)
  {
    hide At, Match, Del;
    DelDrops(t, SPACES, n);
    if p != n {
      var u := SPACES + p + t;
      MatchIs(u, n);
      assert u[2..][0] == ' ';
      NotThere(u[2..], n);
      DelCopiesOne(u, n);
      ThreeSpaces(n, t);
    }
  }

  lemma ThreeSpaces(n: string, t: string)
    ensures var u := SPACES + (" " + n) + t; u[0] == ' ' && u[1..] == SPACES + n + t
  {
    var u := SPACES + (" " + n) + t;
    assert u == [' ', ' ', ' '] + n + t;
    assert SPACES + n + t == [' ', ' '] + n + t;
  }

  lemma NotThere(u: string, n: string)
    requires n != "" && u != "" && u[0] != n[0]
    ensures !At(u, 0, n)
  {
    assert |n| <= |u| ==> u[0..|n|][0] == u[0];
  }

  lemma KeepElement(p: string, t: string, n: string)
    requires Solid(n) && Ended(t) && p != n && p != " " + n
    requires forall i: nat | i < |p| :: !At(p + t, i, SPACES)
    ensures Del(SPACES + p + t, SPACES, n) == SPACES + p + Del(t, SPACES, n)
  {
    hide Del, At, Match;
    var u := SPACES + p + t;
    forall j | 0 <= j < 2 + |p| ensures !Match(u[j..], SPACES, n) {
      KeptAt(p, t, n, j);
    }
    DelCopies(u, 2 + |p|, SPACES, n);
    assert u[..2 + |p|] == SPACES + p && u[2 + |p|..] == t;
  }

  lemma KeptAt(p: string, t: string, n: string, j: nat)
    requires Solid(n) && Ended(t) && p != n && p != " " + n && j < 2 + |p|
    requires forall i: nat | i < |p| :: !At(p + t, i, SPACES)
    ensures !Match((SPACES + p + t)[j..], SPACES, n)
  {
    hide At, Match, Del;
    var u, v := SPACES + p + t, p + t;
    MatchIs(u[j..], n);
    AtDrop(u, j, 0, SPACES);
    if j >= 2 {
      AtDrop(u, 2, j - 2, SPACES);
      assert u[2..] == v;
    }
    if Match(u[j..], SPACES, n) {
      if j == 0 {
        assert u[0..][2..] == v;
        WholeElement(p, t, n);
      } else if j == 1 {
        BehindSpace(p, t, n);
      } else {
        assert false;
      }
    }
  }

  lemma BehindSpace(p: string, t: string, n: string)
    requires Solid(n) && Ended(t)
    requires forall i: nat | i < |p| :: !At(p + t, i, SPACES)
    requires At((SPACES + p + t)[1..], 0, SPACES) && Begins((SPACES + p + t)[1..][2..], n)
    ensures p == " " + n
  {
    var u, v := SPACES + p + t, p + t;
    AtSpaces(u[1..], 0);
    assert u[1..][2..] == v[1..] && v[0] == u[2];
    AtSpaces(t, 0);
    BeginsRest(v[1..], n);
    if p == "" {
      assert false;
    } else {
      assert v[1..] == p[1..] + t;
      forall i: nat | i < |p| - 1 ensures !At(p[1..] + t, i, SPACES) {
        AtDrop(v, 1, i, SPACES);
      }
      WholeElement(p[1..], t, n);
      assert p == [p[0]] + p[1..];
    }
  }

  /** What deletion makes of any list. */
  lemma DelOfList(s: string, n: string)
    requires Solid(n)
    ensures var parts := SplitOn(s, SPACES); Del(s, SPACES, n) == parts[0] + Left(parts[1..], n)
    ensures Laid(SplitOn(s, SPACES))
  {
    hide Del, At, Match, SplitOn;
    var parts := SplitOn(s, SPACES);
    SplitRejoins(s, SPACES);
    SplitIsLeftmost(s, SPACES);
    JoinIsTail(parts, SPACES);
    var p, t := parts[0], Tail(parts[1..], SPACES);
    TailBegins(parts[1..], SPACES);
    LaidRest(parts);
    DelIsLeft(parts[1..], n);
    forall j | 0 <= j < |p| ensures !Match(s[j..], SPACES, n) {
      NoneInside(p, t, |parts| == 1, j);
      MatchIs(s[j..], n);
      AtDrop(s, j, 0, SPACES);
    }
    DelCopies(s, |p|, SPACES, n);
    assert s[..|p|] == p && s[|p|..] == t;
  }

  // ----- nothing is left to delete -----

  lemma {:induction false} DelRuns(r: string, n: string)
    requires Solid(n) && Ended(r)
    ensures forall i | 0 <= i < 2 && i < |Del(r, SPACES, n)| :: Del(r, SPACES, n)[i] == ' '
    decreases |r|
  {
    hide Match;
    if r != "" {
      AtSpaces(r, 0);
      MatchIs(r, n);
      MatchIs(r[1..], n);
      if Match(r, SPACES, n) {
        DelRuns(r[2 + |n|..], n);
      } else if Match(r[1..], SPACES, n) {
        DelRuns(r[1..][2 + |n|..], n);
      }
    }
  }

  lemma DelCopiesOne(u: string, n: string)
    requires u != "" && !Match(u, SPACES, n)
    ensures Del(u, SPACES, n) == [u[0]] + Del(u[1..], SPACES, n)
  {
  }

  /** Deletion does not bring forth a whole word. */
  lemma {:induction false} DelBegins(x: string, w: string, n: string)
    requires Solid(n) && ' ' !in w && Begins(Del(x, SPACES, n), w)
    ensures Begins(x, w)
    decreases |w|
  {
    hide Match, Del;
    var t := Del(x, SPACES, n);
    if x == "" {
      DelEmpty(n);
    } else {
      MatchIs(x, n);
      if Match(x, SPACES, n) {
        if w != "" {
          BeginsRest(t, w);
        }
        DelRuns(x[2 + |n|..], n);
      } else {
        DelCopiesOne(x, n);
        if w == "" {
          DelEnded(x, n);
        } else {
          assert t[1..] == Del(x[1..], SPACES, n);
          BeginsRest(t, w);
          DelBegins(x[1..], w[1..], n);
          BeginsRest(x, w);
        }
      }
    }
  }

  lemma BeginsRest(t: string, w: string)
    requires t != "" && w != ""
    ensures Begins(t, w) <==> t[0] == w[0] && Begins(t[1..], w[1..])
  {
    AtParts(t, 0, [w[0]], w[1..]);
    AtDrop(t, 1, 0, w[1..]);
    AtDrop(t, 1, |w| - 1, SPACES);
    assert w == [w[0]] + w[1..] && t[0..1] == [t[0]];
  }

  lemma DelEnded(x: string, n: string)
    requires Solid(n) && x != "" && Begins(Del(x, SPACES, n), "")
    ensures Begins(x, "")
  {
    hide Match, Del;
    var t := Del(x, SPACES, n);
    MatchIs(x, n);
    if !Match(x, SPACES, n) {
      DelCopiesOne(x, n);
      AtSpaces(t, 0);
      AtSpaces(x, 0);
      if |x| == 1 {
        DelEmpty(n);
      } else {
        MatchIs(x[1..], n);
        if Match(x[1..], SPACES, n) {
          AtSpaces(x[1..], 0);
        } else {
          DelCopiesOne(x[1..], n);
        }
      }
    }
  }

  lemma {:induction false} NoMatchLeft(u: string, n: string)
    requires Solid(n)
    ensures !Match(Del(u, SPACES, n), SPACES, n)
    decreases |u|
  {
    hide Match, Del;
    var t := Del(u, SPACES, n);
    MatchIs(u, n);
    MatchIs(t, n);
    AtSpaces(u, 0);
    if u == "" {
      DelEmpty(n);
    } else if Match(u, SPACES, n) {
      NoMatchLeft(u[2 + |n|..], n);
    } else if Match(t, SPACES, n) {
      DelCopiesOne(u, n);
      AtSpaces(t, 0);
      assert t[2] == t[2..][0..|n|][0] == n[0];
      MatchIs(u[1..], n);
      if |u| == 1 {
        DelEmpty(n);
      } else if Match(u[1..], SPACES, n) {
        DelRuns(u[1..][2 + |n|..], n);
      } else {
        DelCopiesOne(u[1..], n);
        assert t[2..] == Del(u[2..], SPACES, n) && u[1..][1..] == u[2..];
        DelBegins(u[2..], n, n);
      }
    }
  }

  /** No element is left after deletion. */
  lemma {:induction false} NothingLeft(u: string, n: string)
    requires Solid(n)
    ensures !Has(Del(u, SPACES, n), SPACES, n)
    decreases |u|
  {
    hide Match, Del;
    if u == "" {
      DelEmpty(n);
    } else {
      MatchIs(u, n);
      if Match(u, SPACES, n) {
        NothingLeft(u[2 + |n|..], n);
      } else {
        DelCopiesOne(u, n);
        NoMatchLeft(u, n);
        var t := Del(u, SPACES, n);
        HasShift(t, SPACES, n);
        assert t[1..] == Del(u[1..], SPACES, n);
        NothingLeft(u[1..], n);
      }
    }
  }

  lemma {:induction false} ShownIsElement(s: string, n: string)
    requires Solid(n) && n in SplitOn(s, SPACES)
    ensures First(s, SPACES, n) || Has(s, SPACES, n)
    decreases |s|
  {
    hide Match;
    match Find(s, 0, SPACES)
    case None =>
    case Some(k) =>
      if n == s[..k] {
        assert s[0..|n|] == n;
      } else {
        var rest := s[k + 2..];
        ShownIsElement(rest, n);
        if First(rest, SPACES, n) {
          MatchIs(s[k..], n);
          AtDrop(s, k, 0, SPACES);
          assert s[k..][2..] == rest && Begins(rest, n);
          assert Element(s, k + 2, SPACES, n);
        } else {
          var p: nat :| p <= |rest| && Element(rest, p, SPACES, n);
          assert s[p + k + 2 - 2..] == rest[p - 2..];
          assert Element(s, p + k + 2, SPACES, n);
        }
      }
  }

  // ----- both edits, exactly -----

  /** An element that is the capability but for a space in front: the edits take it for
      the capability, and the reply does not show it as such. */
  predicate Disguised(parts: seq<string>, n: string)
    requires parts != []
  {
    " " + n in parts[1..]
  }

  /** The capability can be shown: it is there, or nothing passes for it and there is no
      space at the end to join the delimiter put there. */
  predicate Showable(parts: seq<string>, n: string)
    requires parts != []
  {
    var q := parts[|parts| - 1];
    n in parts || (!Disguised(parts, n) && (!Trails(q) || q == n + " "))
  }

  /** The edit is that of the list of elements. */
  predicate ListEditable(parts: seq<string>, n: string, on: bool)
    requires parts != []
  {
    if on then n in parts || (!Disguised(parts, n) && !Trails(parts[|parts| - 1])) else !Disguised(parts, n)
  }

  lemma {:induction false} LeftLength(ps: seq<string>, n: string)
    ensures |Left(ps, n)| <= |Tail(Without(ps, n), SPACES)| <= |Tail(ps, SPACES)|
    ensures |Left(ps, n)| < |Tail(Without(ps, n), SPACES)| <==> " " + n in ps
    ensures |Tail(Without(ps, n), SPACES)| < |Tail(ps, SPACES)| <==> n in ps
  {
    if ps != [] {
      LeftLength(ps[1..], n);
      if ps[0] != n {
        TailCons(ps[0], Without(ps[1..], n), SPACES);
      }
    }
  }

  lemma {:induction false} LeftIsWithout(ps: seq<string>, n: string)
    requires " " + n !in ps
    ensures Left(ps, n) == Tail(Without(ps, n), SPACES)
  {
    if ps != [] {
      LeftIsWithout(ps[1..], n);
      if ps[0] != n {
        TailCons(ps[0], Without(ps[1..], n), SPACES);
      }
    }
  }

  /** str.c finds the capability exactly where it, or its disguise, is an element behind
      the first. */
  lemma HasInList(s: string, n: string)
    requires Solid(n)
    ensures var parts := SplitOn(s, SPACES); Has(s, SPACES, n) <==> n in parts[1..] || Disguised(parts, n)
  {
    hide Del, SplitOn, Has;
    var parts := SplitOn(s, SPACES);
    DelOfList(s, n);
    DelIdentity(s, SPACES, n);
    SplitRejoins(s, SPACES);
    JoinIsTail(parts, SPACES);
    LeftLength(parts[1..], n);
    if !(n in parts[1..] || Disguised(parts, n)) {
      LeftIsWithout(parts[1..], n);
      WithoutAbsent(parts[1..], n);
    }
  }

  /** For every list, exactly when the capability is an element of it after it has been
      added, and exactly when the elements are then those of the list and the
      capability. */
  lemma AddIsListed(s: string, n: string)
    requires Solid(n) && !First(s, SPACES, n)
    ensures var parts, more := SplitOn(s, SPACES), SplitOn(Add(s, SPACES, n), SPACES);
            && (n in more <==> Showable(parts, n))
            && (more == (if n in parts then parts else parts + [n]) <==> ListEditable(parts, n, true))
  {
    hide SplitOn, Has, First;
    var parts := SplitOn(s, SPACES);
    HasInList(s, n);
    if parts[0] == n {
      FirstLine(s, SPACES, n);
    }
    SplitAppended(s, n);
    AppendedPlain(parts, n);
  }

  /** For every list, the capability is no element of it after it has been deleted, and
      exactly when the elements are then all the others. */
  lemma DelIsUnlisted(s: string, n: string)
    requires Solid(n) && !First(s, SPACES, n)
    ensures var parts, less := SplitOn(s, SPACES), SplitOn(Del(s, SPACES, n), SPACES);
            n !in less && (less == Without(parts, n) <==> ListEditable(parts, n, false))
  {
    hide Del, SplitOn, Has, First;
    if SplitOn(s, SPACES)[0] == n {
      FirstLine(s, SPACES, n);
    }
    DeletedExactly(s, n);
    if n in SplitOn(Del(s, SPACES, n), SPACES) {
      ShownIsElement(Del(s, SPACES, n), n);
      NothingLeft(s, n);
      FirstStays(s, n);
    }
  }

  lemma FirstStays(s: string, n: string)
    requires Solid(n) && First(Del(s, SPACES, n), SPACES, n)
    ensures First(s, SPACES, n)
  {
    DelBegins(s, n, n);
  }

  lemma {:induction false} SplitOnLaid(parts: seq<string>)
    requires Laid(parts) && parts != []
    ensures SplitOn(Join(parts, SPACES), SPACES) == parts
  {
    hide Find, At;
    var p, t := parts[0], Tail(parts[1..], SPACES);
    var s := p + t;
    JoinIsTail(parts, SPACES);
    TailBegins(parts[1..], SPACES);
    forall i: nat | i < |p| ensures !At(s, i, SPACES) {
      NoneInside(p, t, |parts| == 1, i);
    }
    if |parts| == 1 {
      NoneBehind(p);
    } else {
      AtDrop(s, |p|, 0, SPACES);
      assert s[|p|..] == t;
      FindIs(s, |p|);
      JoinIsTail(parts[1..], SPACES);
      assert s[|p| + 2..] == Join(parts[1..], SPACES) && s[..|p|] == p;
      LaidRest(parts);
      SplitOnLaid(parts[1..]);
    }
  }

  lemma NoneBehind(p: string)
    requires forall i: nat | i < |p| :: !At(p, i, SPACES)
    ensures SplitOn(p, SPACES) == [p]
  {
    assert Find(p, 0, SPACES).None?;
  }

  lemma {:induction false} WithoutLaid(ps: seq<string>, n: string)
    requires Laid(ps)
    ensures Laid(Without(ps, n))
  {
    if ps != [] {
      LaidRest(ps);
      WithoutLaid(ps[1..], n);
      var more := Without(ps[1..], n);
      if ps[0] != n {
        LaidCons(ps[0], more, |ps| == 1);
      }
    }
  }

  lemma LaidCons(p: string, more: seq<string>, last: bool)
    requires Uncut(p, SPACES, last) && Laid(more) && (last ==> more == [])
    ensures Laid([p] + more)
  {
    forall i | 0 <= i <= |more| ensures Uncut(([p] + more)[i], SPACES, i == |more|) {
      if i == 0 {
        if !last && more == [] {
          UncutAsLast(p);
        }
      } else {
        assert ([p] + more)[i] == more[i - 1];
      }
    }
  }

  lemma UncutAsLast(p: string)
    requires Uncut(p, SPACES, false)
    ensures Uncut(p, SPACES, true)
  {
    forall j: nat ensures !At(p, j, SPACES) {
      AtSpaces(p, j);
      AtSpaces(p + SPACES, j);
    }
  }

  lemma AppendedPlain(parts: seq<string>, n: string)
    requires parts != []
    ensures Appended(parts, n) == parts + [n] <==> !Trails(parts[|parts| - 1])
  {
    var a := Appended(parts, n);
    assert |a| == |parts| + 1 && (parts + [n])[|parts|] == n;
    if !Trails(parts[|parts| - 1]) {
      assert a == parts + [n];
    } else {
      assert a[|parts|] == " " + n;
    }
  }

  lemma DeletedExactly(s: string, n: string)
    requires Solid(n) && SplitOn(s, SPACES)[0] != n
    ensures var parts := SplitOn(s, SPACES);
            SplitOn(Del(s, SPACES, n), SPACES) == Without(parts, n) <==> !Disguised(parts, n)
  {
    hide Del, SplitOn;
    var parts := SplitOn(s, SPACES);
    DelOfList(s, n);
    LeftLength(parts[1..], n);
    JoinIsTail(Without(parts, n), SPACES);
    assert Without(parts, n)[1..] == Without(parts[1..], n);
    if Disguised(parts, n) {
      SplitRejoins(Del(s, SPACES, n), SPACES);
    } else {
      LeftIsWithout(parts[1..], n);
      WithoutLaid(parts, n);
      SplitOnLaid(Without(parts, n));
    }
  }
}
