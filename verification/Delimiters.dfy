/** Delimiter exchange: pop3_in_mangle_capability and managesieve_mangle_capability
    turn a configured capability into the lines of a reply. */
module Delimiters {
  import opened Buffers
  import opened Capability
  import opened CapabilityList
  import opened Text

  /** `s` cut at the leftmost non-overlapping delimiters. */
  function SplitOn(s: string, d: string): (r: seq<string>)
    requires d != ""
    ensures |r| > 0
    decreases |s|
  {
    match Find(s, 0, d)
    case None => [s]
    case Some(k) => [s[..k]] + SplitOn(s[k + |d|..], d)
  }

  /** Cutting at the cursor `start`. */
  lemma SplitStep(s: string, start: nat, d: string)
    requires d != "" && start <= |s|
    ensures match Find(s[start..], 0, d)
            case None => SplitOn(s[start..], d) == [s[start..]]
            case Some(k) =>
              && start + k + |d| <= |s|
              && SplitOn(s[start..], d) == [s[start..start + k]] + SplitOn(s[start + k + |d|..], d)
  {
    hide Find, At;
    var hit := Find(s[start..], 0, d);
    if hit.Some? {
      var k := hit.value;
      assert s[start..][k + |d|..] == s[start + k + |d|..] && s[start..][..k] == s[start..start + k];
    }
  }

  lemma {:induction false} SplitRejoins(s: string, d: string)
    requires d != ""
    ensures Join(SplitOn(s, d), d) == s
    decreases |s|
  {
    hide Find;
    match Find(s, 0, d)
    case None =>
    case Some(k) =>
      SplitRejoins(s[k + |d|..], d);
      JoinCons(s[..k], SplitOn(s[k + |d|..], d), d);
      assert s == s[..k] + s[k..k + |d|] + s[k + |d|..];
  }

  /** A first piece that is the needle is what the edits of str.c would look in front of. */
  lemma FirstLine(s: string, d: string, n: string)
    requires d != "" && SplitOn(s, d)[0] == n
    ensures First(s, d, n)
  {
    hide At;
    assert s[..|s|] == s;
    match Find(s, 0, d)
    case None => WholePrefix(s, |s|);
    case Some(k) => WholePrefix(s, k);
  }

  lemma WholePrefix(s: string, k: nat)
    requires k <= |s|
    ensures At(s, 0, s[..k])
  {
    assert s[0..k] == s[..k];
  }

  /** A piece that shows no delimiter before the one that ends it, if any. */
  ghost predicate Uncut(p: string, d: string, last: bool) {
    if last then forall j: nat :: !At(p, j, d) else forall j: nat | j < |p| :: !At(p + d, j, d)
  }

  /** The pieces are those of the leftmost non-overlapping delimiters. */
  lemma {:induction false} SplitIsLeftmost(s: string, d: string)
    requires d != ""
    ensures forall i | 0 <= i < |SplitOn(s, d)| :: Uncut(SplitOn(s, d)[i], d, i == |SplitOn(s, d)| - 1)
    decreases |s|
  {
    hide Find;
    var hit := Find(s, 0, d);
    if hit.Some? {
      var k := hit.value;
      SplitIsLeftmost(s[k + |d|..], d);
      assert s[..k] + d == s[..k + |d|];
      forall j: nat | j < k ensures !At(s[..k] + d, j, d) {
        assert !At(s, j, d);
        assert j + |d| <= k + |d| ==> (s[..k] + d)[j..j + |d|] == s[j..j + |d|];
      }
    } else {
      assert forall j: nat :: !At(s, j, d);
    }
  }

  lemma {:induction false} LengthOfJoin(parts: seq<string>, a: string, b: string)
    requires |parts| > 0
    ensures |Join(parts, a)| - (|parts| - 1) * |a| == |Join(parts, b)| - (|parts| - 1) * |b|
  {
    if |parts| > 1 {
      LengthOfJoin(parts[1..], a, b);
      var k := |parts| - 2;
      assert (k + 1) * |a| == k * |a| + |a| && (k + 1) * |b| == k * |b| + |b|;
    }
  }

  const CRLF := "\r\n"

  /** The counting loop. */
  method CountDelimiters(s: string, d: string) returns (count: nat)
    requires d != ""
    ensures count == |SplitOn(s, d)| - 1
  {
    hide Find, SplitOn;
    count := 0;
    var start: nat := 0;
    assert s[0..] == s;
    while true
      invariant start <= |s| && count + |SplitOn(s[start..], d)| == |SplitOn(s, d)|
      decreases |s| - start
    {
      SplitStep(s, start, d);
      var hit := Find(s[start..], 0, d);
      if hit.None? {
        break;
      }
      start := start + hit.value + |d|;
      count := count + 1;
    }
  }

  /** The two mangling functions: a buffer of the computed length, filled exactly. */
  method Mangle(capability: string, delim: string, tail: string) returns (out: array<char>)
    requires delim != ""
    ensures fresh(out) && out[..] == Join(SplitOn(capability, delim), CRLF) + tail + "\0"
  {
    hide Find, SplitOn, Join;
    var count := CountDelimiters(capability, delim);
    ghost var goal := Join(SplitOn(capability, delim), CRLF);
    SplitRejoins(capability, delim);
    LengthOfJoin(SplitOn(capability, delim), delim, CRLF);
    var n := |capability| - count * |delim| + count * |CRLF| + |tail|;
    assert n == |goal| + |tail|;
    out := new char[n + 1](_ => '\0');
    var start: nat, pos: nat := 0, 0;
    assert capability[0..] == capability;
    while true
      invariant start <= |capability| && pos <= |goal| && out[pos] == '\0'
      invariant goal == out[..pos] + Join(SplitOn(capability[start..], delim), CRLF)
      decreases |capability| - start
    {
      SplitStep(capability, start, delim);
      var hit := Find(capability[start..], 0, delim);
      if hit.None? {
        break;
      }
      var end := start + hit.value;
      JoinCons(capability[start..end], SplitOn(capability[end + |delim|..], delim), CRLF);
      pos := CatTwo(out, pos, capability[start..end], CRLF);
      start := end + |delim|;
    }
    JoinOne(capability[start..], CRLF);
    pos := CatTwo(out, pos, capability[start..], tail);
    assert out[..] == out[..pos] + "\0";
  }

  lemma JoinOne(p: string, sep: string)
    ensures Join([p], sep) == p
  {
  }

  lemma JoinCons(p: string, parts: seq<string>, sep: string)
    requires |parts| > 0
    ensures Join([p] + parts, sep) == p + sep + Join(parts, sep)
  {
    assert ([p] + parts)[1..] == parts;
  }

  /** A list of clean elements splits back into its elements. */
  lemma {:induction false} SplitOnJoin(parts: seq<string>, d: string)
    requires d != "" && AllClean(parts, d) && |parts| > 0
    ensures SplitOn(Join(parts, d), d) == parts
  {
    hide Find;
    var w, t := parts[0], Tail(parts[1..], d);
    var s := w + t;
    JoinIsTail(parts, d);
    TailBegins(parts[1..], d);
    forall j: nat | j < |w| ensures !At(s, j, d) {
      CleanWord(w, j, d);
      if At(s, j, d) {
        DelimiterInside(w, t, j, d);
      }
    }
    if |parts| == 1 {
      assert Find(s, 0, d).None?;
    } else {
      assert At(s, |w|, d) by {
        assert s[|w|..|w| + |d|] == t[0..|d|];
      }
      JoinIsTail(parts[1..], d);
      assert s[|w| + |d|..] == Join(parts[1..], d) && s[..|w|] == w;
      SplitOnJoin(parts[1..], d);
    }
  }
}
