/** memcpy, memmove and strcat on byte buffers. */
module Buffers {

  /** memcpy(a + pos, s, |s|). */
  method Copy(a: array<char>, pos: nat, s: string)
    requires pos + |s| <= a.Length
    modifies a
    ensures a[..pos + |s|] == old(a[..pos]) + s
    ensures a[pos + |s|..] == old(a[pos + |s|..])
  {
    forall i | 0 <= i < |s| {
      a[pos + i] := s[i];
    }
    assert a[..pos + |s|] == a[..pos] + a[pos..pos + |s|];
  }

  /** memmove(a + dst, a + src, n). */
  method Move(a: array<char>, dst: nat, src: nat, n: nat)
    requires dst + n <= a.Length && src + n <= a.Length
    modifies a
    ensures a[..dst] == old(a[..dst])
    ensures a[dst..dst + n] == old(a[src..src + n])
    ensures a[dst + n..] == old(a[dst + n..])
  {
    forall i | 0 <= i < n {
      a[dst + i] := a[src + i];
    }
  }

  /** strcat(a, s) on a string of length `len`. */
  method StrCat(a: array<char>, len: nat, s: string)
    requires len + |s| < a.Length && a[len] == '\0'
    modifies a
    ensures a[..len + |s|] == old(a[..len]) + s && a[len + |s|] == '\0'
  {
    Copy(a, len, s);
    a[len + |s|] := '\0';
  }

  /** Two strings concatenated, one after the other. */
  method CatTwo(out: array<char>, pos: nat, a: string, b: string) returns (end: nat)
    requires pos + |a| + |b| < out.Length && out[pos] == '\0'
    modifies out
    ensures end == pos + |a| + |b| && out[end] == '\0' && out[..end] == old(out[..pos]) + a + b
  {
    StrCat(out, pos, a);
    StrCat(out, pos + |a|, b);
    end := pos + |a| + |b|;
  }

  /** memmove(start, end, strlen(end) + 1) in a string of length `size`. */
  method CutOut(a: array<char>, size: nat, start: nat, end: nat)
    requires start <= end <= size < a.Length && a[size] == '\0'
    modifies a
    ensures a[..size - (end - start)] == old(a[..size])[..start] + old(a[..size])[end..]
    ensures a[size - (end - start)] == '\0'
  {
    ghost var tail := a[end..size + 1];
    Move(a, start, end, size - end + 1);
    assert a[start..start + |tail|] == tail;
    assert tail[..size - end] == old(a[..size])[end..];
    assert a[..start + (size - end)] == a[..start] + a[start..start + |tail|][..size - end];
    assert a[start + (size - end)] == tail[size - end];
  }
}
