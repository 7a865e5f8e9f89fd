/** C strings inside a mutable character buffer. */
module CString {
  import opened Common

  predicate Terminated(a: seq<char>) {
    |a| > 0 && a[|a| - 1] == '\0'
  }

  /** strlen() at position i. */
  function StrLen(a: seq<char>, i: nat): (n: nat)
    requires Terminated(a) && i < |a|
    ensures i + n < |a| && a[i + n] == '\0'
    ensures forall k | i <= k < i + n :: a[k] != '\0'
    decreases |a| - i
  {
    if a[i] == '\0' then 0 else 1 + StrLen(a, i + 1)
  }

  /** The string that starts at position i: everything before the next NUL. */
  function Str(a: seq<char>, i: nat): (s: string)
    requires Terminated(a) && i < |a|
  {
    a[i..i + StrLen(a, i)]
  }

  /** Any stretch without NUL that is followed by one is the string that starts there. */
  lemma StrLenIs(a: seq<char>, i: nat, n: nat)
    requires Terminated(a) && i + n < |a| && a[i + n] == '\0'
    requires forall k | i <= k < i + n :: a[k] != '\0'
    ensures StrLen(a, i) == n
  {
  }

  /** A NUL written inside a string cuts it in two. */
  lemma StrSplit(a: seq<char>, i: nat, p: nat)
    requires Terminated(a) && i < |a| && i <= p < i + StrLen(a, i)
    ensures var b := a[p := '\0'];
            && Terminated(b)
            && Str(b, i) == Str(a, i)[..p - i]
            && Str(b, p + 1) == Str(a, i)[p - i + 1..]
  {
    var b, s, n := a[p := '\0'], Str(a, i), StrLen(a, i);
    StrLenIs(b, i, p - i);
    StrLenIs(b, p + 1, i + n - p - 1);
    assert b[i..p] == s[..p - i];
    assert b[p + 1..i + n] == s[p - i + 1..];
  }

  /** A NUL written after the end of a string leaves it alone. */
  lemma StrBefore(a: seq<char>, i: nat, p: nat)
    requires Terminated(a) && i < |a| && i + StrLen(a, i) < p < |a|
    ensures Terminated(a[p := '\0']) && Str(a[p := '\0'], i) == Str(a, i)
  {
    StrLenIs(a[p := '\0'], i, StrLen(a, i));
  }

  /** A fresh copy of a string with its terminator. */
  method Dup(s: string) returns (a: array<char>)
    requires '\0' !in s
    ensures fresh(a) && a[..] == s + ['\0']
  {
    a := new char[|s| + 1];
    for i := 0 to |s|
      invariant a[..i] == s[..i]
    {
      a[i] := s[i];
    }
    a[|s|] := '\0';
  }

  /** strchr(): the first c of the string at i, or -1. */
  method StrChr(a: array<char>, i: nat, c: char) returns (p: int)
    requires Terminated(a[..]) && i < a.Length && c != '\0'
    ensures p == -1 <==> c !in Str(a[..], i)
    ensures p != -1 ==> i <= p < i + StrLen(a[..], i) && p - i == IndexOf(Str(a[..], i), c)
  {
    ghost var s := Str(a[..], i);
    p := i;
    while a[p] != c && a[p] != '\0'
      invariant i <= p <= i + |s|
      invariant forall k | i <= k < p :: a[k] != c
      decreases a.Length - p
    {
      p := p + 1;
    }
    if a[p] == '\0' {
      p := -1;
    } else {
      assert s[p - i] == c;
    }
  }

  /** strchr() followed by *p = 0: the string at i is cut at the first c; -1 when there is none. */
  method CutInPlace(a: array<char>, i: nat, c: char) returns (p: int)
    requires Terminated(a[..]) && i < a.Length && c != '\0'
    modifies a
    ensures p == -1 ==> a[..] == old(a[..]) && Cut(old(Str(a[..], i)), c) == (old(Str(a[..], i)), None)
    ensures p != -1 ==>
              && i <= p < i + old(StrLen(a[..], i)) < a.Length
              && a[..] == old(a[..])[p := '\0'] && Terminated(a[..])
              && Cut(old(Str(a[..], i)), c) == (Str(a[..], i), Some(Str(a[..], p + 1)))
  {
    ghost var s := Str(a[..], i);
    p := StrChr(a, i, c);
    if p == -1 {
      CutNone(s, c);
    } else {
      StrSplit(a[..], i, p);
      a[p] := '\0';
    }
  }
}
