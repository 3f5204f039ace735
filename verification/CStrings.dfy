/**
 lib/string.c on character arrays: the terminated strings that the path code works on.
 */
module CStrings {
  import opened Common

  /** The buffer holds the string `s` and its terminator. */
  ghost predicate Holds(a: array<char>, s: string)
    reads a
  {
    |s| < a.Length && NoNul(s) && a[|s|] == '\0' && forall i :: 0 <= i < |s| ==> a[i] == s[i]
  }

  method Strlen(a: array<char>, ghost s: string) returns (n: nat)
    requires Holds(a, s)
    ensures n == |s|
  {
    n := 0;
    while a[n] != '\0'
      invariant n <= |s|
      decreases |s| - n
    {
      n := n + 1;
    }
  }

  /** The first place where two strings differ decides; the terminator is the least character. */
  function Compare(s: string, t: string): (r: int)
    ensures (r == 0 <==> s == t) && -1 <= r <= 1
  {
    if s == "" then (if t == "" then 0 else -1)
    else if t == "" then 1
    else if s[0] < t[0] then -1
    else if s[0] > t[0] then 1
    else
      var r := Compare(s[1..], t[1..]);
      assert s == [s[0]] + s[1..] && t == [t[0]] + t[1..];
      r
  }

  /** The character at a place, the terminator behind the end. */
  function CharAt(s: string, k: nat): char { if k < |s| then s[k] else '\0' }

  /** The sign is that of the first difference. */
  lemma {:induction false} CompareAt(s: string, t: string, k: nat)
    requires NoNul(s) && NoNul(t) && k <= |s| && k <= |t| && s[..k] == t[..k] && CharAt(s, k) != CharAt(t, k)
    ensures Compare(s, t) == if CharAt(s, k) < CharAt(t, k) then -1 else 1
  {
    if k > 0 {
      assert s[0] == s[..k][0] && t[0] == t[..k][0];
      assert s[1..][..k - 1] == s[..k][1..] && t[1..][..k - 1] == t[..k][1..];
      CompareAt(s[1..], t[1..], k - 1);
    }
  }

  method Strcmp(a: array<char>, b: array<char>, ghost s: string, ghost t: string) returns (r: int)
    requires Holds(a, s) && Holds(b, t)
    ensures r == Compare(s, t)
  {
    var i := 0;
    while a[i] != '\0' && a[i] == b[i]
      invariant i <= |s| && i <= |t| && Compare(s[i..], t[i..]) == Compare(s, t)
      decreases |s| - i
    {
      assert s[i..][1..] == s[i + 1..] && t[i..][1..] == t[i + 1..];
      i := i + 1;
    }
    assert (i == |s| <==> s[i..] == "") && (i == |t| <==> t[i..] == "");
    r := if a[i] < b[i] then -1 else if a[i] > b[i] then 1 else 0;
  }

  /** The last occurrence of a character, None if there is none. */
  datatype Place = Nowhere | At(i: nat)

  predicate LastAt(s: string, c: char, p: Place) {
    match p
    case Nowhere => forall i :: 0 <= i < |s| ==> s[i] != c
    case At(k) => k < |s| && s[k] == c && forall i :: k < i < |s| ==> s[i] != c
  }

  method Strrchr(a: array<char>, c: char, ghost s: string) returns (p: Place)
    requires Holds(a, s)
    ensures LastAt(s, c, p)
  {
    p := Nowhere;
    var i := 0;
    while a[i] != '\0'
      invariant i <= |s| && LastAt(s[..i], c, p)
      decreases |s| - i
    {
      if a[i] == c {
        p := At(i);
      }
      i := i + 1;
    }
    assert s[..i] == s;
  }

  method Strcat(dst: array<char>, src: array<char>, ghost s: string, ghost t: string)
    requires dst != src && Holds(dst, s) && Holds(src, t) && |s| + |t| < dst.Length
    modifies dst
    ensures Holds(dst, s + t)
  {
    var n := Strlen(dst, s);
    var i := 0;
    while src[i] != '\0'
      invariant i <= |t| && Holds(src, t)
      invariant forall j :: 0 <= j < n ==> dst[j] == s[j]
      invariant forall j :: 0 <= j < i ==> dst[n + j] == t[j]
      decreases |t| - i
    {
      dst[n + i] := src[i];
      i := i + 1;
    }
    dst[n + i] := '\0';
    assert forall j :: 0 <= j < |s + t| ==> dst[j] == (s + t)[j];
  }

  method Strcpy(dst: array<char>, src: array<char>, ghost t: string)
    requires dst != src && Holds(src, t) && |t| < dst.Length
    modifies dst
    ensures Holds(dst, t)
  {
    var i := 0;
    while src[i] != '\0'
      invariant i <= |t| && Holds(src, t)
      invariant forall j :: 0 <= j < i ==> dst[j] == t[j]
      decreases |t| - i
    {
      dst[i] := src[i];
      i := i + 1;
    }
    dst[i] := '\0';
  }

  method Clear(a: array<char>)
    modifies a
    ensures forall i :: 0 <= i < a.Length ==> a[i] == '\0'
  {
    var i := 0;
    while i < a.Length
      invariant i <= a.Length && forall j :: 0 <= j < i ==> a[j] == '\0'
    {
      a[i] := '\0';
      i := i + 1;
    }
  }

  /** A string literal as a buffer. */
  method Literal(s: string) returns (a: array<char>)
    requires NoNul(s)
    ensures fresh(a) && Holds(a, s)
  {
    a := new char[|s| + 1](i requires 0 <= i <= |s| => if i < |s| then s[i] else '\0');
  }
}
