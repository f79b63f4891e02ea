// NUL-terminated strings in memory.
module CString {
  import opened Options


  const NUL := '\0'

  // The string that starts at m[p]: the characters up to the first NUL, or to the end of
  // the memory when there is none.
  function Str(m: seq<char>, p: nat): (s: string)
    requires p <= |m|
    ensures NUL !in s && p + |s| <= |m| && s == m[p..p + |s|]
    ensures p + |s| < |m| ==> m[p + |s|] == NUL
    decreases |m| - p
  {
    if p == |m| || m[p] == NUL then
      []
    else
      [m[p]] + Str(m, p + 1)
  }

  // A NUL-terminated string starts at m[p].
  ghost predicate Terminated(m: seq<char>, p: nat) {
    exists k | p <= k < |m| :: m[k] == NUL
  }

  lemma {:induction false} StrEnds(m: seq<char>, p: nat)
    requires p <= |m|
    ensures Terminated(m, p) <==> p + |Str(m, p)| < |m|
    decreases |m| - p
  {
    if p < |m| && m[p] != NUL {
      StrEnds(m, p + 1);
    }
  }

  // Str is the only NUL-free stretch at p that a NUL follows.
  lemma {:induction false} StrIs(m: seq<char>, p: nat, s: string)
    requires p + |s| < |m| && m[p..p + |s|] == s && NUL !in s && m[p + |s|] == NUL
    ensures Str(m, p) == s
    decreases |s|
  {
    if s != [] {
      assert m[p] == s[0];
      StrIs(m, p + 1, s[1..]);
    }
  }

  // strlen
  method StrLen(m: array<char>) returns (n: nat)
    requires Terminated(m[..], 0)
    ensures n == |Str(m[..], 0)|
  {
    StrEnds(m[..], 0);
    n := 0;
    while m[n] != NUL
      invariant n <= |Str(m[..], 0)|
      decreases m.Length - n
    {
      assert m[..][n] == Str(m[..], 0)[n];
      n := n + 1;
    }
  }

  // strcat of a one-character string
  method StrCat(dest: array<char>, c: char)
    requires |Str(dest[..], 0)| + 1 < dest.Length
    modifies dest
    ensures var n := |Str(old(dest[..]), 0)|;
      dest[..] == old(dest[..n]) + [c, NUL] + old(dest[n + 2..])
  {
    StrEnds(dest[..], 0);
    var n := StrLen(dest);
    dest[n], dest[n + 1] := c, NUL;
  }

  // *s of a NUL-terminated s
  function FirstOf(s: string): char {
    if s == [] then NUL else s[0]
  }

  // The text s starts at m[p].
  ghost predicate Stands(m: seq<char>, p: nat, s: string) {
    p + |s| < |m| && m[p + |s|] == NUL && forall i | 0 <= i < |s| :: m[p + i] == s[i] != NUL
  }

  lemma StandsStep(m: seq<char>, p: nat, s: string)
    requires Stands(m, p, s)
    ensures m[p] == FirstOf(s) && (m[p] == NUL <==> s == [])
    ensures s != [] ==> Stands(m, p + 1, s[1..])
  {
    assert s != [] ==> m[p + 0] == s[0];
    if s != [] {
      forall i | 0 <= i < |s[1..]|
        ensures m[p + 1 + i] == s[1..][i]
      {
        assert m[p + (i + 1)] == s[i + 1];
      }
    }
  }

  // The memory from m[p] on holds the text s, its NUL, and `behind`.
  ghost predicate Holds(m: seq<char>, p: nat, s: string, behind: seq<char>) {
    p <= |m| && m[p..] == s + [NUL] + behind && NUL !in s
  }

  // A suffix of a text in memory is a text in memory.
  lemma HoldsSuffix(m: seq<char>, p: nat, q: nat, s: string, t: string, behind: seq<char>)
    requires Holds(m, p, s, behind) && p <= q && q + |t| == p + |s| && t == s[|s| - |t|..]
    ensures Holds(m, q, t, behind)
  {
    assert m[q..] == m[p..][q - p..];
    assert s == s[..q - p] + t;
  }

  lemma HoldsStands(m: seq<char>, p: nat, s: string, behind: seq<char>)
    requires Holds(m, p, s, behind)
    ensures Stands(m, p, s)
  {
    assert forall i | 0 <= i <= |s| :: m[p + i] == (s + [NUL] + behind)[i];
  }

  lemma HoldsFirst(m: seq<char>, p: nat, s: string, behind: seq<char>)
    requires Holds(m, p, s, behind)
    ensures p < |m| && m[p] == FirstOf(s) && (m[p] == NUL <==> s == [])
    ensures s != [] ==> Holds(m, p + 1, s[1..], behind)
  {
    assert m[p] == m[p..][0];
    if s != [] {
      assert m[p + 1..] == m[p..][1..];
    }
  }

  lemma HoldsLength(m: seq<char>, p: nat, s: string, behind: seq<char>)
    requires Holds(m, p, s, behind)
    ensures |m| == p + |s| + 1 + |behind|
  {
    assert |m[p..]| == |s + [NUL] + behind|;
  }

  // Cutting the text off at a suffix t leaves the part in front of t as a text of its own.
  lemma CutAt(m: seq<char>, q: nat, s: string, t: string, behind: seq<char>)
    requires Holds(m, q, s, behind) && t != [] && |t| <= |s| && t == s[|s| - |t|..]
    ensures var name := s[..|s| - |t|];
      && q + |name| < |m|
      && Holds(m[q + |name| := NUL], q, name, t[1..] + [NUL] + behind)
      && Holds(m[q + |name| := NUL], q + |name| + 1, t[1..], behind)
  {
    var name := s[..|s| - |t|];
    var m' := m[q + |name| := NUL];
    assert s == name + t && |m| == q + |s| + 1 + |behind|;
    assert m[q..] == name + t + [NUL] + behind;
    assert m'[q..] == m[q..][|name| := NUL];
    assert m'[q..] == name + [NUL] + (t[1..] + [NUL] + behind);
    assert m'[q + |name| + 1..] == m'[q..][|name| + 1..];
  }

  // strchr: what stands behind the first c
  function BehindChar(s: string, c: char): (r: Option<string>)
    ensures r.Some? ==> |r.value| < |s| && (s[0] == c <==> |r.value| == |s| - 1)
  {
    if s == [] then None else if s[0] == c then Some(s[1..]) else BehindChar(s[1..], c)
  }

  lemma {:induction false} NoChar(s: string, c: char)
    requires c !in s
    ensures BehindChar(s, c) == None
  {
    if s != [] {
      NoChar(s[1..], c);
    }
  }

  lemma {:induction false} CharBehind(s: string, c: char, t: string)
    requires c !in s
    ensures BehindChar(s + ([c] + t), c) == Some(t)
  {
    if s == [] {
      assert s + ([c] + t) == [c] + t;
    } else {
      assert (s + ([c] + t))[1..] == s[1..] + ([c] + t);
      CharBehind(s[1..], c, t);
    }
  }

  // tolower of a character and of every character of a string
  function LowerChar(c: char): char {
    if 'A' <= c <= 'Z' then ((c as int) + 32) as char else c
  }

  const UPPER := "ABCDEFGHIJKLMNOPQRSTUVWXYZ"

  /** The letters of the alphabet lose their case, and nothing else changes. */
  lemma LowerAlphabet(c: char)
    ensures forall i | 0 <= i < 26 :: LowerChar(UPPER[i]) == "abcdefghijklmnopqrstuvwxyz"[i]
    ensures c !in UPPER ==> LowerChar(c) == c
  {
    UpperLetters();
    if 'A' <= c <= 'Z' {
      assert c == UPPER[c as int - 'A' as int];
    }
  }

  lemma UpperLetters()
    ensures forall i | 0 <= i < 26 :: UPPER[i] as int == 'A' as int + i
  {
  }

  function Lower(s: string): (t: string)
    ensures |t| == |s| && forall i | 0 <= i < |s| :: t[i] == LowerChar(s[i])
  {
    if s == [] then [] else [LowerChar(s[0])] + Lower(s[1..])
  }

  // strdup
  method StrDup(s: string) returns (raw: array<char>)
    requires NUL !in s
    ensures fresh(raw) && raw[..] == s + [NUL] && Holds(raw[..], 0, s, [])
  {
    raw := new char[|s| + 1](i => if 0 <= i < |s| then s[i] else NUL);
    assert raw[..] == s + [NUL];
    assert raw[..][0..] == raw[..];
  }
}
