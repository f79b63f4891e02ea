// The C library's tokeniser, which writes NULs into the text that it cuts up.
module Strtok {
  import opened Options
  import opened CString

  // s from its first character outside the delimiters on
  function SkipDelims(s: string, delims: set<char>): (u: string)
    ensures |u| <= |s| && (u != [] ==> u[0] !in delims)
  {
    if s != [] && s[0] in delims then SkipDelims(s[1..], delims) else s
  }

  // the token that starts u
  function TokenOf(u: string, delims: set<char>): (t: string)
    ensures |t| <= |u| && (u != [] && u[0] !in delims ==> t != [])
    ensures forall c | c in t :: c !in delims
  {
    if u == [] || u[0] in delims then [] else [u[0]] + TokenOf(u[1..], delims)
  }

  // what is left behind the token and the delimiter that ends it
  function AfterToken(u: string, delims: set<char>): (r: string)
    ensures |r| <= |u| && (u != [] ==> |r| < |u|)
  {
    var t := TokenOf(u, delims);
    if |t| < |u| then u[|t| + 1..] else []
  }

  // All tokens of s.
  function Tokens(s: string, delims: set<char>): seq<string>
    decreases |s|
  {
    var u := SkipDelims(s, delims);
    if u == [] then [] else [TokenOf(u, delims)] + Tokens(AfterToken(u, delims), delims)
  }

  lemma {:induction false} SkipIsSuffix(s: string, delims: set<char>)
    ensures SkipDelims(s, delims) == s[|s| - |SkipDelims(s, delims)|..]
  {
    if s != [] && s[0] in delims {
      SkipIsSuffix(s[1..], delims);
    }
  }

  lemma {:induction false} TokenIsPrefix(u: string, delims: set<char>)
    ensures TokenOf(u, delims) == u[..|TokenOf(u, delims)|]
    ensures var t := TokenOf(u, delims); |t| < |u| ==> u[|t|] in delims
  {
    if u != [] && u[0] !in delims {
      TokenIsPrefix(u[1..], delims);
    }
  }

  lemma {:induction false} TokenInFront(a: string, b: string, delims: set<char>)
    requires forall x | x in a :: x !in delims
    ensures TokenOf(a + b, delims) == a + TokenOf(b, delims)
  {
    if a == [] {
      assert a + b == b;
    } else {
      assert (a + b)[1..] == a[1..] + b;
      TokenInFront(a[1..], b, delims);
    }
  }

  lemma {:induction false} SkipInFront(a: string, b: string, delims: set<char>)
    requires forall x | x in a :: x in delims
    ensures SkipDelims(a + b, delims) == SkipDelims(b, delims)
  {
    if a == [] {
      assert a + b == b;
    } else {
      assert (a + b)[1..] == a[1..] + b;
      SkipInFront(a[1..], b, delims);
    }
  }

  // The memory behind the token's NUL.
  function BehindToken(u: string, delims: set<char>, behind: seq<char>): seq<char> {
    if |TokenOf(u, delims)| < |u| then AfterToken(u, delims) + [NUL] + behind else behind
  }

  // The loop over leading delimiters.
  method SkipLoop(raw: array<char>, save: nat, delims: set<char>, ghost text: string) returns (p: nat)
    requires Stands(raw[..], save, text) && NUL !in delims
    ensures p + |SkipDelims(text, delims)| == save + |text|
    ensures raw[p] == FirstOf(SkipDelims(text, delims))
    ensures raw[p] == NUL <==> SkipDelims(text, delims) == []
  {
    p := save;
    ghost var w := text;
    StandsStep(raw[..], p, w);
    while raw[p] in delims
      invariant p + |w| == save + |text| && Stands(raw[..], p, w) && SkipDelims(w, delims) == SkipDelims(text, delims)
      invariant raw[p] == FirstOf(w) && (raw[p] == NUL <==> w == [])
      decreases |w|
    {
      StandsStep(raw[..], p, w);
      p, w := p + 1, w[1..];
      StandsStep(raw[..], p, w);
    }
  }

  // The loop to the end of the token.
  method TokenLoop(raw: array<char>, p: nat, delims: set<char>, ghost u: string) returns (q: nat)
    requires Stands(raw[..], p, u)
    ensures q == p + |TokenOf(u, delims)| && (raw[q] == NUL <==> |TokenOf(u, delims)| == |u|)
  {
    q := p;
    ghost var w := u;
    StandsStep(raw[..], q, w);
    while raw[q] != NUL && raw[q] !in delims
      invariant q + |w| == p + |u| && Stands(raw[..], q, w)
      invariant raw[q] == FirstOf(w) && (raw[q] == NUL <==> w == [])
      invariant q + |TokenOf(w, delims)| == p + |TokenOf(u, delims)|
      decreases |w|
    {
      StandsStep(raw[..], q, w);
      q, w := q + 1, w[1..];
      StandsStep(raw[..], q, w);
    }
  }

  /** strtok_r: the memory from `save` on holds `text`; the next token is cut off. */
  method NextToken(raw: array<char>, save: nat, delims: set<char>, ghost text: string, ghost behind: seq<char>)
    returns (token: Option<nat>, save': nat)
    requires Holds(raw[..], save, text, behind) && NUL !in delims
    modifies raw
    ensures save <= save' && raw[..save] == old(raw[..save])
    ensures token == None <==> SkipDelims(text, delims) == []
    ensures token.Some? ==>
              var u := SkipDelims(text, delims);
              && token.value == save + |text| - |u|
              && Holds(raw[..], token.value, TokenOf(u, delims), BehindToken(u, delims, behind))
              && Holds(raw[..], save', AfterToken(u, delims), behind)
  {
    ghost var m, u := raw[..], SkipDelims(text, delims);
    HoldsStands(m, save, text, behind);
    var p := SkipLoop(raw, save, delims, text);
    if raw[p] == NUL {
      return None, p;
    }
    assert Holds(m, p, u, behind) && Stands(m, p, u) by {
      SkipIsSuffix(text, delims);
      HoldsSuffix(m, save, p, text, u, behind);
      HoldsStands(m, p, u, behind);
    }
    save' := CutOff(raw, p, delims, u, behind);
    token := Some(p);
    assert raw[..save] == m[..save];
  }

  // The end of the token, and the NUL behind it.
  method CutOff(raw: array<char>, p: nat, delims: set<char>, ghost u: string, ghost behind: seq<char>)
    returns (save: nat)
    requires Holds(raw[..], p, u, behind) && Stands(raw[..], p, u)
    modifies raw
    ensures p <= save && raw[..p] == old(raw[..p])
    ensures Holds(raw[..], p, TokenOf(u, delims), BehindToken(u, delims, behind))
    ensures Holds(raw[..], save, AfterToken(u, delims), behind)
  {
    hide TokenOf, AfterToken, BehindToken, Holds;
    ghost var m := raw[..];
    var q := TokenLoop(raw, p, delims, u);
    save := q;
    if raw[q] != NUL {
      raw[q] := NUL;
      save := q + 1;
    }
    assert raw[..] == m[q := NUL];
    CutToken(m, p, u, delims, behind);
  }

  // What cutting off the token that starts a text in memory leaves.
  lemma CutToken(m: seq<char>, p: nat, u: string, delims: set<char>, behind: seq<char>)
    requires Holds(m, p, u, behind)
    ensures var t := TokenOf(u, delims);
      var q := p + |t|;
      && q < |m|
      && var m' := m[q := NUL];
      && (|t| == |u| ==> m' == m)
      && Holds(m', p, t, BehindToken(u, delims, behind))
      && Holds(m', if |t| < |u| then q + 1 else q, AfterToken(u, delims), behind)
  {
    hide TokenOf, Holds;
    var t := TokenOf(u, delims);
    assert t == u[..|t|] by {
      TokenIsPrefix(u, delims);
    }
    if |t| < |u| {
      CutAt(m, p, u, u[|t|..], behind);
    } else {
      assert t == u;
      CutAtEnd(m, p, u, behind);
    }
  }

  lemma CutAtEnd(m: seq<char>, p: nat, u: string, behind: seq<char>)
    requires Holds(m, p, u, behind)
    ensures p + |u| < |m| && m[p + |u| := NUL] == m && Holds(m, p + |u|, [], behind)
  {
    HoldsSuffix(m, p, p + |u|, u, [], behind);
    HoldsStands(m, p, u, behind);
  }
}
