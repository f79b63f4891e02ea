// The LIKE matcher `wild_case_compare`, shared by the SQLite and SQLite3 drivers.
//
// A C `char` is modelled by its integer value, so that the code's comparison of an
// `unsigned char` with a plain `char` keeps its meaning: on a platform whose `char` is
// signed, bytes from 0x80 upwards are the values -128..-1.
module Like {

  type Text = seq<int>

  const WILD_MANY := '%' as int
  const WILD_ONE := '_' as int

  predicate InRange(c: int, signed: bool) {
    if signed then -128 <= c < 128 else 0 <= c < 256
  }

  predicate AllInRange(s: Text, signed: bool) {
    forall i | 0 <= i < |s| :: InRange(s[i], signed)
  }

  // Conversion of a `char` to `unsigned char`.
  function ToUnsigned(c: int): int {
    if c < 0 then c + 256 else c
  }

  // ----- The pattern language -----

  // s[i..] is in the language of the pattern w[j..end].
  ghost predicate Matches(s: Text, i: nat, w: Text, j: nat, end: nat, escape: int)
    requires i <= |s| && j <= end <= |w|
    decreases end - j
  {
    if j == end then
      i == |s|
    else if w[j] == WILD_MANY then
      var rest := j + 1;
      exists k | i <= k <= |s| :: Matches(s, k, w, rest, end, escape)
    else if w[j] == WILD_ONE then
      i < |s| && Matches(s, i + 1, w, j + 1, end, escape)
    else if w[j] == escape && j + 1 < end then
      i < |s| && s[i] == w[j + 1] && Matches(s, i + 1, w, j + 2, end, escape)
    else
      i < |s| && s[i] == w[j] && Matches(s, i + 1, w, j + 1, end, escape)
  }

  // Some suffix of s[i..] is in the language of the pattern w[j..end].
  ghost predicate MatchesFrom(s: Text, i: nat, w: Text, j: nat, end: nat, escape: int)
    requires i <= |s| && j <= end <= |w|
  {
    exists k | i <= k <= |s| :: Matches(s, k, w, j, end, escape)
  }

  // No literal that directly follows a run of wildcards holding a '%' is a negative
  // `char` (nor the escape character in front of it). `run` says that w[j] follows such a run.
  predicate HeadsPositive(w: Text, j: nat, end: nat, escape: int, run: bool)
    requires j <= end <= |w|
    decreases end - j
  {
    if j == end then
      true
    else if w[j] == WILD_MANY then
      HeadsPositive(w, j + 1, end, escape, true)
    else if w[j] == WILD_ONE then
      HeadsPositive(w, j + 1, end, escape, run)
    else if w[j] == escape && j + 1 < end then
      (run ==> w[j] >= 0 && w[j + 1] >= 0) && HeadsPositive(w, j + 2, end, escape, false)
    else
      (run ==> w[j] >= 0) && HeadsPositive(w, j + 1, end, escape, false)
  }

  lemma SkipMany(s: Text, i: nat, w: Text, j: nat, end: nat, escape: int)
    requires i <= |s| && j < end <= |w| && w[j] == WILD_MANY
    ensures MatchesFrom(s, i, w, j, end, escape) <==> MatchesFrom(s, i, w, j + 1, end, escape)
  {
    if k :| i <= k <= |s| && Matches(s, k, w, j, end, escape) {
      var m :| k <= m <= |s| && Matches(s, m, w, j + 1, end, escape);
    }
    if MatchesFrom(s, i, w, j + 1, end, escape) {
      var k :| i <= k <= |s| && Matches(s, k, w, j + 1, end, escape);
      assert Matches(s, k, w, j, end, escape);
    }
  }

  lemma SkipOne(s: Text, i: nat, w: Text, j: nat, end: nat, escape: int)
    requires i <= |s| && j < end <= |w| && w[j] == WILD_ONE
    ensures MatchesFrom(s, i, w, j, end, escape)
        <==> i < |s| && MatchesFrom(s, i + 1, w, j + 1, end, escape)
  {
    if k :| i <= k <= |s| && Matches(s, k, w, j, end, escape) {
      assert Matches(s, k + 1, w, j + 1, end, escape);
    }
    if i < |s| && MatchesFrom(s, i + 1, w, j + 1, end, escape) {
      var k :| i + 1 <= k <= |s| && Matches(s, k, w, j + 1, end, escape);
      assert Matches(s, k - 1, w, j, end, escape);
    }
  }

  // What consuming w[wild0..wild] against s[str0..str], one character each, leaves to decide.
  ghost predicate Consumed(s: Text, str0: nat, str: nat, w: Text, wild0: nat, wild: nat, end: nat, escape: int)
    requires str0 <= str <= |s| && wild0 <= wild <= end <= |w|
  {
    && (Matches(s, str0, w, wild0, end, escape) <==> Matches(s, str, w, wild, end, escape))
    && (HeadsPositive(w, wild0, end, escape, false) <==> HeadsPositive(w, wild, end, escape, false))
    && (MatchesFrom(s, str0, w, wild0, end, escape) ==> MatchesFrom(s, str, w, wild, end, escape))
    && (ReachesMany(s, str0, w, wild0, end, escape) <==> ReachesMany(s, str, w, wild, end, escape))
  }

  // The string goes through the pattern, one character for each item, up to a '%'.
  ghost predicate ReachesMany(s: Text, i: nat, w: Text, j: nat, end: nat, escape: int)
    requires i <= |s| && j <= end <= |w|
    decreases end - j
  {
    j < end && (w[j] == '%' as int
                || (Accepts(s, i, w, j, end, escape)
                    && ReachesMany(s, i + 1, w, j + Width(w, j, end, escape), end, escape)))
  }

  // The pattern starts with more '_' than the string has characters.
  predicate ShortOfOnes(s: Text, i: nat, w: Text, j: nat, end: nat)
    requires i <= |s| && j <= end <= |w|
  {
    |s| - i < end - j && forall x | j <= x <= j + (|s| - i) :: w[x] == '_' as int
  }

  // The width in the pattern, escape character included, of what stands at w[j].
  function Width(w: Text, j: nat, end: nat, escape: int): (n: nat)
    requires j < end <= |w|
    ensures 1 <= n && j + n <= end
  {
    if w[j] != WILD_MANY && w[j] != WILD_ONE && w[j] == escape && j + 1 < end then 2 else 1
  }

  // Whether the single-character pattern item at w[j] accepts s[i].
  predicate Accepts(s: Text, i: nat, w: Text, j: nat, end: nat, escape: int)
    requires i <= |s| && j < end <= |w|
  {
    i < |s| && (w[j] == WILD_ONE || s[i] == w[j + Width(w, j, end, escape) - 1])
  }

  lemma ConsumeOne(s: Text, i: nat, w: Text, j: nat, end: nat, escape: int)
    requires i <= |s| && j < end <= |w| && w[j] != WILD_MANY
    ensures Accepts(s, i, w, j, end, escape) ==>
              Consumed(s, i, i + 1, w, j, j + Width(w, j, end, escape), end, escape)
    ensures !Accepts(s, i, w, j, end, escape) ==> !Matches(s, i, w, j, end, escape)
    ensures !Accepts(s, i, w, j, end, escape) ==> !ReachesMany(s, i, w, j, end, escape)
    ensures i == |s| ==> !MatchesFrom(s, i, w, j, end, escape)
  {
    if Accepts(s, i, w, j, end, escape) && MatchesFrom(s, i, w, j, end, escape) {
      var k :| i <= k <= |s| && Matches(s, k, w, j, end, escape);
      assert Matches(s, k + 1, w, j + Width(w, j, end, escape), end, escape);
    }
  }

  // The rest of the pattern matches behind some occurrence of `cmp` in s[i..].
  ghost predicate Retry(s: Text, i: nat, w: Text, j: nat, end: nat, escape: int, cmp: int)
    requires i <= |s| && j <= end <= |w|
  {
    exists k | i <= k < |s| ::
      s[k] == cmp && Matches(s, k + 1, w, j, end, escape) && HeadsPositive(w, j, end, escape, false)
  }

  lemma RetryStep(s: Text, i: nat, w: Text, j: nat, end: nat, escape: int, cmp: int)
    requires i < |s| && j <= end <= |w| && s[i] == cmp
    ensures Retry(s, i, w, j, end, escape, cmp)
        <==> Retry(s, i + 1, w, j, end, escape, cmp)
             || (Matches(s, i + 1, w, j, end, escape) && HeadsPositive(w, j, end, escape, false))
    ensures Retry(s, i + 1, w, j, end, escape, cmp) ==>
              MatchesFrom(s, i + 1, w, j, end, escape) && HeadsPositive(w, j, end, escape, false)
  {
    if k :| i + 1 <= k < |s| && s[k] == cmp && Matches(s, k + 1, w, j, end, escape) {
    }
  }

  lemma HeadDecides(s: Text, i: nat, w: Text, head: nat, j: nat, end: nat, escape: int, cmp: int, signed: bool)
    requires i <= |s| && head < end <= |w| && w[head] != WILD_MANY && w[head] != WILD_ONE
    requires AllInRange(s, signed) && AllInRange(w, signed) && InRange(escape, signed)
    requires j == if ToUnsigned(w[head]) == escape && head + 1 < end then head + 2 else head + 1
    requires cmp == ToUnsigned(w[j - 1])
    ensures MatchesFrom(s, i, w, head, end, escape) && HeadsPositive(w, head, end, escape, true)
        <==> Retry(s, i, w, j, end, escape, cmp)
  {
    if Retry(s, i, w, j, end, escape, cmp) {
      var k :| i <= k < |s| && s[k] == cmp && Matches(s, k + 1, w, j, end, escape);
      assert InRange(s[k], signed);
    }
    if HeadsPositive(w, head, end, escape, true) {
      if MatchesFrom(s, i, w, head, end, escape) {
        var k :| i <= k <= |s| && Matches(s, k, w, head, end, escape);
        assert s[k] == cmp && Matches(s, k + 1, w, j, end, escape);
      }
      if Retry(s, i, w, j, end, escape, cmp) {
        var k :| i <= k < |s| && s[k] == cmp && Matches(s, k + 1, w, j, end, escape);
        assert Matches(s, k, w, head, end, escape);
      }
    }
  }

  // ----- Bounds on the number of steps -----

  // The product n * m, unfolded one row at a time so that the bounds below stay linear.
  function Times(n: nat, m: nat): nat {
    if n == 0 then 0 else m + Times(n - 1, m)
  }

  lemma {:induction false} TimesIsProduct(n: nat, m: nat)
    ensures Times(n, m) == n * m
  {
    if n > 0 {
      TimesIsProduct(n - 1, m);
    }
  }

  lemma {:induction false} TimesMonotone(n: nat, n': nat, m: nat, m': nat)
    requires n <= n' && m <= m'
    ensures Times(n, m) <= Times(n', m')
  {
    if n > 0 {
      TimesMonotone(n - 1, n' - 1, m, m');
    }
  }

  lemma {:induction false} TimesAdd(a: nat, b: nat, m: nat)
    ensures Times(a + b, m) == Times(a, m) + Times(b, m)
  {
    if a > 0 {
      TimesAdd(a - 1, b, m);
    }
  }

  lemma {:induction false} TimesAtLeast(a: nat, b: nat, m: nat)
    requires m > 0
    ensures Times(a, m) + b <= Times(a + b, m)
  {
    if b > 0 {
      TimesAtLeast(a, b - 1, m);
      assert Times(a + b, m) == m + Times(a + b - 1, m);
    }
  }

  // The most steps a call may take with n characters of string and p of pattern left.
  function MostSteps(n: nat, p: nat): nat {
    Times(n + 1, 2 * p + 2)
  }

  // A call without a '%' goes through the pattern once, at most two steps for a character.
  lemma StepsOfOne(n: nat, p: nat)
    ensures 2 * p + 2 <= MostSteps(n, p)
  {
  }

  // A '%' takes its own share behind what came before it.
  lemma StepsOfMany(n: nat, left: nat, p: nat, more: nat, steps: nat)
    requires left <= n && more <= p && steps <= 2 * (p - more) + more + Times(left, 2 * more + 2) + 1
    ensures steps <= MostSteps(n, p)
  {
    TimesMonotone(left, n, 2 * more + 2, 2 * p + 2);
  }

  // The steps after one more try: it ends the loop, or it took no more than a round's share.
  lemma StepsOfTry(tried: nat, left: nat, p: nat, steps: nat, more: nat, goesOn: bool)
    requires tried > 0 && steps <= Times(tried - 1, 2 * p + 4)
    requires if goesOn then more <= 2 * p else more <= MostSteps(left, p)
    ensures steps + 1 + more <= Times(if goesOn then tried else tried + left, 2 * p + 4)
  {
    var width := 2 * p + 4;
    if !goesOn {
      TimesMonotone(left, left, width - 2, width);
      TimesAdd(tried, left, width);
    }
  }

  // ----- The matcher -----

  /** `wild_case_compare(str, str_end, wildstr, wildend, escape)`: `str` and `wildstr` are
      indices into the two texts, `str_end` is |s|. The byte at `wildend` is read too (it is
      the pattern's NUL in both callers), so the pattern's memory extends past `wildend`.
      `calls` counts this invocation and all nested ones, `steps` the iterations of all loops. */
  method WildCaseCompare(s: Text, str0: nat, w: Text, wildstr0: nat, wildend: nat, escape: int,
                         ghost signed: bool)
    returns (r: int, ghost calls: nat, ghost steps: nat)
    requires str0 <= |s| && wildstr0 <= wildend < |w| && w[wildend] != WILD_MANY
    requires AllInRange(s, signed) && AllInRange(w, signed) && InRange(escape, signed)
    ensures r == -1 || r == 0 || r == 1
    ensures r == 0 <==> Matches(s, str0, w, wildstr0, wildend, escape)
                        && HeadsPositive(w, wildstr0, wildend, escape, false)
    ensures r == -1 && HeadsPositive(w, wildstr0, wildend, escape, false) ==>
              !MatchesFrom(s, str0, w, wildstr0, wildend, escape)
    ensures r != 0 ==> (r == -1 <==> ReachesMany(s, str0, w, wildstr0, wildend, escape)
                                     || ShortOfOnes(s, str0, w, wildstr0, wildend))
    ensures r == 1 ==> calls == 1 && steps <= 2 * (wildend - wildstr0)
    ensures r == 1 && wildstr0 < wildend ==> w[wildstr0] != WILD_MANY
    ensures calls <= |s| - str0 + 1
    ensures steps <= MostSteps(|s| - str0, wildend - wildstr0)
    decreases wildend - wildstr0, 2
  {
    var str, wildstr := str0, wildstr0;
    var result := -1;
    calls, steps := 1, 0;
    hide Anchor, ShortOfOnes, ReachesMany, Times, MostSteps;
    StepsOfOne(|s| - str0, wildend - wildstr0);
    while wildstr != wildend
      invariant InFront(s, str0, str, w, wildstr0, wildstr, wildend, escape, result, steps)
      decreases wildend - wildstr
    {
      var ended;
      ended, r, str, wildstr, result, steps :=
        ReadRun(s, str0, str, w, wildstr0, wildstr, wildend, escape, result, steps);
      if ended {
        return;
      }
      if wildstr == wildend {
        break;
      }
      if w[wildstr] == WILD_MANY {
        SkipMany(s, str, w, wildstr, wildend, escape);
        ghost var nested, more;
        r, nested, more := MatchAfterMany(s, str, w, wildstr, wildend, escape, signed);
        calls, steps := calls + nested, steps + more;
        StepsOfMany(|s| - str0, |s| - str, wildend - wildstr0, wildend - wildstr, steps);
        return;
      }
    }
    AnchorAtEnd(result == 1, s, str0, str, w, wildstr0, wildstr, wildend);
    return if str != |s| then 1 else 0, calls, steps;
  }

  // What is left to decide in front of w[wildstr], from where the call started.
  ghost predicate InFront(s: Text, str0: nat, str: nat, w: Text, wildstr0: nat, wildstr: nat, wildend: nat,
                          escape: int, result: int, steps: nat)
  {
    && str0 <= str <= |s| && wildstr0 <= wildstr <= wildend <= |w| && (result == -1 || result == 1)
    && Anchor(result == 1, s, str0, str, w, wildstr0, wildstr)
    && (result == 1 || wildstr0 < wildstr ==> w[wildstr0] != WILD_MANY)
    && Consumed(s, str0, str, w, wildstr0, wildstr, wildend, escape)
    && steps <= 2 * (wildstr - wildstr0)
  }

  // One pass of the loop up to a '%' or the end: literals, then any '_'. `ended` says that r is
  // returned from here.
  method ReadRun(s: Text, str0: nat, str1: nat, w: Text, wildstr0: nat, wildstr1: nat, wildend: nat, escape: int,
                 result1: int, ghost steps1: nat)
    returns (ended: bool, r: int, str: nat, wildstr: nat, result: int, ghost steps: nat)
    requires wildstr1 < wildend && InFront(s, str0, str1, w, wildstr0, wildstr1, wildend, escape, result1, steps1)
    ensures ended ==> (r == -1 || r == 0 || r == 1) && w[wildstr0] != WILD_MANY && steps <= 2 * (wildend - wildstr0)
    ensures ended ==> (r == 0 <==> Matches(s, str0, w, wildstr0, wildend, escape)
                                   && HeadsPositive(w, wildstr0, wildend, escape, false))
    ensures ended && r == -1 ==> !MatchesFrom(s, str0, w, wildstr0, wildend, escape)
    ensures ended && r != 0 ==> !ReachesMany(s, str0, w, wildstr0, wildend, escape)
                                && (r == -1 <==> ShortOfOnes(s, str0, w, wildstr0, wildend))
    ensures !ended ==> steps > 0 && wildstr1 <= wildstr && (wildstr == wildstr1 ==> w[wildstr] == WILD_MANY)
    ensures !ended ==> InFront(s, str0, str, w, wildstr0, wildstr, wildend, escape, result,
                               if wildstr < wildend && w[wildstr] == WILD_MANY then steps - 1 else steps)
  {
    ghost var more;
    var anchored;
    result := result1;
    ended, r, str, wildstr, anchored, more := MatchLiterals(s, str1, w, wildstr1, wildend, escape);
    steps := steps1 + 1 + more;
    if ended {
      AnchorAtLiteral(result == 1, s, str0, str1, w, wildstr0, wildstr1, wildend);
      return;
    }
    AnchorBehind(result == 1, anchored, s, str0, str1, str, w, wildstr0, wildstr1, wildstr);
    if anchored {
      result := 1;
    }
    if w[wildstr] == WILD_ONE {
      var fits;
      ghost var str2, wildstr2 := str, wildstr;
      str, wildstr, fits, more := SkipOnes(s, str, w, wildstr, wildend, escape);
      steps := steps + more;
      AnchorOnes(result == 1, s, str0, str2, str, w, wildstr0, wildstr2, wildstr);
      if !fits {
        AnchorAtEnd(result == 1, s, str0, str, w, wildstr0, wildstr, wildend);
        ended, r := true, result;
      }
    }
  }

  // How far the matcher has come: some literal was consumed, or only '_'.
  ghost predicate Anchor(anchored: bool, s: Text, str0: nat, str: nat, w: Text, wild0: nat, wild: nat)
    requires str0 <= str <= |s| && wild0 <= wild <= |w|
  {
    if anchored then
      exists x | wild0 <= x < wild :: x - wild0 < |s| - str0 && w[x] != WILD_ONE
    else
      str - str0 == wild - wild0 && forall x | wild0 <= x < wild :: w[x] == WILD_ONE
  }

  lemma AnchorBehind(anchored: bool, more: bool, s: Text, str0: nat, str: nat, str': nat, w: Text, wild0: nat,
                     wild: nat, wild': nat)
    requires str0 <= str <= str' <= |s| && wild0 <= wild <= wild' <= |w|
    requires Anchor(anchored, s, str0, str, w, wild0, wild)
    requires if more then wild < wild' && w[wild] != WILD_ONE && str < |s| else str == str' && wild == wild'
    ensures Anchor(anchored || more, s, str0, str', w, wild0, wild')
  {
  }

  lemma AnchorOnes(anchored: bool, s: Text, str0: nat, str: nat, str': nat, w: Text, wild0: nat, wild: nat,
                   wild': nat)
    requires str0 <= str <= str' <= |s| && wild0 <= wild <= wild' <= |w|
    requires Anchor(anchored, s, str0, str, w, wild0, wild)
    requires str' - str == wild' - wild && forall x | wild <= x < wild' :: w[x] == WILD_ONE
    ensures Anchor(anchored, s, str0, str', w, wild0, wild')
  {
  }

  // A literal ends the run of '_' in time.
  lemma AnchorAtLiteral(anchored: bool, s: Text, str0: nat, str: nat, w: Text, wild0: nat, wild: nat, end: nat)
    requires str0 <= str <= |s| && wild0 <= wild < end <= |w| && w[wild] != WILD_ONE
    requires Anchor(anchored, s, str0, str, w, wild0, wild)
    ensures !ShortOfOnes(s, str0, w, wild0, end)
  {
  }

  // At the end of the string in front of a '_', or of the pattern.
  lemma AnchorAtEnd(anchored: bool, s: Text, str0: nat, str: nat, w: Text, wild0: nat, wild: nat, end: nat)
    requires str0 <= str <= |s| && wild0 <= wild <= end <= |w|
    requires Anchor(anchored, s, str0, str, w, wild0, wild)
    requires wild == end || (str == |s| && w[wild] == WILD_ONE)
    ensures ShortOfOnes(s, str0, w, wild0, end) <==> !anchored && wild < end
  {
  }

  /** The loop over literal characters, up to a wildcard; `ended` says that it returned r itself,
      `anchored` that it consumed something. */
  method MatchLiterals(s: Text, str0: nat, w: Text, wildstr0: nat, wildend: nat, escape: int)
    returns (ended: bool, r: int, str: nat, wildstr: nat, anchored: bool, ghost steps: nat)
    requires str0 <= |s| && wildstr0 < wildend <= |w|
    ensures ended ==> r == 0 || r == 1
    ensures ended ==> (r == 0 <==> Matches(s, str0, w, wildstr0, wildend, escape)
                                   && HeadsPositive(w, wildstr0, wildend, escape, false))
    ensures ended ==> w[wildstr0] != WILD_MANY && w[wildstr0] != WILD_ONE && steps < 2 * (wildend - wildstr0)
    ensures ended ==> !ReachesMany(s, str0, w, wildstr0, wildend, escape)
    ensures !ended ==> str0 <= str <= |s| && wildstr0 <= wildstr < wildend
    ensures !ended ==> w[wildstr] == WILD_MANY || w[wildstr] == WILD_ONE
    ensures !ended ==> Consumed(s, str0, str, w, wildstr0, wildstr, wildend, escape)
    ensures !ended ==> steps <= wildstr - wildstr0 && (anchored <==> wildstr0 < wildstr)
    ensures wildstr0 < wildstr ==> w[wildstr0] != WILD_MANY
    ensures !ended ==> if anchored then w[wildstr0] != WILD_ONE && str0 < |s| else str == str0
  {
    str, wildstr, anchored, ended, r, steps := str0, wildstr0, false, false, 1, 0;
    while w[wildstr] != WILD_MANY && w[wildstr] != WILD_ONE
      invariant str0 <= str <= |s| && wildstr0 <= wildstr < wildend
      invariant Consumed(s, str0, str, w, wildstr0, wildstr, wildend, escape)
      invariant steps <= wildstr - wildstr0 && (anchored <==> wildstr0 < wildstr)
      invariant wildstr0 < wildstr ==> w[wildstr0] != WILD_MANY && w[wildstr0] != WILD_ONE
      invariant if anchored then str0 < str else str == str0
      decreases wildend - wildstr
    {
      ConsumeOne(s, str, w, wildstr, wildend, escape);
      steps := steps + 1;
      if w[wildstr] == escape && wildstr + 1 != wildend {
        wildstr := wildstr + 1;
      }
      if str == |s| || w[wildstr] != s[str] {
        return true, 1, str, wildstr, anchored, steps;
      }
      str, wildstr := str + 1, wildstr + 1;
      if wildstr == wildend {
        return true, if str != |s| then 1 else 0, str, wildstr, anchored, steps;
      }
      anchored := true;
    }
  }

  /** The loop over '_', one character of the string for each. */
  method SkipOnes(s: Text, str0: nat, w: Text, wildstr0: nat, wildend: nat, escape: int)
    returns (str: nat, wildstr: nat, fits: bool, ghost steps: nat)
    requires str0 <= |s| && wildstr0 < wildend <= |w| && w[wildstr0] == WILD_ONE
    ensures str0 <= str <= |s| && wildstr0 <= wildstr <= wildend && steps <= wildstr - wildstr0 + 1
    ensures !fits ==> !MatchesFrom(s, str0, w, wildstr0, wildend, escape) && wildstr < wildend
    ensures fits ==> Consumed(s, str0, str, w, wildstr0, wildstr, wildend, escape) && wildstr0 < wildstr
    ensures str - str0 == wildstr - wildstr0 && forall x | wildstr0 <= x < wildstr :: w[x] == WILD_ONE
    ensures !fits ==> str == |s| && w[wildstr] == WILD_ONE && !ReachesMany(s, str0, w, wildstr0, wildend, escape)
    ensures fits ==> steps == wildstr - wildstr0
  {
    str, wildstr, steps := str0, wildstr0, 0;
    while true
      invariant str0 <= str <= |s| && wildstr0 <= wildstr < wildend && w[wildstr] == WILD_ONE
      invariant Consumed(s, str0, str, w, wildstr0, wildstr, wildend, escape) && steps == wildstr - wildstr0
      invariant str - str0 == wildstr - wildstr0 && forall x | wildstr0 <= x < wildstr :: w[x] == WILD_ONE
      decreases wildend - wildstr
    {
      ConsumeOne(s, str, w, wildstr, wildend, escape);
      steps := steps + 1;
      if str == |s| {
        return str, wildstr, false, steps;
      }
      str, wildstr := str + 1, wildstr + 1;
      if !(wildstr < wildend && w[wildstr] == WILD_ONE) {
        return str, wildstr, true, steps;
      }
    }
  }

  /** Remove any '%' and '_' from the pattern, one character of the string for each '_'.
      `fits` is false when the string runs out; the loop runs `wildstr - wildstr0` times. */
  method StripRun(s: Text, str0: nat, w: Text, wildstr0: nat, wildend: nat, escape: int)
    returns (str: nat, wildstr: nat, fits: bool)
    requires str0 <= |s| && wildstr0 <= wildend <= |w|
    ensures str0 <= str <= |s| && wildstr0 <= wildstr <= wildend
    ensures !fits ==> !MatchesFrom(s, str0, w, wildstr0, wildend, escape)
    ensures fits ==> wildstr < wildend ==> w[wildstr] != WILD_MANY && w[wildstr] != WILD_ONE
    ensures fits ==> (MatchesFrom(s, str0, w, wildstr0, wildend, escape)
                      <==> MatchesFrom(s, str, w, wildstr, wildend, escape))
    ensures fits ==> (HeadsPositive(w, wildstr0, wildend, escape, true)
                      <==> HeadsPositive(w, wildstr, wildend, escape, true))
  {
    str, wildstr := str0, wildstr0;
    while wildstr != wildend && (w[wildstr] == WILD_MANY || w[wildstr] == WILD_ONE)
      invariant str0 <= str <= |s| && wildstr0 <= wildstr <= wildend
      invariant MatchesFrom(s, str0, w, wildstr0, wildend, escape)
           <==> MatchesFrom(s, str, w, wildstr, wildend, escape)
      invariant HeadsPositive(w, wildstr0, wildend, escape, true)
           <==> HeadsPositive(w, wildstr, wildend, escape, true)
    {
      if w[wildstr] == WILD_MANY {
        SkipMany(s, str, w, wildstr, wildend, escape);
      } else {
        SkipOne(s, str, w, wildstr, wildend, escape);
        if str == |s| {
          return str, wildstr, false;
        }
        str := str + 1;
      }
      wildstr := wildstr + 1;
    }
    fits := true;
  }

  /** The part of `wild_case_compare` from a '%' on, up to its retry loop: strip the run of
      wildcards and take out the literal that follows it. Counts as WildCaseCompare does. */
  method MatchAfterMany(s: Text, str0: nat, w: Text, wildstr0: nat, wildend: nat, escape: int,
                        ghost signed: bool)
    returns (r: int, ghost calls: nat, ghost steps: nat)
    requires str0 <= |s| && wildstr0 < wildend < |w| && w[wildend] != WILD_MANY
    requires w[wildstr0] == WILD_MANY
    requires AllInRange(s, signed) && AllInRange(w, signed) && InRange(escape, signed)
    ensures r == -1 || r == 0
    ensures r == 0 <==> MatchesFrom(s, str0, w, wildstr0, wildend, escape)
                        && HeadsPositive(w, wildstr0, wildend, escape, false)
    ensures calls <= |s| - str0
    ensures steps <= wildend - wildstr0 + Times(|s| - str0, 2 * (wildend - wildstr0) + 2)
    decreases wildend - wildstr0, 1
  {
    var str, wildstr, fits := StripRun(s, str0, w, wildstr0 + 1, wildend, escape);
    SkipMany(s, str0, w, wildstr0, wildend, escape);
    calls, steps := 0, wildstr - wildstr0;
    if !fits {
      return -1, calls, steps;
    }
    if wildstr == wildend {
      assert Matches(s, |s|, w, wildend, wildend, escape);
      return 0, calls, steps;
    }
    if str == |s| {
      ConsumeOne(s, str, w, wildstr, wildend, escape);
      return -1, calls, steps;
    }
    ghost var head := wildstr;
    var cmp := ToUnsigned(w[wildstr]);
    if cmp == escape && wildstr + 1 != wildend {
      wildstr := wildstr + 1;
      cmp := ToUnsigned(w[wildstr]);
    }
    wildstr := wildstr + 1;
    HeadDecides(s, str, w, head, wildstr, wildend, escape, cmp, signed);
    ghost var more;
    r, calls, more := MatchBehind(s, str, w, wildstr, wildend, escape, cmp, signed);
    TimesMonotone(|s| - str, |s| - str0, 2 * (wildend - wildstr) + 4, 2 * (wildend - wildstr0) + 2);
    steps := steps + more;
  }

  // The loop that looks for the next occurrence of the literal, one step for each character.
  method FindChar(s: Text, str0: nat, w: Text, wildstr: nat, wildend: nat, escape: int, cmp: int) returns (str: nat)
    requires str0 < |s| && wildstr <= wildend <= |w|
    ensures str0 <= str <= |s| && (str < |s| ==> s[str] == cmp)
    ensures Retry(s, str0, w, wildstr, wildend, escape, cmp) <==> Retry(s, str, w, wildstr, wildend, escape, cmp)
  {
    str := str0;
    while str != |s| && s[str] != cmp
      invariant str0 <= str <= |s|
      invariant Retry(s, str0, w, wildstr, wildend, escape, cmp) <==> Retry(s, str, w, wildstr, wildend, escape, cmp)
    {
      str := str + 1;
    }
  }

  /** The retry loop of `wild_case_compare`: match the rest of the pattern behind each
      occurrence of `cmp` in turn, and give up as soon as one attempt returns -1. */
  method MatchBehind(s: Text, str0: nat, w: Text, wildstr: nat, wildend: nat, escape: int, cmp: int,
                     ghost signed: bool)
    returns (r: int, ghost calls: nat, ghost steps: nat)
    requires str0 < |s| && wildstr <= wildend < |w| && w[wildend] != WILD_MANY
    requires AllInRange(s, signed) && AllInRange(w, signed) && InRange(escape, signed)
    ensures r == -1 || r == 0
    ensures r == 0 <==> Retry(s, str0, w, wildstr, wildend, escape, cmp)
    ensures calls <= |s| - str0
    ensures steps <= Times(|s| - str0, 2 * (wildend - wildstr) + 4)
    decreases wildend - wildstr, 3
  {
    var str := str0;
    calls, steps := 0, 0;
    ghost var goal := Retry(s, str0, w, wildstr, wildend, escape, cmp);
    ghost var width := 2 * (wildend - wildstr) + 4;
    while true
      invariant str0 <= str < |s|
      invariant goal == Retry(s, str, w, wildstr, wildend, escape, cmp)
      invariant calls <= str - str0 && steps <= Times(str - str0, width)
      decreases |s| - str
    {
      ghost var from := str;
      str := FindChar(s, str, w, wildstr, wildend, escape, cmp);
      TimesAtLeast(from - str0, str - from, width);
      steps := steps + (str - from);
      if str == |s| {
        return -1, calls, steps;
      }
      RetryStep(s, str, w, wildstr, wildend, escape, cmp);
      str := str + 1;
      ghost var nested, more;
      r, nested, more := WildCaseCompare(s, str, w, wildstr, wildend, escape, signed);
      StepsOfTry(str - str0, |s| - str, wildend - wildstr, steps, more, r == 1);
      calls, steps := calls + nested, steps + 1 + more;
      if r <= 0 {
        return;
      }
      if !(str != |s| && w[wildstr] != WILD_MANY) {
        break;
      }
    }
    assert str == |s|;  // the test for a '%' never ends the loop
    return -1, calls, steps;
  }

  // ----- When the matcher decides the language -----

  // The inputs on which WildCaseCompare, started at the two beginnings, returns 0.
  ghost predicate Accepted(s: Text, w: Text, end: nat, escape: int)
    requires end <= |w|
  {
    Matches(s, 0, w, 0, end, escape) && HeadsPositive(w, 0, end, escape, false)
  }

  /** A pattern is matched exactly, for every string, if and only if no literal behind a '%'
      run is a negative `char`. */
  lemma ExactIffHeadsPositive(w: Text, end: nat, escape: int, signed: bool)
    requires end <= |w| && AllInRange(w, signed)
    ensures (forall s | AllInRange(s, signed) :: Accepted(s, w, end, escape) <==> Matches(s, 0, w, 0, end, escape))
        <==> HeadsPositive(w, 0, end, escape, false)
  {
    var s := SomeMatch(w, 0, end, escape, signed);
    assert Matches(s, 0, w, 0, end, escape);
  }

  /** In particular every pattern is matched exactly when it is 7-bit, whatever the string,
      and when `char` is unsigned. */
  lemma {:induction false} NonNegativeHeads(w: Text, j: nat, end: nat, escape: int, run: bool)
    requires j <= end <= |w| && forall i | j <= i < end :: w[i] >= 0
    ensures HeadsPositive(w, j, end, escape, run)
    decreases end - j
  {
    if j < end {
      var head := w[j] != WILD_MANY && w[j] != WILD_ONE;
      NonNegativeHeads(w, j + Width(w, j, end, escape), end, escape, if head then false else run || w[j] == WILD_MANY);
    }
  }

  // Every pattern matches some string.
  lemma {:induction false} SomeMatch(w: Text, j: nat, end: nat, escape: int, signed: bool) returns (s: Text)
    requires j <= end <= |w| && AllInRange(w, signed)
    ensures AllInRange(s, signed) && Matches(s, 0, w, j, end, escape)
    decreases end - j
  {
    s := [];
    if j < end {
      var next := j + Width(w, j, end, escape);
      s := SomeMatch(w, next, end, escape, signed);
      if w[j] != WILD_MANY {
        Prepend(w[next - 1], s, 0, w, next, end, escape);
        s := [w[next - 1]] + s;
      }
    }
  }

  lemma {:induction false} Prepend(c: int, s: Text, i: nat, w: Text, j: nat, end: nat, escape: int)
    requires i <= |s| && j <= end <= |w| && Matches(s, i, w, j, end, escape)
    ensures Matches([c] + s, i + 1, w, j, end, escape)
    decreases end - j
  {
    if j < end {
      var next := j + Width(w, j, end, escape);
      if w[j] == WILD_MANY {
        var k :| i <= k <= |s| && Matches(s, k, w, next, end, escape);
        Prepend(c, s, k, w, next, end, escape);
      } else {
        Prepend(c, s, i + 1, w, next, end, escape);
      }
    }
  }

  // ----- Patterns made of escaped text -----

  // The text as a pattern: an escape in front of every wildcard and every escape in it.
  function EscapeAll(t: Text, escape: int): Text {
    if t == [] then [] else EscapeOne(t[0], escape) + EscapeAll(t[1..], escape)
  }

  function EscapeOne(c: int, escape: int): Text {
    if c == '%' as int || c == '_' as int || c == escape then [escape, c] else [c]
  }

  // Where an escaped text stands in the pattern, the string has to hold the text.
  lemma {:induction false} EscapedText(s: Text, i: nat, t: Text, w: Text, j: nat, escape: int)
    requires i <= |s| && j + |EscapeAll(t, escape)| <= |w| && escape != '%' as int && escape != '_' as int
    requires w[j..j + |EscapeAll(t, escape)|] == EscapeAll(t, escape)
    ensures Matches(s, i, w, j, |w|, escape)
       <==> t <= s[i..] && Matches(s, i + |t|, w, j + |EscapeAll(t, escape)|, |w|, escape)
    decreases |t|
  {
    if t != [] {
      var piece := EscapeOne(t[0], escape);
      PieceAt(w, j, piece, EscapeAll(t[1..], escape));
      PieceStep(s, i, t[0], w, j, escape);
      PrefixStep(s, i, t);
      if i < |s| {
        EscapedText(s, i + 1, t[1..], w, j + |piece|, escape);
      }
    }
  }

  // What the pattern of one character makes of the string.
  lemma PieceStep(s: Text, i: nat, c: int, w: Text, j: nat, escape: int)
    requires i <= |s| && j + |EscapeOne(c, escape)| <= |w| && escape != '%' as int && escape != '_' as int
    requires forall k | j <= k < j + |EscapeOne(c, escape)| :: w[k] == EscapeOne(c, escape)[k - j]
    ensures Matches(s, i, w, j, |w|, escape)
       <==> i < |s| && s[i] == c && Matches(s, i + 1, w, j + |EscapeOne(c, escape)|, |w|, escape)
  {
  }

  lemma PrefixStep(s: Text, i: nat, t: Text)
    requires i <= |s| && t != []
    ensures t <= s[i..] <==> i < |s| && s[i] == t[0] && t[1..] <= s[i + 1..]
  {
    if i < |s| {
      assert s[i..] == [s[i]] + s[i + 1..] && t == [t[0]] + t[1..];
    }
  }

  lemma PieceAt(w: Text, j: nat, piece: Text, others: Text)
    requires j + |piece| + |others| <= |w| && w[j..j + |piece| + |others|] == piece + others
    ensures forall k | j <= k < j + |piece| :: w[k] == piece[k - j]
    ensures w[j + |piece|..j + |piece| + |others|] == others
  {
    var both := w[j..j + |piece| + |others|];
    assert forall k | j <= k < j + |piece| :: w[k] == both[k - j];
    assert w[j + |piece|..j + |piece| + |others|] == both[|piece|..];
  }

  /** A text with its wildcards escaped is matched by itself only; behind it a '%' takes any text and
      a '_' any one character. */
  lemma EscapedPatterns(s: Text, a: Text, b: Text, escape: int)
    requires escape != '%' as int && escape != '_' as int
    ensures var w := EscapeAll(a, escape); Matches(s, 0, w, 0, |w|, escape) <==> s == a
    ensures var w := EscapeAll(a, escape) + ['%' as int] + EscapeAll(b, escape);
      Matches(s, 0, w, 0, |w|, escape) <==> |a| + |b| <= |s| && a <= s && s[|s| - |b|..] == b
    ensures var w := EscapeAll(a, escape) + ['_' as int] + EscapeAll(b, escape);
      Matches(s, 0, w, 0, |w|, escape) <==> |s| == |a| + 1 + |b| && a <= s && s[|a| + 1..] == b
  {
    EscapedAlone(s, a, escape);
    EscapedMany(s, a, b, escape);
    EscapedOne(s, a, b, escape);
  }

  lemma EscapedAlone(s: Text, a: Text, escape: int)
    requires escape != '%' as int && escape != '_' as int
    ensures var w := EscapeAll(a, escape); Matches(s, 0, w, 0, |w|, escape) <==> s == a
  {
    var w := EscapeAll(a, escape);
    assert w[0..] == w && s[0..] == s;
    EscapedText(s, 0, a, w, 0, escape);
  }

  // The end of a pattern.
  lemma EscapedEnd(s: Text, i: nat, b: Text, w: Text, j: nat, escape: int)
    requires escape != '%' as int && escape != '_' as int
    requires i <= |s| && j <= |w| && w[j..] == EscapeAll(b, escape)
    ensures Matches(s, i, w, j, |w|, escape) <==> s[i..] == b
  {
    EscapedText(s, i, b, w, j, escape);
  }

  lemma EscapedMany(s: Text, a: Text, b: Text, escape: int)
    requires escape != '%' as int && escape != '_' as int
    ensures var w := EscapeAll(a, escape) + ['%' as int] + EscapeAll(b, escape);
      Matches(s, 0, w, 0, |w|, escape) <==> |a| + |b| <= |s| && a <= s && s[|s| - |b|..] == b
  {
    var w := EscapeAll(a, escape) + ['%' as int] + EscapeAll(b, escape);
    var j := |EscapeAll(a, escape)|;
    assert w[0..j] == EscapeAll(a, escape) && w[j] == '%' as int && w[j + 1..] == EscapeAll(b, escape);
    assert s[0..] == s;
    EscapedText(s, 0, a, w, 0, escape);
    if a <= s {
      forall k | |a| <= k <= |s|
        ensures Matches(s, k, w, j + 1, |w|, escape) <==> s[k..] == b
      {
        EscapedEnd(s, k, b, w, j + 1, escape);
      }
      if Matches(s, |a|, w, j, |w|, escape) {
        var k :| |a| <= k <= |s| && Matches(s, k, w, j + 1, |w|, escape);
        assert |s[k..]| == |b|;
      }
      if |a| + |b| <= |s| && s[|s| - |b|..] == b {
        assert Matches(s, |s| - |b|, w, j + 1, |w|, escape);
      }
    }
  }

  lemma EscapedOne(s: Text, a: Text, b: Text, escape: int)
    requires escape != '%' as int && escape != '_' as int
    ensures var w := EscapeAll(a, escape) + ['_' as int] + EscapeAll(b, escape);
      Matches(s, 0, w, 0, |w|, escape) <==> |s| == |a| + 1 + |b| && a <= s && s[|a| + 1..] == b
  {
    var w := EscapeAll(a, escape) + ['_' as int] + EscapeAll(b, escape);
    var j := |EscapeAll(a, escape)|;
    assert w[0..j] == EscapeAll(a, escape) && w[j] == '_' as int && w[j + 1..] == EscapeAll(b, escape);
    assert s[0..] == s;
    EscapedText(s, 0, a, w, 0, escape);
    if a <= s && |a| < |s| {
      EscapedEnd(s, |a| + 1, b, w, j + 1, escape);
    }
  }

  /** At its end the escape stands for itself. */
  lemma EscapeAtEnd(s: Text, escape: int)
    requires escape != '%' as int && escape != '_' as int
    ensures Matches(s, 0, [escape], 0, 1, escape) <==> s == [escape]
  {
    if |s| == 1 {
      assert s == [s[0]];
    }
  }
}
