// Dates of the Ingres driver: the perfect hash for month names (months.gperf.c) and the
// in-place parser `ingres_date`.
module IngresDate {
  import opened CString

  // ----- The perfect hash -----

  function MonthName(i: nat): string
    requires i < 12
  {
    match i
    case 0 => "jan" case 1 => "feb" case 2 => "mar" case 3 => "apr" case 4 => "may" case 5 => "jun"
    case 6 => "jul" case 7 => "aug" case 8 => "sep" case 9 => "oct" case 10 => "nov" case 11 => "dec"
  }

  ghost predicate IsMonthName(s: string) {
    exists i | 0 <= i < 12 :: s == MonthName(i)
  }

  // The table `asso_values`
  function AssoValue(c: char): nat {
    match LowerChar(c)
    case 'a' => 0
    case 'b' => 14
    case 'c' => 4
    case 'e' => 10
    case 'g' => 14
    case 'l' => 4
    case 'n' => 10
    case 'o' => 15
    case 'p' => 15
    case 'r' => 5
    case 't' => 0
    case 'u' => 5
    case 'v' => 15
    case 'y' => 0
    case _ => 34
  }

  // The table `wordlist`: slots without a keyword hold the empty name and index 0.
  function WordList(key: nat): (string, nat) {
    match key
    case 3 => ("may", 4)
    case 7 => ("oct", 9)
    case 8 => ("mar", 2)
    case 12 => ("jul", 6)
    case 13 => ("jan", 0)
    case 17 => ("dec", 11)
    case 18 => ("jun", 5)
    case 22 => ("aug", 7)
    case 23 => ("apr", 3)
    case 27 => ("feb", 1)
    case 28 => ("sep", 8)
    case 33 => ("nov", 10)
    case _ => ("", 0)
  }

  const MAX_HASH_VALUE := 33

  // `hash(str, 3)` of the memory that starts with the word
  function Hash(m: seq<char>): nat
    requires |m| > 2
  {
    3 + AssoValue(m[2]) + AssoValue(m[1])
  }

  // ((a ^ b) & ~32) == 0
  predicate SameButBit5(a: char, b: char) {
    || a == b
    || (a as int / 32 % 2 == 0 && a as int + 32 == b as int)
    || (b as int / 32 % 2 == 0 && b as int + 32 == a as int)
  }

  // The result of `in_word_set`: a read behind the memory, NULL, or a slot's index.
  datatype Lookup = OutOfMemory | Absent | Found(index: nat)

  // The lookup of the word w in memory, where `behind` follows its NUL.
  function WordSet(w: string, behind: seq<char>): Lookup {
    var m := w + [NUL] + behind;
    if |m| <= 2 then
      OutOfMemory
    else
      var (name, index) := WordList(Hash(m));
      if Hash(m) <= MAX_HASH_VALUE && SameButBit5(m[0], FirstOf(name)) && Lower(w) == Lower(name) then
        Found(index)
      else
        Absent
  }

  // `gperf_case_strcmp(s1, s2)`, of which only equality with zero is used.
  method CaseStrcmp(m: seq<char>, ghost w: string, name: string) returns (same: bool)
    requires |w| < |m| && m[..|w|] == w && m[|w|] == NUL && NUL !in w && NUL !in name
    ensures same <==> Lower(w) == Lower(name)
  {
    var z := name + [NUL];
    var i := 0;
    while true
      invariant i <= |w| && i <= |name|
      invariant forall k | 0 <= k < i :: LowerChar(w[k]) == LowerChar(name[k])
      decreases |w| - i
    {
      var c1, c2 := LowerChar(m[i]), LowerChar(z[i]);
      assert i < |w| ==> m[i] == w[i] != NUL;
      assert i < |name| ==> name[i] != NUL;
      if c1 != NUL && c1 == c2 {
        i := i + 1;
      } else {
        assert i < |w| && i < |name| ==> Lower(w)[i] != Lower(name)[i];
        return c1 == c2;
      }
    }
  }

  /** `in_word_set(str, 3)` on the memory m that starts with the word w. */
  method InWordSet(m: seq<char>, ghost w: string, ghost behind: seq<char>) returns (r: Lookup)
    requires m == w + [NUL] + behind && NUL !in w
    ensures r == WordSet(w, behind)
  {
    if |m| <= 2 {
      return OutOfMemory;
    }
    var key := Hash(m);
    if key <= MAX_HASH_VALUE {
      var (name, index) := WordList(key);
      if SameButBit5(m[0], FirstOf(name)) {
        var same := CaseStrcmp(m, w, name);
        if same {
          return Found(index);
        }
      }
    }
    return Absent;
  }

  lemma MonthSlots(i: nat)
    requires i < 12
    ensures |MonthName(i)| == 3 && forall k | 0 <= k < 3 :: 'a' <= MonthName(i)[k] <= 'z'
    ensures Hash(MonthName(i)) <= MAX_HASH_VALUE && WordList(Hash(MonthName(i))) == (MonthName(i), i)
  {
    match i {
      case 0 => case 1 => case 2 => case 3 => case 4 => case 5 =>
      case 6 => case 7 => case 8 => case 9 => case 10 => case 11 =>
    }
  }

  lemma LowerKeeps(s: string)
    requires forall k | 0 <= k < |s| :: 'a' <= s[k] <= 'z'
    ensures Lower(s) == s
  {
  }

  lemma SlotMonths(key: nat)
    ensures var (name, index) := WordList(key);
      name == "" || (index < 12 && name == MonthName(index))
  {
  }

  lemma LowerDecides(c: char, d: char)
    requires LowerChar(c) == d && 'a' <= d <= 'z'
    ensures AssoValue(c) == AssoValue(d) && SameButBit5(c, d)
  {
  }

  lemma MonthIsFound(w: string, behind: seq<char>, i: nat)
    requires i < 12 && Lower(w) == MonthName(i)
    ensures WordSet(w, behind) == Found(i)
  {
    MonthSlots(i);
    LowerKeeps(MonthName(i));
    SameHash(w, behind, MonthName(i));
  }

  // The hash of a three-letter word is that of its lower-case form.
  lemma SameHash(w: string, behind: seq<char>, month: string)
    requires Lower(w) == month && |month| == 3 && forall k | 0 <= k < 3 :: 'a' <= month[k] <= 'z'
    ensures Hash(w + [NUL] + behind) == Hash(month)
    ensures SameButBit5((w + [NUL] + behind)[0], month[0])
  {
    assert forall k | 0 <= k < 3 :: LowerChar(w[k]) == Lower(w)[k];
    LowerDecides(w[0], month[0]);
    LowerDecides(w[1], month[1]);
    LowerDecides(w[2], month[2]);
  }

  lemma {:induction false} FoundIsMonth(w: string, behind: seq<char>)
    requires w != [] && WordSet(w, behind).Found?
    ensures WordSet(w, behind).index < 12 && Lower(w) == MonthName(WordSet(w, behind).index)
  {
    var key := Hash(w + [NUL] + behind);
    SlotMonths(key);
    assert |Lower(WordList(key).0)| == |Lower(w)| > 0;
    MonthSlots(WordSet(w, behind).index);
    LowerKeeps(MonthName(WordSet(w, behind).index));
  }

  /** On a non-empty word the lookup finds exactly the twelve month names, in any letter case,
      each with its own index; a longer name is not found. */
  lemma WordSetIsMonths(w: string, behind: seq<char>, i: nat)
    requires w != [] && |w| + |behind| >= 2 && i < 12
    ensures WordSet(w, behind) == Found(i) <==> Lower(w) == MonthName(i)
    ensures WordSet(w, behind) == Absent <==> !IsMonthName(Lower(w))
  {
    if WordSet(w, behind).Found? {
      FoundIsMonth(w, behind);
    }
    if IsMonthName(Lower(w)) {
      var k :| 0 <= k < 12 && Lower(w) == MonthName(k);
      MonthIsFound(w, behind, k);
    }
    if Lower(w) == MonthName(i) {
      MonthIsFound(w, behind, i);
    }
  }

  /** The index is the place in the calendar. */
  lemma CalendarOrder(behind: seq<char>)
    ensures WordSet("jan", behind) == Found(0) && WordSet("feb", behind) == Found(1)
    ensures WordSet("mar", behind) == Found(2) && WordSet("apr", behind) == Found(3)
    ensures WordSet("may", behind) == Found(4) && WordSet("jun", behind) == Found(5)
    ensures WordSet("jul", behind) == Found(6) && WordSet("aug", behind) == Found(7)
    ensures WordSet("sep", behind) == Found(8) && WordSet("oct", behind) == Found(9)
    ensures WordSet("nov", behind) == Found(10) && WordSet("dec", behind) == Found(11)
  {
    forall i | 0 <= i < 12
      ensures WordSet(MonthName(i), behind) == Found(i)
    {
      MonthSlots(i);
      LowerKeeps(MonthName(i));
      MonthIsFound(MonthName(i), behind, i);
    }
    assert MonthName(0) == "jan" && MonthName(1) == "feb" && MonthName(2) == "mar" && MonthName(3) == "apr";
    assert MonthName(4) == "may" && MonthName(5) == "jun" && MonthName(6) == "jul" && MonthName(7) == "aug";
    assert MonthName(8) == "sep" && MonthName(9) == "oct" && MonthName(10) == "nov" && MonthName(11) == "dec";
  }

  // ----- The C library's scanning -----

  predicate IsDigit(c: char) {
    '0' <= c <= '9'
  }

  // The sets of characters that the parser's loops and `atoi` skip.
  datatype Class = Digit | Blank | Space | Not(sep: char)

  predicate In(c: char, these: Class) {
    match these
    case Digit => IsDigit(c)
    case Blank => c == ' '
    case Space => c == ' ' || '\t' <= c <= '\r'
    case Not(sep) => c != sep
  }

  // The text s from its first character outside the class on.
  function Skip(s: string, these: Class): (r: string)
    ensures |r| <= |s| && (r != [] ==> !In(r[0], these))
  {
    if s != [] && In(s[0], these) then Skip(s[1..], these) else s
  }

  // The number that the leading digits of s write behind the number n.
  function Number(s: string, n: int): int {
    if s != [] && IsDigit(s[0]) then Number(s[1..], 10 * n + (s[0] as int - '0' as int)) else n
  }

  function Atoi(s: string): int {
    var t := Skip(s, Space);
    if t != [] && t[0] == '-' then -Number(t[1..], 0)
    else if t != [] && t[0] == '+' then Number(t[1..], 0)
    else Number(t, 0)
  }

  // ----- The parser -----

  // The fields of `struct tm` that the parser sets; months count from 0, years from 1900.
  datatype Tm = Tm(sec: int, min: int, hour: int, mday: int, mon: int, year: int)

  // `NullDereferenced`: there is no month of that name. `Overread`: a read behind the memory.
  datatype Outcome = Rejected | NullDereferenced | Overread | Parsed(tm: Tm)

  // The text s, with `behind` in memory behind its NUL.
  function ParseDate(s: string, behind: seq<char>): Outcome {
    var t := Skip(s, Digit);
    if s == t || t == [] then Rejected else ParseMonth(t[1..], t[0], Atoi(s), behind)
  }

  function ParseMonth(s: string, sep: char, mday: int, behind: seq<char>): Outcome {
    var t := Skip(s, Not(sep));
    if t == [] then
      Rejected
    else if IsDigit(s[0]) then
      ParseYear(t, mday, Atoi(s) - 1)  // the separator is not skipped
    else
      WithMonth(WordSet(s[..|s| - |t|], t[1..] + [NUL] + behind), t[1..], mday)
  }

  // What is parsed behind a month's name that was looked up.
  function WithMonth(month: Lookup, s: string, mday: int): Outcome {
    match month
    case Found(mon) => if s == [] then Rejected else ParseYear(s, mday, mon)
    case Absent => NullDereferenced
    case OutOfMemory => Overread
  }

  // Where the parser cuts the text off: at the separator behind a month name.
  function Cut(s: string): int {
    var t := Skip(s, Digit);
    if s == t || t == [] || t[1..] == [] || IsDigit(t[1]) then
      -1
    else
      var u := Skip(t[1..], Not(t[0]));
      if u == [] then -1 else |s| - |u|
  }

  function ParseYear(s: string, mday: int, mon: int): Outcome {
    var tm := Tm(0, 0, 0, mday, mon, Atoi(s) - 1900);
    var t := Skip(Skip(s, Digit), Blank);
    if t != [] && IsDigit(t[0]) then ParseTime(t, tm) else Parsed(tm)
  }

  function ParseTime(s: string, tm: Tm): Outcome {
    var t := Skip(s, Digit);
    if t == [] then
      Rejected
    else
      var u := Skip(t[1..], Digit);
      if u == [] then
        Rejected
      else
        Parsed(tm.(hour := Atoi(s), min := Atoi(t[1..]), sec := Atoi(u[1..])))
  }

  // The parser's `while` loops that move its pointer.
  method Advance(raw: array<char>, p0: nat, these: Class, ghost s: string) returns (p: nat)
    requires Stands(raw[..], p0, s)
    ensures p0 <= p && Stands(raw[..], p, Skip(s, these)) && p + |Skip(s, these)| == p0 + |s|
    ensures raw[p] == FirstOf(Skip(s, these)) && (raw[p] == NUL <==> Skip(s, these) == [])
  {
    p := p0;
    ghost var t := s;
    StandsStep(raw[..], p, t);
    while raw[p] != NUL && In(raw[p], these)
      invariant p0 <= p && Stands(raw[..], p, t) && Skip(t, these) == Skip(s, these) && p + |t| == p0 + |s|
      invariant raw[p] == FirstOf(t) && (raw[p] == NUL <==> t == [])
      decreases |t|
    {
      StandsStep(raw[..], p, t);
      p, t := p + 1, t[1..];
      StandsStep(raw[..], p, t);
    }
  }

  // atoi of the text at raw[p]
  method ReadInt(raw: array<char>, p: nat, ghost s: string) returns (n: int)
    requires Stands(raw[..], p, s)
    ensures n == Atoi(s)
  {
    var q := Advance(raw, p, Space, s);
    ghost var t := Skip(s, Space);
    StandsStep(raw[..], q, t);
    if raw[q] == '-' {
      n := ReadDigits(raw, q + 1, t[1..]);
      n := -n;
    } else if raw[q] == '+' {
      n := ReadDigits(raw, q + 1, t[1..]);
    } else {
      n := ReadDigits(raw, q, t);
    }
  }

  method ReadDigits(raw: array<char>, p: nat, ghost s: string) returns (n: int)
    requires Stands(raw[..], p, s)
    ensures n == Number(s, 0)
  {
    var q := p;
    ghost var t := s;
    n := 0;
    StandsStep(raw[..], q, t);
    while IsDigit(raw[q])
      invariant p <= q && Stands(raw[..], q, t) && Number(t, n) == Number(s, 0)
      invariant raw[q] == FirstOf(t) && (raw[q] == NUL <==> t == [])
      decreases |t|
    {
      StandsStep(raw[..], q, t);
      n := 10 * n + (raw[q] as int - '0' as int);
      q, t := q + 1, t[1..];
      StandsStep(raw[..], q, t);
    }
  }

  lemma {:induction false} SkipSuffix(s: string, these: Class)
    ensures Skip(s, these) == s[|s| - |Skip(s, these)|..]
    ensures forall i | 0 <= i < |s| - |Skip(s, these)| :: In(s[i], these)
  {
    if s != [] && In(s[0], these) {
      SkipSuffix(s[1..], these);
      assert forall i | 0 < i < |s| :: s[i] == s[1..][i - 1];
    }
  }

  /** `ingres_date(raw)`: the result, and `raw` as the parser leaves it. */
  method IngresDate(raw: array<char>, ghost s: string, ghost behind: seq<char>) returns (r: Outcome)
    requires Holds(raw[..], 0, s, behind)
    modifies raw
    ensures r == ParseDate(s, behind)
    ensures raw[..] == if Cut(s) >= 0 then old(raw[..])[Cut(s) := NUL] else old(raw[..])
  {
    HoldsStands(raw[..], 0, s, behind);
    StandsStep(raw[..], 0, s);
    if !IsDigit(raw[0]) {
      return Rejected;
    }
    var mday := ReadInt(raw, 0, s);
    var p := Advance(raw, 0, Digit, s);
    if raw[p] == NUL {
      return Rejected;
    }
    r := BehindDay(raw, p, mday, s, Skip(s, Digit), behind);
  }

  // What is behind the day.
  method BehindDay(raw: array<char>, p: nat, mday: int, ghost s: string, ghost t: string, ghost behind: seq<char>)
    returns (r: Outcome)
    requires Holds(raw[..], 0, s, behind) && t == Skip(s, Digit) && t != [] && p + |t| == |s| && s != t
    modifies raw
    ensures r == ParseMonth(t[1..], t[0], mday, behind)
    ensures raw[..] == if Cut(s) >= 0 then old(raw[..])[Cut(s) := NUL] else old(raw[..])
  {
    HoldsBehind(raw[..], s, t, behind);
    r := Month(raw, p + 1, raw[p], mday, t[1..], behind);
  }

  lemma {:induction false} HoldsBehind(m: seq<char>, s: string, t: string, behind: seq<char>)
    requires Holds(m, 0, s, behind) && t == Skip(s, Digit) && t != []
    ensures Holds(m, |s| - |t| + 1, t[1..], behind) && m[|s| - |t|] == t[0]
  {
    SkipSuffix(s, Digit);
    HoldsSuffix(m, 0, |s| - |t|, s, t, behind);
    HoldsSuffix(m, |s| - |t|, |s| - |t| + 1, t, t[1..], behind);
  }

  method Month(raw: array<char>, q: nat, sep: char, mday: int, ghost s: string, ghost behind: seq<char>)
    returns (r: Outcome)
    requires Holds(raw[..], q, s, behind)
    modifies raw
    ensures r == ParseMonth(s, sep, mday, behind)
    ensures raw[..] == var t := Skip(s, Not(sep));
      if t != [] && !IsDigit(s[0]) then old(raw[..])[q + |s| - |t| := NUL] else old(raw[..])
  {
    HoldsStands(raw[..], q, s, behind);
    StandsStep(raw[..], q, s);
    ghost var t := Skip(s, Not(sep));
    SkipSuffix(s, Not(sep));
    var p := Advance(raw, q, Not(sep), s);
    if IsDigit(raw[q]) {
      var mon := ReadInt(raw, q, s);
      if raw[p] == NUL {
        return Rejected;
      }
      r := YearAndTime(raw, p, mday, mon - 1, t);
    } else if raw[p] == NUL {
      return Rejected;
    } else {
      r := NamedMonth(raw, q, p, mday, s, t, behind);
    }
  }

  // The branch for a month name, which the text t follows.
  method NamedMonth(raw: array<char>, q: nat, p0: nat, mday: int, ghost s: string, ghost t: string,
                    ghost behind: seq<char>)
    returns (r: Outcome)
    requires Holds(raw[..], q, s, behind) && t != [] && |t| <= |s| && t == s[|s| - |t|..] && p0 + |t| == q + |s|
    modifies raw
    ensures r == WithMonth(WordSet(s[..|s| - |t|], t[1..] + [NUL] + behind), t[1..], mday)
    ensures raw[..] == old(raw[..])[p0 := NUL]
  {
    CutAt(raw[..], q, s, t, behind);
    raw[p0] := NUL;
    var month := InWordSet(raw[q..], s[..|s| - |t|], t[1..] + [NUL] + behind);
    if month.OutOfMemory? {
      return Overread;
    }
    if month.Absent? {
      return NullDereferenced;
    }
    var p := p0 + 1;
    HoldsStands(raw[..], p, t[1..], behind);
    StandsStep(raw[..], p, t[1..]);
    if raw[p] == NUL {
      return Rejected;
    }
    r := YearAndTime(raw, p, mday, month.index, t[1..]);
  }

  method YearAndTime(raw: array<char>, p0: nat, mday: int, mon: int, ghost s: string) returns (r: Outcome)
    requires Stands(raw[..], p0, s)
    ensures r == ParseYear(s, mday, mon)
  {
    var year := ReadInt(raw, p0, s);
    var tm := Tm(0, 0, 0, mday, mon, year - 1900);
    var p := Advance(raw, p0, Digit, s);
    p := Advance(raw, p, Blank, Skip(s, Digit));
    if IsDigit(raw[p]) {
      r := TimeOfDay(raw, p, tm, Skip(Skip(s, Digit), Blank));
    } else {
      r := Parsed(tm);
    }
  }

  method TimeOfDay(raw: array<char>, p0: nat, tm: Tm, ghost s: string) returns (r: Outcome)
    requires Stands(raw[..], p0, s)
    ensures r == ParseTime(s, tm)
  {
    var hour := ReadInt(raw, p0, s);
    var p := Advance(raw, p0, Digit, s);
    ghost var t := Skip(s, Digit);
    if raw[p] == NUL {
      return Rejected;
    }
    StandsStep(raw[..], p, t);
    var min := ReadInt(raw, p + 1, t[1..]);
    p := Advance(raw, p + 1, Digit, t[1..]);
    ghost var u := Skip(t[1..], Digit);
    if raw[p] == NUL {
      return Rejected;
    }
    StandsStep(raw[..], p, u);
    var sec := ReadInt(raw, p + 1, u[1..]);
    return Parsed(tm.(hour := hour, min := min, sec := sec));
  }

  // ----- Printed dates are recovered -----

  predicate Digits(s: string) {
    s != [] && forall i | 0 <= i < |s| :: IsDigit(s[i])
  }

  function Value(digits: string): int {
    Number(digits, 0)
  }

  // What may follow the year: blanks, or a time of day. `gap` counts the blanks in front of
  // it, `c1` and `c2` separate its fields, and anything but a digit may come behind.
  datatype Rest =
    | NoClock(gap: nat)
    | Clock(gap: nat, hour: string, c1: char, min: string, c2: char, sec: string, tail: string)

  predicate ValidRest(rest: Rest) {
    match rest
    case NoClock(_) => true
    case Clock(gap, hour, c1, min, c2, sec, tail) =>
      && gap > 0 && Digits(hour) && Digits(min) && Digits(sec)
      && !IsDigit(c1) && !IsDigit(c2) && (tail == [] || !IsDigit(tail[0]))
  }

  function Blanks(n: nat): string {
    if n == 0 then [] else [' '] + Blanks(n - 1)
  }

  function PrintClock(rest: Rest): string {
    match rest
    case NoClock(_) => []
    case Clock(_, hour, c1, min, c2, sec, tail) => hour + ([c1] + (min + ([c2] + (sec + tail))))
  }

  function PrintYear(year: string, rest: Rest): string {
    year + (Blanks(rest.gap) + PrintClock(rest))
  }

  function PrintDate(day: string, sep: char, month: string, year: string, rest: Rest): string {
    day + ([sep] + (month + ([sep] + PrintYear(year, rest))))
  }

  function TmOf(rest: Rest, mday: int, mon: int, year: int): Tm {
    match rest
    case NoClock(_) => Tm(0, 0, 0, mday, mon, year)
    case Clock(_, hour, _, min, _, sec, _) => Tm(Value(sec), Value(min), Value(hour), mday, mon, year)
  }

  lemma {:induction false} SkipOver(a: string, rest: string, these: Class)
    requires forall i | 0 <= i < |a| :: In(a[i], these)
    requires rest == [] || !In(rest[0], these)
    ensures Skip(a + rest, these) == rest
  {
    if a == [] {
      assert a + rest == rest;
    } else {
      assert (a + rest)[1..] == a[1..] + rest;
      SkipOver(a[1..], rest, these);
    }
  }

  lemma {:induction false} NumberOver(a: string, rest: string, n: int)
    requires forall i | 0 <= i < |a| :: IsDigit(a[i])
    requires rest == [] || !IsDigit(rest[0])
    ensures Number(a + rest, n) == Number(a, n)
  {
    if a == [] {
      assert a + rest == rest;
    } else {
      assert (a + rest)[1..] == a[1..] + rest;
      NumberOver(a[1..], rest, 10 * n + (a[0] as int - '0' as int));
    }
  }

  // A number, in front of something that does not go on with a digit.
  lemma ReadNumber(a: string, rest: string)
    requires Digits(a) && (rest == [] || !IsDigit(rest[0]))
    ensures Atoi(a + rest) == Value(a) && Skip(a + rest, Digit) == rest && (a + rest)[0] == a[0]
  {
    NumberOver(a, rest, 0);
    SkipOver(a, rest, Digit);
  }

  lemma {:induction false} SkipBlanks(n: nat, rest: string)
    requires rest == [] || rest[0] != ' '
    ensures Skip(Blanks(n) + rest, Blank) == rest
    ensures n > 0 ==> (Blanks(n) + rest)[0] == ' '
  {
    if n == 0 {
      assert Blanks(n) + rest == rest;
    } else {
      assert (Blanks(n) + rest)[1..] == Blanks(n - 1) + rest;
      SkipBlanks(n - 1, rest);
    }
  }

  lemma TimeRoundTrip(rest: Rest, tm: Tm)
    requires rest.Clock? && ValidRest(rest)
    ensures ParseTime(PrintClock(rest), tm) ==
              Parsed(tm.(hour := Value(rest.hour), min := Value(rest.min), sec := Value(rest.sec)))
    ensures PrintClock(rest)[0] == rest.hour[0]
  {
    var Clock(_, hour, c1, min, c2, sec, tail) := rest;
    var s2 := min + ([c2] + (sec + tail));
    ReadNumber(hour, [c1] + s2);
    assert ([c1] + s2)[1..] == s2;
    ReadNumber(min, [c2] + (sec + tail));
    assert ([c2] + (sec + tail))[1..] == sec + tail;
    ReadNumber(sec, tail);
  }

  lemma YearRoundTrip(year: string, rest: Rest, mday: int, mon: int)
    requires Digits(year) && ValidRest(rest)
    ensures ParseYear(PrintYear(year, rest), mday, mon) == Parsed(TmOf(rest, mday, mon, Value(year) - 1900))
  {
    var clock := PrintClock(rest);
    if rest.Clock? {
      TimeRoundTrip(rest, Tm(0, 0, 0, mday, mon, Value(year) - 1900));
    }
    SkipBlanks(rest.gap, clock);
    ReadNumber(year, Blanks(rest.gap) + clock);
  }

  // What the parser makes of a day and a month name in front of y.
  lemma UpToMonth(day: string, sep: char, month: string, y: string, behind: seq<char>)
    requires Digits(day) && y != [] && (month == [] || !IsDigit(month[0])) && !IsDigit(sep) && sep !in month
    ensures ParseDate(day + ([sep] + (month + ([sep] + y))), behind) ==
              WithMonth(WordSet(month, y + [NUL] + behind), y, Value(day))
  {
    var s := month + ([sep] + y);
    ReadNumber(day, [sep] + s);
    assert ([sep] + s)[1..] == s;
    SkipOver(month, [sep] + y, Not(sep));
    assert s[..|s| - |[sep] + y|] == month && ([sep] + y)[1..] == y;
  }

  // A number in decimal digits.
  function Decimal(n: nat): string {
    if n < 10 then ["0123456789"[n]] else Decimal(n / 10) + ["0123456789"[n % 10]]
  }

  lemma {:induction false} NumberSnoc(a: string, d: char, n: int)
    requires IsDigit(d) && forall i | 0 <= i < |a| :: IsDigit(a[i])
    ensures Number(a + [d], n) == 10 * Number(a, n) + (d as int - '0' as int)
  {
    if a == [] {
      assert (a + [d])[1..] == [];
    } else {
      assert (a + [d])[1..] == a[1..] + [d];
      NumberSnoc(a[1..], d, 10 * n + (a[0] as int - '0' as int));
    }
  }

  /** The digits of a number in base ten read back as the number, behind any zeros. */
  lemma {:induction false} DecimalRoundTrip(n: nat, zeros: string)
    requires forall i | 0 <= i < |zeros| :: zeros[i] == '0'
    ensures Digits(Decimal(n)) && Value(zeros + Decimal(n)) == n
    decreases n, |zeros|
  {
    if zeros != [] {
      DecimalRoundTrip(n, zeros[1..]);
      ZeroInFront(zeros, Decimal(n));
    } else {
      assert [] + Decimal(n) == Decimal(n);
      if n >= 10 {
        DecimalRoundTrip(n / 10, []);
        assert [] + Decimal(n / 10) == Decimal(n / 10);
      }
      LastDigit(n);
    }
  }

  lemma ZeroInFront(zeros: string, digits: string)
    requires zeros != [] && zeros[0] == '0'
    ensures Value(zeros + digits) == Value(zeros[1..] + digits)
  {
    assert (zeros + digits)[1..] == zeros[1..] + digits;
  }

  lemma LastDigit(n: nat)
    requires n >= 10 ==> Digits(Decimal(n / 10)) && Value(Decimal(n / 10)) == n / 10
    ensures Digits(Decimal(n)) && Value(Decimal(n)) == n
  {
    DigitOf(n % 10);
    if n >= 10 {
      NumberSnoc(Decimal(n / 10), "0123456789"[n % 10], 0);
    } else {
      assert Decimal(n)[1..] == [];
      assert Number(Decimal(n), 0) == Number([], n);
    }
  }

  lemma DigitOf(n: nat)
    requires n < 10
    ensures IsDigit("0123456789"[n]) && "0123456789"[n] as int - '0' as int == n
  {
  }

  lemma DigitsAre(c: char)
    ensures IsDigit(c) <==> c in "0123456789"
  {
    if IsDigit(c) {
      assert c == "0123456789"[c as int - '0' as int];
    }
  }

  /** Every date printed with a named month in any letter case, and a separator that is
      neither a digit nor a character of the name, is parsed into exactly its fields. */
  lemma {:induction false} DateRoundTrip(day: string, sep: char, month: string, i: nat, year: string, rest: Rest,
                                         behind: seq<char>)
    requires Digits(day) && Digits(year) && ValidRest(rest)
    requires i < 12 && Lower(month) == MonthName(i) && !IsDigit(sep) && sep !in month
    ensures ParseDate(PrintDate(day, sep, month, year, rest), behind) ==
              Parsed(TmOf(rest, Value(day), i, Value(year) - 1900))
  {
    MonthSlots(i);
    assert LowerChar(month[0]) == Lower(month)[0];
    UpToMonth(day, sep, month, PrintYear(year, rest), behind);
    MonthIsFound(month, PrintYear(year, rest) + [NUL] + behind, i);
    YearRoundTrip(year, rest, Value(day), i);
  }

  /** Between two separators in a row there is no name, and the characters behind them decide: where
      they hash to a slot without a keyword, nothing is taken for January. */
  lemma NothingIsJanuary(c: char, d: char, after: seq<char>)
    requires c in "cClL" && d in "cClL"
    ensures WordSet([], [c, d] + after) == Found(0)
  {
    var m := [] + [NUL] + ([c, d] + after);
    assert m[0] == NUL && m[1] == c && m[2] == d;
  }

  // In front of a year, nothing is no month name.
  lemma NothingIsAbsent(year: string, after: seq<char>)
    requires Digits(year) && |year + after| >= 2
    ensures WordSet([], year + after) == Absent
  {
    var m := [] + [NUL] + (year + after);
    assert m[1] == year[0] && IsDigit(m[1]);
  }

  /** Any other name in that place, or none, is looked up in vain and the parser dereferences NULL:
      full month names are not accepted. */
  lemma {:induction false} OtherMonthsDereferenceNull(day: string, sep: char, month: string, year: string, rest: Rest,
                                                      behind: seq<char>)
    requires Digits(day) && Digits(year)
    requires (month == [] || !IsDigit(month[0])) && !IsMonthName(Lower(month)) && !IsDigit(sep) && sep !in month
    ensures ParseDate(PrintDate(day, sep, month, year, rest), behind) == NullDereferenced
  {
    UpToMonth(day, sep, month, PrintYear(year, rest), behind);
    YearTail(year, rest, behind);
    NotFound(month, year, Blanks(rest.gap) + PrintClock(rest) + [NUL] + behind);
  }

  lemma YearTail(year: string, rest: Rest, behind: seq<char>)
    ensures PrintYear(year, rest) + [NUL] + behind == year + (Blanks(rest.gap) + PrintClock(rest) + [NUL] + behind)
  {
  }

  lemma {:induction false} NotFound(month: string, year: string, others: seq<char>)
    requires Digits(year) && !IsMonthName(Lower(month)) && others != []
    ensures WordSet(month, year + others) == Absent
  {
    if month == [] {
      NothingIsAbsent(year, others);
    } else if WordSet(month, year + others).Found? {
      FoundIsMonth(month, year + others);
    }
  }

  // ----- Which texts are rejected -----

  predicate AllDigits(s: string) {
    forall i | 0 <= i < |s| :: IsDigit(s[i])
  }

  // No day, or nothing behind it, or what is behind it ends early.
  ghost predicate EndsEarly(s: string, behind: seq<char>) {
    || s == [] || !IsDigit(s[0]) || AllDigits(s)
    || exists d | 0 < d < |s| :: AllDigits(s[..d]) && !IsDigit(s[d]) && MonthEndsEarly(s[d + 1..], s[d], behind)
  }

  // No second separator, or nothing behind that of a month that is found, or an incomplete time.
  ghost predicate MonthEndsEarly(m: string, sep: char, behind: seq<char>) {
    sep !in m || exists e | 0 <= e < |m| :: FirstAt(m, sep, e) && YearEndsEarly(m, e, behind)
  }

  predicate FirstAt(m: string, sep: char, e: nat)
    requires e < |m|
  {
    m[e] == sep && forall i | 0 <= i < e :: m[i] != sep
  }

  ghost predicate YearEndsEarly(m: string, e: nat, behind: seq<char>)
    requires e < |m|
  {
    if IsDigit(m[0]) then TimeEndsEarly(m[e..])
    else WordSet(m[..e], m[e + 1..] + [NUL] + behind).Found? && (e + 1 == |m| || TimeEndsEarly(m[e + 1..]))
  }

  // Behind the digits of a year, if any, and blanks, there is a time that ends early.
  ghost predicate TimeEndsEarly(y: string) {
    exists a, b | 0 <= a < b < |y| :: TimeAt(y, a, b) && ClockEndsEarly(y[b..])
  }

  predicate TimeAt(y: string, a: nat, b: nat)
    requires a < b < |y|
  {
    (forall k | 0 <= k < a :: IsDigit(y[k])) && (forall k | a <= k < b :: y[k] == ' ') && IsDigit(y[b])
  }

  // Nothing behind the hour, or nothing but digits behind the separator that follows it.
  ghost predicate ClockEndsEarly(u: string) {
    || AllDigits(u)
    || exists c | 0 < c < |u| :: AllDigits(u[..c]) && !IsDigit(u[c]) && AllDigits(u[c + 1..])
  }

  lemma SkipIs(s: string, n: nat, these: Class)
    requires n <= |s| && (forall i | 0 <= i < n :: In(s[i], these)) && (n == |s| || !In(s[n], these))
    ensures Skip(s, these) == s[n..]
  {
    assert s == s[..n] + s[n..];
    SkipOver(s[..n], s[n..], these);
  }

  // How far a class reaches.
  lemma SkipEnds(s: string, these: Class) returns (n: nat)
    ensures n <= |s| && Skip(s, these) == s[n..] && (n == |s| || !In(s[n], these))
    ensures forall i | 0 <= i < n :: In(s[i], these)
  {
    n := |s| - |Skip(s, these)|;
    SkipSuffix(s, these);
  }

  lemma ClockRejected(u: string, tm: Tm)
    requires u != [] && IsDigit(u[0])
    ensures ParseTime(u, tm) == Rejected <==> ClockEndsEarly(u)
  {
    var n := SkipEnds(u, Digit);
    if n < |u| {
      var m := SkipEnds(u[n + 1..], Digit);
      assert u[n..][1..] == u[n + 1..];
      if c :| 0 < c < |u| && AllDigits(u[..c]) && !IsDigit(u[c]) && AllDigits(u[c + 1..]) {
        assert forall i | 0 <= i < c :: u[i] == u[..c][i];
        SkipIs(u, c, Digit);
        assert |u[c..]| == |u[n..]|;
      }
    }
  }

  lemma TimeRejected(y: string, mday: int, mon: int)
    ensures ParseYear(y, mday, mon) == Rejected <==> TimeEndsEarly(y)
  {
    var tm := Tm(0, 0, 0, mday, mon, Atoi(y) - 1900);
    var a := SkipEnds(y, Digit);
    var b := SkipEnds(y[a..], Blank);
    assert y[a..][b..] == y[a + b..];
    if a + b < |y| && IsDigit(y[a + b]) {
      ClockRejected(y[a + b..], tm);
      assert forall k | a <= k < a + b :: y[k] == y[a..][k - a];
      assert b > 0 ==> TimeAt(y, a, a + b);
    }
    if TimeEndsEarly(y) {
      TimeIsReached(y, mday, mon);
    }
  }

  lemma TimeIsReached(y: string, mday: int, mon: int)
    requires TimeEndsEarly(y)
    ensures ParseYear(y, mday, mon) == Rejected
  {
    var a, b :| 0 <= a < b < |y| && TimeAt(y, a, b) && ClockEndsEarly(y[b..]);
    SkipIs(y, a, Digit);
    assert y[a..][b - a..] == y[b..];
    SkipIs(y[a..], b - a, Blank);
    ClockRejected(y[b..], Tm(0, 0, 0, mday, mon, Atoi(y) - 1900));
  }

  lemma MonthRejected(m: string, sep: char, mday: int, behind: seq<char>)
    ensures ParseMonth(m, sep, mday, behind) == Rejected <==> MonthEndsEarly(m, sep, behind)
  {
    var e := SkipEnds(m, Not(sep));
    if e == |m| {
      assert sep !in m;
    } else {
      assert FirstAt(m, sep, e) && m[..|m| - |m[e..]|] == m[..e] && m[e..][1..] == m[e + 1..];
      if IsDigit(m[0]) {
        TimeRejected(m[e..], mday, Atoi(m) - 1);
      } else {
        var month := WordSet(m[..e], m[e + 1..] + [NUL] + behind);
        if month.Found? {
          TimeRejected(m[e + 1..], mday, month.index);
        }
      }
    }
  }

  /** Only a day and two separators, with nothing in memory behind them, make the look-up of the month
      read behind the text. */
  lemma OverreadIffBare(s: string, behind: seq<char>)
    ensures ParseDate(s, behind) == Overread <==> behind == [] && IsBare(s)
  {
    var d := SkipEnds(s, Digit);
    if 0 < d < |s| {
      assert s[d..][1..] == s[d + 1..];
      MonthOverread(s[d + 1..], s[d], Atoi(s), behind);
    }
    if IsBare(s) {
      SkipIs(s, |s| - 2, Digit);
    }
  }

  // A day and two separators.
  predicate IsBare(s: string) {
    && |s| > 2 && (forall i | 0 <= i < |s| - 2 :: IsDigit(s[i]))
    && !IsDigit(s[|s| - 1]) && s[|s| - 1] == s[|s| - 2]
  }

  lemma MonthOverread(m: string, sep: char, mday: int, behind: seq<char>)
    requires !IsDigit(sep)
    ensures ParseMonth(m, sep, mday, behind) == Overread <==> m == [sep] && behind == []
  {
    var e := SkipEnds(m, Not(sep));
    if e < |m| {
      assert m[..|m| - |m[e..]|] == m[..e] && m[e..][1..] == m[e + 1..];
    }
  }

  /** A text is rejected if and only if it ends early: it is not a date, or a part that was begun is
      not followed by the next. */
  lemma RejectedIffEndsEarly(s: string, behind: seq<char>)
    ensures ParseDate(s, behind) == Rejected <==> EndsEarly(s, behind)
  {
    var d := SkipEnds(s, Digit);
    if 0 < d < |s| {
      assert s[d..][1..] == s[d + 1..];
      MonthRejected(s[d + 1..], s[d], Atoi(s), behind);
      if k :| 0 < k < |s| && AllDigits(s[..k]) && !IsDigit(s[k]) && MonthEndsEarly(s[k + 1..], s[k], behind) {
        assert forall i | 0 <= i < k :: s[i] == s[..k][i];
        SkipIs(s, k, Digit);
        assert |s[k..]| == |s[d..]|;
      }
    }
  }

  // ----- Numeric months -----

  // The white space that `atoi` skips.
  predicate IsSpace(c: char) {
    c in " \t\n\U{000B}\U{000C}\r"
  }

  // `atoi` at the separator in front of a number.
  function Signed(sep: char, n: int): int {
    if sep == '+' || IsSpace(sep) then n else if sep == '-' then -n else 0
  }

  lemma {:induction false} BlanksAreBlank(n: nat)
    ensures |Blanks(n)| == n && forall i | 0 <= i < n :: Blanks(n)[i] == ' '
  {
    if n > 0 {
      BlanksAreBlank(n - 1);
    }
  }

  lemma ReadSeparated(sep: char, a: string, rest: string)
    requires Digits(a) && !IsDigit(sep) && (rest == [] || !IsDigit(rest[0]))
    ensures Atoi([sep] + (a + rest)) == Signed(sep, Value(a))
  {
    var s := [sep] + (a + rest);
    ReadNumber(a, rest);
    assert s[1..] == a + rest;
    assert Skip(a + rest, Space) == a + rest;
    assert Skip(s, Space) == if In(sep, Space) then a + rest else s;
    assert (a + rest)[0] == a[0];
    assert Number(a + rest, 0) == Value(a) by {
      NumberOver(a, rest, 0);
    }
  }

  lemma ReadBehindBlanks(n: nat, a: string, rest: string)
    requires Digits(a) && (rest == [] || !IsDigit(rest[0]))
    ensures Atoi(Blanks(n) + (a + rest)) == Value(a)
  {
    BlanksAreBlank(n);
    assert (a + rest)[0] == a[0];
    SkipOver(Blanks(n), a + rest, Space);
    NumberOver(a, rest, 0);
  }

  // The separator in front of the year is left to the year's parser.
  lemma UpToNumber(day: string, sep: char, month: string, y: string, behind: seq<char>)
    requires Digits(day) && Digits(month) && !IsDigit(sep)
    ensures ParseDate(day + ([sep] + (month + ([sep] + y))), behind)
         == ParseYear([sep] + y, Value(day), Value(month) - 1)
  {
    var s := month + ([sep] + y);
    ReadNumber(day, [sep] + s);
    assert ([sep] + s)[1..] == s;
    ReadNumber(month, [sep] + y);
    SkipOver(month, [sep] + y, Not(sep));
  }

  // Any separator but a blank also stops the search for a time of day.
  lemma YearBehindSeparator(sep: char, year: string, rest: Rest, mday: int, mon: int)
    requires Digits(year) && ValidRest(rest) && !IsDigit(sep) && sep != ' '
    ensures ParseYear([sep] + PrintYear(year, rest), mday, mon)
         == Parsed(Tm(0, 0, 0, mday, mon, Signed(sep, Value(year)) - 1900))
  {
    SkipBlanks(rest.gap, PrintClock(rest));
    ReadSeparated(sep, year, Blanks(rest.gap) + PrintClock(rest));
  }

  // Behind a blank the year is parsed a second time, as the hour.
  lemma YearBehindBlank(year: string, rest: Rest, mday: int, mon: int)
    requires Digits(year) && ValidRest(rest)
    ensures ParseYear([' '] + PrintYear(year, rest), mday, mon)
         == ParseTime(PrintYear(year, rest), Tm(0, 0, 0, mday, mon, Value(year) - 1900))
  {
    var y := PrintYear(year, rest);
    SkipBlanks(rest.gap, PrintClock(rest));
    ReadSeparated(' ', year, Blanks(rest.gap) + PrintClock(rest));
    assert ([' '] + y)[1..] == y && y[0] == year[0] && IsDigit(y[0]);
    assert Skip([' '] + y, Digit) == [' '] + y;
    assert Skip([' '] + y, Blank) == Skip(y, Blank) == y;
  }

  lemma DateBehindBlank(year: string, gap: nat, tm: Tm)
    requires Digits(year)
    ensures ParseTime(PrintYear(year, NoClock(gap)), tm)
         == if gap <= 1 then Rejected else Parsed(tm.(hour := Value(year), min := 0, sec := 0))
  {
    var blanks := Blanks(gap);
    BlanksAreBlank(gap);
    ReadNumber(year, blanks);
    assert year + (blanks + []) == year + blanks;
    if gap > 1 {
      assert blanks[1..] == Blanks(gap - 1) && blanks[1..][1..] == Blanks(gap - 2);
      BlanksAreBlank(gap - 1);
      NoNumber(gap - 1);
      NoNumber(gap - 2);
    }
  }

  lemma NoNumber(n: nat)
    ensures Atoi(Blanks(n)) == 0
  {
    BlanksAreBlank(n);
    SkipOver(Blanks(n), [], Space);
    assert Blanks(n) + [] == Blanks(n);
  }

  lemma ClockBehindBlank(year: string, rest: Rest, tm: Tm)
    requires Digits(year) && rest.Clock? && ValidRest(rest)
    ensures ParseTime(PrintYear(year, rest), tm)
         == Parsed(tm.(hour := Value(year), min := Value(rest.hour),
                       sec := if rest.gap == 1 then Value(rest.min) else Value(rest.hour)))
  {
    var gap, clock := rest.gap, PrintClock(rest);
    SkipBlanks(gap, clock);
    ReadNumber(year, Blanks(gap) + clock);
    TailOfBlanks(gap, clock);
    MinuteBehindBlanks(rest, gap - 1);
  }

  lemma TailOfBlanks(n: nat, rest: string)
    requires n > 0
    ensures (Blanks(n) + rest)[1..] == Blanks(n - 1) + rest
  {
  }

  // The minute is read from the hour, and the second from the minute or from the hour again.
  lemma MinuteBehindBlanks(rest: Rest, n: nat)
    requires rest.Clock? && ValidRest(rest)
    ensures var s := Blanks(n) + PrintClock(rest);
      var u := Skip(s, Digit);
      Atoi(s) == Value(rest.hour) && u != [] && Atoi(u[1..]) == if n == 0 then Value(rest.min) else Value(rest.hour)
  {
    var Clock(gap, hour, c1, min, c2, sec, tail) := rest;
    var s2 := min + ([c2] + (sec + tail));
    var clock := hour + ([c1] + s2);
    ReadBehindBlanks(n, hour, [c1] + s2);
    if n == 0 {
      assert Blanks(0) + clock == clock;
      ReadNumber(hour, [c1] + s2);
      assert ([c1] + s2)[1..] == s2;
      ReadNumber(min, [c2] + (sec + tail));
    } else {
      TailOfBlanks(n, clock);
      ReadBehindBlanks(n - 1, hour, [c1] + s2);
      SkipBlanks(n, clock);
    }
  }

  // The year is read rightly behind this separator.
  predicate KeepsYear(sep: char, year: string) {
    sep == '+' || IsSpace(sep) || Value(year) == 0
  }

  // The numeric form of a date reads back.
  predicate NumericReadsBack(sep: char, year: string, rest: Rest) {
    KeepsYear(sep, year) &&
    match rest
    case NoClock(gap) => sep == ' ' ==> gap >= 2 && Value(year) == 0
    case Clock(_, hour, _, min, _, sec, _) =>
      Value(hour) == Value(min) == Value(sec) == if sep == ' ' then Value(year) else 0
  }

  /** A date printed with a numeric month is parsed into exactly its fields if and only if the year
      survives the separator in front of it, and the time of day is what is made of the rest. */
  lemma NumericRoundTrip(day: string, sep: char, month: string, year: string, rest: Rest, behind: seq<char>)
    requires Digits(day) && Digits(month) && Digits(year) && ValidRest(rest) && !IsDigit(sep)
    ensures ParseDate(PrintDate(day, sep, month, year, rest), behind)
              == Parsed(TmOf(rest, Value(day), Value(month) - 1, Value(year) - 1900))
       <==> NumericReadsBack(sep, year, rest)
  {
    var mday, mon := Value(day), Value(month) - 1;
    UpToNumber(day, sep, month, PrintYear(year, rest), behind);
    if sep != ' ' {
      YearBehindSeparator(sep, year, rest, mday, mon);
    } else {
      YearBehindBlank(year, rest, mday, mon);
      match rest {
        case NoClock(gap) => DateBehindBlank(year, gap, Tm(0, 0, 0, mday, mon, Value(year) - 1900));
        case Clock(_, _, _, _, _, _, _) => ClockBehindBlank(year, rest, Tm(0, 0, 0, mday, mon, Value(year) - 1900));
      }
    }
  }
}
