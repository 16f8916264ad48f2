/** The parts of Rust's string library that the text formats of this repository are built from. */
module Strings {
  import opened Common
  import opened Wrappers

  // --------------------------------------------------------------- trimming

  /** Unicode White_Space. */
  predicate IsWhitespace(c: char) {
    var v := c as int;
    (9 <= v <= 13) || v == 0x20 || v == 0x85 || v == 0xA0 || v == 0x1680 || (0x2000 <= v <= 0x200A)
    || v == 0x2028 || v == 0x2029 || v == 0x202F || v == 0x205F || v == 0x3000
  }

  /** The same, as the list of the Unicode Character Database (PropList.txt) has it. */
  lemma WhitespaceIs(c: char)
    ensures IsWhitespace(c) <==>
              c in {'\t', '\n', '\U{000B}', '\U{000C}', '\r', ' ', '\U{0085}', '\U{00A0}', '\U{1680}',
                    '\U{2000}', '\U{2001}', '\U{2002}', '\U{2003}', '\U{2004}', '\U{2005}', '\U{2006}',
                    '\U{2007}', '\U{2008}', '\U{2009}', '\U{200A}', '\U{2028}', '\U{2029}', '\U{202F}',
                    '\U{205F}', '\U{3000}'}
  {
  }

  function TrimStart(s: string): (r: string)
    ensures r == [] || !IsWhitespace(r[0])
    ensures |r| <= |s| && r == s[|s| - |r|..]
    ensures forall i :: 0 <= i < |s| - |r| ==> IsWhitespace(s[i])
  {
    if s != [] && IsWhitespace(s[0]) then TrimStart(s[1..]) else s
  }

  function TrimEnd(s: string): (r: string)
    ensures r == [] || !IsWhitespace(r[|r| - 1])
    ensures |r| <= |s| && r == s[..|r|]
    ensures forall i :: |r| <= i < |s| ==> IsWhitespace(s[i])
  {
    if s != [] && IsWhitespace(s[|s| - 1]) then TrimEnd(s[..|s| - 1]) else s
  }

  function Trim(s: string): string {
    TrimEnd(TrimStart(s))
  }

  predicate IsTrimmed(s: string) {
    s == [] || (!IsWhitespace(s[0]) && !IsWhitespace(s[|s| - 1]))
  }

  predicate AllWhitespace(s: string) {
    forall i :: 0 <= i < |s| ==> IsWhitespace(s[i])
  }

  lemma {:induction false} TrimStartSkips(pad: string, s: string)
    requires AllWhitespace(pad)
    ensures TrimStart(pad + s) == TrimStart(s)
  {
    if pad == [] {
      assert pad + s == s;
    } else {
      assert (pad + s)[1..] == pad[1..] + s;
      TrimStartSkips(pad[1..], s);
    }
  }

  lemma {:induction false} TrimEndSkips(s: string, pad: string)
    requires AllWhitespace(pad)
    ensures TrimEnd(s + pad) == TrimEnd(s)
  {
    if pad == [] {
      assert s + pad == s;
    } else {
      var init := pad[..|pad| - 1];
      assert (s + pad)[..|s + pad| - 1] == s + init;
      TrimEndSkips(s, init);
    }
  }

  lemma TrimIsTrimmed(s: string)
    ensures IsTrimmed(Trim(s))
    ensures IsTrimmed(s) ==> Trim(s) == s
  {
  }

  /** Padding a string with white space does not change what trimming leaves. */
  lemma TrimPadded(before: string, s: string, after: string)
    requires AllWhitespace(before) && AllWhitespace(after)
    ensures Trim(before + s + after) == Trim(s)
  {
    Regroup(before, s, after);
    TrimPaddedStart(before, s + after);
    TrimPaddedEnd(s, after);
  }

  lemma TrimPaddedStart(before: string, s: string)
    requires AllWhitespace(before)
    ensures Trim(before + s) == Trim(s)
  {
    TrimStartSkips(before, s);
  }

  lemma TrimPaddedEnd(s: string, after: string)
    requires AllWhitespace(after)
    ensures Trim(s + after) == Trim(s)
  {
    var t := TrimStart(s);
    if t == [] {
      AllTrimmed(s + after);
    } else {
      TrimStartBefore(s, after);
      TrimEndSkips(t, after);
    }
  }

  lemma {:induction false} TrimStartBefore(s: string, after: string)
    requires TrimStart(s) != []
    ensures TrimStart(s + after) == TrimStart(s) + after
  {
    assert (s + after)[0] == s[0];
    if IsWhitespace(s[0]) {
      assert (s + after)[1..] == s[1..] + after;
      TrimStartBefore(s[1..], after);
    } else {
      assert TrimStart(s) == s && TrimStart(s + after) == s + after;
    }
  }

  lemma {:induction false} AllTrimmed(s: string)
    requires AllWhitespace(s)
    ensures TrimStart(s) == []
  {
    if s != [] {
      AllTrimmed(s[1..]);
    }
  }

  // ------------------------------------------------------ searching, splitting

  predicate StartsWith(s: string, p: string) {
    |p| <= |s| && s[..|p|] == p
  }

  predicate EndsWithChar(s: string, c: char) {
    |s| > 0 && s[|s| - 1] == c
  }

  /** `str::find`: the first index at which `p` occurs. */
  function Find(s: string, p: string): (r: Option<nat>)
    ensures r.Some? ==> r.value + |p| <= |s| && s[r.value..r.value + |p|] == p
    ensures r.Some? ==> forall i :: 0 <= i < r.value ==> !StartsWith(s[i..], p)
    ensures r.None? ==> forall i :: 0 <= i <= |s| ==> !StartsWith(s[i..], p)
  {
    FindFrom(s, p, 0)
  }

  function FindFrom(s: string, p: string, from: nat): (r: Option<nat>)
    requires from <= |s|
    ensures r.Some? ==> from <= r.value <= r.value + |p| <= |s| && s[r.value..r.value + |p|] == p
    ensures r.Some? ==> forall i :: from <= i < r.value ==> !StartsWith(s[i..], p)
    ensures r.None? ==> forall i :: from <= i <= |s| ==> !StartsWith(s[i..], p)
    decreases |s| - from
  {
    if StartsWith(s[from..], p) then
      assert s[from..][..|p|] == s[from..from + |p|];
      Some(from)
    else if from == |s| then None
    else FindFrom(s, p, from + 1)
  }

  lemma FindIs(s: string, p: string, at: nat)
    requires at + |p| <= |s| && s[at..at + |p|] == p
    requires forall i :: 0 <= i < at ==> !StartsWith(s[i..], p)
    ensures Find(s, p) == Some(at)
  {
    assert s[at..][..|p|] == p;
    assert StartsWith(s[at..], p);
    var r := Find(s, p);
    assert r.Some?;
    assert s[r.value..][..|p|] == s[r.value..r.value + |p|];
    assert StartsWith(s[r.value..], p);
  }

  function StripPrefix(s: string, p: string): Option<string> {
    if StartsWith(s, p) then Some(s[|p|..]) else None
  }

  function IndexOf(s: string, c: char): (r: Option<nat>)
    ensures r.Some? ==> r.value < |s| && s[r.value] == c && c !in s[..r.value]
    ensures r.None? ==> c !in s
  {
    if s == [] then None
    else if s[0] == c then Some(0)
    else
      var rest := IndexOf(s[1..], c);
      if rest.None? then assert s == [s[0]] + s[1..]; None
      else
        assert s[..rest.value + 1] == [s[0]] + s[1..][..rest.value];
        Some(rest.value + 1)
  }

  lemma IndexOfFirst(a: string, c: char, b: string)
    requires c !in a
    ensures IndexOf(a + [c] + b, c) == Some(|a|)
  {
    var s := a + [c] + b;
    var r := IndexOf(s, c);
    assert s[|a|] == c;
    assert forall i :: 0 <= i < |a| ==> s[i] == a[i] && s[i] in a;
  }

  /** `split_once` on a character. */
  function SplitOnce(s: string, c: char): Option<(string, string)> {
    var i := IndexOf(s, c);
    if i.None? then None else Some((s[..i.value], s[i.value + 1..]))
  }

  lemma SplitOnceFirst(a: string, c: char, b: string)
    requires c !in a
    ensures SplitOnce(a + [c] + b, c) == Some((a, b))
  {
    IndexOfFirst(a, c, b);
    var s := a + [c] + b;
    assert s[..|a|] == a && s[|a| + 1..] == b;
  }

  /** One line without its terminator: a carriage return goes only together with a line feed. */
  function Chomp(line: string): string {
    if EndsWithChar(line, '\r') then line[..|line| - 1] else line
  }

  /** `str::lines`. */
  function Lines(s: string): seq<string>
    decreases |s|
  {
    if s == [] then []
    else
      var i := IndexOf(s, '\n');
      if i.None? then [s] else [Chomp(s[..i.value])] + Lines(s[i.value + 1..])
  }

  lemma LinesCons(line: string, rest: string)
    requires '\n' !in line
    ensures Lines(line + "\n" + rest) == [Chomp(line)] + Lines(rest)
  {
    IndexOfFirst(line, '\n', rest);
    var s := line + "\n" + rest;
    assert s[..|line|] == line && s[|line| + 1..] == rest;
  }

  // ---------------------------------------------------------------- decimals

  predicate IsDigit(c: char) {
    '0' <= c <= '9'
  }

  predicate AllDigits(s: string) {
    forall i :: 0 <= i < |s| ==> IsDigit(s[i])
  }

  function PrintNat(n: nat): (s: string)
    ensures |s| > 0 && AllDigits(s)
  {
    var last := ('0' as int + n % 10) as char;
    if n < 10 then [last] else PrintNat(n / 10) + [last]
  }

  function DigitsValue(s: string): nat
    requires AllDigits(s)
  {
    if s == [] then 0
    else 10 * DigitsValue(s[..|s| - 1]) + (s[|s| - 1] as int - '0' as int)
  }

  lemma {:induction false} PrintedValue(n: nat)
    ensures DigitsValue(PrintNat(n)) == n
  {
    var s := PrintNat(n);
    if n >= 10 {
      PrintedValue(n / 10);
      assert s[..|s| - 1] == PrintNat(n / 10);
    }
  }

  /** `str::parse` of an unsigned integer type with the given maximum. */
  function ParseUnsigned(s: string, max: nat): Option<nat> {
    var digits := if |s| > 1 && s[0] == '+' then s[1..] else s;
    if digits == [] || !AllDigits(digits) || DigitsValue(digits) > max then None
    else Some(DigitsValue(digits))
  }

  lemma ParsePrinted(n: nat, max: nat)
    ensures ParseUnsigned(PrintNat(n), max) == if n <= max then Some(n) else None
  {
    PrintedValue(n);
    assert IsDigit(PrintNat(n)[0]);
  }

  function Zeros(n: nat): (s: string)
    ensures |s| == n && forall i :: 0 <= i < n ==> s[i] == '0'
  {
    seq(n, _ => '0')
  }

  /** A number as it may be written: a plus sign, or none, zeros, and its digits. */
  predicate Spells(s: string, n: nat, plus: bool, zeros: nat) {
    s == (if plus then "+" else "") + (Zeros(zeros) + PrintNat(n))
  }

  lemma {:induction false} LeadingZeros(zeros: nat, n: nat)
    ensures var s := Zeros(zeros) + PrintNat(n);
            AllDigits(s) && DigitsValue(s) == n
    decreases n
  {
    var s := Zeros(zeros) + PrintNat(n);
    if n >= 10 {
      assert s[..|s| - 1] == Zeros(zeros) + PrintNat(n / 10);
      LeadingZeros(zeros, n / 10);
    } else {
      assert s[..|s| - 1] == Zeros(zeros);
      OnlyZeros(zeros);
    }
  }

  lemma {:induction false} OnlyZeros(zeros: nat)
    ensures var s := Zeros(zeros);
            AllDigits(s) && DigitsValue(s) == 0
  {
    var s := Zeros(zeros);
    if zeros > 0 {
      assert s[..|s| - 1] == Zeros(zeros - 1);
      OnlyZeros(zeros - 1);
    }
  }

  lemma {:induction false} OneMoreDigit(zeros: nat, v: nat, last: char) returns (more: nat)
    requires IsDigit(last)
    ensures Zeros(zeros) + PrintNat(v) + [last] == Zeros(more) + PrintNat(10 * v + (last as int - '0' as int))
  {
    var n := 10 * v + (last as int - '0' as int);
    assert n / 10 == v && n % 10 == last as int - '0' as int;
    if v == 0 {
      more := zeros + 1;
      assert Zeros(zeros) + "0" == Zeros(more);
    } else {
      more := zeros;
      assert PrintNat(n) == PrintNat(v) + [last];
    }
  }

  lemma {:induction false} DigitsSpell(s: string) returns (zeros: nat)
    requires s != "" && AllDigits(s)
    ensures s == Zeros(zeros) + PrintNat(DigitsValue(s))
  {
    var init, last := s[..|s| - 1], s[|s| - 1];
    assert s == init + [last];
    zeros := 0;
    if init != "" {
      zeros := DigitsSpell(init);
      zeros := OneMoreDigit(zeros, DigitsValue(init), last);
    }
  }

  /** What parses as an unsigned number: any spelling of one in range, and nothing else. */
  lemma {:induction false} ParsesIff(s: string, max: nat, n: nat)
    ensures ParseUnsigned(s, max) == Some(n) <==> n <= max && exists plus: bool, zeros: nat :: Spells(s, n, plus, zeros)
  {
    if ParseUnsigned(s, max) == Some(n) {
      var plus := |s| > 1 && s[0] == '+';
      var zeros := DigitsSpell(if plus then s[1..] else s);
      assert Spells(s, n, plus, zeros);
    }
    if plus: bool, zeros: nat :| Spells(s, n, plus, zeros) {
      SpelledParses(s, max, n, plus, zeros);
    }
  }

  lemma {:induction false} SpelledParses(s: string, max: nat, n: nat, plus: bool, zeros: nat)
    requires Spells(s, n, plus, zeros)
    ensures ParseUnsigned(s, max) == if n > max then None else Some(n)
  {
    var padded := Zeros(zeros) + PrintNat(n);
    LeadingZeros(zeros, n);
    assert IsDigit(padded[0]);
    assert if plus then s[0] == '+' && s[1..] == padded else s == padded;
  }
}
