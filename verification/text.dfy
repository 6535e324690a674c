/**
 * Character and string helpers shared by the downloader, the catalog routes and the
 * gallery: decimal rendering and parsing, the `split` idioms used to take file
 * extensions, ASCII lower-casing and left-most pattern search (the way `re.search`
 * and JavaScript's `String.prototype.match` scan start positions left to right).
 */
module Text {
  import opened Wrappers

  predicate IsDigit(c: char) {
    '0' <= c <= '9'
  }

  predicate AllDigits(s: string) {
    forall i :: 0 <= i < |s| ==> IsDigit(s[i])
  }

  function DigitChar(d: nat): (c: char)
    requires d < 10
    ensures IsDigit(c) && c as int - '0' as int == d
  {
    ('0' as int + d) as char
  }

  /** Decimal rendering of `n`, as Python's `str(n)` and f-strings print an int. */
  function NatToString(n: nat): (s: string)
    ensures 1 <= |s| && AllDigits(s)
    ensures |s| > 1 ==> s[0] != '0'
    decreases n
  {
    if n < 10 then [DigitChar(n)] else NatToString(n / 10) + [DigitChar(n % 10)]
  }

  /** Value of a string of decimal digits, as Python's `int()` reads a `\d+` capture. */
  function DigitsValue(s: string): nat
    requires AllDigits(s)
    decreases |s|
  {
    if s == [] then 0 else 10 * DigitsValue(s[..|s| - 1]) + (s[|s| - 1] as int - '0' as int)
  }

  /** Reading back a rendered number gives the number. */
  lemma {:induction false} DigitsValueOfNatToString(n: nat)
    ensures DigitsValue(NatToString(n)) == n
    decreases n
  {
    if n >= 10 {
      var s := NatToString(n);
      assert s[..|s| - 1] == NatToString(n / 10);
      DigitsValueOfNatToString(n / 10);
    }
  }

  /** Distinct numbers render to distinct strings. */
  lemma NatToStringInjective(a: nat, b: nat)
    requires NatToString(a) == NatToString(b)
    ensures a == b
  {
    DigitsValueOfNatToString(a);
    DigitsValueOfNatToString(b);
  }

  /** When two digit strings are each followed by the same non-digit, the joined strings
      agree only if the digit strings do. */
  lemma {:induction false} DigitsBeforeStop(a: string, b: string, x: string, y: string, stop: char)
    requires AllDigits(a) && AllDigits(b) && !IsDigit(stop)
    requires a + [stop] + x == b + [stop] + y
    ensures a == b
  {
    var s := a + [stop] + x;
    assert forall i :: 0 <= i < |a| ==> IsDigit(s[i]);
    assert forall i :: 0 <= i < |b| ==> IsDigit(s[i]);
    assert !IsDigit(s[|a|]) && !IsDigit(s[|b|]);
    assert a == s[..|a|] == b;
  }

  /** The text after the last `sep`, or all of `s` when `sep` does not occur:
      Python's `s.split(sep)[-1]` and JavaScript's `s.split(sep).pop()`. */
  function AfterLast(s: string, sep: char): (r: string)
    ensures sep !in r
    ensures |r| <= |s| && r == s[|s| - |r|..]
    ensures |r| == |s| || s[|s| - |r| - 1] == sep
    decreases |s|
  {
    if s == [] then []
    else if s[|s| - 1] == sep then []
    else AfterLast(s[..|s| - 1], sep) + [s[|s| - 1]]
  }

  /** The three properties in `AfterLast`'s contract determine its result: any suffix
      free of `sep` that is all of `s` or follows a `sep` is that result. */
  lemma {:induction false} AfterLastUnique(s: string, sep: char, r: string)
    requires sep !in r
    requires |r| <= |s| && r == s[|s| - |r|..]
    requires |r| == |s| || s[|s| - |r| - 1] == sep
    ensures AfterLast(s, sep) == r
    decreases |s|
  {
    if s != [] {
      assert |r| > 0 ==> r[|r| - 1] == s[|s| - 1];
      if s[|s| - 1] != sep {
        var s', r' := s[..|s| - 1], r[..|r| - 1];
        assert r' == s'[|s'| - |r'|..];
        assert |r'| == |s'| || s'[|s'| - |r'| - 1] == s[|s| - |r| - 1];
        AfterLastUnique(s', sep, r');
        assert r == r' + [s[|s| - 1]];
      }
    }
  }

  /** Splitting after an explicit separator recovers the part behind it. */
  lemma AfterLastOfJoin(stem: string, sep: char, tail: string)
    requires sep !in tail
    ensures AfterLast(stem + [sep] + tail, sep) == tail
  {
    var s := stem + [sep] + tail;
    assert s[|s| - |tail|..] == tail;
    assert s[|s| - |tail| - 1] == sep;
    AfterLastUnique(s, sep, tail);
  }

  /** The text before the first `sep`, or all of `s`: Python's `s.split(sep)[0]`. */
  function BeforeFirst(s: string, sep: char): (r: string)
    ensures sep !in r
    ensures |r| <= |s| && r == s[..|r|]
    ensures |r| == |s| || s[|r|] == sep
    decreases |s|
  {
    if s == [] || s[0] == sep then [] else [s[0]] + BeforeFirst(s[1..], sep)
  }

  /** Splitting before an explicit separator recovers the part in front of it. */
  lemma BeforeFirstOfJoin(head: string, sep: char, rest: string)
    requires sep !in head
    ensures BeforeFirst(head + [sep] + rest, sep) == head
  {
    var s := head + [sep] + rest;
    var b := BeforeFirst(s, sep);
    forall j | 0 <= j < |head| ensures s[j] != sep {
      assert s[j] == head[j];
    }
    forall j | 0 <= j < |b| ensures s[j] != sep {
      assert s[j] == b[j];
    }
    assert s[|head|] == sep;
    assert b == s[..|head|] == head;
  }

  function LowerChar(c: char): char {
    if 'A' <= c <= 'Z' then (c as int + 32) as char else c
  }

  /** ASCII lower-casing (Python's `str.lower`, JavaScript's `toLowerCase` on ASCII text). */
  function Lower(s: string): (r: string)
    ensures |r| == |s|
    ensures forall i :: 0 <= i < |s| ==> r[i] == LowerChar(s[i])
  {
    seq(|s|, i requires 0 <= i < |s| => LowerChar(s[i]))
  }

  predicate EndsWith(s: string, suffix: string) {
    |suffix| <= |s| && s[|s| - |suffix|..] == suffix
  }

  /** End of the longest run of digits starting at `k`: the span a greedy `\d+` takes. */
  function DigitRunEnd(s: string, k: nat): (j: nat)
    requires k <= |s|
    ensures k <= j <= |s|
    ensures forall i :: k <= i < j ==> IsDigit(s[i])
    ensures j == |s| || !IsDigit(s[j])
    decreases |s| - k
  {
    if k == |s| || !IsDigit(s[k]) then k else DigitRunEnd(s, k + 1)
  }

  /** The left-most start position at or after `k` where `at` holds: how a regular
      expression search picks its match. */
  function FirstMatch(s: string, k: nat, at: (string, nat) -> bool): (r: Option<nat>)
    requires k <= |s|
    ensures r.Some? ==> k <= r.value <= |s| && at(s, r.value)
    ensures r.Some? ==> forall i :: k <= i < r.value ==> !at(s, i)
    ensures r.None? ==> forall i :: k <= i <= |s| ==> !at(s, i)
    decreases |s| - k
  {
    if at(s, k) then Some(k) else if k == |s| then None else FirstMatch(s, k + 1, at)
  }
}
