/**
 * The parts of Go's `strings`, `strconv` and `fmt` packages that the agent relies on.
 * A string is a sequence of Unicode scalars; a byte that is not valid UTF-8 counts as
 * one U+FFFD, which is how Go's range loops and padding count it.
 */
module Strings {
  import opened Basics

  // ---------------------------------------------------------------- searching

  predicate HasSuffix(s: string, suffix: string) {
    |suffix| <= |s| && s[|s| - |suffix|..] == suffix
  }

  /** The text m occurs in s at position i. */
  predicate At(s: string, m: string, i: int) {
    0 <= i <= |s| - |m| && s[i..i + |m|] == m
  }

  function IndexFrom(s: string, m: string, from: nat): (r: int)
    requires from <= |s|
    ensures r == -1 || from <= r <= |s| - |m|
    decreases |s| - from
  {
    if At(s, m, from) then from
    else if from == |s| then -1
    else IndexFrom(s, m, from + 1)
  }

  /** strings.Index: the first occurrence, or -1. */
  function Index(s: string, m: string): (r: int)
    ensures r == -1 || 0 <= r <= |s| - |m|
  {
    IndexFrom(s, m, 0)
  }

  function LastIndexFrom(s: string, m: string, from: nat): (r: int)
    requires from <= |s|
    ensures r == -1 || 0 <= r <= |s| - |m|
    decreases from
  {
    if At(s, m, from) then from
    else if from == 0 then -1
    else LastIndexFrom(s, m, from - 1)
  }

  /** strings.LastIndex: the last occurrence, or -1. */
  function LastIndex(s: string, m: string): (r: int)
    ensures r == -1 || 0 <= r <= |s| - |m|
  {
    LastIndexFrom(s, m, |s|)
  }

  lemma {:induction false} IndexFromFinds(s: string, m: string, from: nat)
    requires from <= |s|
    ensures var r := IndexFrom(s, m, from);
            && (r == -1 || At(s, m, r))
            && forall j :: from <= j && (r == -1 || j < r) ==> !At(s, m, j)
    decreases |s| - from
  {
    if !At(s, m, from) && from < |s| {
      IndexFromFinds(s, m, from + 1);
    }
  }

  /** Index is the place of the first occurrence, and -1 exactly when there is none. */
  lemma IndexFinds(s: string, m: string)
    ensures var r := Index(s, m);
            && (r == -1 || At(s, m, r))
            && (forall j :: At(s, m, j) ==> 0 <= r <= j)
  {
    IndexFromFinds(s, m, 0);
  }

  lemma {:induction false} LastIndexFromFinds(s: string, m: string, from: nat)
    requires from <= |s|
    ensures var r := LastIndexFrom(s, m, from);
            && (r == -1 || (r <= from && At(s, m, r)))
            && forall j :: j <= from && r < j ==> !At(s, m, j)
    decreases from
  {
    if !At(s, m, from) && from > 0 {
      LastIndexFromFinds(s, m, from - 1);
    }
  }

  /** LastIndex is the place of the last occurrence, and -1 exactly when there is none. */
  lemma LastIndexFinds(s: string, m: string)
    ensures var r := LastIndex(s, m);
            && (r == -1 || At(s, m, r))
            && (forall j :: At(s, m, j) ==> 0 <= j <= r)
  {
    LastIndexFromFinds(s, m, |s|);
  }

  predicate Contains(s: string, m: string) {
    Index(s, m) >= 0
  }

  // ---------------------------------------------------------------- trimming

  /** unicode.IsSpace, the White_Space property. */
  predicate IsSpace(c: char) {
    || '\t' <= c <= '\r' || c == ' ' || c == '\U{85}' || c == '\U{A0}' || c == '\U{1680}'
    || '\U{2000}' <= c <= '\U{200A}' || c == '\U{2028}' || c == '\U{2029}'
    || c == '\U{202F}' || c == '\U{205F}' || c == '\U{3000}'
  }

  const SPACES := "\t\n\U{B}\U{C}\r \U{85}\U{A0}\U{1680}\U{2000}\U{2001}\U{2002}\U{2003}\U{2004}\U{2005}"
                + "\U{2006}\U{2007}\U{2008}\U{2009}\U{200A}\U{2028}\U{2029}\U{202F}\U{205F}\U{3000}"

  /** The 25 characters with that property. */
  lemma SpaceExactly(c: char)
    ensures IsSpace(c) <==> c in SPACES
  {
    assert |SPACES| == 25;
    assert forall k :: 0 <= k < 5 ==> SPACES[k] as int == 9 + k;
    assert SPACES[5] == ' ' && SPACES[6] == '\U{85}' && SPACES[7] == '\U{A0}' && SPACES[8] == '\U{1680}';
    assert forall k :: 9 <= k < 20 ==> SPACES[k] as int == 0x2000 + k - 9;
    assert SPACES[20] == '\U{2028}' && SPACES[21] == '\U{2029}' && SPACES[22] == '\U{202F}';
    assert SPACES[23] == '\U{205F}' && SPACES[24] == '\U{3000}';
    if 9 <= c as int < 14 {
      assert SPACES[c as int - 9] == c;
    }
    if 0x2000 <= c as int <= 0x200A {
      assert SPACES[c as int - 0x2000 + 9] == c;
    }
  }

  function TrimLeft(s: string): (r: string)
    ensures |r| <= |s|
  {
    if s == "" || !IsSpace(s[0]) then s else TrimLeft(s[1..])
  }

  function TrimRight(s: string): (r: string)
    ensures |r| <= |s|
  {
    if s == "" || !IsSpace(s[|s| - 1]) then s else TrimRight(s[..|s| - 1])
  }

  /** No white space at either end. */
  predicate Trimmed(s: string) {
    s == "" || (!IsSpace(s[0]) && !IsSpace(s[|s| - 1]))
  }

  /** strings.TrimSpace. */
  function TrimSpace(s: string): (r: string)
    ensures |r| <= |s|
  {
    TrimLeft(TrimRight(s))
  }

  /** strings.TrimRight(s, "\r\n"). */
  function TrimNewlines(s: string): string {
    if s == "" || (s[|s| - 1] != '\r' && s[|s| - 1] != '\n') then s else TrimNewlines(s[..|s| - 1])
  }

  lemma {:induction false} TrimLeftIs(s: string)
    ensures var r := TrimLeft(s);
            && r == s[|s| - |r|..] && (r == "" || !IsSpace(r[0]))
            && (|r| == |s| <==> s == "" || !IsSpace(s[0]))
  {
    if s != "" && IsSpace(s[0]) {
      TrimLeftIs(s[1..]);
    }
  }

  lemma {:induction false} TrimRightIs(s: string)
    ensures var r := TrimRight(s);
            && r == s[..|r|] && (r == "" || !IsSpace(r[|r| - 1]))
            && (|r| == |s| <==> s == "" || !IsSpace(s[|s| - 1]))
  {
    if s != "" && IsSpace(s[|s| - 1]) {
      TrimRightIs(s[..|s| - 1]);
    }
  }

  /** Trimming leaves trimmed text, and shortens exactly the text that is not. */
  lemma TrimSpaceIs(s: string)
    ensures Trimmed(TrimSpace(s))
    ensures TrimSpace(s) == s <==> Trimmed(s)
    ensures |TrimSpace(s)| == |s| <==> Trimmed(s)
  {
    TrimRightIs(s);
    TrimLeftIs(TrimRight(s));
  }

  lemma {:induction false} TrimLeftCut(s: string) returns (k: nat)
    ensures k <= |s| && TrimLeft(s) == s[k..]
  {
    k := 0;
    if s != "" && IsSpace(s[0]) {
      k := TrimLeftCut(s[1..]);
      k := k + 1;
    }
  }

  lemma {:induction false} TrimRightCut(s: string) returns (n: nat)
    ensures n <= |s| && TrimRight(s) == s[..n]
  {
    n := |s|;
    if s != "" && IsSpace(s[|s| - 1]) {
      n := TrimRightCut(s[..|s| - 1]);
    }
  }

  /** The trimmed text stands in the text. */
  lemma TrimSpaceSlice(s: string) returns (k: nat, n: nat)
    ensures k <= n <= |s| && TrimSpace(s) == s[k..n]
  {
    n := TrimRightCut(s);
    k := TrimLeftCut(s[..n]);
  }

  predicate Blank(s: string) {
    forall i :: 0 <= i < |s| ==> IsSpace(s[i])
  }

  lemma {:induction false} TrimLeftAround(a: string, t: string)
    requires Blank(a) && (t == "" || !IsSpace(t[0]))
    ensures TrimLeft(a + t) == t
  {
    if a == "" {
      assert a + t == t;
    } else {
      assert (a + t)[1..] == a[1..] + t;
      TrimLeftAround(a[1..], t);
    }
  }

  lemma {:induction false} TrimRightAround(t: string, b: string)
    requires Blank(b) && (t == "" || !IsSpace(t[|t| - 1]))
    ensures TrimRight(t + b) == t
  {
    if b == "" {
      assert t + b == t;
    } else {
      assert (t + b)[..|t + b| - 1] == t + b[..|b| - 1];
      TrimRightAround(t, b[..|b| - 1]);
    }
  }

  /** White space around trimmed text is what trimming removes. */
  lemma TrimAround(a: string, t: string, b: string)
    requires Blank(a) && Blank(b) && Trimmed(t)
    ensures TrimSpace(a + t + b) == t
  {
    if t == "" {
      assert a + t + b == "" + (a + b);
      TrimRightAround("", a + b);
    } else {
      assert (a + t)[|a + t| - 1] == t[|t| - 1];
      TrimRightAround(a + t, b);
      TrimLeftAround(a, t);
    }
  }

  lemma TrimOnlyLeft(s: string)
    requires s != "" && !IsSpace(s[|s| - 1])
    ensures TrimSpace(s) == TrimLeft(s)
  {
  }

  // ---------------------------------------------------------------- padding

  function Spaces(n: nat): (r: string)
    ensures |r| == n && forall i :: 0 <= i < n ==> r[i] == ' '
  {
    seq(n, _ => ' ')
  }

  /** The verb %-<width>s: blanks after the value up to the width, nothing cut. */
  function Pad(s: string, width: nat): string {
    s + Spaces(if |s| < width then width - |s| else 0)
  }

  lemma {:induction false} TrimRightSpaces(x: string, n: nat)
    ensures TrimRight(x + Spaces(n)) == TrimRight(x)
  {
    if n == 0 {
      assert x + Spaces(0) == x;
    } else {
      var s := x + Spaces(n);
      assert s[|s| - 1] == ' ';
      assert s[..|s| - 1] == x + Spaces(n - 1);
      TrimRightSpaces(x, n - 1);
    }
  }

  lemma TrimPadded(x: string, width: nat)
    ensures TrimSpace(Pad(x, width)) == TrimSpace(x)
  {
    TrimRightSpaces(x, if |x| < width then width - |x| else 0);
  }

  // ---------------------------------------------------------------- markers

  /** A marker never overlaps itself: its first character does not come again in it. */
  predicate IsMarker(m: string) {
    m != "" && forall i :: 1 <= i < |m| ==> m[i] != m[0]
  }

  /** A field marker starts with a blank and has no other one. */
  predicate IsFieldMarker(m: string) {
    IsMarker(m) && |m| > 1 && m[0] == ' '
  }

  ghost predicate Free(s: string, m: string) {
    forall i :: !At(s, m, i)
  }

  /** The first marker after padded text that is free of it is the one that was written. */
  lemma FirstMarker(x: string, width: nat, m: string, rest: string)
    requires IsFieldMarker(m) && Free(x, m)
    ensures Index(Pad(x, width) + m + rest, m) == |Pad(x, width)|
  {
    var p := Pad(x, width);
    var s := p + m + rest;
    IndexFinds(s, m);
    assert At(s, m, |p|);
    forall j | 0 <= j < |p| ensures !At(s, m, j) {
      if j + |m| <= |x| {
        assert s[j..j + |m|] == x[j..j + |m|];
        assert !At(x, m, j);
      } else if j < |x| {
        assert s[j..j + |m|][|x| - j] == s[|x|] == ' ';
      } else {
        assert s[j..j + |m|][1] == s[j + 1] == ' ';
      }
    }
  }

  /** A marker inside the padded text is met first, and no later than where it stands. */
  lemma EarlyMarker(x: string, m: string, rest: string, i: int)
    requires At(x, m, i)
    ensures 0 <= Index(x + rest, m) <= i
  {
    assert (x + rest)[i..i + |m|] == x[i..i + |m|];
    assert At(x + rest, m, i);
    IndexFinds(x + rest, m);
  }

  /** The last marker before text that is free of it is the one that was written. */
  lemma LastMarker(head: string, m: string, tail: string)
    requires IsMarker(m) && Free(tail, m)
    ensures LastIndex(head + m + tail, m) == |head|
  {
    var s := head + m + tail;
    LastIndexFinds(s, m);
    assert At(s, m, |head|);
    forall j | |head| < j <= |s| - |m| ensures !At(s, m, j) {
      if j < |head| + |m| {
        assert s[j..j + |m|][0] == m[j - |head|];
      } else {
        assert s[j..j + |m|] == tail[j - |head| - |m|..j - |head|];
        assert !At(tail, m, j - |head| - |m|);
      }
    }
  }

  /** Nothing comes after the last occurrence. */
  lemma AfterLast(s: string, m: string)
    requires LastIndex(s, m) >= 0 && m != ""
    ensures var j := LastIndex(s, m); s == s[..j] + m + s[j + |m|..] && Free(s[j + |m|..], m)
  {
    var j := LastIndex(s, m);
    var r := s[j + |m|..];
    LastIndexFinds(s, m);
    forall i | 0 <= i <= |r| - |m| ensures !At(r, m, i) {
      SliceOfSlice(s, j + |m|, |s|, i, i + |m|);
      assert r == s[j + |m|..|s|];
      assert !At(s, m, j + |m| + i);
    }
  }

  /** Nothing comes before the first occurrence. */
  lemma BeforeFirst(s: string, m: string)
    requires Index(s, m) >= 0 && m != ""
    ensures Free(s[..Index(s, m)], m)
  {
    var i := Index(s, m);
    IndexFinds(s, m);
    forall j | 0 <= j <= i - |m| ensures !At(s[..i], m, j) {
      assert s[..i][j..j + |m|] == s[j..j + |m|];
      assert !At(s, m, j);
    }
  }

  lemma TrimSpaceFree(s: string, m: string)
    requires Free(s, m)
    ensures Free(TrimSpace(s), m)
  {
    var k, n := TrimSpaceSlice(s);
    FreeSlice(s, m, k, n);
  }

  /** Joining texts that are free of a field marker at a blank that does not start it. */
  lemma FreeJoin(a: string, b: string, m: string)
    requires IsFieldMarker(m) && Free(a, m) && Free(b, m)
    requires |b| > 1 && b[0] == ' ' && b[1] != m[1]
    ensures Free(a + b, m)
  {
    var s := a + b;
    forall j | 0 <= j <= |s| - |m| ensures !At(s, m, j) {
      if j + |m| <= |a| {
        assert s[j..j + |m|] == a[j..j + |m|];
        assert !At(a, m, j);
      } else if j < |a| {
        assert s[j..j + |m|][|a| - j] == b[0];
      } else {
        assert s[j..j + |m|] == b[j - |a|..j - |a| + |m|];
        assert !At(b, m, j - |a|);
      }
    }
  }

  lemma SliceOfSlice(s: string, lo: nat, hi: nat, i: nat, j: nat)
    requires lo <= hi <= |s| && i <= j <= hi - lo
    ensures s[lo..hi][i..j] == s[lo + i..lo + j]
  {
    var l, r := s[lo..hi][i..j], s[lo + i..lo + j];
    assert |l| == |r| && forall k :: 0 <= k < |r| ==> l[k] == s[lo + i + k] == r[k];
  }

  lemma FreeSlice(s: string, m: string, lo: nat, hi: nat)
    requires lo <= hi <= |s|
    requires Free(s, m)
    ensures Free(s[lo..hi], m)
  {
    forall j | 0 <= j <= hi - lo - |m| ensures !At(s[lo..hi], m, j) {
      SliceOfSlice(s, lo, hi, j, j + |m|);
      assert !At(s, m, lo + j);
    }
  }

  /** Text without the marker's first character is free of the marker. */
  lemma FreeOfFirst(s: string, m: string)
    requires m != "" && m[0] !in s
    ensures Free(s, m)
  {
    forall j ensures !At(s, m, j) {
    }
  }

  // ---------------------------------------------------------------- numbers

  predicate IsDigit(c: char) {
    '0' <= c <= '9'
  }

  predicate AllDigits(s: string) {
    forall i :: 0 <= i < |s| ==> IsDigit(s[i])
  }

  /** The value a string of decimal digits denotes. */
  function Value(s: string): nat
    requires AllDigits(s)
  {
    if s == "" then 0 else 10 * Value(s[..|s| - 1]) + (s[|s| - 1] as int - '0' as int)
  }

  /** The verb %d for an unsigned number. */
  function Decimal(n: nat): (r: string)
    ensures r != "" && AllDigits(r)
    ensures Value(r) == n
    ensures |r| > 1 ==> r[0] != '0'
  {
    if n < 10 then
      var r := [('0' as int + n) as char];
      assert r[..0] == "";
      r
    else
      var front, last := Decimal(n / 10), ('0' as int + n % 10) as char;
      assert (front + [last])[..|front|] == front;
      front + [last]
  }

  /** Digits without a leading zero are how their value is written. */
  lemma {:induction false} DecimalOfValue(s: string)
    requires s != "" && AllDigits(s) && (|s| > 1 ==> s[0] != '0')
    ensures Decimal(Value(s)) == s
  {
    var front, last := s[..|s| - 1], s[|s| - 1];
    var d := last as int - '0' as int;
    assert Value(s) == 10 * Value(front) + d;
    if |s| == 1 {
      DecimalDigit(d);
    } else {
      DecimalOfValue(front);
      ValueIsPositive(front);
      DecimalStep(Value(front), d);
      assert s == front + [last];
    }
  }

  lemma DecimalDigit(d: nat)
    requires d < 10
    ensures Decimal(d) == [('0' as int + d) as char]
  {
  }

  lemma DecimalStep(n: nat, d: nat)
    requires n > 0 && d < 10
    ensures Decimal(10 * n + d) == Decimal(n) + [('0' as int + d) as char]
  {
    assert (10 * n + d) / 10 == n && (10 * n + d) % 10 == d;
  }

  lemma {:induction false} ValueIsPositive(s: string)
    requires s != "" && AllDigits(s) && s[0] != '0'
    ensures Value(s) > 0
  {
    if |s| > 1 {
      ValueIsPositive(s[..|s| - 1]);
    }
  }

  /** strconv.ParseUint(s, 10, bits) with the largest value of that width. */
  function ParseUint(s: string, max: nat): Option<nat> {
    if s != "" && AllDigits(s) && Value(s) <= max then Some(Value(s)) else None
  }

  function Zeros(z: nat): string {
    seq(z, _ => '0')
  }

  lemma {:induction false} ZerosInFront(z: nat, d: string)
    requires AllDigits(d)
    ensures AllDigits(Zeros(z) + d) && Value(Zeros(z) + d) == Value(d)
    decreases z + |d|
  {
    var s := Zeros(z) + d;
    if d != "" {
      ZerosInFront(z, d[..|d| - 1]);
      assert s[..|s| - 1] == Zeros(z) + d[..|d| - 1];
    } else if z > 0 {
      ZerosInFront(z - 1, "");
      assert s[..|s| - 1] == Zeros(z - 1) + "";
    }
  }

  /** A number is read from its digits, leading zeros and all, when it is within the width. */
  lemma DigitsRead(z: nat, n: nat, max: nat)
    ensures ParseUint(Zeros(z) + Decimal(n), max) == if n <= max then Some(n) else None
  {
    ZerosInFront(z, Decimal(n));
  }

  /** And from nothing else. */
  lemma OnlyDigitsRead(s: string, max: nat)
    requires ParseUint(s, max).Some?
    ensures exists z: nat, n: nat :: n <= max && s == Zeros(z) + Decimal(n)
  {
    var z := LeadingZeros(s);
    var rest := s[z..];
    assert s == Zeros(z) + rest;
    ZerosInFront(z, rest);
    if rest == "" {
      assert Zeros(z) == Zeros(z - 1) + "0";
      assert Decimal(0) == "0";
    } else {
      DecimalOfValue(rest);
    }
  }

  lemma {:induction false} LeadingZeros(s: string) returns (z: nat)
    ensures z <= |s| && s[..z] == Zeros(z) && (z < |s| ==> s[z] != '0')
  {
    z := 0;
    if s != "" && s[0] == '0' {
      z := LeadingZeros(s[1..]);
      assert s[..z + 1] == ['0'] + s[1..][..z];
      z := z + 1;
    }
  }

  lemma DecimalPlain(n: nat, m: string)
    requires m != "" && !IsDigit(m[0])
    ensures Free(Decimal(n), m)
    ensures Trimmed(Decimal(n))
  {
    FreeOfFirst(Decimal(n), m);
  }

  // ---------------------------------------------------------------- splitting

  /** strings.Split on one character: never empty, no part holds the separator. */
  function Split(s: string, sep: char): (parts: seq<string>)
    ensures |parts| >= 1
    ensures forall p :: p in parts ==> sep !in p
    ensures Join(parts, sep) == s
  {
    if s == "" then [""]
    else
      var rest := Split(s[1..], sep);
      if s[0] == sep then
        assert Join([""] + rest, sep) == [sep] + Join(rest, sep) by { assert ([""] + rest)[1..] == rest; }
        [""] + rest
      else
        assert Join([[s[0]] + rest[0]] + rest[1..], sep) == [s[0]] + Join(rest, sep) by {
          assert ([[s[0]] + rest[0]] + rest[1..])[1..] == rest[1..];
        }
        [[s[0]] + rest[0]] + rest[1..]
  }

  /** strings.Join with a one-character separator. */
  function Join(parts: seq<string>, sep: char): string
    requires |parts| >= 1
  {
    if |parts| == 1 then parts[0] else parts[0] + [sep] + Join(parts[1..], sep)
  }

  lemma {:induction false} SplitPlain(s: string, sep: char)
    requires sep !in s
    ensures Split(s, sep) == [s]
  {
    if s != "" {
      SplitPlain(s[1..], sep);
    }
  }

  /** Splitting a + sep + b splits a and b. */
  lemma {:induction false} SplitConcat(a: string, sep: char, b: string)
    ensures Split(a + [sep] + b, sep) == Split(a, sep) + Split(b, sep)
  {
    var s := a + [sep] + b;
    if a == "" {
      assert s[1..] == b;
    } else {
      assert s[1..] == a[1..] + [sep] + b;
      SplitConcat(a[1..], sep, b);
    }
  }

  lemma {:induction false} JoinConcat(a: seq<string>, b: seq<string>, sep: char)
    requires |a| >= 1 && |b| >= 1
    ensures Join(a + b, sep) == Join(a, sep) + [sep] + Join(b, sep)
  {
    if |a| == 1 {
      assert (a + b)[1..] == b;
    } else {
      assert (a + b)[1..] == a[1..] + b;
      JoinConcat(a[1..], b, sep);
    }
  }

  // ---------------------------------------------------------------- case folding

  function LowerChar(c: char): char {
    if 'A' <= c <= 'Z' then (c as int + 32) as char else c
  }

  /** strings.ToLower over ASCII letters. */
  function ToLower(s: string): (r: string)
    ensures |r| == |s|
  {
    seq(|s|, i requires 0 <= i < |s| => LowerChar(s[i]))
  }

  const UPPER := "ABCDEFGHIJKLMNOPQRSTUVWXYZ"
  const LOWER := "abcdefghijklmnopqrstuvwxyz"

  /** Letter k of the alphabet, in its two cases. */
  lemma Letters(k: nat)
    requires k < 26
    ensures UPPER[k] == ('A' as int + k) as char && LOWER[k] == ('a' as int + k) as char
  {
  }

  /** Folding takes each letter of the one table to its place in the other and leaves the rest. */
  lemma LowerByTable(c: char)
    ensures forall k: nat :: k < 26 && c == UPPER[k] ==> LowerChar(c) == LOWER[k]
    ensures c !in UPPER ==> LowerChar(c) == c
  {
    forall k: nat | k < 26 ensures UPPER[k] == ('A' as int + k) as char && LOWER[k] == ('a' as int + k) as char {
      Letters(k);
    }
    if 'A' <= c <= 'Z' {
      Letters(c as int - 'A' as int);
      assert UPPER[c as int - 'A' as int] == c;
    }
  }

  /** The two characters are one letter in its two cases. */
  predicate IsPair(c: char, d: char) {
    exists k: nat :: k < 26 && UPPER[k] == c && LOWER[k] == d
  }

  predicate SameLetter(c: char, d: char) {
    c == d || IsPair(c, d) || IsPair(d, c)
  }

  /** The two texts differ at most in the case of their letters. */
  predicate SameFold(a: string, b: string) {
    |a| == |b| && forall i :: 0 <= i < |a| ==> SameLetter(a[i], b[i])
  }

  lemma PairExactly(c: char, d: char)
    ensures IsPair(c, d) <==> 'A' <= c <= 'Z' && d as int == c as int + 32
  {
    if IsPair(c, d) {
      var k: nat :| k < 26 && UPPER[k] == c && LOWER[k] == d;
      Letters(k);
    }
    if 'A' <= c <= 'Z' && d as int == c as int + 32 {
      Letters(c as int - 'A' as int);
    }
  }

  lemma SameLetterExactly(c: char, d: char)
    ensures SameLetter(c, d) <==> LowerChar(c) == LowerChar(d)
  {
    PairExactly(c, d);
    PairExactly(d, c);
  }

  /** Two texts fold to one exactly when they differ at most in case. */
  lemma SameFoldExactly(a: string, b: string)
    ensures SameFold(a, b) <==> ToLower(a) == ToLower(b)
  {
    forall i | 0 <= i < |a| && i < |b| ensures SameLetter(a[i], b[i]) <==> ToLower(a)[i] == ToLower(b)[i] {
      SameLetterExactly(a[i], b[i]);
    }
    if SameFold(a, b) {
      assert forall i :: 0 <= i < |a| ==> ToLower(a)[i] == ToLower(b)[i];
    }
  }
}
