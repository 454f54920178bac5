/** The `str` operations the source relies on. A string is a sequence of Unicode scalar values. */
module Text {
  import opened Prelude

  // ------------------------------------------------------------------------------------------------------------
  // Splitting and joining
  // ------------------------------------------------------------------------------------------------------------

  /** `str::split_once` on a character. */
  function SplitOnce(s: string, c: char): Option<(string, string)> {
    if s == "" then None
    else if s[0] == c then Some(("", s[1..]))
    else
      var r :- SplitOnce(s[1..], c);
      Some(([s[0]] + r.0, r.1))
  }

  /** `str::split` on a character: always at least one piece. */
  function Split(s: string, c: char): (parts: seq<string>)
    ensures |parts| >= 1
  {
    if s == "" then [""]
    else
      var rest := Split(s[1..], c);
      if s[0] == c then [""] + rest else [[s[0]] + rest[0]] + rest[1..]
  }

  function Join(parts: seq<string>, c: char): string {
    if parts == [] then ""
    else if |parts| == 1 then parts[0]
    else parts[0] + [c] + Join(parts[1..], c)
  }

  function Count(s: string, c: char): nat {
    if s == "" then 0 else (if s[0] == c then 1 else 0) + Count(s[1..], c)
  }

  lemma {:induction false} SplitOnceSpec(s: string, c: char)
    ensures SplitOnce(s, c).None? <==> c !in s
    ensures SplitOnce(s, c).Some? ==>
              var (a, b) := SplitOnce(s, c).value; s == a + [c] + b && c !in a
  {
    if s == "" || s[0] == c {
    } else {
      SplitOnceSpec(s[1..], c);
      assert s == [s[0]] + s[1..];
    }
  }

  lemma {:induction false} SplitOnceFirst(a: string, c: char, b: string)
    requires c !in a
    ensures SplitOnce(a + [c] + b, c) == Some((a, b))
  {
    if a == "" {
      assert a + [c] + b == [c] + b;
    } else {
      SplitOnceFirst(a[1..], c, b);
      assert a == [a[0]] + a[1..];
      assert (a + [c] + b)[1..] == a[1..] + [c] + b;
    }
  }

  lemma {:induction false} JoinSplit(s: string, c: char)
    ensures Join(Split(s, c), c) == s
    ensures forall p :: p in Split(s, c) ==> c !in p
  {
    if s == "" {
    } else {
      JoinSplit(s[1..], c);
      var rest := Split(s[1..], c);
      if s[0] == c {
        assert ([""] + rest)[1..] == rest;
      } else {
        var parts := [[s[0]] + rest[0]] + rest[1..];
        assert parts[1..] == rest[1..];
        if |rest| > 1 {
          assert [s[0]] + (rest[0] + [c] + Join(rest[1..], c)) == ([s[0]] + rest[0]) + [c] + Join(rest[1..], c);
        }
      }
    }
  }

  lemma {:induction false} SplitPrefix(a: string, c: char, b: string)
    requires c !in a
    ensures Split(a, c) == [a]
    ensures Split(a + [c] + b, c) == [a] + Split(b, c)
  {
    if a == "" {
      assert a + [c] + b == [c] + b;
    } else {
      SplitPrefix(a[1..], c, b);
      assert a == [a[0]] + a[1..];
      assert (a + [c] + b)[1..] == a[1..] + [c] + b;
    }
  }

  lemma {:induction false} SplitJoin(parts: seq<string>, c: char)
    requires parts != [] && forall p :: p in parts ==> c !in p
    ensures Split(Join(parts, c), c) == parts
  {
    SplitPrefix(parts[0], c, Join(parts[1..], c));
    if |parts| == 1 {
    } else {
      SplitJoin(parts[1..], c);
    }
  }

  lemma {:induction false} CountConcat(a: string, b: string, c: char)
    ensures Count(a + b, c) == Count(a, c) + Count(b, c)
  {
    if a == "" {
      assert a + b == b;
    } else {
      assert (a + b)[1..] == a[1..] + b;
      CountConcat(a[1..], b, c);
    }
  }

  lemma {:induction false} CountAbsent(s: string, c: char)
    ensures Count(s, c) == 0 <==> c !in s
  {
    if s == "" {
    } else {
      CountAbsent(s[1..], c);
      assert s == [s[0]] + s[1..];
    }
  }

  lemma {:induction false} CharsOfJoin(parts: seq<string>, c: char)
    ensures forall x :: x in Join(parts, c) ==> x == c || exists p :: p in parts && x in p
  {
    if |parts| <= 1 {
    } else {
      CharsOfJoin(parts[1..], c);
    }
  }

  // ------------------------------------------------------------------------------------------------------------
  // Prefixes and substrings
  // ------------------------------------------------------------------------------------------------------------

  function StripPrefix(s: string, p: string): Option<string> {
    if p <= s then Some(s[|p|..]) else None
  }

  predicate EndsWith(s: string, suffix: string) {
    |suffix| <= |s| && s[|s| - |suffix|..] == suffix
  }

  /** The position of the first occurrence of `p`, as `find` reports it. */
  function Find(s: string, p: string): Option<nat> {
    if p <= s then Some(0)
    else if s == "" then None
    else
      var i :- Find(s[1..], p);
      Some(i + 1)
  }

  lemma {:induction false} FindSpec(s: string, p: string)
    ensures Find(s, p).Some? ==> FirstAt(s, p, Find(s, p).value)
    ensures Find(s, p).None? ==> forall i :: 0 <= i <= |s| ==> !(p <= s[i..])
  {
    if p <= s {
    } else if s == "" {
    } else {
      FindSpec(s[1..], p);
      assert forall i :: 0 < i <= |s| ==> s[i..] == s[1..][i - 1..];
    }
  }

  /** `p` occurs at `i` and nowhere before. */
  predicate FirstAt(s: string, p: string, i: nat) {
    i + |p| <= |s| && p <= s[i..] && forall j :: 0 <= j < i ==> !(p <= s[j..])
  }

  predicate Contains(s: string, p: string) { Find(s, p).Some? }

  /** `str::replacen(from, to, 1)`. */
  function ReplaceFirst(s: string, from: string, to: string): string {
    FindSpec(s, from);
    var at := Find(s, from);
    if at.None? then s else s[..at.value] + to + s[at.value + |from|..]
  }

  // ------------------------------------------------------------------------------------------------------------
  // Trimming
  // ------------------------------------------------------------------------------------------------------------

  /** The Unicode `White_Space` property, which `str::trim` removes. */
  predicate IsWhitespace(c: char) {
    var n := c as int;
    || 0x09 <= n <= 0x0D || n == 0x20 || n == 0x85 || n == 0xA0 || n == 0x1680
    || 0x2000 <= n <= 0x200A || n == 0x2028 || n == 0x2029 || n == 0x202F || n == 0x205F || n == 0x3000
  }

  function TrimStart(s: string): string {
    if s != "" && IsWhitespace(s[0]) then TrimStart(s[1..]) else s
  }

  function TrimEnd(s: string): string {
    if s != "" && IsWhitespace(s[|s| - 1]) then TrimEnd(s[..|s| - 1]) else s
  }

  function Trim(s: string): string { TrimEnd(TrimStart(s)) }

  predicate AllWhitespace(s: string) { forall i :: 0 <= i < |s| ==> IsWhitespace(s[i]) }

  /** Neither end is whitespace. */
  predicate Trimmed(s: string) { s != "" ==> !IsWhitespace(s[0]) && !IsWhitespace(s[|s| - 1]) }

  lemma {:induction false} TrimStartSpec(s: string) returns (a: string)
    ensures AllWhitespace(a) && s == a + TrimStart(s)
    ensures TrimStart(s) != "" ==> !IsWhitespace(TrimStart(s)[0])
  {
    if s == "" || !IsWhitespace(s[0]) {
      a := "";
    } else {
      a := TrimStartSpec(s[1..]);
      a := [s[0]] + a;
    }
  }

  lemma {:induction false} TrimEndSpec(s: string) returns (b: string)
    ensures AllWhitespace(b) && s == TrimEnd(s) + b
    ensures TrimEnd(s) != "" ==> !IsWhitespace(TrimEnd(s)[|TrimEnd(s)| - 1])
  {
    var n := |s| - 1;
    if s == "" || !IsWhitespace(s[n]) {
      b := "";
    } else {
      b := TrimEndSpec(s[..n]);
      b := b + [s[n]];
    }
  }

  /** Trimming takes whitespace off both ends, all of it and nothing else. */
  lemma TrimSpec(s: string) returns (a: string, b: string)
    ensures AllWhitespace(a) && AllWhitespace(b) && s == a + Trim(s) + b
    ensures Trimmed(Trim(s))
  {
    a := TrimStartSpec(s);
    var t := TrimStart(s);
    b := TrimEndSpec(t);
    assert Trim(s) != "" ==> Trim(s)[0] == t[0];
  }

  lemma TrimmedIsTrim(s: string)
    ensures Trim(s) == s <==> Trimmed(s)
  {
    var _, _ := TrimSpec(s);
  }

  // ------------------------------------------------------------------------------------------------------------
  // Lines
  // ------------------------------------------------------------------------------------------------------------

  function StripCr(line: string): string {
    if line != "" && line[|line| - 1] == '\r' then line[..|line| - 1] else line
  }

  /** `str::lines`: each line loses its `\n` or `\r\n`; an unterminated last line keeps everything. */
  function Lines(s: string): seq<string>
    decreases |s|
  {
    if s == "" then []
    else
      var cut := SplitOnce(s, '\n');
      SplitOnceSpec(s, '\n');
      if cut.None? then [s] else [StripCr(cut.value.0)] + Lines(cut.value.1)
  }

  /** A line loses one carriage return before its end, and nothing else. */
  lemma StripCrSpec(line: string)
    ensures StripCr(line + ['\r']) == line
    ensures line == "" || line[|line| - 1] != '\r' ==> StripCr(line) == line
  {}

  /** One terminated line, and the text after it. */
  lemma LinesStep(line: string, rest: string)
    requires '\n' !in line
    ensures Lines(line + ['\n'] + rest) == [StripCr(line)] + Lines(rest)
  {
    SplitOnceFirst(line, '\n', rest);
  }

  /** An unterminated last line is a line, and keeps everything. */
  lemma LastLine(line: string)
    requires '\n' !in line && line != ""
    ensures Lines(line) == [line]
  {
    SplitOnceSpec(line, '\n');
  }

  /** A text is cut at a line end without changing any line. */
  lemma {:induction false} LinesConcat(a: string, b: string)
    requires a == "" || a[|a| - 1] == '\n'
    ensures Lines(a + b) == Lines(a) + Lines(b)
    decreases |a|
  {
    if a == "" {
      assert a + b == b;
    } else {
      var x, y := FirstCut(a);
      LinesConcat(y, b);
      assert Lines(a) == [StripCr(x)] + Lines(y) by { LinesStep(x, y); }
      assert Lines(a + b) == [StripCr(x)] + Lines(y + b) by {
        LinesStep(x, y + b);
        assert a + b == x + ['\n'] + (y + b);
      }
    }
  }

  lemma FirstCut(a: string) returns (x: string, y: string)
    requires a != "" && a[|a| - 1] == '\n'
    ensures a == x + ['\n'] + y && '\n' !in x && (y == "" || y[|y| - 1] == '\n')
  {
    SplitOnceSpec(a, '\n');
    assert a[|a| - 1] in a;
    x, y := SplitOnce(a, '\n').value.0, SplitOnce(a, '\n').value.1;
    assert y != "" ==> y[|y| - 1] == a[|a| - 1];
  }

  // ------------------------------------------------------------------------------------------------------------
  // Decimal integers
  // ------------------------------------------------------------------------------------------------------------

  predicate IsDigit(c: char) { '0' <= c <= '9' }

  function DigitValue(c: char): nat
    requires IsDigit(c)
  {
    c as int - '0' as int
  }

  function Digits(s: string): Option<nat> {
    if s == "" then Some(0)
    else
      var init :- Digits(s[..|s| - 1]);
      if IsDigit(s[|s| - 1]) then Some(10 * init + DigitValue(s[|s| - 1])) else None
  }

  /** `str::parse::<u64>`: an optional `+`, at least one digit, and no overflow. */
  function ParseU64(s: string): Option<u64> {
    var digits := if s != "" && s[0] == '+' then s[1..] else s;
    if digits == "" then None
    else
      var n :- Digits(digits);
      if n <= U64_MAX then Some(n) else None
  }

  function Decimal(n: nat): (s: string)
    ensures s != "" && forall c :: c in s ==> IsDigit(c)
  {
    var last := [('0' as int + n % 10) as char];
    if n < 10 then last else Decimal(n / 10) + last
  }

  lemma {:induction false} DigitsOfDecimal(n: nat)
    ensures Digits(Decimal(n)) == Some(n)
  {
    var s := Decimal(n);
    if n >= 10 {
      DigitsOfDecimal(n / 10);
      assert s[..|s| - 1] == Decimal(n / 10);
    } else {
      assert s[..0] == "";
    }
  }

  lemma ParseU64Inverts(n: u64)
    ensures ParseU64(Decimal(n)) == Some(n)
  {
    DigitsOfDecimal(n);
    assert Decimal(n)[0] in Decimal(n);
  }

  predicate AllDigits(s: string) { forall i :: 0 <= i < |s| ==> IsDigit(s[i]) }

  predicate AllZeros(s: string) { forall i :: 0 <= i < |s| ==> s[i] == '0' }

  lemma {:induction false} ZerosBefore(zeros: string, n: nat)
    requires AllZeros(zeros)
    ensures Digits(zeros) == Some(0)
    ensures Digits(zeros + Decimal(n)) == Some(n)
    decreases |zeros|, n
  {
    var s, d := zeros + Decimal(n), Decimal(n);
    if zeros != "" {
      assert zeros[..|zeros| - 1] < zeros;
      ZerosBefore(zeros[..|zeros| - 1], 0);
    }
    assert s[..|s| - 1] == zeros + d[..|d| - 1] && s[|s| - 1] == d[|d| - 1];
    if n < 10 {
      assert zeros + d[..|d| - 1] == zeros;
    } else {
      assert d[..|d| - 1] == Decimal(n / 10);
      ZerosBefore(zeros, n / 10);
    }
  }

  /** A string of digits is a decimal with zeros before it. */
  lemma {:induction false} DigitsAreADecimal(s: string) returns (zeros: string)
    requires s != "" && Digits(s).Some?
    ensures AllZeros(zeros) && s == zeros + Decimal(Digits(s).value)
  {
    var n := |s| - 1;
    var d := [s[n]];
    if n == 0 {
      zeros := "";
      assert s[..0] == "" && s == d;
    } else {
      zeros := DigitsAreADecimal(s[..n]);
      var m := Digits(s[..n]).value;
      assert s == s[..n] + d;
      if m == 0 {
        assert Decimal(0) == "0";
        zeros := zeros + "0";
      } else {
        assert Decimal(10 * m + DigitValue(s[n])) == Decimal(m) + d;
        assert s == zeros + (Decimal(m) + d);
      }
    }
  }

  /** A text is a u64 exactly when it is a decimal of at most 64 bits, with zeros and one plus sign allowed before it. */
  predicate RendersU64(s: string, n: u64, plus: bool, zeros: string) {
    AllZeros(zeros) && s == Sign(plus) + (zeros + Decimal(n))
  }

  function Sign(plus: bool): string { if plus then ['+'] else [] }

  lemma SignIsOptional(digits: string)
    requires digits != "" && digits[0] != '+'
    ensures ParseU64(['+'] + digits) == ParseU64(digits)
  {
    assert (['+'] + digits)[1..] == digits;
  }

  lemma UnsignedParses(digits: string, n: u64)
    requires digits != "" && digits[0] != '+' && Digits(digits) == Some(n)
    ensures ParseU64(digits) == Some(n) && ParseU64(['+'] + digits) == Some(n)
  {
    SignIsOptional(digits);
  }

  lemma StartsWithADigit(zeros: string, n: nat)
    requires AllZeros(zeros)
    ensures var digits := zeros + Decimal(n); digits != "" && IsDigit(digits[0])
  {
    var d := Decimal(n);
    assert d[0] in d;
    assert (zeros + d)[0] == if zeros == "" then d[0] else zeros[0];
  }

  lemma RenderedU64Parses(s: string, n: u64, plus: bool, zeros: string)
    requires RendersU64(s, n, plus, zeros)
    ensures ParseU64(s) == Some(n)
  {
    var digits := zeros + Decimal(n);
    StartsWithADigit(zeros, n);
    assert Digits(digits) == Some(n) by { ZerosBefore(zeros, n); }
    UnsignedParses(digits, n);
    assert !plus ==> s == digits;
  }

  lemma ParsedU64IsRendered(s: string) returns (plus: bool, zeros: string)
    requires ParseU64(s).Some?
    ensures RendersU64(s, ParseU64(s).value, plus, zeros)
  {
    plus := s[0] == '+';
    var digits := if plus then s[1..] else s;
    zeros := DigitsAreADecimal(digits);
    assert s == Sign(plus) + digits;
  }

  lemma ParseU64Exactly(s: string, n: u64)
    ensures ParseU64(s) == Some(n) <==> exists plus, zeros :: RendersU64(s, n, plus, zeros)
  {
    if ParseU64(s) == Some(n) {
      var plus, zeros := ParsedU64IsRendered(s);
    }
    if exists plus, zeros :: RendersU64(s, n, plus, zeros) {
      var plus, zeros :| RendersU64(s, n, plus, zeros);
      RenderedU64Parses(s, n, plus, zeros);
    }
  }

  /** Surrounding one space is trimmed off a decimal. */
  lemma TrimDecimal(n: nat)
    ensures Trim(" " + Decimal(n)) == Decimal(n)
  {
    var d := Decimal(n);
    var s := " " + d;
    assert s[1..] == d;
    assert d[0] in d && d[|d| - 1] in d;
    assert TrimStart(d) == d;
    assert TrimStart(s) == TrimStart(s[1..]);
  }
}
