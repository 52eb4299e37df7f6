/**
 The decimal text both ends of the temperature wire agree on: printing with `%i` or `str`, parsing with
 Python's `int`, and Python's `strip`, `split` and `join`.
 */
module Text {
  import opened Wrappers

  // ---------- decimal printing ----------

  function DigitChar(d: nat): char
    requires d < 10
  {
    '0' + d as char
  }

  predicate IsDigit(c: char) {
    '0' <= c <= '9'
  }

  predicate AllDigits(s: string) {
    forall i :: 0 <= i < |s| ==> IsDigit(s[i])
  }

  function PrintNat(n: nat): string {
    if n < 10 then [DigitChar(n)] else PrintNat(n / 10) + [DigitChar(n % 10)]
  }

  /** What C's `%i` and Python's `str` print for an integer. */
  function PrintInt(n: int): string {
    if n < 0 then "-" + PrintNat(-n) else PrintNat(n)
  }

  // ---------- Python's int(...) ----------

  function DigitsValue(s: string): nat
    requires AllDigits(s)
  {
    if s == [] then 0 else 10 * DigitsValue(s[..|s| - 1]) + (s[|s| - 1] - '0') as nat
  }

  function ParseNat(s: string): Option<int> {
    if s != [] && AllDigits(s) then Some(DigitsValue(s)) else None
  }

  predicate IsSpace(c: char) {
    c == ' ' || '\t' <= c <= '\r' || '\U{1C}' <= c <= '\U{1F}'
  }

  function StripLeft(s: string): string {
    if s != [] && IsSpace(s[0]) then StripLeft(s[1..]) else s
  }

  function StripRight(s: string): string {
    if s != [] && IsSpace(s[|s| - 1]) then StripRight(s[..|s| - 1]) else s
  }

  function Strip(s: string): string {
    StripRight(StripLeft(s))
  }

  /** `int(s)`; None stands for the ValueError Python raises. */
  function ParseInt(s: string): Option<int> {
    var t := Strip(s);
    if t == [] then None
    else if t[0] == '-' then
      match ParseNat(t[1..]) {
        case None => None
        case Some(n) => Some(-n)
      }
    else if t[0] == '+' then ParseNat(t[1..])
    else ParseNat(t)
  }

  lemma {:induction false} PrintNatDigits(n: nat)
    ensures PrintNat(n) != [] && AllDigits(PrintNat(n)) && DigitsValue(PrintNat(n)) == n
  {
    if n >= 10 {
      PrintNatDigits(n / 10);
      var s := PrintNat(n);
      assert s[..|s| - 1] == PrintNat(n / 10);
    }
  }

  /** Printed integers hold only digits and a leading minus sign: neither commas, blanks nor NUL. */
  lemma PrintIntPlain(n: int)
    ensures PrintInt(n) != []
    ensures forall i :: 0 <= i < |PrintInt(n)| ==> IsDigit(PrintInt(n)[i]) || PrintInt(n)[i] == '-'
  {
    PrintNatDigits(if n < 0 then -n else n);
  }

  /** `int(str(n)) == n` for every integer. */
  lemma ParsePrint(n: int)
    ensures ParseInt(PrintInt(n)) == Some(n)
  {
    PrintIntPlain(n);
    PrintNatDigits(if n < 0 then -n else n);
    var s := PrintInt(n);
    StripPlain(s);
    hide PrintNat, Strip, DigitsValue;
    if n < 0 {
      assert s[1..] == PrintNat(-n);
    } else {
      assert IsDigit(PrintNat(n)[0]);
    }
  }

  lemma StripPlain(s: string)
    requires forall i :: 0 <= i < |s| ==> !IsSpace(s[i])
    ensures Strip(s) == s
  {
  }

  lemma {:induction false} PrintNatLength(n: nat, k: nat, bound: nat)
    requires k >= 1 && bound == TenTo(k) && n < bound
    ensures |PrintNat(n)| <= k
  {
    if n >= 10 {
      assert k > 1;
      PrintNatLength(n / 10, k - 1, TenTo(k - 1));
    }
  }

  function TenTo(k: nat): (t: nat)
    ensures t > 0
  {
    if k == 0 then 1 else 10 * TenTo(k - 1)
  }

  /** Position `k` from the right of a printed natural holds its `k`-th decimal digit; only zero starts with a zero. */
  lemma {:induction false} PrintNatDigitAt(n: nat, k: nat)
    ensures PrintNat(n) != [] && (PrintNat(n)[0] == '0' ==> n == 0)
    ensures k < |PrintNat(n)| ==> PrintNat(n)[|PrintNat(n)| - 1 - k] as int == '0' as int + n / TenTo(k) % 10
    decreases n
  {
    if n >= 10 {
      PrintNatDigitAt(n / 10, if k > 0 then k - 1 else 0);
      if k > 0 {
        DivideTwice(n, TenTo(k - 1));
      }
    }
  }

  lemma DivideTwice(n: nat, d: nat)
    requires d > 0
    ensures n / (10 * d) == n / 10 / d
  {
    var q, r := n / 10 / d, n / 10 % d;
    assert n / 10 == q * d + r;
    assert n == 10 * (q * d + r) + n % 10;
    assert n == q * (10 * d) + (10 * r + n % 10);
    QuotientIs(n, 10 * d, q, 10 * r + n % 10);
  }

  lemma QuotientIs(n: nat, d: nat, q: nat, r: nat)
    requires 0 <= r < d && n == q * d + r
    ensures n / d == q
  {
    var p := n / d;
    assert n == p * d + n % d;
    if p < q {
      Monotone(p + 1, q, d);
    } else if q < p {
      Monotone(q + 1, p, d);
    }
  }

  lemma Monotone(a: nat, b: nat, d: nat)
    requires a <= b
    ensures a * d <= b * d
  {
  }

  /** The blanks of `strip` and `int`, one by one. */
  lemma SpaceIs(c: char)
    ensures IsSpace(c) <==> c in [' ', '\t', '\n', '\U{0B}', '\U{0C}', '\r', '\U{1C}', '\U{1D}', '\U{1E}', '\U{1F}']
  {
  }

  predicate AllSpaces(s: string) {
    forall i :: 0 <= i < |s| ==> IsSpace(s[i])
  }

  lemma {:induction false} StripLeftBlanks(a: string, s: string)
    requires AllSpaces(a) && (s != [] ==> !IsSpace(s[0]))
    ensures StripLeft(a + s) == s
  {
    if a == [] {
      assert a + s == s;
    } else {
      assert (a + s)[1..] == a[1..] + s;
      StripLeftBlanks(a[1..], s);
    }
  }

  lemma {:induction false} StripRightBlanks(s: string, b: string)
    requires AllSpaces(b) && (s != [] ==> !IsSpace(s[|s| - 1]))
    ensures StripRight(s + b) == s
  {
    if b == [] {
      assert s + b == s;
    } else {
      assert (s + b)[..|s + b| - 1] == s + b[..|b| - 1];
      StripRightBlanks(s, b[..|b| - 1]);
    }
  }

  /** `strip` takes off all blanks at both ends and nothing else. */
  lemma StripBlanks(a: string, s: string, b: string)
    requires AllSpaces(a) && AllSpaces(b)
    requires s != [] && !IsSpace(s[0]) && !IsSpace(s[|s| - 1])
    ensures Strip(a + s + b) == s
  {
    assert a + s + b == a + (s + b);
    StripLeftBlanks(a, s + b);
    StripRightBlanks(s, b);
  }

  /** `int` reads a printed integer with any blanks around it, and a natural with a plus sign. */
  lemma ParsePadded(a: string, n: int, b: string)
    requires AllSpaces(a) && AllSpaces(b)
    ensures ParseInt(a + PrintInt(n) + b) == Some(n)
    ensures n >= 0 ==> ParseInt(a + ("+" + PrintInt(n)) + b) == Some(n)
  {
    PrintIntPlain(n);
    PrintNatDigits(if n < 0 then -n else n);
    var s := PrintInt(n);
    StripBlanks(a, s, b);
    hide PrintNat, Strip, DigitsValue;
    if n < 0 {
      assert s[1..] == PrintNat(-n);
    } else {
      assert IsDigit(PrintNat(n)[0]);
      StripBlanks(a, "+" + s, b);
      assert ("+" + s)[1..] == s;
    }
  }

  /** `int` refuses a text with any character that is neither a digit, a sign nor a blank. */
  lemma ParseRefuses(s: string, i: nat)
    requires i < |s| && !IsDigit(s[i]) && !IsSpace(s[i]) && s[i] != '-' && s[i] != '+'
    ensures ParseInt(s) == None
  {
    var t := Strip(s);
    StripKeeps(s, i);
    var j :| 0 <= j < |t| && t[j] == s[i];
    hide Strip;
    if t[0] == '-' || t[0] == '+' {
      assert t[1..][j - 1] == t[j];
    }
  }

  /** A character that is no blank survives `strip`. */
  lemma StripKeeps(s: string, i: nat)
    requires i < |s| && !IsSpace(s[i])
    ensures s[i] in Strip(s)
  {
    StripLeftKeeps(s, s[i]);
    StripRightKeeps(StripLeft(s), s[i]);
  }

  lemma {:induction false} StripLeftKeeps(s: string, c: char)
    requires c in s && !IsSpace(c)
    ensures c in StripLeft(s)
  {
    if IsSpace(s[0]) {
      StripLeftKeeps(s[1..], c);
    }
  }

  lemma {:induction false} StripRightKeeps(s: string, c: char)
    requires c in s && !IsSpace(c)
    ensures c in StripRight(s)
  {
    if IsSpace(s[|s| - 1]) {
      StripRightKeeps(s[..|s| - 1], c);
    }
  }

  /** Some printed numbers, character by character. */
  lemma PrintExamples()
    ensures PrintInt(0) == "0" && PrintInt(2037) == "2037" && PrintInt(-205) == "-205"
  {
  }

  // ---------- split and join ----------

  /** Python's `s.split(c)`. */
  function Split(s: string, c: char): (parts: seq<string>)
    ensures |parts| >= 1
  {
    if s == [] then [""]
    else
      var rest := Split(s[1..], c);
      if s[0] == c then [""] + rest else [[s[0]] + rest[0]] + rest[1..]
  }

  /** Python's `c.join(parts)`. */
  function Join(parts: seq<string>, c: char): string {
    if parts == [] then ""
    else if |parts| == 1 then parts[0]
    else parts[0] + [c] + Join(parts[1..], c)
  }

  lemma {:induction false} SplitThenJoin(s: string, c: char)
    ensures Join(Split(s, c), c) == s
  {
    if s != [] {
      SplitThenJoin(s[1..], c);
      var rest := Split(s[1..], c);
      if s[0] == c {
        assert Split(s, c)[1..] == rest;
      } else {
        assert Split(s, c)[1..] == rest[1..];
      }
    }
  }

  lemma {:induction false} SplitCons(t: string, s: string, c: char)
    requires c !in t
    ensures Split(t + [c] + s, c) == [t] + Split(s, c)
  {
    if t == [] {
      assert (t + [c] + s)[1..] == s;
    } else {
      assert [t[0]] + t[1..] == t && t[0] in t;
      SplitCons(t[1..], s, c);
      assert (t + [c] + s)[1..] == t[1..] + [c] + s;
    }
  }

  lemma {:induction false} SplitPlain(t: string, c: char)
    requires c !in t
    ensures Split(t, c) == [t]
  {
    if t != [] {
      assert [t[0]] + t[1..] == t && t[0] in t;
      SplitPlain(t[1..], c);
    }
  }

  /** Splitting undoes joining when no part holds the separator. */
  lemma {:induction false} JoinThenSplit(parts: seq<string>, c: char)
    requires parts != []
    requires forall i :: 0 <= i < |parts| ==> c !in parts[i]
    ensures Split(Join(parts, c), c) == parts
  {
    if |parts| == 1 {
      SplitPlain(parts[0], c);
    } else {
      JoinThenSplit(parts[1..], c);
      SplitCons(parts[0], Join(parts[1..], c), c);
    }
  }
}
