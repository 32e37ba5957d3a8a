/** The parts of Go's standard library that the daemon, the WireGuard backend
    and the utilities rely on, with Go's own semantics: strconv.Atoi and
    strconv.Itoa on a 64-bit platform, strings.Split with a one-character
    separator, strings.Contains, strings.Replace with n = -1 and
    strings.TrimSpace.  Strings are sequences of Unicode code points. */
module GoLib {

  datatype Option<T> = None | Some(value: T)

  const MaxInt64: int := 0x7FFF_FFFF_FFFF_FFFF
  const MinInt64: int := -0x8000_0000_0000_0000
  const MaxUint64: int := 0xFFFF_FFFF_FFFF_FFFF

  // ---------------------------------------------------------------------
  // Decimal digits

  predicate IsDigit(c: char) { '0' <= c <= '9' }

  function DigitValue(c: char): (d: nat)
    requires IsDigit(c)
    ensures d < 10
  {
    c as int - '0' as int
  }

  function DigitChar(d: nat): (c: char)
    requires d < 10
    ensures IsDigit(c) && DigitValue(c) == d
  {
    ('0' as int + d) as char
  }

  predicate AllDigits(s: string) { forall i :: 0 <= i < |s| ==> IsDigit(s[i]) }

  /** Horner evaluation of the digits of s, continuing from the value acc. */
  function Horner(acc: nat, s: string): nat
    requires AllDigits(s)
    decreases |s|
  {
    if s == [] then acc else Horner(acc * 10 + DigitValue(s[0]), s[1..])
  }

  /** The value of a string of decimal digits, most significant first. */
  function DigitsValue(s: string): nat
    requires AllDigits(s)
  {
    Horner(0, s)
  }

  function Pow10(n: nat): (p: nat)
    ensures p >= 1
  {
    if n == 0 then 1 else 10 * Pow10(n - 1)
  }

  lemma {:induction false} HornerAtLeast(acc: nat, s: string)
    requires AllDigits(s)
    ensures Horner(acc, s) >= acc
    decreases |s|
  {
    if s != [] {
      HornerAtLeast(acc * 10 + DigitValue(s[0]), s[1..]);
    }
  }

  lemma {:induction false} HornerBound(acc: nat, s: string)
    requires AllDigits(s)
    ensures Horner(acc, s) < (acc + 1) * Pow10(|s|)
    decreases |s|
  {
    if s != [] {
      var acc' := acc * 10 + DigitValue(s[0]);
      HornerBound(acc', s[1..]);
      assert Horner(acc, s) == Horner(acc', s[1..]);
      ScaleBound(acc' + 1, (acc + 1) * 10, Pow10(|s| - 1));
      assert (acc + 1) * 10 * Pow10(|s| - 1) == (acc + 1) * Pow10(|s|);
    }
  }

  lemma ScaleBound(x: nat, y: nat, p: nat)
    requires x <= y
    ensures x * p <= y * p
  {
  }

  lemma {:induction false} HornerSnoc(acc: nat, s: string, c: char)
    requires AllDigits(s) && IsDigit(c)
    ensures AllDigits(s + [c])
    ensures Horner(acc, s + [c]) == Horner(acc, s) * 10 + DigitValue(c)
    decreases |s|
  {
    if s != [] {
      assert (s + [c])[1..] == s[1..] + [c];
      HornerSnoc(acc * 10 + DigitValue(s[0]), s[1..], c);
    }
  }

  // ---------------------------------------------------------------------
  // strconv.Atoi

  /** What strconv.Atoi returns: a value, or an error together with the
      int Go returns beside it (0 for a syntax error, the clamped bound for
      a range error). */
  datatype AtoiResult = Parsed(value: int) | SyntaxError | RangeError(clamped: int)
  {
    /** The int result of Atoi, whether or not its error was nil. */
    function Value(): int
    {
      match this
      case Parsed(v) => v
      case SyntaxError => 0
      case RangeError(c) => c
    }
  }

  /** Outcome of strconv.ParseUint(s, 10, 64). */
  datatype UintScan = UintOk(n: nat) | UintSyntax | UintRange

  /** The digit loop of strconv.ParseUint for base 10, continuing from the
      accumulated value acc: it stops at the first non-digit with a syntax
      error, and as soon as the value would exceed 2^64-1 with a range error. */
  function ScanUint(s: string, acc: nat): UintScan
    decreases |s|
  {
    if s == [] then UintOk(acc)
    else if !IsDigit(s[0]) then UintSyntax
    else if acc >= MaxUint64 / 10 + 1 then UintRange
    else if acc * 10 + DigitValue(s[0]) > MaxUint64 then UintRange
    else ScanUint(s[1..], acc * 10 + DigitValue(s[0]))
  }

  function ParseUint(s: string): UintScan
  {
    if s == [] then UintSyntax else ScanUint(s, 0)
  }

  /** The fast path of strconv.Atoi, taken for 1 to 18 characters. */
  function AtoiFast(s: string): AtoiResult
    requires 0 < |s|
  {
    var digits := if s[0] == '-' || s[0] == '+' then s[1..] else s;
    if digits == [] || !AllDigits(digits) then SyntaxError
    else if s[0] == '-' then Parsed(-(DigitsValue(digits) as int))
    else Parsed(DigitsValue(digits))
  }

  /** The slow path of strconv.Atoi: strconv.ParseInt(s, 10, 0). */
  function AtoiSlow(s: string): AtoiResult
  {
    if s == [] then SyntaxError
    else
      var neg := s[0] == '-';
      var rest := if s[0] == '+' || s[0] == '-' then s[1..] else s;
      match ParseUint(rest)
      case UintSyntax => SyntaxError
      case UintRange => RangeError(if neg then MinInt64 else MaxInt64)
      case UintOk(u) =>
        if !neg && u > MaxInt64 then RangeError(MaxInt64)
        else if neg && u > MaxInt64 + 1 then RangeError(MinInt64)
        else if neg then Parsed(-(u as int))
        else Parsed(u)
  }

  /** strconv.Atoi on a 64-bit platform. */
  function Atoi(s: string): AtoiResult
  {
    if 0 < |s| < 19 then AtoiFast(s) else AtoiSlow(s)
  }

  /** The digits of s after an optional leading sign. */
  function Unsigned(s: string): string
  {
    if s != [] && (s[0] == '+' || s[0] == '-') then s[1..] else s
  }

  /** s is an optional sign followed by at least one decimal digit. */
  predicate IsDecimal(s: string)
  {
    Unsigned(s) != [] && AllDigits(Unsigned(s))
  }

  function DecimalValue(s: string): int
    requires IsDecimal(s)
  {
    if s[0] == '-' then -(DigitsValue(Unsigned(s)) as int) else DigitsValue(Unsigned(s))
  }

  lemma {:induction false} ScanUintSpec(s: string, acc: nat)
    requires acc <= MaxUint64
    ensures ScanUint(s, acc).UintOk? <==> AllDigits(s) && Horner(acc, s) <= MaxUint64
    ensures ScanUint(s, acc).UintOk? ==> ScanUint(s, acc).n == Horner(acc, s)
    decreases |s|
  {
    if s != [] && IsDigit(s[0]) {
      var acc' := acc * 10 + DigitValue(s[0]);
      if AllDigits(s) {
        assert AllDigits(s[1..]);
        HornerAtLeast(acc', s[1..]);
      }
      if acc' <= MaxUint64 {
        ScanUintSpec(s[1..], acc');
        assert AllDigits(s) <==> AllDigits(s[1..]);
      }
    }
  }

  /** strconv.Atoi succeeds exactly on an optional sign followed by decimal
      digits whose value fits in a 64-bit int, and then returns that value. */
  lemma AtoiSpec(s: string)
    ensures Atoi(s).Parsed? <==> IsDecimal(s) && MinInt64 <= DecimalValue(s) <= MaxInt64
    ensures Atoi(s).Parsed? ==> Atoi(s).value == DecimalValue(s)
  {
    var rest := Unsigned(s);
    if 0 < |s| < 19 {
      if IsDecimal(s) {
        HornerBound(0, rest);
        Pow10Monotone(|rest|, 18);
        Pow10Of18();
      }
    } else if s != [] {
      if rest != [] {
        ScanUintSpec(rest, 0);
      }
    }
  }

  lemma Pow10Of18()
    ensures Pow10(18) == 1_000_000_000_000_000_000
  {
    assert Pow10(3) == 1000;
    assert Pow10(6) == 1000 * Pow10(3) by { assert Pow10(6) == 10 * Pow10(5); }
    assert Pow10(9) == 1000 * Pow10(6) by { assert Pow10(9) == 10 * Pow10(8); }
    assert Pow10(12) == 1000 * Pow10(9) by { assert Pow10(12) == 10 * Pow10(11); }
    assert Pow10(15) == 1000 * Pow10(12) by { assert Pow10(15) == 10 * Pow10(14); }
    assert Pow10(18) == 1000 * Pow10(15) by { assert Pow10(18) == 10 * Pow10(17); }
  }

  lemma {:induction false} Pow10Monotone(m: nat, n: nat)
    requires m <= n
    ensures Pow10(m) <= Pow10(n)
    decreases n
  {
    if m < n {
      Pow10Monotone(m, n - 1);
    }
  }

  // ---------------------------------------------------------------------
  // strconv.Itoa

  /** Decimal text of a natural number, without leading zeros. */
  function NatToDecimal(n: nat): (s: string)
    decreases n
  {
    if n < 10 then [DigitChar(n)] else NatToDecimal(n / 10) + [DigitChar(n % 10)]
  }

  /** strconv.Itoa. */
  function Itoa(n: int): string
  {
    if n < 0 then "-" + NatToDecimal(-n) else NatToDecimal(n)
  }

  lemma {:induction false} NatToDecimalValue(n: nat)
    ensures NatToDecimal(n) != [] && AllDigits(NatToDecimal(n))
    ensures DigitsValue(NatToDecimal(n)) == n
    decreases n
  {
    if n >= 10 {
      var hi := NatToDecimal(n / 10);
      var c := DigitChar(n % 10);
      NatToDecimalValue(n / 10);
      HornerSnoc(0, hi, c);
      assert NatToDecimal(n) == hi + [c];
      calc {
        DigitsValue(NatToDecimal(n));
        Horner(0, hi + [c]);
        Horner(0, hi) * 10 + DigitValue(c);
        (n / 10) * 10 + n % 10;
        n;
      }
    } else {
      var c := DigitChar(n);
      assert NatToDecimal(n) == [c];
      assert [c][1..] == [];
      assert Horner(0, [c]) == Horner(DigitValue(c), []);
    }
  }

  /** Itoa and Atoi are inverse on every 64-bit int. */
  lemma AtoiItoa(n: int)
    requires MinInt64 <= n <= MaxInt64
    ensures Atoi(Itoa(n)) == Parsed(n)
  {
    var m := if n < 0 then -n else n;
    NatToDecimalValue(m);
    var s := Itoa(n);
    if n < 0 {
      assert Unsigned(s) == NatToDecimal(m);
    } else {
      assert Unsigned(s) == NatToDecimal(m);
    }
    AtoiSpec(s);
  }

  lemma ItoaNoSeparator(n: int, sep: char)
    requires !IsDigit(sep) && sep != '-'
    ensures sep !in Itoa(n)
  {
    var m := if n < 0 then -n else n;
    NatToDecimalValue(m);
    if n < 0 {
      assert Itoa(n) == "-" + NatToDecimal(m);
    }
  }

  // ---------------------------------------------------------------------
  // strings.Split with a one-character separator

  /** strings.Split(s, [sep]): the fields between occurrences of sep; the
      empty string has one empty field. */
  function Split(s: string, sep: char): (r: seq<string>)
    ensures |r| >= 1
    decreases |s|
  {
    if s == [] then [""]
    else if s[0] == sep then [""] + Split(s[1..], sep)
    else
      var t := Split(s[1..], sep);
      [[s[0]] + t[0]] + t[1..]
  }

  lemma {:induction false} SplitNoSeparator(s: string, sep: char)
    requires sep !in s
    ensures Split(s, sep) == [s]
    decreases |s|
  {
    if s != [] {
      SplitNoSeparator(s[1..], sep);
      assert s == [s[0]] + s[1..];
    }
  }

  lemma {:induction false} SplitAtSeparator(a: string, sep: char, b: string)
    requires sep !in a
    ensures Split(a + [sep] + b, sep) == [a] + Split(b, sep)
    decreases |a|
  {
    if a != [] {
      assert (a + [sep] + b)[1..] == a[1..] + [sep] + b;
      SplitAtSeparator(a[1..], sep, b);
      assert a == [a[0]] + a[1..];
    } else {
      assert (a + [sep] + b)[1..] == b;
    }
  }

  /** Splitting at an occurrence of the separator concatenates the fields
      of both sides. */
  lemma {:induction false} SplitJoin(a: string, sep: char, b: string)
    ensures Split(a + [sep] + b, sep) == Split(a, sep) + Split(b, sep)
    decreases |a|
  {
    if a == [] {
      assert a + [sep] + b == [sep] + b;
      assert ([sep] + b)[1..] == b;
    } else {
      assert (a + [sep] + b)[1..] == a[1..] + [sep] + b;
      assert (a + [sep] + b)[0] == a[0];
      SplitJoin(a[1..], sep, b);
    }
  }

  // ---------------------------------------------------------------------
  // strings.Contains

  /** strings.Contains(s, sub): sub occurs in s at some position. */
  predicate Contains(s: string, sub: string)
    decreases |s|
  {
    if |s| < |sub| then false
    else if s[..|sub|] == sub then true
    else s != [] && Contains(s[1..], sub)
  }

  lemma ContainsEmpty(s: string)
    ensures Contains(s, "")
  {
  }

  /** A string that lacks one of sub's characters does not contain sub. */
  lemma {:induction false} MissingCharNotContained(s: string, sub: string, c: char)
    requires c in sub && c !in s
    ensures !Contains(s, sub)
    decreases |s|
  {
    if |s| >= |sub| {
      var i :| 0 <= i < |sub| && sub[i] == c;
      assert s[..|sub|][i] == s[i];
      if s != [] {
        MissingCharNotContained(s[1..], sub, c);
      }
    }
  }

  /** No position of s holds x followed by y. */
  predicate PairFree(s: string, x: char, y: char)
  {
    forall i :: 0 <= i < |s| - 1 ==> !(s[i] == x && s[i + 1] == y)
  }

  /** A string that lacks one of the adjacent character pairs of sub does
      not contain sub. */
  lemma {:induction false} MissingPairNotContained(s: string, sub: string, j: nat)
    requires j + 1 < |sub| && PairFree(s, sub[j], sub[j + 1])
    ensures !Contains(s, sub)
    decreases |s|
  {
    if |s| >= |sub| {
      assert s[..|sub|][j] == s[j] && s[..|sub|][j + 1] == s[j + 1];
      forall i | 0 <= i < |s[1..]| - 1
        ensures !(s[1..][i] == sub[j] && s[1..][i + 1] == sub[j + 1])
      {
        assert s[1..][i] == s[i + 1] && s[1..][i + 1] == s[i + 2];
      }
      MissingPairNotContained(s[1..], sub, j);
    }
  }

  lemma {:induction false} ContainsDropLast(s: string, sub: string)
    requires s != [] && Contains(s[..|s| - 1], sub)
    ensures Contains(s, sub)
    decreases |s|
  {
    var t := s[..|s| - 1];
    if t[..|sub|] != sub {
      assert t[1..] == s[1..][..|s[1..]| - 1];
      ContainsDropLast(s[1..], sub);
    } else {
      assert s[..|sub|] == t[..|sub|];
    }
  }

  lemma {:induction false} ContainsInSlice(s: string, i: nat, j: nat, sub: string)
    requires i <= j <= |s| && Contains(s[i..j], sub)
    ensures Contains(s, sub)
    decreases |s| - j + i
  {
    if j < |s| {
      assert s[i..j] == s[i..j + 1][..|s[i..j + 1]| - 1];
      ContainsDropLast(s[i..j + 1], sub);
      ContainsInSlice(s, i, j + 1, sub);
    } else if i > 0 {
      assert s[i..j] == s[i - 1..j][1..];
      ContainsInSlice(s, i - 1, j, sub);
    } else {
      assert s[i..j] == s;
    }
  }

  // ---------------------------------------------------------------------
  // strings.Replace(s, pat, rep, -1)

  /** strings.Replace with n = -1: every non-overlapping occurrence of pat,
      scanning from the left, is replaced by rep; an empty pat matches at the
      start and after every character. */
  function Replace(s: string, pat: string, rep: string): string
    decreases |s|
  {
    if pat == [] then ReplaceEmpty(s, rep)
    else if |s| < |pat| then s
    else if s[..|pat|] == pat then rep + Replace(s[|pat|..], pat, rep)
    else [s[0]] + Replace(s[1..], pat, rep)
  }

  function ReplaceEmpty(s: string, rep: string): string
    decreases |s|
  {
    if s == [] then rep else rep + [s[0]] + ReplaceEmpty(s[1..], rep)
  }

  /** Replacing a string that does not occur leaves s unchanged. */
  lemma {:induction false} ReplaceAbsent(s: string, pat: string, rep: string)
    requires !Contains(s, pat)
    ensures Replace(s, pat, rep) == s
    decreases |s|
  {
    if |s| >= |pat| {
      ReplaceAbsent(s[1..], pat, rep);
    }
  }

  /** s starts with pat. */
  predicate StartsWith(s: string, pat: string)
  {
    |s| >= |pat| && s[..|pat|] == pat
  }

  /** Replace on a string that starts with a non-empty pat. */
  lemma ReplaceMatch(s: string, pat: string, rep: string)
    requires pat != [] && StartsWith(s, pat)
    ensures Replace(s, pat, rep) == rep + Replace(s[|pat|..], pat, rep)
  {
  }

  /** Replace on a string that does not start with a non-empty pat copies
      the first character. */
  lemma ReplaceSkip(c: char, s: string, pat: string, rep: string)
    requires pat != [] && !StartsWith([c] + s, pat)
    ensures Replace([c] + s, pat, rep) == [c] + Replace(s, pat, rep)
  {
    var t := [c] + s;
    assert t[1..] == s;
    if |t| < |pat| {
      assert Replace(s, pat, rep) == s;
    }
  }

  /** Replace works on the leftmost occurrence first: when the first
      occurrence of pat in s starts right after a, the result is a, then rep,
      then the replacement applied to what follows the occurrence. */
  lemma {:induction false} ReplaceLeftmost(a: string, pat: string, b: string, rep: string)
    requires pat != []
    requires !Contains(a + pat[..|pat| - 1], pat)
    ensures Replace(a + pat + b, pat, rep) == a + rep + Replace(b, pat, rep)
    decreases |a|
  {
    if a == [] {
      assert (a + pat + b)[..|pat|] == pat;
      assert (a + pat + b)[|pat|..] == b;
      ReplaceMatch(a + pat + b, pat, rep);
    } else {
      var c, a1 := a[0], a[1..];
      var rest := a1 + pat + b;
      var t := a + pat[..|pat| - 1];
      assert a + pat + b == [c] + rest;
      assert !StartsWith([c] + rest, pat) by {
        assert t[..|pat|] == (a + pat + b)[..|pat|];
      }
      assert t[1..] == a1 + pat[..|pat| - 1];
      var tail := Replace(b, pat, rep);
      ReplaceLeftmost(a1, pat, b, rep);
      ReplaceSkip(c, rest, pat, rep);
      assert Replace(a + pat + b, pat, rep) == [c] + (a1 + rep + tail);
      assert a == [c] + a1;
      Append4([c], a1, rep, tail);
    }
  }

  lemma Append3(a: string, b: string, c: string)
    ensures a + (b + c) == a + b + c
  {
  }

  lemma Append4(a: string, b: string, c: string, d: string)
    ensures a + (b + c + d) == a + b + c + d
  {
  }

  /** No occurrence of pat straddles the seam of a + b when one of the two
      characters at the seam does not occur in pat. */
  lemma NoStraddle(a: string, b: string, pat: string)
    requires a != [] && |a| < |pat| && SeamFree(a, b, pat)
    ensures !StartsWith(a + b, pat)
  {
    if StartsWith(a + b, pat) {
      StraddleChars(a, b, pat);
      assert false;
    }
  }

  /** An occurrence of pat at the start of a + b that runs past a holds both
      characters at the seam. */
  lemma StraddleChars(a: string, b: string, pat: string)
    requires a != [] && |a| < |pat| && StartsWith(a + b, pat)
    ensures b != [] && a[|a| - 1] in pat && b[0] in pat
  {
    assert pat[|a| - 1] == (a + b)[|a| - 1];
    assert pat[|a|] == (a + b)[|a|];
  }

  /** No occurrence of pat can straddle the seam of a + b: one of the two
      characters at the seam does not occur in pat. */
  predicate SeamFree(a: string, b: string, pat: string)
  {
    a == [] || b == [] || a[|a| - 1] !in pat || b[0] !in pat
  }

  /** Replace distributes over a concatenation whose seam no occurrence of
      pat can straddle. */
  lemma {:induction false} ReplaceConcat(a: string, b: string, pat: string, rep: string)
    requires pat != [] && SeamFree(a, b, pat)
    ensures Replace(a + b, pat, rep) == Replace(a, pat, rep) + Replace(b, pat, rep)
    decreases |a|, 1
  {
    if a == [] {
      assert a + b == b;
    } else if StartsWith(a, pat) {
      ReplaceConcatMatch(a, b, pat, rep);
    } else {
      ReplaceConcatSkip(a, b, pat, rep);
    }
  }

  lemma {:induction false} ReplaceConcatMatch(a: string, b: string, pat: string, rep: string)
    requires pat != [] && SeamFree(a, b, pat) && StartsWith(a, pat)
    ensures Replace(a + b, pat, rep) == Replace(a, pat, rep) + Replace(b, pat, rep)
    decreases |a|, 0
  {
    var ab, a2 := a + b, a[|pat|..];
    assert ab[..|pat|] == a[..|pat|];
    assert ab[|pat|..] == a2 + b;
    assert a2 != [] ==> a2[|a2| - 1] == a[|a| - 1];
    ReplaceMatch(a, pat, rep);
    ReplaceMatch(ab, pat, rep);
    ReplaceConcat(a2, b, pat, rep);
    Append3(rep, Replace(a2, pat, rep), Replace(b, pat, rep));
  }

  lemma {:induction false} ReplaceConcatSkip(a: string, b: string, pat: string, rep: string)
    requires pat != [] && SeamFree(a, b, pat) && a != [] && !StartsWith(a, pat)
    ensures Replace(a + b, pat, rep) == Replace(a, pat, rep) + Replace(b, pat, rep)
    decreases |a|, 0
  {
    var ab, c, a1 := a + b, a[0], a[1..];
    if |a| >= |pat| {
      assert ab[..|pat|] == a[..|pat|];
    } else {
      NoStraddle(a, b, pat);
    }
    assert ab == [c] + (a1 + b);
    assert a == [c] + a1;
    assert a1 != [] ==> a1[|a1| - 1] == a[|a| - 1];
    ReplaceSkip(c, a1 + b, pat, rep);
    ReplaceSkip(c, a1, pat, rep);
    ReplaceConcat(a1, b, pat, rep);
    Append3([c], Replace(a1, pat, rep), Replace(b, pat, rep));
  }

  // ---------------------------------------------------------------------
  // strings.TrimSpace

  /** unicode.IsSpace: the Unicode White_Space property. */
  predicate IsSpace(c: char)
  {
    c == '\t' || c == '\n' || c == '\U{0B}' || c == '\U{0C}' || c == '\r' || c == ' '
    || c == '\U{85}' || c == '\U{A0}' || c == '\U{1680}'
    || ('\U{2000}' <= c <= '\U{200A}')
    || c == '\U{2028}' || c == '\U{2029}' || c == '\U{202F}' || c == '\U{205F}' || c == '\U{3000}'
  }

  /** The number of white-space characters at the start of s. */
  function LeadingSpaces(s: string): (n: nat)
    ensures n <= |s|
    decreases |s|
  {
    if s != [] && IsSpace(s[0]) then 1 + LeadingSpaces(s[1..]) else 0
  }

  /** The length of s without its trailing white space. */
  function TrailingCut(s: string): (n: nat)
    ensures n <= |s|
    decreases |s|
  {
    if s != [] && IsSpace(s[|s| - 1]) then TrailingCut(s[..|s| - 1]) else |s|
  }

  /** strings.TrimSpace: s without leading and trailing white space. */
  function TrimSpace(s: string): string
  {
    var t := s[LeadingSpaces(s)..];
    t[..TrailingCut(t)]
  }

  lemma {:induction false} LeadingSpacesEnd(s: string)
    ensures LeadingSpaces(s) == |s| || !IsSpace(s[LeadingSpaces(s)])
    ensures forall k :: 0 <= k < LeadingSpaces(s) ==> IsSpace(s[k])
    decreases |s|
  {
    if s != [] && IsSpace(s[0]) {
      LeadingSpacesEnd(s[1..]);
    }
  }

  lemma {:induction false} TrailingCutEnd(s: string)
    ensures TrailingCut(s) == 0 || !IsSpace(s[TrailingCut(s) - 1])
    ensures forall k :: TrailingCut(s) <= k < |s| ==> IsSpace(s[k])
    decreases |s|
  {
    if s != [] && IsSpace(s[|s| - 1]) {
      TrailingCutEnd(s[..|s| - 1]);
    }
  }

  /** TrimSpace removes white space only: the result is a slice of s with no
      white space at either end, and everything cut off is white space. */
  lemma TrimSpaceSpec(s: string)
    ensures exists i, j ::
              (0 <= i <= j <= |s| && TrimSpace(s) == s[i..j]
               && (forall k :: 0 <= k < i ==> IsSpace(s[k]))
               && (forall k :: j <= k < |s| ==> IsSpace(s[k])))
    ensures TrimSpace(s) == [] || (!IsSpace(TrimSpace(s)[0]) && !IsSpace(TrimSpace(s)[|TrimSpace(s)| - 1]))
  {
    var i := LeadingSpaces(s);
    var t := s[i..];
    var n := TrailingCut(t);
    LeadingSpacesEnd(s);
    TrailingCutEnd(t);
    assert TrimSpace(s) == s[i..i + n];
    assert forall k :: i + n <= k < |s| ==> s[k] == t[k - i];
  }

  /** Trimming never creates an occurrence of a string. */
  lemma TrimSpaceKeepsAbsence(s: string, sub: string)
    requires !Contains(s, sub)
    ensures !Contains(TrimSpace(s), sub)
  {
    var i := LeadingSpaces(s);
    var n := TrailingCut(s[i..]);
    assert TrimSpace(s) == s[i..i + n];
    if Contains(TrimSpace(s), sub) {
      ContainsInSlice(s, i, i + n, sub);
    }
  }
}
