/** `strtoll` of libc/strtoll.c:6-80 against the value of the longest run of digits. */
module Strtoll {
  import opened Basics

  const MAX := 0x7fff_ffff_ffff_ffff
  const MIN := -0x8000_0000_0000_0000

  datatype Errno = Unchanged | EINVAL | ERANGE

  /** `value` is what is returned, `end` the index stored through the end pointer; None leaves it alone. */
  datatype Result = Result(value: int, end: Option<nat>, errno: Errno)

  /** Whose digits are meant: the proper ones, or the ones the code takes. */
  datatype Digits = Proper | Taken

  // ------------------------------------------------------------ digits

  predicate Space(c: char) {
    c == ' ' || 9 <= c as int < 14
  }

  function Lower(c: char): int {
    if 'A' <= c <= 'Z' then c as int + 32 else c as int
  }

  /** The digit's value in this base, or -1. */
  function ProperDigit(c: char, base: int): int {
    var l := Lower(c);
    if '0' as int <= l <= '9' as int && l - '0' as int < base then l - '0' as int
    else if 'a' as int <= l <= 'z' as int && l - 'a' as int + 10 < base then l - 'a' as int + 10
    else -1
  }

  /** The two tests of the loop, as they stand: the first has no upper bound of its own. */
  function TakenDigit(c: char, base: int): int {
    var l := Lower(c);
    if l >= '0' as int && l - '0' as int < base then l - '0' as int
    else if l >= 'a' as int && l - 'a' as int + 10 < base then l - 'a' as int + 10
    else -1
  }

  /** The characters behind '9' that the first test lets through in bases above 10. */
  predicate Stray(c: char, base: int) {
    ':' <= c <= '@' && c as int < '0' as int + base
  }

  /** The code takes exactly the proper digits and the strays. */
  lemma TakenIs(c: char, base: int)
    requires 1 <= base <= 36
    ensures TakenDigit(c, base) == if Stray(c, base) then c as int - '0' as int else ProperDigit(c, base)
    ensures Stray(c, base) ==> ProperDigit(c, base) == -1 && base > 10
  {
  }

  function Digit(c: char, base: int, how: Digits): int {
    match how
    case Proper => ProperDigit(c, base)
    case Taken => TakenDigit(c, base)
  }

  // ------------------------------------------------------------ the specification

  function Spaces(s: string): (n: nat)
    ensures n <= |s|
  {
    if s != "" && Space(s[0]) then 1 + Spaces(s[1..]) else 0
  }

  /** The length of the longest run of digits. */
  function Run(s: string, base: int, how: Digits): (n: nat)
    ensures n <= |s|
    ensures forall i :: 0 <= i < n ==> Digit(s[i], base, how) >= 0
    ensures n < |s| ==> Digit(s[n], base, how) < 0
  {
    if s != "" && Digit(s[0], base, how) >= 0 then 1 + Run(s[1..], base, how) else 0
  }

  /** The number that a run of digits stands for. */
  function Value(ds: string, base: int, how: Digits): int {
    if ds == "" then 0 else Value(ds[..|ds| - 1], base, how) * base + Digit(ds[|ds| - 1], base, how)
  }

  predicate AllDigits(ds: string, base: int, how: Digits) {
    forall i :: 0 <= i < |ds| ==> Digit(ds[i], base, how) >= 0
  }

  predicate Hex(s: string, i: nat) {
    Ch(s, i) == '0' && (Ch(s, i + 1) == 'x' || Ch(s, i + 1) == 'X')
  }

  /** What the text asks for: the sign, the base and where its digits start. */
  datatype Form = Form(neg: bool, base: int, start: nat)

  function FormOf(s: string, base: int): (f: Form)
    ensures base >= 0 ==> f.base >= 1
    ensures 0 <= base <= 36 ==> f.base <= 36
    ensures f.start >= Spaces(s)
  {
    var i := Spaces(s);
    var signed := Ch(s, i) == '+' || Ch(s, i) == '-';
    var j := if signed then i + 1 else i;
    var b := if base != 0 then base else if Hex(s, j) then 16 else if Ch(s, j) == '0' then 8 else 10;
    Form(Ch(s, i) == '-', b, if b == 16 && Hex(s, j) then j + 2 else j)
  }

  function DigitsOf(s: string, f: Form, how: Digits): (ds: string)
    ensures AllDigits(ds, f.base, how)
  {
    if f.start <= |s| then s[f.start..][..Run(s[f.start..], f.base, how)] else ""
  }

  function Clamp(v: int): int {
    if v > MAX then MAX else if v < MIN then MIN else v
  }

  /** The place of the digit with which a run passes LLONG_MAX. */
  function Over(ds: string, base: int, how: Digits): (k: nat)
    requires Value(ds, base, how) > MAX
    ensures k < |ds| && Value(ds[..k], base, how) <= MAX < Value(ds[..k + 1], base, how)
  {
    var front := ds[..|ds| - 1];
    if Value(front, base, how) > MAX then
      var k := Over(front, base, how);
      assert ds[..k] == front[..k] && ds[..k + 1] == front[..k + 1];
      k
    else
      assert ds[..|ds|] == ds;
      |ds| - 1
  }

  /** What a run of digits gives: its signed value, saturated; ERANGE exactly when the magnitude is above LLONG_MAX, so
      also for -2^63, which is returned exactly; the end pointer behind the run, at the digit that was too much, or at
      the beginning if nothing but blanks was read. */
  function Outcome(f: Form, ds: string, blanks: nat, how: Digits): Result {
    var v := Value(ds, f.base, how);
    var signed := Clamp(if f.neg then 0 - v else v);
    if v > MAX then Result(signed, Some(f.start + Over(ds, f.base, how)), ERANGE)
    else Result(signed, Some(if f.start + |ds| == blanks then 0 else f.start + |ds|), Unchanged)
  }

  /** The whole function over a choice of digits. */
  function Convert(s: string, base: int, how: Digits): Result {
    if !(0 <= base <= 36) then Result(0, None, EINVAL)
    else Outcome(FormOf(s, base), DigitsOf(s, FormOf(s, base), how), Spaces(s), how)
  }

  // ------------------------------------------------------------ arithmetic

  lemma ScaleUp(v: int, base: int)
    requires v >= 0 && base >= 1
    ensures v * base >= v
  {
  }

  lemma {:induction false} ValueGrows(ds: string, base: int, how: Digits, k: nat)
    requires base >= 1 && k <= |ds| && AllDigits(ds, base, how)
    ensures 0 <= Value(ds[..k], base, how) <= Value(ds, base, how)
    decreases |ds|
  {
    if k == |ds| {
      assert ds[..k] == ds;
      if ds != "" {
        ValueGrows(ds[..k - 1], base, how, k - 1);
        ScaleUp(Value(ds[..k - 1], base, how), base);
      }
    } else {
      var front := ds[..|ds| - 1];
      ValueGrows(front, base, how, k);
      assert front[..k] == ds[..k];
      ScaleUp(Value(front, base, how), base);
    }
  }

  /** The overflow test before the multiplication. */
  lemma MulTest(res: int, base: int)
    requires 0 <= res <= MAX && base >= 1
    ensures res > MAX / base <==> res * base > MAX
  {
    var q := MAX / base;
    assert MAX == q * base + MAX % base;
    if res > q {
      AtLeast(res, q + 1, base);
      assert (q + 1) * base == q * base + base;
    } else {
      AtLeast(q, res, base);
    }
  }

  lemma AtLeast(x: int, y: int, base: int)
    requires x >= y && base >= 1
    ensures x * base >= y * base
  {
  }

  // ------------------------------------------------------------ the function

  method SkipSpaces(s: string) returns (i: nat)
    requires CString(s)
    ensures i == Spaces(s) && i <= |s|
  {
    i := 0;
    assert s[0..] == s;
    while Ch(s, i) != NUL && Space(Ch(s, i))
      invariant i <= |s| && i + Spaces(s[i..]) == Spaces(s)
      decreases |s| - i
    {
      assert s[i..][1..] == s[i + 1..];
      i := i + 1;
    }
  }

  /** The head of the function: blanks, sign, base and prefix. */
  method Head(s: string, base: int) returns (afterspace: nat, f: Form)
    requires CString(s) && 0 <= base <= 36
    ensures afterspace == Spaces(s) && f == FormOf(s, base) && 1 <= f.base <= 36 && afterspace <= f.start <= |s|
  {
    var i := SkipSpaces(s);
    afterspace := i;
    var neg, b := false, base;
    if Ch(s, i) == '+' {
      i := i + 1;
    } else if Ch(s, i) == '-' {
      i := i + 1;
      neg := true;
    }
    if b == 0 {
      if Ch(s, i) == '0' && (Ch(s, i + 1) == 'x' || Ch(s, i + 1) == 'X') {
        b := 16;
      } else if Ch(s, i) == '0' {
        b := 8;
      } else {
        b := 10;
      }
    }
    if b == 16 && Ch(s, i) == '0' && (Ch(s, i + 1) == 'x' || Ch(s, i + 1) == 'X') {
      i := i + 2;
    }
    f := Form(neg, b, i);
  }

  /** The digit loop: the value of the whole run of taken digits, or the index of the digit that is one too many. */
  method DigitLoop(s: string, start: nat, base: int) returns (res: int, i: nat, over: bool)
    requires CString(s) && start <= |s| && 1 <= base <= 36
    ensures var ds := s[start..][..Run(s[start..], base, Taken)];
            && over == (Value(ds, base, Taken) > MAX)
            && (!over ==> res == Value(ds, base, Taken) && 0 <= res && i == start + |ds|)
            && (over ==> i == start + Over(ds, base, Taken))
  {
    hide Digit;
    ghost var ds := s[start..][..Run(s[start..], base, Taken)];
    res, i := 0, start;
    while Ch(s, i) != NUL
      invariant start <= i <= start + |ds| && res == Value(ds[..i - start], base, Taken) && 0 <= res <= MAX
      decreases |s| - i
    {
      var c := Lower(Ch(s, i));
      var n;
      TakenAt(Ch(s, i), base);
      if c >= '0' as int && c - '0' as int < base {
        n := c - '0' as int;
      } else if c >= 'a' as int && c - 'a' as int + 10 < base {
        n := c - 'a' as int + 10;
      } else {
        break;
      }
      ghost var k := i - start;
      assert ds[k] == s[i];
      assert ds[..k + 1][..k] == ds[..k];
      ValueGrows(ds, base, Taken, k + 1);
      MulTest(res, base);
      if res > MAX / base {
        OverIs(ds, base, Taken, k);
        return res, i, true;
      }
      res := res * base;
      if res > MAX - n {
        OverIs(ds, base, Taken, k);
        return res, i, true;
      }
      res := res + n;
      i := i + 1;
    }
    over := false;
    assert i == start + |ds|;
    assert ds[..|ds|] == ds;
  }

  lemma TakenAt(c: char, base: int)
    requires 1 <= base <= 36
    ensures Digit(c, base, Taken) == TakenDigit(c, base)
  {
  }

  lemma {:induction false} OverIs(ds: string, base: int, how: Digits, k: nat)
    requires base >= 1 && AllDigits(ds, base, how) && k < |ds|
    requires Value(ds[..k], base, how) <= MAX < Value(ds[..k + 1], base, how)
    ensures Value(ds, base, how) > MAX && Over(ds, base, how) == k
    decreases |ds|
  {
    ValueGrows(ds, base, how, k + 1);
    var front := ds[..|ds| - 1];
    if k < |front| {
      assert front[..k] == ds[..k] && front[..k + 1] == ds[..k + 1];
      OverIs(front, base, how, k);
    } else {
      assert front == ds[..k];
    }
  }

  /** `strtoll`. */
  method Strtoll(s: string, base: int) returns (r: Result)
    requires CString(s)
    ensures r == Convert(s, base, Taken)
  {
    hide FormOf, Run, Value, Over;
    if base < 0 || base > 36 {
      return Result(0, None, EINVAL);
    }
    var afterspace, f := Head(s, base);
    var res, i, over := DigitLoop(s, f.start, f.base);
    if over {
      return Result(if f.neg then MIN else MAX, Some(i), ERANGE);
    }
    return Result(if f.neg then 0 - res else res, Some(if i == afterspace then 0 else i), Unchanged);
  }

  // ------------------------------------------------------------ where the code meets the specification

  lemma {:induction false} SameValue(ds: string, base: int)
    requires 1 <= base <= 36 && AllDigits(ds, base, Proper)
    ensures AllDigits(ds, base, Taken) && Value(ds, base, Taken) == Value(ds, base, Proper)
  {
    if ds != "" {
      SameValue(ds[..|ds| - 1], base);
      TakenIs(ds[|ds| - 1], base);
    }
  }

  lemma {:induction false} SameOver(ds: string, base: int)
    requires 1 <= base <= 36 && AllDigits(ds, base, Proper) && Value(ds, base, Proper) > MAX
    ensures Value(ds, base, Taken) > MAX && Over(ds, base, Taken) == Over(ds, base, Proper)
  {
    SameValue(ds, base);
    var k := Over(ds, base, Proper);
    SameValue(ds[..k], base);
    SameValue(ds[..k + 1], base);
    OverIs(ds, base, Taken, k);
  }

  /** The run that the code takes begins with the proper one, and goes on iff a stray stands behind that. */
  lemma {:induction false} RunsOn(s: string, base: int)
    requires 1 <= base <= 36
    ensures var k := Run(s, base, Proper);
            k <= Run(s, base, Taken) && (k < Run(s, base, Taken) <==> Stray(Ch(s, k), base))
  {
    if s != "" {
      TakenIs(s[0], base);
      if ProperDigit(s[0], base) >= 0 {
        RunsOn(s[1..], base);
      }
    }
  }

  /** The character behind the proper digits. */
  function Behind(s: string, base: int): char {
    Ch(s, FormOf(s, base).start + |DigitsOf(s, FormOf(s, base), Proper)|)
  }

  lemma OverflowsAlike(ds: string, es: string, base: int)
    requires 1 <= base <= 36 && AllDigits(ds, base, Proper) && AllDigits(es, base, Taken)
    requires ds <= es && Value(ds, base, Proper) > MAX
    ensures Value(es, base, Taken) > MAX && Over(es, base, Taken) == Over(ds, base, Proper)
  {
    hide Value, Over, Digit, AllDigits;
    SameOver(ds, base);
    var k := Over(ds, base, Taken);
    Prefixes(ds, es, k);
    OverIs(es, base, Taken, k);
  }

  lemma Prefixes(ds: string, es: string, k: nat)
    requires ds <= es && k < |ds|
    ensures es[..k] == ds[..k] && es[..k + 1] == ds[..k + 1]
  {
  }

  /** A run that overflows gives the same outcome however it goes on. */
  lemma SameOverflow(f: Form, ds: string, es: string, blanks: nat)
    requires 1 <= f.base <= 36 && AllDigits(ds, f.base, Proper) && AllDigits(es, f.base, Taken)
    requires ds <= es && Value(ds, f.base, Proper) > MAX
    ensures Outcome(f, es, blanks, Taken) == Outcome(f, ds, blanks, Proper)
  {
    hide Value, Over, AllDigits;
    OverflowsAlike(ds, es, f.base);
  }

  /** A run that goes on differs: in the end pointer, or in the flag. */
  lemma LongerDiffers(f: Form, ds: string, es: string, blanks: nat)
    requires 1 <= f.base <= 36 && blanks <= f.start && |ds| < |es| && Value(ds, f.base, Proper) <= MAX
    ensures Outcome(f, es, blanks, Taken) != Outcome(f, ds, blanks, Proper)
  {
    hide Value, Over;
  }

  lemma SameRun(f: Form, ds: string, blanks: nat)
    requires 1 <= f.base <= 36 && AllDigits(ds, f.base, Proper)
    ensures Outcome(f, ds, blanks, Taken) == Outcome(f, ds, blanks, Proper)
  {
    hide Value, Over, Digit;
    SameValue(ds, f.base);
    if Value(ds, f.base, Proper) > MAX {
      SameOver(ds, f.base);
    }
  }

  /** How the two runs of a text relate. */
  lemma DigitRuns(s: string, f: Form)
    requires 1 <= f.base <= 36
    ensures var ds, es := DigitsOf(s, f, Proper), DigitsOf(s, f, Taken);
            ds <= es && (|ds| < |es| <==> Stray(Ch(s, f.start + |ds|), f.base))
  {
    hide Stray, Digit;
    if f.start <= |s| {
      RunsOn(s[f.start..], f.base);
      assert Ch(s[f.start..], |DigitsOf(s, f, Proper)|) == Ch(s, f.start + |DigitsOf(s, f, Proper)|);
    } else {
      NoStrayAtEnd(f.base);
    }
  }

  /** The exact condition: the code meets the specification iff the proper digits overflow already, or no stray stands
      behind them.  In bases up to 10 there are no strays. */
  lemma AgreesIff(s: string, base: int)
    requires 0 <= base <= 36
    ensures var f := FormOf(s, base);
            Convert(s, base, Taken) == Convert(s, base, Proper)
            <==> Value(DigitsOf(s, f, Proper), f.base, Proper) > MAX || !Stray(Behind(s, base), f.base)
  {
    hide FormOf, Value, Over, Stray, Outcome, DigitsOf, AllDigits;
    var f := FormOf(s, base);
    var ds, es := DigitsOf(s, f, Proper), DigitsOf(s, f, Taken);
    DigitRuns(s, f);
    if Value(ds, f.base, Proper) > MAX {
      SameOverflow(f, ds, es, Spaces(s));
    } else if |ds| < |es| {
      LongerDiffers(f, ds, es, Spaces(s));
    } else {
      assert ds == es;
      SameRun(f, ds, Spaces(s));
    }
  }

  lemma NoStrayAtEnd(base: int)
    ensures !Stray(NUL, base)
  {
  }

  /** The text ":" is read as ten in base 16, where it holds no digit. */
  lemma ColonIsTen()
    ensures Convert(":", 16, Taken) == Result(10, Some(1), Unchanged)
    ensures Convert(":", 16, Proper) == Result(0, Some(0), Unchanged)
  {
    var f := FormOf(":", 16);
    assert f == Form(false, 16, 0) && ":"[0..] == ":" && ":"[..1] == ":" && ":"[1..] == "";
    assert Run(":", 16, Taken) == 1 + Run("", 16, Taken) == 1;
    assert Run(":", 16, Proper) == 0;
    assert Value(":", 16, Taken) == Value("", 16, Taken) * 16 + 10 == 10;
  }

  lemma SmallBasesAgree(s: string, base: int)
    requires 0 <= base <= 36 && FormOf(s, base).base <= 10
    ensures Convert(s, base, Taken) == Convert(s, base, Proper)
  {
    AgreesIff(s, base);
  }

  // ------------------------------------------------------------ reading numerals

  /** The digits, in small or in capital letters. */
  function DigitChar(d: nat, caps: bool): char
    requires d < 36
  {
    if d < 10 then ('0' as int + d) as char else ((if caps then 'A' else 'a') as int + d - 10) as char
  }

  lemma Quotient(n: nat, base: nat)
    requires n >= base >= 2
    ensures 0 < n / base < n && n == n / base * base + n % base && 0 <= n % base < base
  {
    var q := n / base;
    assert n == q * base + n % base;
    if q >= 1 { AtLeast(base, 2, q); }
  }

  /** The usual way to write a number. */
  function Numeral(n: nat, base: nat, caps: bool): (r: string)
    requires 2 <= base <= 36
    ensures r != ""
  {
    if n < base then [DigitChar(n, caps)]
    else
      Quotient(n, base);
      Numeral(n / base, base, caps) + [DigitChar(n % base, caps)]
  }

  /** Blanks, tabs and what ends lines and pages. */
  predicate Blank(c: char) {
    c == ' ' || c == '\t' || c == '\n' || c as int == 11 || c as int == 12 || c == '\r'
  }

  /** No numeral in this base has such a character, nor is it a stray. */
  ghost predicate NoDigit(c: char, base: nat)
    requires base <= 36
  {
    !Stray(c, base) && forall d: nat, caps :: d < base ==> c != DigitChar(d, caps)
  }

  /** What is read in base `b` when `base` is given: the base itself, "0x" for 16, with base 0 also "0" for 8 and
      nothing for 10.  A zero before an "x" would be taken for the prefix. */
  predicate Selects(base: int, prefix: string, b: nat, n: nat, rest: string) {
    var x := Ch(rest, 0) == 'x' || Ch(rest, 0) == 'X';
    || (base == b && prefix == "" && !(b == 16 && n == 0 && x))
    || ((base == 16 || base == 0) && b == 16 && (prefix == "0x" || prefix == "0X"))
    || (base == 0 && b == 8 && prefix == "0")
    || (base == 0 && b == 8 && prefix == "" && n == 0 && !x)
    || (base == 0 && b == 10 && prefix == "" && n > 0)
  }

  lemma DigitCharIs(d: nat, base: nat, caps: bool)
    requires d < base <= 36
    ensures ProperDigit(DigitChar(d, caps), base) == TakenDigit(DigitChar(d, caps), base) == d
    ensures DigitChar(d, caps) == '0' <==> d == 0
    ensures !Space(DigitChar(d, caps)) && DigitChar(d, caps) != '+' && DigitChar(d, caps) != '-'
    ensures DigitChar(d, caps) == 'x' || DigitChar(d, caps) == 'X' ==> d == 33
  {
  }

  lemma NoDigitIs(c: char, base: nat)
    requires 2 <= base <= 36
    ensures NoDigit(c, base) <==> TakenDigit(c, base) < 0
  {
    var v := TakenDigit(c, base);
    if v >= 0 {
      if !Stray(c, base) {
        var caps := 'A' <= c <= 'Z';
        assert c == DigitChar(v, caps);
      }
    } else {
      forall d: nat, caps | d < base ensures c != DigitChar(d, caps) {
        DigitCharIs(d, base, caps);
      }
    }
  }

  /** The numeral of a number stands for it, and begins with a zero for zero only. */
  lemma {:induction false} NumeralIs(n: nat, base: nat, caps: bool)
    requires 2 <= base <= 36
    ensures var ds := Numeral(n, base, caps);
            && AllDigits(ds, base, Taken) && Value(ds, base, Taken) == n
            && (ds[0] == '0' <==> n == 0) && (n == 0 ==> |ds| == 1)
    ensures var c := Numeral(n, base, caps)[0];
            !Space(c) && c != '+' && c != '-' && (base <= 16 ==> c != 'x' && c != 'X')
  {
    hide Digit, Space, Over, Value;
    TakenIsDigit(n % base, base, caps);
    if n < base {
      TakenIsDigit(n, base, caps);
      OneDigit(DigitChar(n, caps), base);
    } else {
      Quotient(n, base);
      NumeralIs(n / base, base, caps);
      OneMore(Numeral(n / base, base, caps), DigitChar(n % base, caps), base);
    }
  }

  lemma OneDigit(c: char, base: int)
    requires base >= 1
    ensures Value([c], base, Taken) == Digit(c, base, Taken)
  {
    hide Digit;
    assert [c][..0] == "" && Value("", base, Taken) == 0;
  }

  lemma OneMore(front: string, c: char, base: int)
    requires base >= 1 && front != "" && AllDigits(front, base, Taken) && Digit(c, base, Taken) >= 0
    ensures var ds := front + [c];
            && AllDigits(ds, base, Taken) && ds[0] == front[0]
            && Value(ds, base, Taken) == Value(front, base, Taken) * base + Digit(c, base, Taken)
            && (Value(front, base, Taken) <= MAX < Value(ds, base, Taken) ==> Over(ds, base, Taken) == |ds| - 1)
  {
    hide Digit, Over;
    var ds := front + [c];
    assert ds[..|ds| - 1] == front && ds[..|ds|] == ds;
    if Value(front, base, Taken) <= MAX < Value(ds, base, Taken) {
      OverIs(ds, base, Taken, |front|);
    }
  }

  /** A number that just passes LLONG_MAX does so with the last digit of its numeral. */
  lemma NumeralOver(n: nat, base: nat, caps: bool)
    requires 2 <= base <= 36 && n > MAX && n / base <= MAX
    ensures Value(Numeral(n, base, caps), base, Taken) > MAX
    ensures Over(Numeral(n, base, caps), base, Taken) == |Numeral(n, base, caps)| - 1
  {
    hide Digit, Value, Over, AllDigits, Numeral, DigitChar;
    NumeralIs(n, base, caps);
    Quotient(n, base);
    var q, r := n / base, n % base;
    NumeralStep(n, base, caps);
    NumeralIs(q, base, caps);
    TakenIsDigit(r, base, caps);
    OneMore(Numeral(q, base, caps), DigitChar(r, caps), base);
  }

  lemma NumeralStep(n: nat, base: nat, caps: bool)
    requires 2 <= base <= 36 && n >= base
    ensures Numeral(n, base, caps) == Numeral(n / base, base, caps) + [DigitChar(n % base, caps)]
  {
  }

  lemma TakenIsDigit(d: nat, base: nat, caps: bool)
    requires d < base <= 36 && 2 <= base
    ensures Digit(DigitChar(d, caps), base, Taken) == d
    ensures DigitChar(d, caps) == '0' <==> d == 0
    ensures !Space(DigitChar(d, caps)) && DigitChar(d, caps) != '+' && DigitChar(d, caps) != '-'
    ensures base <= 16 ==> DigitChar(d, caps) != 'x' && DigitChar(d, caps) != 'X'
  {
    DigitCharIs(d, base, caps);
  }

  lemma {:induction false} SpacesAre(blanks: string, tail: string)
    requires (forall i :: 0 <= i < |blanks| ==> Blank(blanks[i])) && (tail == "" || !Space(tail[0]))
    ensures Spaces(blanks + tail) == |blanks|
  {
    if blanks == "" {
      assert blanks + tail == tail;
    } else {
      assert (blanks + tail)[1..] == blanks[1..] + tail && (blanks + tail)[0] == blanks[0];
      SpacesAre(blanks[1..], tail);
    }
  }

  lemma {:induction false} RunIs(ds: string, rest: string, base: int)
    requires AllDigits(ds, base, Taken) && (rest == "" || Digit(rest[0], base, Taken) < 0)
    ensures Run(ds + rest, base, Taken) == |ds|
  {
    if ds == "" {
      assert ds + rest == rest;
    } else {
      assert (ds + rest)[1..] == ds[1..] + rest && (ds + rest)[0] == ds[0];
      RunIs(ds[1..], rest, base);
    }
  }

  lemma ChAt(a: string, b: string, j: nat)
    ensures Ch(a + b, |a| + j) == Ch(b, j)
  {
  }

  predicate Sign(sign: string) {
    sign == "" || sign == "+" || sign == "-"
  }

  /** What is skipped of the prefix: the zero of an octal number is one of its digits. */
  function Skipped(prefix: string): nat {
    if |prefix| == 2 then 2 else 0
  }

  /** What the text behind the sign begins with. */
  lemma BodyBegins(base: int, prefix: string, b: nat, n: nat, caps: bool, rest: string)
    requires 2 <= b <= 36 && Selects(base, prefix, b, n, rest) && (rest == "" || NoDigit(rest[0], b))
    ensures var body := prefix + Numeral(n, b, caps) + rest;
            && body != "" && !Space(body[0]) && body[0] != '+' && body[0] != '-'
            && b == (if base != 0 then base else if Hex(body, 0) then 16 else if body[0] == '0' then 8 else 10)
            && Skipped(prefix) == if b == 16 && Hex(body, 0) then 2 else 0
  {
    hide Space, NoDigit, Value, Over, Digit;
    var num := Numeral(n, b, caps);
    NumeralIs(n, b, caps);
    var body := prefix + num + rest;
    if prefix == "" {
      assert body == num + rest && body[0] == num[0];
      SecondChar(n, b, caps, rest);
    } else {
      assert body[0] == prefix[0] == '0';
      assert body[1] == if |prefix| == 1 then num[0] else prefix[1];
      assert !Space('0') by { DigitCharIs(0, 10, false); assert DigitChar(0, false) == '0'; }
    }
  }

  /** A numeral without a prefix is not taken for one with it. */
  lemma SecondChar(n: nat, b: nat, caps: bool, rest: string)
    requires 2 <= b <= 36
    ensures var body := Numeral(n, b, caps) + rest;
            Hex(body, 0) <==> n == 0 && (Ch(rest, 0) == 'x' || Ch(rest, 0) == 'X')
  {
    hide Value, Over, Digit, Space;
    NumeralIs(n, b, caps);
    if n == 0 {
      ChAt(Numeral(n, b, caps), rest, 0);
    }
  }

  lemma FormIs(blanks: string, sign: string, prefix: string, n: nat, b: nat, caps: bool, rest: string, base: int)
    requires (forall i :: 0 <= i < |blanks| ==> Blank(blanks[i])) && Sign(sign)
    requires 2 <= b <= 36 && Selects(base, prefix, b, n, rest) && (rest == "" || NoDigit(rest[0], b))
    ensures var s := blanks + (sign + (prefix + Numeral(n, b, caps) + rest));
            && Spaces(s) == |blanks|
            && FormOf(s, base) == Form(sign == "-", b, |blanks| + |sign| + Skipped(prefix))
  {
    hide NoDigit, Value, Over, Digit, Selects, Space;
    var body := prefix + Numeral(n, b, caps) + rest;
    var tail := sign + body;
    var s := blanks + tail;
    BodyBegins(base, prefix, b, n, caps, rest);
    assert tail[0] == if sign == "" then body[0] else sign[0];
    SignIsNoSpace();
    SpacesAre(blanks, tail);
    ChAt(blanks, tail, 0);
    ChAt(blanks, tail, |sign|);
    ChAt(blanks, tail, |sign| + 1);
    ChAt(sign, body, 0);
    ChAt(sign, body, 1);
  }

  lemma SignIsNoSpace()
    ensures !Space('+') && !Space('-')
  {
  }

  lemma {:induction false} LeadingZero(ds: string, base: int)
    requires base >= 1 && Digit('0', base, Taken) == 0
    ensures Value("0" + ds, base, Taken) == Value(ds, base, Taken)
  {
    if ds == "" {
      assert "0" + ds == "0" && "0"[..0] == "";
    } else {
      var all := "0" + ds;
      assert all[..|all| - 1] == "0" + ds[..|ds| - 1] && all[|all| - 1] == ds[|ds| - 1];
      LeadingZero(ds[..|ds| - 1], base);
    }
  }

  /** What the digits of the text are, and what they stand for. */
  lemma DigitsAre(prefix: string, n: nat, b: nat, caps: bool, base: int, rest: string)
    requires 2 <= b <= 36 && Selects(base, prefix, b, n, rest)
    ensures var ds := prefix[Skipped(prefix)..] + Numeral(n, b, caps);
            && AllDigits(ds, b, Taken) && Value(ds, b, Taken) == n
            && (n > MAX && n / b <= MAX ==> Value(ds, b, Taken) > MAX && Over(ds, b, Taken) == |ds| - 1)
  {
    hide Value, Over, Digit, Numeral;
    var num := Numeral(n, b, caps);
    NumeralIs(n, b, caps);
    if n > MAX && n / b <= MAX {
      NumeralOver(n, b, caps);
    }
    if prefix == "0" {
      assert prefix[0..] == prefix;
      TakenIsDigit(0, b, false);
      assert DigitChar(0, false) == '0';
      ZeroFirst(num, b);
    } else {
      assert prefix[Skipped(prefix)..] + num == num;
    }
  }

  lemma ZeroFirst(num: string, b: nat)
    requires 2 <= b <= 36 && num != "" && AllDigits(num, b, Taken) && Digit('0', b, Taken) == 0
    ensures AllDigits("0" + num, b, Taken) && Value("0" + num, b, Taken) == Value(num, b, Taken)
    ensures Value(num, b, Taken) > MAX && Over(num, b, Taken) == |num| - 1 ==>
              Value("0" + num, b, Taken) > MAX && Over("0" + num, b, Taken) == |num|
  {
    hide Value, Over, Digit;
    var ds := "0" + num;
    LeadingZero(num, b);
    if Value(num, b, Taken) > MAX && Over(num, b, Taken) == |num| - 1 {
      assert ds[..|num|] == "0" + num[..|num| - 1] && ds[..|ds|] == ds;
      LeadingZero(num[..|num| - 1], b);
      OverIs(ds, b, Taken, |num|);
    }
  }

  /** The round trip: the numeral of any number of the type, in any base, with blanks and a sign in front and any text
      behind, is read as that number.  The end pointer stands behind it and `errno` is left alone, but for -2^63, at
      whose last digit the code sees an overflow. */
  lemma ReadsNumeral(blanks: string, sign: string, prefix: string, n: nat, b: nat, caps: bool, rest: string, base: int)
    requires (forall i :: 0 <= i < |blanks| ==> Blank(blanks[i])) && Sign(sign)
    requires 2 <= b <= 36 && Selects(base, prefix, b, n, rest) && (rest == "" || NoDigit(rest[0], b))
    requires n <= MAX || (n == 0 - MIN && sign == "-")
    ensures var s := blanks + (sign + (prefix + Numeral(n, b, caps) + rest));
            Convert(s, base, Taken)
            == Result(if sign == "-" then 0 - n else n,
                      Some(|s| - |rest| - if n <= MAX then 0 else 1), if n <= MAX then Unchanged else ERANGE)
  {
    hide FormOf, Value, Over, NoDigit, Digit, Spaces, Numeral, AllDigits, Selects, DigitsOf, Run, Blank;
    var num := Numeral(n, b, caps);
    var s := blanks + (sign + (prefix + num + rest));
    FormIs(blanks, sign, prefix, n, b, caps, rest, base);
    HalfFits(n, b);
    BaseIsValid(base, prefix, b, n, rest);
    DigitsAre(prefix, n, b, caps, base, rest);
    DigitsFound(blanks, sign, prefix, num, rest, sign == "-", b);
    OutcomeIs(Form(sign == "-", b, |blanks| + |sign| + Skipped(prefix)), prefix[Skipped(prefix)..] + num, n, |blanks|);
  }

  lemma OutcomeIs(f: Form, ds: string, n: nat, blanks: nat)
    requires Value(ds, f.base, Taken) == n && f.start + |ds| > blanks && (n <= MAX || (n == 0 - MIN && f.neg))
    requires n > MAX ==> Over(ds, f.base, Taken) == |ds| - 1
    ensures Outcome(f, ds, blanks, Taken)
            == Result(if f.neg then 0 - n else n, Some(f.start + |ds| - if n <= MAX then 0 else 1),
                      if n <= MAX then Unchanged else ERANGE)
  {
    hide Value, Over;
  }

  /** The digits of the text. */
  lemma DigitsFound(blanks: string, sign: string, prefix: string, num: string, rest: string, neg: bool, b: nat)
    requires 2 <= b <= 36 && (rest == "" || NoDigit(rest[0], b)) && (Skipped(prefix) == 0 || |prefix| == 2) && num != ""
    requires AllDigits(prefix[Skipped(prefix)..] + num, b, Taken)
    ensures var s, f := blanks + (sign + (prefix + num + rest)), Form(neg, b, |blanks| + |sign| + Skipped(prefix));
            && DigitsOf(s, f, Taken) == prefix[Skipped(prefix)..] + num
            && f.start + |DigitsOf(s, f, Taken)| == |s| - |rest| > |blanks|
  {
    hide NoDigit, Digit, AllDigits, Run, DigitsOf;
    var s := blanks + (sign + (prefix + num + rest));
    var ds := prefix[Skipped(prefix)..] + num;
    Regroup(prefix, num, rest);
    Drop(blanks, sign, prefix, num + rest, Skipped(prefix));
    Regroup(prefix[Skipped(prefix)..], num, rest);
    RunOf(ds, rest, b);
    RunFound(s, Form(neg, b, |blanks| + |sign| + Skipped(prefix)), ds, rest);
  }

  lemma RunFound(s: string, f: Form, ds: string, rest: string)
    requires f.start <= |s| && s[f.start..] == ds + rest && (ds + rest)[..Run(ds + rest, f.base, Taken)] == ds
    ensures DigitsOf(s, f, Taken) == ds
  {
    hide Run;
  }

  lemma RunOf(ds: string, rest: string, b: nat)
    requires 2 <= b <= 36 && (rest == "" || NoDigit(rest[0], b)) && AllDigits(ds, b, Taken)
    ensures (ds + rest)[..Run(ds + rest, b, Taken)] == ds
  {
    hide NoDigit, Digit;
    if rest != "" {
      NoDigitIs(rest[0], b);
      TakenAt(rest[0], b);
    }
    RunIs(ds, rest, b);
  }

  lemma Drop(a: string, b: string, c: string, d: string, k: nat)
    requires k <= |c|
    ensures (a + (b + (c + d)))[|a| + |b| + k..] == c[k..] + d
  {
  }

  lemma BaseIsValid(base: int, prefix: string, b: nat, n: nat, rest: string)
    requires Selects(base, prefix, b, n, rest) && b <= 36
    ensures 0 <= base <= 36
  {
  }

  lemma HalfFits(n: nat, b: nat)
    requires n <= MAX + 1 && b >= 2
    ensures n / b <= MAX
  {
  }

  /** A number beyond the type is read as the nearest one in it, with ERANGE. */
  lemma ReadsTooLarge(blanks: string, sign: string, prefix: string, n: nat, b: nat, caps: bool, rest: string, base: int)
    requires (forall i :: 0 <= i < |blanks| ==> Blank(blanks[i])) && Sign(sign)
    requires 2 <= b <= 36 && Selects(base, prefix, b, n, rest) && (rest == "" || NoDigit(rest[0], b))
    requires n > MAX
    ensures var r := Convert(blanks + (sign + (prefix + Numeral(n, b, caps) + rest)), base, Taken);
            r.value == (if sign == "-" then MIN else MAX) && r.errno == ERANGE
  {
    hide FormOf, Value, Over, NoDigit, Digit, Spaces, Numeral, AllDigits, Selects, DigitsOf, Run, Blank;
    FormIs(blanks, sign, prefix, n, b, caps, rest, base);
    BaseIsValid(base, prefix, b, n, rest);
    DigitsAre(prefix, n, b, caps, base, rest);
    assert Numeral(n, b, caps) != "";
    DigitsFound(blanks, sign, prefix, Numeral(n, b, caps), rest, sign == "-", b);
  }

  /** Where no number stands, the value is 0, the end pointer stands at the beginning and `errno` is left alone. */
  lemma NoNumber(blanks: string, rest: string, base: int)
    requires (forall i :: 0 <= i < |blanks| ==> Blank(blanks[i])) && 0 <= base <= 36
    requires rest == "" || (!Blank(rest[0]) && rest[0] != '+' && rest[0] != '-')
    requires rest == "" || NoDigit(rest[0], if base == 0 then 10 else base)
    requires base != 1
    ensures Convert(blanks + rest, base, Taken) == Result(0, Some(0), Unchanged)
  {
    hide Over;
    var s := blanks + rest;
    SpacesAre(blanks, rest);
    ChAt(blanks, rest, 0);
    var b := if base == 0 then 10 else base;
    assert Ch(rest, 0) != '0' by { if rest != "" { DigitCharIs(0, b, false); assert DigitChar(0, false) == '0'; } }
    var f := FormOf(s, base);
    assert f == Form(false, b, |blanks|);
    assert s[|blanks|..] == rest;
    if rest != "" {
      NoDigitIs(rest[0], b);
    }
    assert Run(rest, b, Taken) == 0;
    assert rest[..0] == "";
    assert Value("", b, Taken) == 0;
  }

  /** A sign with nothing behind it counts as read. */
  lemma LoneSign()
    ensures Convert("+", 10, Taken) == Result(0, Some(1), Unchanged)
  {
    assert "+"[1..] == "" && ""[..0] == "";
    assert FormOf("+", 10) == Form(false, 10, 1);
    assert Value("", 10, Taken) == 0;
  }
}
