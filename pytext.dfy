/** The Python string built-ins the renderer and the template parser rely on:
    `str.isspace`, `strip`/`lstrip`/`rstrip`, `lower`, `split`, `s * n`,
    `str(int)`, `int(str)` and the syntax `float(str)` accepts. */
module PyText {
  import opened Wrappers

  // ------------------------------------------------------------------ whitespace

  /** The characters for which `str.isspace()` holds; `\s` in a `str` regex
      matches the same set. */
  predicate IsSpace(c: char) {
    || c == ' '
    || ('\t' <= c <= '\r')
    || ('\U{1c}' <= c <= '\U{1f}')
    || c == '\U{85}' || c == '\U{a0}' || c == '\U{1680}'
    || ('\U{2000}' <= c <= '\U{200a}')
    || c == '\U{2028}' || c == '\U{2029}' || c == '\U{202f}' || c == '\U{205f}'
    || c == '\U{3000}'
  }

  /** `s.lstrip()`: the suffix left after dropping leading whitespace. */
  function LStrip(s: string): (r: string)
    ensures |r| <= |s| && r == s[|s| - |r|..]
    ensures r == [] || !IsSpace(r[0])
    ensures forall i :: 0 <= i < |s| - |r| ==> IsSpace(s[i])
  {
    if s != [] && IsSpace(s[0]) then LStrip(s[1..]) else s
  }

  /** `s.rstrip()`: the prefix left after dropping trailing whitespace. */
  function RStrip(s: string): (r: string)
    ensures |r| <= |s| && r == s[..|r|]
    ensures r == [] || !IsSpace(r[|r| - 1])
    ensures forall i :: |r| <= i < |s| ==> IsSpace(s[i])
  {
    if s != [] && IsSpace(s[|s| - 1]) then RStrip(s[..|s| - 1]) else s
  }

  /** `s.strip()`. */
  function Strip(s: string): (r: string)
    ensures |r| <= |s|
  {
    RStrip(LStrip(s))
  }

  predicate Trimmed(s: string) {
    s == [] || (!IsSpace(s[0]) && !IsSpace(s[|s| - 1]))
  }

  /** Stripping leaves no whitespace at either end. */
  lemma StripSpec(s: string)
    ensures Trimmed(Strip(s))
  {
    var l := LStrip(s);
    TrimmedPrefix(l, RStrip(l));
  }

  lemma TrimmedPrefix(l: string, r: string)
    requires |r| <= |l| && r == l[..|r|]
    requires l == [] || !IsSpace(l[0])
    requires r == [] || !IsSpace(r[|r| - 1])
    ensures Trimmed(r)
  {
    assert r != [] ==> r[0] == l[0];
  }

  /** Stripping only removes characters. */
  lemma StripKeeps(s: string, c: char)
    requires c !in s
    ensures c !in Strip(s)
  {
    var l := LStrip(s);
    SliceKeeps(s, l, |s| - |l|, |s|, c);
    var r := RStrip(l);
    SliceKeeps(l, r, 0, |r|, c);
  }

  lemma SliceKeeps(s: string, t: string, i: nat, j: nat, c: char)
    requires i <= j <= |s| && t == s[i..j] && c !in s
    ensures c !in t
  {
  }

  /** A trimmed string is its own strip. */
  lemma {:induction false} StripTrimmed(s: string)
    requires Trimmed(s)
    ensures Strip(s) == s
  {
  }

  predicate AllSpace(s: string) { forall i :: 0 <= i < |s| ==> IsSpace(s[i]) }

  lemma {:induction false} LStripSpacePrefix(w: string, t: string)
    requires AllSpace(w) && (t == [] || !IsSpace(t[0]))
    ensures LStrip(w + t) == t
    decreases |w|
  {
    if w != [] {
      assert (w + t)[1..] == w[1..] + t;
      LStripSpacePrefix(w[1..], t);
    }
  }

  lemma {:induction false} RStripSpaceSuffix(t: string, w: string)
    requires AllSpace(w) && (t == [] || !IsSpace(t[|t| - 1]))
    ensures RStrip(t + w) == t
    decreases |w|
  {
    if w != [] {
      assert (t + w)[..|t + w| - 1] == t + w[..|w| - 1];
      RStripSpaceSuffix(t, w[..|w| - 1]);
    }
  }

  /** Whitespace on either side of a trimmed text is exactly what `strip` removes. */
  lemma StripAround(w1: string, t: string, w2: string)
    requires AllSpace(w1) && AllSpace(w2) && t != [] && Trimmed(t)
    ensures Strip(w1 + t + w2) == t
  {
    assert w1 + t + w2 == w1 + (t + w2);
    LStripSpacePrefix(w1, t + w2);
    RStripSpaceSuffix(t, w2);
  }

  // ------------------------------------------------------------------ case, prefixes

  function LowerChar(c: char): char {
    if 'A' <= c <= 'Z' then (c as int + 32) as char else c
  }

  /** `s.lower()` on ASCII letters; other characters are kept. */
  function Lower(s: string): (r: string)
    ensures |r| == |s|
  {
    seq(|s|, i requires 0 <= i < |s| => LowerChar(s[i]))
  }

  predicate StartsWith(s: string, prefix: string) {
    |prefix| <= |s| && s[..|prefix|] == prefix
  }

  // ------------------------------------------------------------------ split, repeat

  /** The index of the first `c` in `s`, or `|s|` when there is none. */
  function IndexOf(s: string, c: char): (k: nat)
    ensures k <= |s|
    ensures k < |s| ==> s[k] == c
    ensures forall i :: 0 <= i < k ==> s[i] != c
  {
    if s == [] then 0 else if s[0] == c then 0 else 1 + IndexOf(s[1..], c)
  }

  /** `s.split(sep)` for a one-character separator. */
  function Split(s: string, sep: char): (parts: seq<string>)
    ensures |parts| >= 1
    ensures forall i :: 0 <= i < |parts| ==> sep !in parts[i] && |parts[i]| <= |s|
    ensures sep in s ==> forall i :: 0 <= i < |parts| ==> |parts[i]| < |s|
    ensures sep !in s ==> parts == [s]
    decreases |s|
  {
    var k := IndexOf(s, sep);
    if k == |s| then [s] else [s[..k]] + Split(s[k + 1..], sep)
  }

  /** The inverse of `Split`: the parts joined with the separator. */
  function Join(parts: seq<string>, sep: char): string
    requires |parts| >= 1
  {
    if |parts| == 1 then parts[0] else parts[0] + [sep] + Join(parts[1..], sep)
  }

  lemma {:induction false} JoinSplit(s: string, sep: char)
    ensures Join(Split(s, sep), sep) == s
    decreases |s|
  {
    var k := IndexOf(s, sep);
    if k < |s| {
      SplitCons(s, sep, k);
      JoinSplit(s[k + 1..], sep);
      JoinStep(s, sep, k, Split(s[k + 1..], sep));
    }
  }

  /** Joining the part before the first separator to the joined rest gives back `s`. */
  lemma JoinStep(s: string, sep: char, k: nat, rest: seq<string>)
    requires k < |s| && s[k] == sep && |rest| >= 1 && Join(rest, sep) == s[k + 1..]
    ensures Join([s[..k]] + rest, sep) == s
  {
    JoinCons(s[..k], rest, sep);
    assert s == s[..k] + [sep] + s[k + 1..];
  }

  lemma {:induction false} SplitCons(s: string, sep: char, k: nat)
    requires k == IndexOf(s, sep) < |s|
    ensures Split(s, sep) == [s[..k]] + Split(s[k + 1..], sep)
  {
  }

  lemma JoinCons(head: string, rest: seq<string>, sep: char)
    requires |rest| >= 1
    ensures Join([head] + rest, sep) == head + [sep] + Join(rest, sep)
  {
    assert ([head] + rest)[1..] == rest;
  }

  /** Python's `s * n`: empty when `n <= 0`. */
  function Repeat(s: string, n: int): (r: string)
    ensures |r| == if n <= 0 then 0 else n * |s|
    decreases n
  {
    if n <= 0 then "" else s + Repeat(s, n - 1)
  }

  lemma {:induction false} RepeatChar(c: char, n: int)
    ensures forall i :: 0 <= i < |Repeat([c], n)| ==> Repeat([c], n)[i] == c
    decreases n
  {
    if n > 0 {
      RepeatChar(c, n - 1);
    }
  }

  // ------------------------------------------------------------------ decimal digits

  predicate IsDigit(c: char) { '0' <= c <= '9' }

  predicate AllDigits(s: string) { forall i :: 0 <= i < |s| ==> IsDigit(s[i]) }

  function DigitChar(d: nat): (c: char)
    requires d < 10
    ensures IsDigit(c)
  {
    ('0' as int + d) as char
  }

  function DigitValue(c: char): (d: nat)
    requires IsDigit(c)
    ensures d < 10 && DigitChar(d) == c
  {
    c as int - '0' as int
  }

  /** The base-10 digits of `n`, most significant first, without leading zeros. */
  function NatToDecimal(n: nat): (r: string)
    ensures |r| >= 1 && AllDigits(r)
    ensures r[0] == '0' ==> n == 0
    decreases n
  {
    if n < 10 then [DigitChar(n)] else NatToDecimal(n / 10) + [DigitChar(n % 10)]
  }

  /** `str(n)` for a Python `int`: a minus sign, then the digits of `|n|`. */
  function IntToDecimal(n: int): (r: string)
  {
    if n < 0 then "-" + NatToDecimal(-n) else NatToDecimal(n)
  }

  /** The number a string of decimal digits denotes. */
  function DecimalValue(ds: string): nat
    requires AllDigits(ds)
  {
    if ds == [] then 0 else 10 * DecimalValue(ds[..|ds| - 1]) + DigitValue(ds[|ds| - 1])
  }

  lemma {:induction false} DecimalRoundTrip(n: nat)
    ensures DecimalValue(NatToDecimal(n)) == n
    decreases n
  {
    if n >= 10 {
      var p := NatToDecimal(n / 10);
      var r := NatToDecimal(n);
      assert r[..|r| - 1] == p;
      DecimalRoundTrip(n / 10);
    }
  }

  /** Python's `digitpart`: digits, with single underscores allowed between two digits. */
  predicate IsDigitPart(s: string): (b: bool)
    ensures b ==> |s| >= 1 && IsDigit(s[0]) && IsDigit(s[|s| - 1])
    ensures b ==> forall i :: 0 <= i < |s| ==> IsDigit(s[i]) || s[i] == '_'
    decreases |s|
  {
    && |s| >= 1 && IsDigit(s[0])
    && (|s| == 1 || if s[1] == '_' then |s| >= 3 && IsDigitPart(s[2..]) else IsDigitPart(s[1..]))
  }

  /** A run of digits is a digit part. */
  lemma {:induction false} DigitsArePart(s: string)
    requires |s| >= 1 && AllDigits(s)
    ensures IsDigitPart(s)
    decreases |s|
  {
    if |s| > 1 {
      DigitsArePart(s[1..]);
    }
  }

  function RemoveUnderscores(s: string): (r: string)
    ensures (forall i :: 0 <= i < |s| ==> IsDigit(s[i]) || s[i] == '_') ==> AllDigits(r)
    ensures AllDigits(s) ==> r == s
  {
    if s == [] then []
    else if s[0] == '_' then RemoveUnderscores(s[1..])
    else [s[0]] + RemoveUnderscores(s[1..])
  }

  predicate IsSign(c: char) { c == '+' || c == '-' }

  /** `int(s)` in base 10 on a string that is already stripped: an optional
      sign, then a digit part; `None` stands for `ValueError`. */
  function ParseInt(s: string): (r: Option<int>)
    ensures r.Some? ==> |s| >= 1 && (IsDigit(s[0]) || IsSign(s[0]))
  {
    if |s| > 0 && IsSign(s[0]) then
      if IsDigitPart(s[1..]) then
        var n: int := DecimalValue(RemoveUnderscores(s[1..]));
        Some(if s[0] == '-' then -n else n)
      else None
    else if IsDigitPart(s) then Some(DecimalValue(RemoveUnderscores(s)))
    else None
  }

  /** The information separators U+001C..U+001F: `str.isspace` holds for
      them, so `strip()` removes them, but CPython's `int()` never skips
      them. Before parsing it replaces only non-ASCII whitespace by a space
      and keeps every ASCII character as it is; the parser then skips only
      space, tab, newline, vertical tab, form feed and carriage return. */
  predicate IsSeparatorControl(c: char) { '\U{1c}' <= c <= '\U{1f}' }

  predicate HasSeparatorControl(t: string)
    decreases |t|
  {
    t != [] && (IsSeparatorControl(t[0]) || HasSeparatorControl(t[1..]))
  }

  /** `int(t)`, which ignores surrounding whitespace other than the
      separator controls; one of those anywhere makes it fail. */
  function PyInt(t: string): (r: Option<int>)
    ensures r.Some? ==> r == ParseInt(Strip(t))
    ensures !HasSeparatorControl(t) ==> r == ParseInt(Strip(t))
    ensures HasSeparatorControl(t) ==> r.None?
  {
    if HasSeparatorControl(t) then None else ParseInt(Strip(t))
  }

  /** A separator control is not skipped, even in text that holds a
      non-ASCII character. */
  lemma PyIntControlExample()
    ensures PyInt("\U{a0}5\U{1c}") == None
  {
    ControlAt("\U{a0}5\U{1c}", 2);
  }

  lemma {:induction false} NoControlChars(t: string)
    requires forall i :: 0 <= i < |t| ==> !IsSeparatorControl(t[i])
    ensures !HasSeparatorControl(t)
    decreases |t|
  {
    if t != [] {
      NoControlChars(t[1..]);
    }
  }

  lemma {:induction false} ControlAt(t: string, i: nat)
    requires i < |t| && IsSeparatorControl(t[i])
    ensures HasSeparatorControl(t)
    decreases i
  {
    if i > 0 {
      ControlAt(t[1..], i - 1);
    }
  }

  /** `int(str(n)) == n` for every integer. */
  lemma IntRoundTrip(n: int)
    ensures ParseInt(IntToDecimal(n)) == Some(n)
  {
    if n < 0 {
      NegativeRoundTrip(n, IntToDecimal(n), NatToDecimal(-n), -n);
    } else {
      DecimalParses(n);
    }
  }

  lemma NegativeRoundTrip(n: int, s: string, ds: string, m: nat)
    requires n < 0 && m == -n && ds == NatToDecimal(m) && s == "-" + ds
    ensures ParseInt(s) == Some(n)
  {
    DecimalParses(m);
    SignedDigits(s, ds, m);
  }

  /** A minus sign before a digit part that denotes `m` reads as `-m`. */
  lemma SignedDigits(s: string, ds: string, m: nat)
    requires s == "-" + ds && IsDigitPart(ds) && DecimalValue(RemoveUnderscores(ds)) == m
    ensures ParseInt(s) == Some(-(m as int))
  {
    assert s[1..] == ds;
  }

  /** The digits of a natural number are a digit part that denotes it. */
  lemma DecimalParses(m: nat)
    ensures IsDigitPart(NatToDecimal(m))
    ensures DecimalValue(RemoveUnderscores(NatToDecimal(m))) == m
  {
    DecimalRoundTrip(m);
    DigitsArePart(NatToDecimal(m));
  }

  /** `str(n)` is never blank and has no surrounding whitespace. */
  lemma DecimalTrimmed(number: int)
    ensures IntToDecimal(number) != [] && Trimmed(IntToDecimal(number))
  {
    var ds := IntToDecimal(number);
    assert ds[0] == '-' || IsDigit(ds[0]);
    assert IsDigit(ds[|ds| - 1]);
  }

  // ------------------------------------------------------------------ float syntax

  /** Python's `exponent`: `e` or `E`, an optional sign, a digit part. */
  predicate IsExponent(x: string) {
    && |x| >= 2 && (x[0] == 'e' || x[0] == 'E')
    && var y := x[1..];
       if IsSign(y[0]) then IsDigitPart(y[1..]) else IsDigitPart(y)
  }

  /** Python's `number`: `[digitpart] "." digitpart | digitpart ["."]`. */
  predicate IsNumberPart(n: string) {
    var d := IndexOf(n, '.');
    if d == |n| then IsDigitPart(n)
    else
      var whole, frac := n[..d], n[d + 1..];
      || ((whole == [] || IsDigitPart(whole)) && IsDigitPart(frac))
      || (IsDigitPart(whole) && frac == [])
  }

  /** The text `float(s)` accepts once `s` is stripped: an optional sign,
      then `inf`, `infinity` or `nan` in any case, or a number with an
      optional exponent. */
  predicate IsFloatLiteral(s: string) {
    var body := if |s| > 0 && IsSign(s[0]) then s[1..] else s;
    var low := Lower(body);
    || low == "inf" || low == "infinity" || low == "nan"
    || (var e := IndexOf(Lower(body), 'e');
        IsNumberPart(body[..e]) && (e == |body| || IsExponent(body[e..])))
  }
}
