/** `ARDraw.padded_string` (ascii_rend.py) and its verbatim copy
    `RenderUtils.padded_string` (main.py): an integer written into a field of
    fixed width, with a row of `9`s when it does not fit. */
module NumberFormat {
  import opened Wrappers
  import opened PyText

  /** `padded_string(number, fixed_length, padding_chr, is_right_aligned)`. */
  function PaddedString(number: int, fixedLength: int, paddingChr: string, isRightAligned: bool): (field: string)
  {
    var numberStr := IntToDecimal(number);
    var paddingLen := fixedLength - |numberStr|;
    if paddingLen < 0 then Repeat("9", fixedLength)
    else
      var paddingStr := Repeat(paddingChr, paddingLen);
      if isRightAligned then paddingStr + numberStr else numberStr + paddingStr
  }

  /** With a one-character pad the field always has the requested width,
      whether the number fits or not (a minus sign takes one of its places);
      a negative width gives the empty string, as `"9" * n` does in Python. */
  lemma PaddedLength(number: int, fixedLength: int, paddingChr: string, isRightAligned: bool)
    requires |paddingChr| == 1
    ensures |PaddedString(number, fixedLength, paddingChr, isRightAligned)|
            == if fixedLength < 0 then 0 else fixedLength
  {
  }

  /** A number too wide for the field saturates to `9`s; it is never cut. */
  lemma PaddedOverflow(number: int, fixedLength: int, paddingChr: string, isRightAligned: bool)
    requires |IntToDecimal(number)| > fixedLength
    ensures var r := PaddedString(number, fixedLength, paddingChr, isRightAligned);
            && |r| == (if fixedLength < 0 then 0 else fixedLength)
            && forall i :: 0 <= i < |r| ==> r[i] == '9'
  {
    RepeatChar('9', fixedLength);
  }

  /** A number that fits is written in full: after the padding when right
      aligned, before it otherwise, and every other place holds the pad. */
  lemma PaddedFits(number: int, fixedLength: int, padding: char, isRightAligned: bool)
    requires |IntToDecimal(number)| <= fixedLength
    ensures var r := PaddedString(number, fixedLength, [padding], isRightAligned);
            var ds := IntToDecimal(number);
            var k := fixedLength - |ds|;
            && |r| == fixedLength
            && (isRightAligned ==> r[k..] == ds && forall i :: 0 <= i < k ==> r[i] == padding)
            && (!isRightAligned ==> r[..|ds|] == ds && forall i :: |ds| <= i < |r| ==> r[i] == padding)
  {
    var ds := IntToDecimal(number);
    var k := fixedLength - |ds|;
    RepeatChar(padding, k);
    var pad := Repeat([padding], k);
    assert (pad + ds)[k..] == ds;
    assert (ds + pad)[..|ds|] == ds;
    forall i | |ds| <= i < fixedLength ensures (ds + pad)[i] == padding {
      assert (ds + pad)[i] == pad[i - |ds|];
    }
  }

  /** Padding with whitespace can be undone: Python's `int()` reads the
      number back from the field, whichever way it is aligned, for every
      whitespace pad but the separator controls (see `PaddedControlFails`). */
  lemma PaddedSpaceRoundTrip(number: int, fixedLength: int, padding: char, isRightAligned: bool)
    requires |IntToDecimal(number)| <= fixedLength
    requires IsSpace(padding) && !IsSeparatorControl(padding)
    ensures PyInt(PaddedString(number, fixedLength, [padding], isRightAligned)) == Some(number)
  {
    var ds := IntToDecimal(number);
    var pad := Repeat([padding], fixedLength - |ds|);
    var r := PaddedString(number, fixedLength, [padding], isRightAligned);
    assert r == if isRightAligned then pad + ds else ds + pad;
    RepeatChar(padding, fixedLength - |ds|);
    PlainField(number, pad, padding, r);
    SpacePaddedReads(number, fixedLength, padding, isRightAligned, ds, pad, r);
  }

  /** A field made of the digits and a pad with no separator control holds
      none. */
  lemma PlainField(number: int, pad: string, padding: char, r: string)
    requires (forall i :: 0 <= i < |pad| ==> pad[i] == padding) && !IsSeparatorControl(padding)
    requires r == pad + IntToDecimal(number) || r == IntToDecimal(number) + pad
    ensures !HasSeparatorControl(r)
  {
    var ds := IntToDecimal(number);
    assert forall i :: 0 <= i < |ds| ==> ds[i] == '-' || IsDigit(ds[i]);
    forall i | 0 <= i < |r| ensures !IsSeparatorControl(r[i]) {
      if r == pad + ds {
        assert r[i] == if i < |pad| then pad[i] else ds[i - |pad|];
      } else {
        assert r[i] == if i < |ds| then ds[i] else pad[i - |ds|];
      }
    }
    NoControlChars(r);
  }

  /** With a pad that is one of the separator controls U+001C..U+001F,
      `int()` refuses a field that has any padding at all, because it never
      skips those characters. */
  lemma PaddedControlFails(number: int, fixedLength: int, padding: char, isRightAligned: bool)
    requires |IntToDecimal(number)| < fixedLength
    requires IsSeparatorControl(padding)
    ensures PyInt(PaddedString(number, fixedLength, [padding], isRightAligned)).None?
  {
    var ds := IntToDecimal(number);
    var r := PaddedString(number, fixedLength, [padding], isRightAligned);
    PaddedFits(number, fixedLength, padding, isRightAligned);
    ControlAt(r, if isRightAligned then 0 else |ds|);
  }

  lemma SpacePaddedReads(number: int, fixedLength: int, padding: char, isRightAligned: bool,
                         ds: string, pad: string, r: string)
    requires |IntToDecimal(number)| <= fixedLength && IsSpace(padding)
    requires ds == IntToDecimal(number) && pad == Repeat([padding], fixedLength - |ds|)
    requires r == (if isRightAligned then pad + ds else ds + pad) && !HasSeparatorControl(r)
    ensures PyInt(r) == Some(number)
  {
    SpacePaddedStrip(number, fixedLength, padding, isRightAligned, ds, pad, r);
    IntRoundTrip(number);
  }

  lemma SpacePaddedStrip(number: int, fixedLength: int, padding: char, isRightAligned: bool,
                         ds: string, pad: string, r: string)
    requires |IntToDecimal(number)| <= fixedLength && IsSpace(padding)
    requires ds == IntToDecimal(number) && pad == Repeat([padding], fixedLength - |ds|)
    requires r == (if isRightAligned then pad + ds else ds + pad)
    ensures Strip(r) == ds
  {
    RepeatChar(padding, fixedLength - |ds|);
    assert AllSpace(pad);
    DecimalTrimmed(number);
    if isRightAligned {
      StripAround(pad, ds, []);
      assert pad + ds + [] == r;
    } else {
      StripAround([], ds, pad);
      assert [] + ds + pad == r;
    }
  }

  /** Right-aligned zero padding reads back through `int()` exactly when
      the number is not negative: `"00-5"` is not a number. */
  lemma PaddedZeroRoundTrip(number: int, fixedLength: int)
    requires |IntToDecimal(number)| < fixedLength
    ensures PyInt(PaddedString(number, fixedLength, "0", true)) == Some(number) <==> number >= 0
  {
    if number >= 0 {
      ZeroPaddedReads(number, fixedLength);
    } else {
      ZeroPaddedFails(number, fixedLength);
    }
  }

  lemma ZeroPaddedReads(number: int, fixedLength: int)
    requires |IntToDecimal(number)| < fixedLength && number >= 0
    ensures PyInt(PaddedString(number, fixedLength, "0", true)) == Some(number)
  {
    var field := PaddedString(number, fixedLength, "0", true);
    var k := fixedLength - |IntToDecimal(number)|;
    ZeroPadded(number, fixedLength, field, k);
    ZerosThenNatural(field, k, number);
  }

  lemma ZeroPaddedFails(number: int, fixedLength: int)
    requires |IntToDecimal(number)| < fixedLength && number < 0
    ensures PyInt(PaddedString(number, fixedLength, "0", true)).None?
  {
    var field := PaddedString(number, fixedLength, "0", true);
    var k := fixedLength - |IntToDecimal(number)|;
    ZeroPadded(number, fixedLength, field, k);
    ZerosThenNegative(field, k, number);
  }

  lemma ZerosThenNatural(field: string, k: int, number: int)
    requires k >= 1 && number >= 0 && field == Repeat("0", k) + IntToDecimal(number) && Strip(field) == field
    ensures PyInt(field) == Some(number)
  {
    ZeroFieldPlain(number, k, field);
    ZerosThenDigits(field, k, number);
    PlainReads(field, Some(number));
  }

  lemma ZerosThenNegative(field: string, k: int, number: int)
    requires k >= 1 && number < 0 && field == Repeat("0", k) + IntToDecimal(number) && Strip(field) == field
    ensures PyInt(field).None?
  {
    ZeroFieldPlain(number, k, field);
    ZerosThenMinus(field, k, number);
    PlainReads(field, None);
  }

  lemma ZeroFieldPlain(number: int, k: int, field: string)
    requires field == Repeat("0", k) + IntToDecimal(number)
    ensures !HasSeparatorControl(field)
  {
    RepeatChar('0', k);
    PlainField(number, Repeat("0", k), '0', field);
  }

  /** A field free of separator controls and of surrounding whitespace is
      read by `int()` as `ParseInt` reads it. */
  lemma PlainReads(field: string, v: Option<int>)
    requires !HasSeparatorControl(field) && Strip(field) == field && ParseInt(field) == v
    ensures PyInt(field) == v
  {
  }

  /** The zero-padded field is `k >= 1` zeros then the digits, and `strip`
      leaves it alone. */
  lemma ZeroPadded(number: int, fixedLength: int, field: string, k: int)
    requires |IntToDecimal(number)| < fixedLength
    requires field == PaddedString(number, fixedLength, "0", true) && k == fixedLength - |IntToDecimal(number)|
    ensures k >= 1 && field == Repeat("0", k) + IntToDecimal(number) && Strip(field) == field
  {
    ZerosTrimmed(field, k, IntToDecimal(number));
  }

  lemma ZerosTrimmed(field: string, k: int, ds: string)
    requires k >= 1 && field == Repeat("0", k) + ds && ds != [] && !IsSpace(ds[|ds| - 1])
    ensures Strip(field) == field
  {
    RepeatChar('0', k);
    assert Trimmed(field) by {
      assert field[0] == '0';
      assert field[|field| - 1] == ds[|ds| - 1];
    }
    StripTrimmed(field);
  }

  lemma ZerosThenDigits(field: string, k: int, number: int)
    requires number >= 0 && field == Repeat("0", k) + IntToDecimal(number)
    ensures ParseInt(field) == Some(number)
  {
    RepeatChar('0', k);
    ZeroPaddedNatural(Repeat("0", k), IntToDecimal(number), number);
  }

  lemma ZerosThenMinus(field: string, k: int, number: int)
    requires k >= 1 && number < 0 && field == Repeat("0", k) + IntToDecimal(number)
    ensures ParseInt(field).None?
  {
    RepeatChar('0', k);
    NegativeDecimal(number);
    ZeroPaddedNegative(Repeat("0", k), IntToDecimal(number));
  }

  lemma NegativeDecimal(n: int)
    requires n < 0
    ensures IntToDecimal(n) != [] && IntToDecimal(n)[0] == '-'
  {
  }

  lemma ZeroPaddedNatural(zeros: string, ds: string, number: int)
    requires number >= 0 && ds == IntToDecimal(number)
    requires forall i :: 0 <= i < |zeros| ==> zeros[i] == '0'
    ensures ParseInt(zeros + ds) == Some(number)
  {
    DecimalRoundTrip(number);
    var r := zeros + ds;
    LeadingZeros(zeros, ds);
    DigitsArePart(r);
  }

  lemma ZeroPaddedNegative(zeros: string, ds: string)
    requires |zeros| >= 1 && (forall i :: 0 <= i < |zeros| ==> zeros[i] == '0')
    requires ds != [] && ds[0] == '-'
    ensures ParseInt(zeros + ds).None?
  {
    var r := zeros + ds;
    assert r[|zeros|] == '-';
    assert !IsDigitPart(r);
  }

  lemma {:induction false} LeadingZeros(zeros: string, ds: string)
    requires forall i :: 0 <= i < |zeros| ==> zeros[i] == '0'
    requires AllDigits(ds)
    ensures AllDigits(zeros + ds) && DecimalValue(zeros + ds) == DecimalValue(ds)
    decreases |ds|
  {
    assert AllDigits(zeros + ds) by {
      forall i | 0 <= i < |zeros + ds| ensures IsDigit((zeros + ds)[i]) {
        if i >= |zeros| { assert (zeros + ds)[i] == ds[i - |zeros|]; }
      }
    }
    if ds == [] {
      assert zeros + ds == zeros;
      ZerosValue(zeros);
    } else {
      var init := ds[..|ds| - 1];
      assert (zeros + ds)[..|zeros + ds| - 1] == zeros + init;
      LeadingZeros(zeros, init);
    }
  }

  lemma {:induction false} ZerosValue(zeros: string)
    requires forall i :: 0 <= i < |zeros| ==> zeros[i] == '0'
    ensures AllDigits(zeros) && DecimalValue(zeros) == 0
    decreases |zeros|
  {
    if zeros != [] {
      ZerosValue(zeros[..|zeros| - 1]);
    }
  }

  /** The three worked examples of the doc comment (ascii_rend.py and main.py). */
  lemma DocExamples()
    ensures PaddedString(25, 5, "0", true) == "00025"
    ensures PaddedString(125, 5, " ", false) == "125  "
    ensures PaddedString(55555, 3, " ", true) == "999"
  {
    ZeroPaddedExample();
    SpacePaddedExample();
    OverflowExample();
  }

  lemma ZeroPaddedExample()
    ensures PaddedString(25, 5, "0", true) == "00025"
  {
    assert IntToDecimal(25) == "25";
    assert Repeat("0", 3) == "000";
  }

  lemma SpacePaddedExample()
    ensures PaddedString(125, 5, " ", false) == "125  "
  {
    assert IntToDecimal(125) == "125";
    assert Repeat(" ", 2) == "  ";
  }

  lemma OverflowExample()
    ensures PaddedString(55555, 3, " ", true) == "999"
  {
    assert IntToDecimal(55555) == "55555";
    assert Repeat("9", 3) == "999";
  }
}
