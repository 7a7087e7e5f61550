/** `ARTemplate._cast_value` (ascii_rend.py): a front-matter value, as text,
    classified into a string, an integer, a float, a boolean, `None` or a
    list of these. */
module SceneCast {
  import opened Wrappers
  import opened PyText

  /** The Python values `_cast_value` returns. A float is kept as the text
      `float()` accepted; its binary value is not modelled. */
  datatype Value =
    | Str(s: string)
    | Int(i: int)
    | Float(literal: string)
    | Bool(b: bool)
    | Null
    | List(items: seq<Value>)

  /** Starts and ends with the same quote character (one quote alone counts,
      as `'"'.startswith('"') and '"'.endswith('"')` holds). */
  predicate Quoted(s: string) {
    |s| >= 1 && ((s[0] == '"' && s[|s| - 1] == '"') || (s[0] == '\'' && s[|s| - 1] == '\''))
  }

  /** `s[1:-1]`. */
  function Unquote(s: string): string
    requires Quoted(s)
  {
    if |s| <= 2 then "" else s[1..|s| - 1]
  }

  /** The branches after the quote and list checks, on stripped text:
      keywords in any case, then a float when the text has `.` or `e`/`E`,
      else an integer, and the text itself when `float()`/`int()` would
      raise `ValueError`. */
  function CastScalar(s: string): (v: Value)
    ensures !v.List?
  {
    var low := Lower(s);
    if low in {"true", "yes", "on"} then Bool(true)
    else if low in {"false", "no", "off"} then Bool(false)
    else if low in {"none", "null"} then Null
    else if '.' in s || 'e' in low then
      if IsFloatLiteral(s) then Float(s) else Str(s)
    else
      match ParseInt(s)
      case Some(n) => Int(n)
      case None => Str(s)
  }

  /** `_cast_value` as its comment means it: quoted text first, then a
      comma-separated list whose parts are stripped and cast by the same
      rules, then the scalar rules. The source as written fails on the list
      branch; see `CastValueAsWritten`. */
  function CastValue(raw: string): (v: Value)
    ensures v.List? <==> !Quoted(Strip(raw)) && ',' in Strip(raw)
    ensures v.List? ==> forall i :: 0 <= i < |v.items| ==> !v.items[i].List?
    decreases |raw|
  {
    var s := Strip(raw);
    if Quoted(s) then Str(Unquote(s))
    else if ',' in s then
      var parts := Split(s, ',');
      List(seq(|parts|, i requires 0 <= i < |parts| => CastPart(parts[i], |raw|)))
    else CastScalar(s)
  }

  /** One list element: `x.strip()`, then cast. */
  function CastPart(part: string, bound: nat): (v: Value)
    requires |part| < bound && ',' !in part
    ensures !v.List?
    decreases bound, 0
  {
    StripKeeps(part, ',');
    CastValue(Strip(part))
  }

  // ------------------------------------------------------------------ the source as written

  datatype PyError = NameError

  /** `_cast_value` exactly as written: the list comprehension calls
      `_cast_value` unqualified inside a static method, a name that is not
      in scope, so any unquoted value with a comma raises `NameError`. */
  function CastValueAsWritten(raw: string): (r: Result<Value, PyError>)
    ensures r.Failure? <==> !Quoted(Strip(raw)) && ',' in Strip(raw)
    ensures r.Success? ==> !r.value.List?
  {
    var s := Strip(raw);
    if Quoted(s) then Success(Str(Unquote(s)))
    else if ',' in s then Failure(NameError)
    else Success(CastScalar(s))
  }

  /** The written code and the intended one agree except on lists, where
      the written one raises. */
  lemma AsWrittenFailsOnLists(raw: string)
    ensures CastValueAsWritten(raw)
            == if CastValue(raw).List? then Failure(NameError) else Success(CastValue(raw))
  {
    var s := Strip(raw);
    if Quoted(s) {
      CastOfQuoted(raw);
    } else if ',' !in s {
      CastOfScalar(raw);
    }
  }

  /** Any unquoted value with a comma (here at `i`) raises as written, where
      the intended caster gives a list. */
  lemma AsWrittenRaisesOnComma(raw: string, i: nat)
    requires !Quoted(Strip(raw)) && i < |Strip(raw)| && Strip(raw)[i] == ','
    ensures CastValueAsWritten(raw) == Failure(NameError)
    ensures CastValue(raw).List?
  {
  }

  /** `tags: a, b` is such a value. */
  lemma AsWrittenCommaExample(raw: string)
    requires raw == "a, b"
    ensures CastValueAsWritten(raw) == Failure(NameError)
    ensures CastValue(raw).List?
  {
    TrimmedCommaRaises(raw, 1);
  }

  lemma TrimmedCommaRaises(raw: string, i: nat)
    requires Trimmed(raw) && !Quoted(raw) && i < |raw| && raw[i] == ','
    ensures CastValueAsWritten(raw) == Failure(NameError)
    ensures CastValue(raw).List?
  {
    StripTrimmed(raw);
    AsWrittenRaisesOnComma(raw, i);
  }

  // ------------------------------------------------------------------ unfolding steps

  lemma CastOfQuoted(raw: string)
    requires Quoted(Strip(raw))
    ensures CastValue(raw) == Str(Unquote(Strip(raw)))
  {
  }

  lemma CastOfScalar(raw: string)
    requires !Quoted(Strip(raw)) && ',' !in Strip(raw)
    ensures CastValue(raw) == CastScalar(Strip(raw))
  {
  }

  // ------------------------------------------------------------------ properties

  /** Quoting round-trips any text, commas included: the quote check comes
      before the list check. */
  lemma CastQuoted(t: string, q: char)
    requires q == '"' || q == '\''
    ensures CastValue([q] + t + [q]) == Str(t)
  {
    var s := [q] + t + [q];
    QuotedFacts(t, q);
    StripTrimmed(s);
    CastOfQuoted(s);
  }

  lemma QuotedFacts(t: string, q: char)
    requires q == '"' || q == '\''
    ensures Trimmed([q] + t + [q])
    ensures Quoted([q] + t + [q]) && Unquote([q] + t + [q]) == t
  {
  }

  /** `str(n)` casts back to the integer `n`. */
  lemma CastIntRoundTrip(n: int)
    ensures CastValue(IntToDecimal(n)) == Int(n)
  {
    var s := IntToDecimal(n);
    DecimalTrimmed(n);
    StripTrimmed(s);
    DecimalShape(n);
    CastOfScalar(s);
    IntRoundTrip(n);
    ScalarInt(s, n);
  }

  lemma DecimalShape(n: int)
    ensures var s := IntToDecimal(n);
            && !Quoted(s) && ',' !in s && '.' !in s && 'e' !in Lower(s)
            && Lower(s) !in {"true", "yes", "on", "false", "no", "off", "none", "null"}
  {
    var s := IntToDecimal(n);
    assert forall i :: 0 <= i < |s| ==> s[i] == '-' || IsDigit(s[i]);
    assert Lower(s) == s;
    assert s[0] == '-' || IsDigit(s[0]);
  }

  lemma ScalarInt(s: string, n: int)
    requires Lower(s) !in {"true", "yes", "on", "false", "no", "off", "none", "null"}
    requires '.' !in s && 'e' !in Lower(s) && ParseInt(s) == Some(n)
    ensures CastScalar(s) == Int(n)
  {
  }

  /** A list has one element per comma-separated part, each the cast of that
      part, and the parts put back together with commas give the text. */
  lemma CastListParts(raw: string)
    requires !Quoted(Strip(raw)) && ',' in Strip(raw)
    ensures var parts := Split(Strip(raw), ',');
            && Join(parts, ',') == Strip(raw)
            && CastValue(raw).List?
            && |CastValue(raw).items| == |parts|
            && forall i :: 0 <= i < |parts| ==> CastValue(raw).items[i] == CastValue(Strip(parts[i]))
  {
    JoinSplit(Strip(raw), ',');
  }

  /** Keyword matching ignores case: every spelling of `true`, `yes`, `on`,
      `false`, `no`, `off`, `none` or `null` casts to its value. */
  lemma CastKeyword(t: string)
    requires Lower(t) in {"true", "yes", "on", "false", "no", "off", "none", "null"}
    ensures CastValue(t) == if Lower(t) in {"true", "yes", "on"} then Bool(true)
                            else if Lower(t) in {"false", "no", "off"} then Bool(false)
                            else Null
  {
    KeywordLetters(t);
    StripTrimmed(t);
    CastOfScalar(t);
  }

  lemma KeywordLetters(t: string)
    requires Lower(t) in {"true", "yes", "on", "false", "no", "off", "none", "null"}
    ensures Trimmed(t) && !Quoted(t) && ',' !in t
  {
    forall i | 0 <= i < |t| ensures ('a' <= t[i] <= 'z') || ('A' <= t[i] <= 'Z') {
      assert 'a' <= Lower(t)[i] <= 'z';
      assert Lower(t)[i] == LowerChar(t[i]);
    }
  }

  /** Whitespace alone casts to the empty string: it strips to nothing,
      which is no keyword and no number. */
  lemma CastBlank(raw: string)
    requires AllSpace(raw)
    ensures CastValue(raw) == Str("")
  {
    LStripSpacePrefix(raw, []);
    assert raw + [] == raw;
    CastOfScalar(raw);
    ScalarEmpty();
  }

  lemma ScalarEmpty()
    ensures CastScalar([]) == Str([])
  {
    assert Lower([]) == [];
    assert ParseInt([]).None?;
  }

  /** What each kind of result says about the text it came from: a string
      is the unquoted or the whole trimmed text, a number is what `int()`
      or `float()` accepted, a keyword is matched without regard to case. */
  lemma CastResultSound(raw: string)
    ensures var s, v := Strip(raw), CastValue(raw);
            && (v.Str? ==> (Quoted(s) && v.s == Unquote(s)) || (!Quoted(s) && v.s == s))
            && (v.Int? ==> !Quoted(s) && '.' !in s && 'e' !in Lower(s) && ParseInt(s) == Some(v.i))
            && (v.Float? ==> !Quoted(s) && ('.' in s || 'e' in Lower(s)) && v.literal == s && IsFloatLiteral(s))
            && (v.Bool? ==> !Quoted(s) && Lower(s) in (if v.b then {"true", "yes", "on"} else {"false", "no", "off"}))
            && (v.Null? ==> !Quoted(s) && Lower(s) in {"none", "null"})
  {
    var s := Strip(raw);
    if Quoted(s) {
      CastOfQuoted(raw);
    } else if ',' !in s {
      CastOfScalar(raw);
      ScalarSound(s);
    }
  }

  lemma ScalarSound(s: string)
    ensures var v := CastScalar(s);
            && (v.Str? ==> v.s == s)
            && (v.Int? ==> '.' !in s && 'e' !in Lower(s) && ParseInt(s) == Some(v.i))
            && (v.Float? ==> ('.' in s || 'e' in Lower(s)) && v.literal == s && IsFloatLiteral(s))
            && (v.Bool? ==> Lower(s) in (if v.b then {"true", "yes", "on"} else {"false", "no", "off"}))
            && (v.Null? ==> Lower(s) in {"none", "null"})
  {
  }

  /** The converse for floats: unquoted, comma-free text that is no keyword,
      has a `.` or an `e`/`E`, and that `float()` accepts becomes a float. */
  lemma FloatComplete(raw: string)
    requires var s := Strip(raw);
             && !Quoted(s) && ',' !in s
             && Lower(s) !in {"true", "yes", "on", "false", "no", "off", "none", "null"}
             && ('.' in s || 'e' in Lower(s)) && IsFloatLiteral(s)
    ensures CastValue(raw) == Float(Strip(raw))
  {
    CastOfScalar(raw);
  }

  /** The converse for integers: unquoted, comma-free text that is no
      keyword, has neither `.` nor `e`/`E`, and that `int()` reads as `n`
      becomes `n`, whatever its spelling (`007`, `+5`, `1_000`). */
  lemma IntComplete(raw: string, n: int)
    requires var s := Strip(raw);
             && !Quoted(s) && ',' !in s
             && Lower(s) !in {"true", "yes", "on", "false", "no", "off", "none", "null"}
             && '.' !in s && 'e' !in Lower(s) && ParseInt(s) == Some(n)
    ensures CastValue(raw) == Int(n)
  {
    CastOfScalar(raw);
  }
}
