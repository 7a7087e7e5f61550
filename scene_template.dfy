/** `ARTemplate.parse_scene_template` and `_parse_scene_template_part`
    (ascii_rend.py): a scene template file is front matter (`key: value` or
    `key = value` lines, blank lines and comments) up to the first `---`
    line, then a layout of placements `[x, y] path`, each naming a part file
    whose lines are read in. */
module SceneTemplate {
  import opened Wrappers
  import opened PyText
  import opened SceneCast

  /** One layout entry: the cell a part goes to, its path as written, and
      the part's lines. */
  datatype Placement = Placement(x: nat, y: nat, path: string, lines: seq<string>)

  /** The parser's result: the front matter and the placements in file order. */
  datatype Scene = Scene(attributes: map<string, Value>, placements: seq<Placement>)

  datatype ParseError = FileNotFound

  /** The file system, read-only: the lines iterating a text file yields
      (terminators kept), or `None` when the file cannot be opened. */
  type Reader = string -> Option<seq<string>>

  // ------------------------------------------------------------------ lines

  /** `line.rstrip("\n")`: drops the trailing newlines and nothing else. */
  function TrimNewlines(s: string): (r: string)
    ensures |r| <= |s| && r == s[..|r|]
    ensures r == [] || r[|r| - 1] != '\n'
    ensures forall i :: |r| <= i < |s| ==> s[i] == '\n'
  {
    if s != [] && s[|s| - 1] == '\n' then TrimNewlines(s[..|s| - 1]) else s
  }

  /** `_parse_scene_template_part`: the part file's lines without their
      newlines, or no lines when the file cannot be read. */
  function ReadPart(read: Reader, path: string): (lines: seq<string>)
    ensures read(path).None? ==> lines == []
    ensures read(path).Some? ==> |lines| == |read(path).value|
    ensures forall i :: 0 <= i < |lines| ==> lines[i] == [] || lines[i][|lines[i]| - 1] != '\n'
  {
    match read(path)
    case None => []
    case Some(ls) => seq(|ls|, i requires 0 <= i < |ls| => TrimNewlines(ls[i]))
  }

  /** An unreadable part gives no lines, and the parse goes on; a readable
      one gives as many lines as the file has, each the file's line up to
      its trailing newlines. */
  lemma PartLines(read: Reader, path: string)
    ensures read(path).None? ==> ReadPart(read, path) == []
    ensures read(path).Some? ==>
      && |ReadPart(read, path)| == |read(path).value|
      && forall i :: 0 <= i < |read(path).value| ==>
           var l, s := ReadPart(read, path)[i], read(path).value[i];
           && |l| <= |s| && l == s[..|l|] && (l == [] || l[|l| - 1] != '\n')
           && forall j :: |l| <= j < |s| ==> s[j] == '\n'
  {
  }

  // ------------------------------------------------------------------ the two patterns

  /** A character `[^:#=\s]` matches. */
  predicate IsKeyChar(c: char) {
    c != ':' && c != '#' && c != '=' && !IsSpace(c)
  }

  /** The length of the longest prefix of key characters. */
  function KeyLength(s: string): (k: nat)
    ensures k <= |s|
    ensures forall i :: 0 <= i < k ==> IsKeyChar(s[i])
    ensures k < |s| ==> !IsKeyChar(s[k])
  {
    if s != [] && IsKeyChar(s[0]) then 1 + KeyLength(s[1..]) else 0
  }

  /** The length of the longest prefix of ASCII digits. */
  function DigitLength(s: string): (k: nat)
    ensures k <= |s|
    ensures forall i :: 0 <= i < k ==> IsDigit(s[i])
    ensures k < |s| ==> !IsDigit(s[k])
  {
    if s != [] && IsDigit(s[0]) then 1 + DigitLength(s[1..]) else 0
  }

  /** `\s*c`: the text after the character `c` that follows the leading
      whitespace, if it is there. */
  function After(s: string, c: char): (r: Option<string>)
    ensures r.Some? ==> |r.value| < |s|
  {
    var b := LStrip(s);
    if b != [] && b[0] == c then Some(b[1..]) else None
  }

  /** `\s*(\d+)`: the number the leading digit run spells and the text after it. */
  function Number(s: string): (r: Option<(nat, string)>)
    ensures r.Some? ==> |r.value.1| < |s|
  {
    var a := LStrip(s);
    var k := DigitLength(a);
    if k == 0 then None else Some((DecimalValue(a[..k]), a[k..]))
  }

  /** `\s*(.+?)\s*$` on text without `\n`: the lazy group takes the stripped
      text, or, when the text is all whitespace, its last character (the
      group must take one). */
  function LazyValue(rest: string): (r: Option<string>)
    ensures r.Some? ==> r.value != []
  {
    if Strip(rest) != [] then Some(Strip(rest))
    else if rest != [] then Some([rest[|rest| - 1]])
    else None
  }

  /** `\s+(.+)$` on text without `\n`: the text after all the leading
      whitespace; when the text is all whitespace, at least two characters of
      it are needed and the group is the last one. */
  function GreedyTail(rest: string): (r: Option<string>)
    ensures r.Some? ==> r.value != []
  {
    var tail := LStrip(rest);
    if |tail| == |rest| then None
    else if tail != [] then Some(tail)
    else if |rest| >= 2 then Some([rest[|rest| - 1]])
    else None
  }

  /** `^\s*([^:#=\s]+)`: the whole run of key characters after the
      indentation (a shorter one would leave a key character where
      `\s*[:=]` must match), and the text after it. */
  function KeyPart(line: string): (r: Option<(string, string)>)
    ensures r.Some? ==> r.value.0 != [] && StartsWith(LStrip(line), r.value.0)
    ensures r.Some? ==> forall i :: 0 <= i < |r.value.0| ==> IsKeyChar(r.value.0[i])
  {
    var t := LStrip(line);
    var k := KeyLength(t);
    if k == 0 then None else Some((t[..k], t[k..]))
  }

  /** `\s*[:=]\s*(.+?)\s*$`. */
  function ValuePart(u: string): (r: Option<string>)
    ensures r.Some? ==> r.value != []
  {
    var sep := if After(u, ':').Some? then After(u, ':') else After(u, '=');
    if sep.None? then None else LazyValue(sep.value)
  }

  /** `^\s*([^:#=\s]+)\s*[:=]\s*(.+?)\s*$` on a line without `\n`. */
  function MatchKeyValue(line: string): (m: Option<(string, string)>)
    ensures m.Some? ==> m.value.0 != [] && StartsWith(LStrip(line), m.value.0)
    ensures m.Some? ==> forall i :: 0 <= i < |m.value.0| ==> IsKeyChar(m.value.0[i])
    ensures m.Some? ==> m.value.1 != []
  {
    var key := KeyPart(line);
    if key.None? then None
    else
      var v := ValuePart(key.value.1);
      if v.None? then None else Some((key.value.0, v.value))
  }

  /** `\[\s*(\d+)\s*,\s*(\d+)\s*\]\s+(.+)$` matched at the start of a
      line without `\n`. */
  function MatchPlacement(line: string): (m: Option<(nat, nat, string)>)
    ensures m.Some? ==> m.value.2 != []
  {
    if line == [] || line[0] != '[' then None
    else
      var x := Number(line[1..]);
      if x.None? then None
      else
        var c := After(x.value.1, ',');
        if c.None? then None
        else
          var y := Number(c.value);
          if y.None? then None
          else
            var b := After(y.value.1, ']');
            if b.None? then None
            else
              var g := GreedyTail(b.value);
              if g.None? then None else Some((x.value.0, y.value.0, g.value))
  }

  // ------------------------------------------------------------------ what one line contributes

  /** The line that ends the front matter. */
  predicate IsDivider(raw: string) {
    StartsWith(Strip(raw), "---")
  }

  /** Front-matter lines passed over: blank, or a `#`, `;` or `//` comment. */
  predicate IsSkipped(raw: string) {
    || Strip(raw) == []
    || StartsWith(LStrip(raw), "#")
    || StartsWith(LStrip(raw), ";")
    || StartsWith(LStrip(raw), "//")
  }

  /** The shape every front-matter key has. */
  predicate IsKey(k: string) {
    && k != []
    && (forall i :: 0 <= i < |k| ==> IsKeyChar(k[i]))
    && !StartsWith(k, ";")
    && !StartsWith(k, "//")
  }

  /** The key and the value text a front-matter line sets, if any. */
  function Entry(raw: string): (e: Option<(string, string)>)
    ensures e.Some? ==> IsKey(e.value.0) && e.value.1 != []
  {
    if IsDivider(raw) || IsSkipped(raw) then None
    else
      var m := MatchKeyValue(raw);
      if m.Some? then
        KeyNotComment(LStrip(raw), m.value.0);
        m
      else None
  }

  /** A key read from a line that is not a comment does not start like one. */
  lemma KeyNotComment(t: string, key: string)
    requires StartsWith(t, key)
    requires !StartsWith(t, ";") && !StartsWith(t, "//")
    ensures !StartsWith(key, ";") && !StartsWith(key, "//")
  {
    if StartsWith(key, ";") {
      PrefixOfPrefix(t, key, ";");
    }
    if StartsWith(key, "//") {
      PrefixOfPrefix(t, key, "//");
    }
  }

  lemma PrefixOfPrefix(s: string, k: string, p: string)
    requires StartsWith(s, k) && StartsWith(k, p)
    ensures StartsWith(s, p)
  {
    assert s[..|p|] == k[..|p|];
  }

  /** Where a layout line puts a part, if it names one: blank lines and
      lines the pattern rejects name none; the path is the stripped group. */
  function PlaceOf(raw: string): (r: Option<(nat, nat, string)>)
    ensures r.Some? ==> Trimmed(r.value.2)
  {
    if Strip(raw) == [] then None
    else
      match MatchPlacement(raw)
      case None => None
      case Some((x, y, group)) =>
        StripSpec(group);
        Some((x, y, Strip(group)))
  }

  // ------------------------------------------------------------------ the scan

  /** What a line means in each phase: whether it ends the front matter, the
      attribute it sets there (its value cast), and where it places a part in
      the layout. */
  datatype LineInfo = LineInfo(divider: bool, entry: Option<(string, Value)>, place: Option<(nat, nat, string)>)

  function Classify(raw: string): (info: LineInfo)
    ensures info.entry.Some? ==> IsKey(info.entry.value.0)
    ensures info.place.Some? ==> Trimmed(info.place.value.2)
  {
    var entry := match Entry(raw) case None => None case Some((k, v)) => Some((k, CastValue(v)));
    LineInfo(IsDivider(raw), entry, PlaceOf(raw))
  }

  /** The lines of a file, each without its newline, classified. */
  function Classified(lines: seq<string>): (infos: seq<LineInfo>)
    ensures |infos| == |lines|
  {
    seq(|lines|, i requires 0 <= i < |lines| => Classify(TrimNewlines(lines[i])))
  }

  /** The placement a layout line adds, with the part's lines read in. */
  function PlacementOf(info: LineInfo, read: Reader): seq<Placement> {
    match info.place
    case None => []
    case Some((x, y, path)) => [Placement(x, y, path, ReadPart(read, path))]
  }

  /** The loop's variables: `in_front`, `scene_attributes`, `scene_templates`. */
  datatype ParseState = ParseState(inFront: bool, attributes: map<string, Value>, placements: seq<Placement>)

  const Initial := ParseState(true, map[], [])

  function Step(st: ParseState, info: LineInfo, read: Reader): (next: ParseState) {
    if st.inFront then
      if info.divider then st.(inFront := false)
      else
        match info.entry
        case None => st
        case Some((k, v)) => st.(attributes := st.attributes[k := v])
    else st.(placements := st.placements + PlacementOf(info, read))
  }

  /** The state after the loop has consumed `infos`, starting from `st`. */
  function Scan(st: ParseState, infos: seq<LineInfo>, read: Reader): (final: ParseState)
    decreases |infos|
  {
    if infos == [] then st
    else Step(Scan(st, infos[..|infos| - 1], read), infos[|infos| - 1], read)
  }

  // ------------------------------------------------------------------ the specification

  /** The index of the first divider at or after `from`, or `|infos|` when
      there is none. */
  function DividerFrom(infos: seq<LineInfo>, from: nat): (d: nat)
    requires from <= |infos|
    ensures from <= d <= |infos|
    ensures forall i :: from <= i < d ==> !infos[i].divider
    ensures d < |infos| ==> infos[d].divider
    decreases |infos| - from
  {
    if from == |infos| then from
    else if infos[from].divider then from
    else DividerFrom(infos, from + 1)
  }

  function FirstDivider(infos: seq<LineInfo>): nat {
    DividerFrom(infos, 0)
  }

  /** The attributes front-matter lines set, later lines overriding earlier ones. */
  function FrontMatter(infos: seq<LineInfo>): map<string, Value> {
    if infos == [] then map[]
    else
      var m := FrontMatter(infos[..|infos| - 1]);
      match infos[|infos| - 1].entry
      case None => m
      case Some((k, v)) => m[k := v]
  }

  /** The placements layout lines add, in order. */
  function Layout(infos: seq<LineInfo>, read: Reader): seq<Placement> {
    if infos == [] then []
    else Layout(infos[..|infos| - 1], read) + PlacementOf(infos[|infos| - 1], read)
  }

  /** The places layout lines name, without reading any part. */
  function Places(infos: seq<LineInfo>): seq<(nat, nat, string)> {
    if infos == [] then []
    else
      var ps := Places(infos[..|infos| - 1]);
      match infos[|infos| - 1].place
      case None => ps
      case Some(p) => ps + [p]
  }

  /** `parse_scene_template`: `None` stands for a path that does not exist. */
  method ParseSceneTemplate(file: Option<seq<string>>, read: Reader) returns (r: Result<Scene, ParseError>)
    ensures file.None? ==> r == Failure(FileNotFound)
    ensures file.Some? ==>
      var infos := Classified(file.value);
      var d := FirstDivider(infos);
      r == Success(Scene(FrontMatter(infos[..d]), if d < |infos| then Layout(infos[d + 1..], read) else []))
  {
    if file.None? {
      return Failure(FileNotFound);
    }
    var lines := file.value;
    ghost var infos := Classified(lines);
    var attributes: map<string, Value> := map[];
    var placements: seq<Placement> := [];
    var inFront := true;
    var i := 0;
    while i < |lines|
      invariant 0 <= i <= |lines|
      invariant ParseState(inFront, attributes, placements) == Scan(Initial, infos[..i], read)
    {
      var raw := TrimNewlines(lines[i]);
      inFront, attributes, placements := ParseLine(inFront, attributes, placements, raw, read);
      ScanStep(infos, i, read);
      i := i + 1;
    }
    assert infos[..|lines|] == infos;
    ScanSplits(infos, read);
    r := Success(Scene(attributes, placements));
  }

  /** The body of the loop: one line, in the phase the scan is in. */
  method ParseLine(inFront: bool, attributes: map<string, Value>, placements: seq<Placement>, raw: string, read: Reader)
    returns (inFront': bool, attributes': map<string, Value>, placements': seq<Placement>)
    ensures ParseState(inFront', attributes', placements') == Step(ParseState(inFront, attributes, placements), Classify(raw), read)
  {
    inFront', attributes', placements' := inFront, attributes, placements;
    ghost var before := ParseState(inFront, attributes, placements);
    if inFront {
      if IsDivider(raw) {
        inFront' := false;
        StepDivider(before, raw, read);
      } else {
        if !IsSkipped(raw) {
          var m := MatchKeyValue(raw);
          if m.Some? {
            attributes' := attributes[m.value.0 := CastValue(m.value.1)];
          }
        }
        StepFront(before, raw, read);
      }
    } else {
      if Strip(raw) != [] {
        var m := MatchPlacement(raw);
        if m.Some? {
          var path := Strip(m.value.2);
          placements' := placements + [Placement(m.value.0, m.value.1, path, ReadPart(read, path))];
        }
      }
      StepLayout(before, raw, read);
    }
  }

  lemma StepDivider(st: ParseState, raw: string, read: Reader)
    requires st.inFront && IsDivider(raw)
    ensures Step(st, Classify(raw), read) == st.(inFront := false)
  {
  }

  lemma StepFront(st: ParseState, raw: string, read: Reader)
    requires st.inFront && !IsDivider(raw)
    ensures Step(st, Classify(raw), read)
         == if IsSkipped(raw) || MatchKeyValue(raw).None? then st
            else st.(attributes := st.attributes[MatchKeyValue(raw).value.0 := CastValue(MatchKeyValue(raw).value.1)])
  {
  }

  lemma StepLayout(st: ParseState, raw: string, read: Reader)
    requires !st.inFront
    ensures Step(st, Classify(raw), read)
         == if Strip(raw) == [] || MatchPlacement(raw).None? then st
            else
              var m := MatchPlacement(raw).value;
              st.(placements := st.placements + [Placement(m.0, m.1, Strip(m.2), ReadPart(read, Strip(m.2)))])
  {
    if Strip(raw) == [] || MatchPlacement(raw).None? {
      assert st.placements + [] == st.placements;
    }
  }

  // ------------------------------------------------------------------ the scan meets the specification

  lemma ScanStep(infos: seq<LineInfo>, i: nat, read: Reader)
    requires i < |infos|
    ensures Scan(Initial, infos[..i + 1], read) == Step(Scan(Initial, infos[..i], read), infos[i], read)
  {
    assert infos[..i + 1][..i] == infos[..i];
  }

  lemma {:induction false} ScanAppend(st: ParseState, a: seq<LineInfo>, b: seq<LineInfo>, read: Reader)
    ensures Scan(st, a + b, read) == Scan(Scan(st, a, read), b, read)
    decreases |b|
  {
    if b == [] {
      assert a + b == a;
    } else {
      assert (a + b)[..|a + b| - 1] == a + b[..|b| - 1];
      ScanAppend(st, a, b[..|b| - 1], read);
    }
  }

  /** Before the divider the scan only gathers front matter. */
  lemma {:induction false} ScanFront(a: seq<LineInfo>, read: Reader)
    requires forall i :: 0 <= i < |a| ==> !a[i].divider
    ensures Scan(Initial, a, read) == ParseState(true, FrontMatter(a), [])
    decreases |a|
  {
    if a != [] {
      ScanFront(a[..|a| - 1], read);
    }
  }

  /** After the divider the scan only appends placements. */
  lemma {:induction false} ScanLayout(st: ParseState, b: seq<LineInfo>, read: Reader)
    requires !st.inFront
    ensures Scan(st, b, read) == st.(placements := st.placements + Layout(b, read))
    decreases |b|
  {
    if b != [] {
      ScanLayout(st, b[..|b| - 1], read);
      assert st.placements + Layout(b, read)
          == st.placements + Layout(b[..|b| - 1], read) + PlacementOf(b[|b| - 1], read);
    }
  }

  /** The whole scan: front matter up to the first divider, the layout after
      it; the scan ends in the front matter exactly when there is no divider. */
  lemma ScanSplits(infos: seq<LineInfo>, read: Reader)
    ensures var d := FirstDivider(infos);
      Scan(Initial, infos, read)
        == if d == |infos| then ParseState(true, FrontMatter(infos), [])
           else ParseState(false, FrontMatter(infos[..d]), Layout(infos[d + 1..], read))
  {
    var d := FirstDivider(infos);
    if d == |infos| {
      ScanFront(infos, read);
    } else {
      ScanSplitAt(infos, d, read);
      ScanThroughDivider(infos, d, read);
      ScanLayoutFrom(FrontMatter(infos[..d]), infos[d + 1..], read);
    }
  }

  lemma ScanSplitAt(infos: seq<LineInfo>, d: nat, read: Reader)
    requires d < |infos|
    ensures Scan(Initial, infos, read) == Scan(Scan(Initial, infos[..d + 1], read), infos[d + 1..], read)
  {
    assert infos == infos[..d + 1] + infos[d + 1..];
    ScanAppend(Initial, infos[..d + 1], infos[d + 1..], read);
  }

  lemma ScanThroughDivider(infos: seq<LineInfo>, d: nat, read: Reader)
    requires d < |infos| && infos[d].divider
    requires forall i :: 0 <= i < d ==> !infos[i].divider
    ensures Scan(Initial, infos[..d + 1], read) == ParseState(false, FrontMatter(infos[..d]), [])
  {
    var a := infos[..d + 1];
    assert a[..|a| - 1] == infos[..d] && a[|a| - 1] == infos[d];
    ScanFront(infos[..d], read);
  }

  lemma ScanLayoutFrom(attributes: map<string, Value>, b: seq<LineInfo>, read: Reader)
    ensures Scan(ParseState(false, attributes, []), b, read) == ParseState(false, attributes, Layout(b, read))
  {
    var st := ParseState(false, attributes, []);
    ScanLayout(st, b, read);
    assert st.placements + Layout(b, read) == Layout(b, read);
  }

  // ------------------------------------------------------------------ front matter

  /** A key is set exactly when some front-matter line names it. */
  lemma {:induction false} FrontMatterKeys(infos: seq<LineInfo>, k: string)
    ensures k in FrontMatter(infos)
        <==> exists i :: 0 <= i < |infos| && infos[i].entry.Some? && infos[i].entry.value.0 == k
    decreases |infos|
  {
    if infos != [] {
      var n := |infos| - 1;
      var init := infos[..n];
      FrontMatterKeys(init, k);
      if exists i :: 0 <= i < n && init[i].entry.Some? && init[i].entry.value.0 == k {
        var i :| 0 <= i < n && init[i].entry.Some? && init[i].entry.value.0 == k;
        assert init[i] == infos[i];
      }
      if exists i :: 0 <= i < |infos| && infos[i].entry.Some? && infos[i].entry.value.0 == k {
        var i :| 0 <= i < |infos| && infos[i].entry.Some? && infos[i].entry.value.0 == k;
        if i < n {
          assert init[i] == infos[i];
        }
      }
    }
  }

  /** The last line that sets a key decides its value. */
  lemma {:induction false} FrontMatterLastWins(infos: seq<LineInfo>, i: nat)
    requires i < |infos| && infos[i].entry.Some?
    requires forall j :: i < j < |infos| && infos[j].entry.Some? ==> infos[j].entry.value.0 != infos[i].entry.value.0
    ensures infos[i].entry.value.0 in FrontMatter(infos)
    ensures FrontMatter(infos)[infos[i].entry.value.0] == infos[i].entry.value.1
    decreases |infos|
  {
    var n := |infos| - 1;
    if i < n {
      var init := infos[..n];
      assert init[i] == infos[i];
      forall j | i < j < n && init[j].entry.Some?
        ensures init[j].entry.value.0 != init[i].entry.value.0
      {
        assert init[j] == infos[j];
      }
      FrontMatterLastWins(init, i);
    }
  }

  /** Every key is a run of key characters that does not start like a comment. */
  lemma FrontMatterKeyShape(infos: seq<LineInfo>, k: string)
    requires forall i :: 0 <= i < |infos| ==> infos[i].entry.Some? ==> IsKey(infos[i].entry.value.0)
    requires k in FrontMatter(infos)
    ensures IsKey(k)
  {
    FrontMatterKeys(infos, k);
  }

  /** `key: value` and `key = value`, with any whitespace around the key and
      the separator, give back the key and the value. */
  lemma KeyValueRoundTrip(w1: string, key: string, w2: string, sep: char, w3: string, value: string, w4: string)
    requires AllSpace(w1) && AllSpace(w2) && AllSpace(w3) && AllSpace(w4)
    requires key != [] && forall i :: 0 <= i < |key| ==> IsKeyChar(key[i])
    requires sep == ':' || sep == '='
    requires value != [] && Trimmed(value)
    ensures MatchKeyValue(w1 + key + w2 + [sep] + w3 + value + w4) == Some((key, value))
  {
    var rest := w3 + value + w4;
    var u := w2 + [sep] + rest;
    KeyPartOf(w1, key, u);
    KeyLineShape(w1, key, w2, sep, w3, value, w4);
    ValuePartOf(w2, sep, rest);
    StripAround(w3, value, w4);
  }

  lemma KeyLineShape(w1: string, key: string, w2: string, sep: char, w3: string, value: string, w4: string)
    ensures w1 + key + w2 + [sep] + w3 + value + w4 == w1 + key + (w2 + [sep] + (w3 + value + w4))
  {
    var a := w1 + key;
    var b := a + w2 + [sep];
    var rest := w3 + value + w4;
    Assoc(b + w3, value, w4);
    Assoc(b, w3, value);
    Assoc(b, w3 + value, w4);
    Assoc(a, w2, [sep]);
    Assoc(a, w2 + [sep], rest);
  }

  lemma KeyPartOf(w: string, key: string, u: string)
    requires AllSpace(w) && key != [] && forall i :: 0 <= i < |key| ==> IsKeyChar(key[i])
    requires u == [] || !IsKeyChar(u[0])
    ensures LStrip(w + key + u) == key + u
    ensures KeyPart(w + key + u) == Some((key, u))
  {
    assert w + key + u == w + (key + u);
    LStripSpacePrefix(w, key + u);
    KeyLengthOf(key, u);
    assert (key + u)[..|key|] == key && (key + u)[|key|..] == u;
  }

  lemma {:induction false} KeyLengthOf(key: string, u: string)
    requires forall i :: 0 <= i < |key| ==> IsKeyChar(key[i])
    requires u == [] || !IsKeyChar(u[0])
    ensures KeyLength(key + u) == |key|
    decreases |key|
  {
    if key != [] {
      assert (key + u)[1..] == key[1..] + u;
      KeyLengthOf(key[1..], u);
    } else {
      assert key + u == u;
    }
  }

  lemma ValuePartOf(w: string, sep: char, rest: string)
    requires AllSpace(w) && (sep == ':' || sep == '=')
    ensures ValuePart(w + [sep] + rest) == LazyValue(rest)
  {
    AfterOf(w, sep, rest);
    if sep == '=' {
      AfterOther(w, sep, rest, ':');
    }
  }

  /** An entry line written out is read back, unless its key starts like a
      divider. */
  lemma EntryRoundTrip(w1: string, key: string, w2: string, sep: char, w3: string, value: string, w4: string)
    requires AllSpace(w1) && AllSpace(w2) && AllSpace(w3) && AllSpace(w4)
    requires IsKey(key) && !StartsWith(key, "---")
    requires sep == ':' || sep == '='
    requires value != [] && Trimmed(value)
    ensures Entry(w1 + key + w2 + [sep] + w3 + value + w4) == Some((key, value))
  {
    var line := w1 + key + w2 + [sep] + w3 + value + w4;
    var u := w2 + [sep] + (w3 + value + w4);
    KeyValueRoundTrip(w1, key, w2, sep, w3, value, w4);
    KeyLineShape(w1, key, w2, sep, w3, value, w4);
    KeyPartOf(w1, key, u);
    var t := key + u;
    assert u[0] == if w2 == [] then sep else w2[0];
    NotCommentNorDivider(t, key, u);
    assert Strip(line) == RStrip(t);
  }

  lemma NotCommentNorDivider(t: string, key: string, u: string)
    requires t == key + u && IsKey(key) && !StartsWith(key, "---")
    requires u != [] && (IsSpace(u[0]) || u[0] == ':' || u[0] == '=')
    ensures !StartsWith(t, "#") && !StartsWith(t, ";") && !StartsWith(t, "//")
    ensures RStrip(t) != [] && !StartsWith(RStrip(t), "---")
  {
    NotComment(t, key, u);
    NotDivider(t, key, u, RStrip(t));
  }

  lemma NotComment(t: string, key: string, u: string)
    requires t == key + u && IsKey(key)
    requires u != [] && (IsSpace(u[0]) || u[0] == ':' || u[0] == '=')
    ensures !StartsWith(t, "#") && !StartsWith(t, ";") && !StartsWith(t, "//")
  {
    assert t[0] == key[0];
    assert t[|key|] == u[0];
    assert |key| >= 2 ==> key[..2] == t[..2];
  }

  lemma NotDivider(t: string, key: string, u: string, r: string)
    requires t == key + u && IsKey(key) && !StartsWith(key, "---")
    requires u != [] && (IsSpace(u[0]) || u[0] == ':' || u[0] == '=')
    requires |r| <= |t| && r == t[..|r|] && (r == [] || !IsSpace(r[|r| - 1]))
    requires forall i :: |r| <= i < |t| ==> IsSpace(t[i])
    ensures r != [] && !StartsWith(r, "---")
  {
    assert t[0] == key[0];
    assert t[|key|] == u[0];
    assert |r| >= 3 ==> t[..3] == r[..3];
    assert |key| >= 3 ==> key[..3] == t[..3];
  }

  /** `key:` with nothing after the separator sets nothing; `key:` followed
      only by whitespace sets the last whitespace character, which casts to
      the empty string; indentation and whitespace before the separator
      change neither. */
  lemma BlankValue(w1: string, key: string, w2: string, sep: char, w: string)
    requires AllSpace(w1) && AllSpace(w2)
    requires key != [] && forall i :: 0 <= i < |key| ==> IsKeyChar(key[i])
    requires sep == ':' || sep == '='
    requires AllSpace(w)
    ensures MatchKeyValue(w1 + key + w2 + [sep] + w) == if w == [] then None else Some((key, [w[|w| - 1]]))
    ensures w != [] ==> CastValue([w[|w| - 1]]) == Str("")
  {
    BlankMatch(w1, key, w2, sep, w);
    if w != [] {
      BlankChar(w[|w| - 1]);
    }
  }

  lemma BlankMatch(w1: string, key: string, w2: string, sep: char, w: string)
    requires AllSpace(w1) && AllSpace(w2)
    requires key != [] && forall i :: 0 <= i < |key| ==> IsKeyChar(key[i])
    requires sep == ':' || sep == '='
    requires AllSpace(w)
    ensures MatchKeyValue(w1 + key + w2 + [sep] + w) == if w == [] then None else Some((key, [w[|w| - 1]]))
  {
    BlankParts(w1, key, w2, sep, w);
    BlankLazy(w);
  }

  /** A single whitespace character casts to the empty string and strips to nothing. */
  lemma BlankChar(c: char)
    requires IsSpace(c)
    ensures CastValue([c]) == Str("")
    ensures Strip([c]) == []
  {
    CastBlank([c]);
    LStripSpacePrefix([c], []);
    assert [c] + [] == [c];
  }

  lemma BlankParts(w1: string, key: string, w2: string, sep: char, w: string)
    requires AllSpace(w1) && AllSpace(w2)
    requires key != [] && forall i :: 0 <= i < |key| ==> IsKeyChar(key[i])
    requires sep == ':' || sep == '='
    ensures KeyPart(w1 + key + w2 + [sep] + w) == Some((key, w2 + [sep] + w))
    ensures ValuePart(w2 + [sep] + w) == LazyValue(w)
  {
    var u := w2 + [sep] + w;
    BlankKeyEnd(w2, sep, w);
    KeyPartOf(w1, key, u);
    KeyLineJoin(w1 + key + u, w1, key, u, w2, sep, w);
    ValuePartOf(w2, sep, w);
  }

  lemma BlankKeyEnd(w2: string, sep: char, w: string)
    requires AllSpace(w2) && (sep == ':' || sep == '=')
    ensures var u := w2 + [sep] + w; u != [] && !IsKeyChar(u[0])
  {
    var u := w2 + [sep] + w;
    assert u[0] == if w2 == [] then sep else w2[0];
  }

  lemma BlankLazy(w: string)
    requires AllSpace(w)
    ensures LazyValue(w) == if w == [] then None else Some([w[|w| - 1]])
  {
    LStripSpacePrefix(w, []);
    assert w + [] == w;
  }

  // ------------------------------------------------------------------ layout

  lemma {:induction false} LayoutAppend(a: seq<LineInfo>, b: seq<LineInfo>, read: Reader)
    ensures Layout(a + b, read) == Layout(a, read) + Layout(b, read)
    decreases |b|
  {
    if b == [] {
      assert a + b == a;
    } else {
      assert (a + b)[..|a + b| - 1] == a + b[..|b| - 1];
      LayoutAppend(a, b[..|b| - 1], read);
    }
  }

  /** The layout is the places the lines name, each filled with what the
      reader gives for its path. */
  lemma {:induction false} LayoutReads(infos: seq<LineInfo>, read: Reader)
    ensures |Layout(infos, read)| == |Places(infos)| <= |infos|
    ensures forall i :: 0 <= i < |Places(infos)| ==>
      var p := Places(infos)[i];
      Layout(infos, read)[i] == Placement(p.0, p.1, p.2, ReadPart(read, p.2))
    decreases |infos|
  {
    if infos != [] {
      LayoutReads(infos[..|infos| - 1], read);
    }
  }

  /** Coordinates and paths do not depend on the file system. */
  lemma LayoutIgnoresReader(infos: seq<LineInfo>, read1: Reader, read2: Reader)
    ensures |Layout(infos, read1)| == |Layout(infos, read2)|
    ensures forall i :: 0 <= i < |Layout(infos, read1)| ==>
      var p, q := Layout(infos, read1)[i], Layout(infos, read2)[i];
      p.x == q.x && p.y == q.y && p.path == q.path
  {
    LayoutReads(infos, read1);
    LayoutReads(infos, read2);
  }

  /** Whitespace where the placement pattern allows it (at least one
      character before the path), and a path that strips to itself. */
  predicate PlacementPieces(w1: string, w2: string, w3: string, w4: string, w5: string, path: string, w6: string) {
    && AllSpace(w1) && AllSpace(w2) && AllSpace(w3) && AllSpace(w4) && AllSpace(w5) && AllSpace(w6)
    && w5 != [] && path != [] && Trimmed(path)
  }

  /** `[x, y] path` with any whitespace where the pattern allows it gives back
      the coordinates and the path, and the part at that path is read. */
  lemma PlacementRoundTrip(x: nat, y: nat, w1: string, w2: string, w3: string, w4: string,
                           w5: string, path: string, w6: string)
    requires PlacementPieces(w1, w2, w3, w4, w5, path, w6)
    ensures
      var line := "[" + (w1 + NatToDecimal(x) + (w2 + "," + (w3 + NatToDecimal(y) + (w4 + "]" + (w5 + path + w6)))));
      && MatchPlacement(line) == Some((x, y, path + w6))
      && PlaceOf(line) == Some((x, y, path))
  {
    var line := "[" + (w1 + NatToDecimal(x) + (w2 + "," + (w3 + NatToDecimal(y) + (w4 + "]" + (w5 + path + w6)))));
    MatchPlacementOf(x, y, w1, w2, w3, w4, w5, path, w6);
    StripTrailing(path, w6);
    BracketNotBlank(line);
    PlaceOfLine(line, x, y, path, w6);
  }

  lemma StripTrailing(path: string, w: string)
    requires path != [] && Trimmed(path) && AllSpace(w)
    ensures Strip(path + w) == path
  {
    StripAround([], path, w);
    assert [] + path == path;
  }

  lemma BracketNotBlank(line: string)
    requires StartsWith(line, "[")
    ensures Strip(line) != []
  {
    assert line[0] == '[';
    StripNonBlank(line);
  }

  lemma PlaceOfLine(line: string, x: nat, y: nat, path: string, w: string)
    requires MatchPlacement(line) == Some((x, y, path + w))
    requires Strip(path + w) == path && Strip(line) != []
    ensures PlaceOf(line) == Some((x, y, path))
  {
  }

  lemma MatchPlacementOf(x: nat, y: nat, w1: string, w2: string, w3: string, w4: string,
                         w5: string, path: string, w6: string)
    requires PlacementPieces(w1, w2, w3, w4, w5, path, w6)
    ensures
      var line := "[" + (w1 + NatToDecimal(x) + (w2 + "," + (w3 + NatToDecimal(y) + (w4 + "]" + (w5 + path + w6)))));
      MatchPlacement(line) == Some((x, y, path + w6))
  {
    var r5 := w5 + path + w6;
    var r4 := w4 + "]" + r5;
    var r3 := w3 + NatToDecimal(y) + r4;
    var r2 := w2 + "," + r3;
    var r1 := w1 + NatToDecimal(x) + r2;
    var line := "[" + r1;
    assert line[1..] == r1;
    SecondNumber(w2, w3, y, r4, w4);
    NumberOf(w1, x, r2);
    ClosingBracket(w4, w5, path, w6);
    MatchPlacementSteps(line, x, r2, r3, y, r4, r5, path + w6);
  }

  /** `\s*,\s*(\d+)` up to the whitespace before `]`. */
  lemma SecondNumber(w2: string, w3: string, y: nat, r4: string, w4: string)
    requires AllSpace(w2) && AllSpace(w3) && AllSpace(w4) && StartsWith(r4, w4 + "]")
    ensures var r3 := w3 + NatToDecimal(y) + r4;
      && !IsDigit((w2 + "," + r3)[0])
      && After(w2 + "," + r3, ',') == Some(r3)
      && Number(r3) == Some((y, r4))
  {
    var r3 := w3 + NatToDecimal(y) + r4;
    NotDigitFirst(w2, ',', r3);
    AfterOf(w2, ',', r3);
    assert r4[0] == (w4 + "]")[0];
    NotDigitFirst(w4, ']', []);
    NumberOf(w3, y, r4);
  }

  /** `\s*\]\s+(.+)$`. */
  lemma ClosingBracket(w4: string, w5: string, path: string, w6: string)
    requires AllSpace(w4) && AllSpace(w5) && AllSpace(w6)
    requires w5 != [] && path != [] && Trimmed(path)
    ensures var r5 := w5 + path + w6;
      && StartsWith(w4 + "]" + r5, w4 + "]")
      && After(w4 + "]" + r5, ']') == Some(r5)
      && GreedyTail(r5) == Some(path + w6)
  {
    var r5 := w5 + path + w6;
    AfterOf(w4, ']', r5);
    GreedyTailOf(w5, path, w6);
    assert (w4 + "]" + r5)[..|w4 + "]"|] == w4 + "]";
  }

  lemma MatchPlacementSteps(line: string, x: nat, r2: string, r3: string, y: nat, r4: string, r5: string, g: string)
    requires line != [] && line[0] == '[' && Number(line[1..]) == Some((x, r2))
    requires After(r2, ',') == Some(r3) && Number(r3) == Some((y, r4))
    requires After(r4, ']') == Some(r5) && GreedyTail(r5) == Some(g)
    ensures MatchPlacement(line) == Some((x, y, g))
  {
  }

  lemma StripNonBlank(s: string)
    requires s != [] && !IsSpace(s[0])
    ensures Strip(s) != []
  {
    assert LStrip(s) == s;
  }

  lemma NotDigitFirst(w: string, c: char, rest: string)
    requires AllSpace(w) && !IsDigit(c)
    ensures !IsDigit((w + [c] + rest)[0])
  {
    if w != [] {
      assert (w + [c] + rest)[0] == w[0];
    } else {
      assert (w + [c] + rest)[0] == c;
    }
  }

  lemma NumberOf(w: string, n: nat, rest: string)
    requires AllSpace(w) && (rest == [] || !IsDigit(rest[0]))
    ensures Number(w + NatToDecimal(n) + rest) == Some((n, rest))
  {
    var ds := NatToDecimal(n);
    assert w + ds + rest == w + (ds + rest);
    LStripSpacePrefix(w, ds + rest);
    DigitLengthOf(ds, rest);
    assert (ds + rest)[..|ds|] == ds && (ds + rest)[|ds|..] == rest;
    DecimalRoundTrip(n);
  }

  lemma {:induction false} DigitLengthOf(ds: string, rest: string)
    requires AllDigits(ds) && (rest == [] || !IsDigit(rest[0]))
    ensures DigitLength(ds + rest) == |ds|
    decreases |ds|
  {
    if ds != [] {
      assert (ds + rest)[1..] == ds[1..] + rest;
      DigitLengthOf(ds[1..], rest);
    } else {
      assert ds + rest == rest;
    }
  }

  lemma AfterOther(w: string, c: char, rest: string, d: char)
    requires AllSpace(w) && !IsSpace(c) && c != d
    ensures After(w + [c] + rest, d).None?
  {
    assert w + [c] + rest == w + ([c] + rest);
    LStripSpacePrefix(w, [c] + rest);
  }

  lemma AfterOf(w: string, c: char, rest: string)
    requires AllSpace(w) && !IsSpace(c)
    ensures After(w + [c] + rest, c) == Some(rest)
  {
    assert w + [c] + rest == w + ([c] + rest);
    LStripSpacePrefix(w, [c] + rest);
    assert ([c] + rest)[1..] == rest;
  }

  lemma GreedyTailOf(w: string, t: string, w2: string)
    requires AllSpace(w) && w != [] && t != [] && !IsSpace(t[0])
    ensures GreedyTail(w + t + w2) == Some(t + w2)
  {
    assert w + t + w2 == w + (t + w2);
    LStripSpacePrefix(w, t + w2);
  }

  /** After `]`, whitespace alone gives a match only when there are at least
      two characters of it, and then the path is empty. */
  lemma BlankTail(w: string)
    requires AllSpace(w)
    ensures GreedyTail(w) == if |w| >= 2 then Some([w[|w| - 1]]) else None
    ensures |w| >= 2 ==> Strip(GreedyTail(w).value) == []
  {
    BlankGreedy(w);
    if |w| >= 2 {
      BlankChar(w[|w| - 1]);
    }
  }

  lemma BlankGreedy(w: string)
    requires AllSpace(w)
    ensures GreedyTail(w) == if |w| >= 2 then Some([w[|w| - 1]]) else None
  {
    LStripSpacePrefix(w, []);
    assert w + [] == w;
  }

  // ------------------------------------------------------------------ what a match is made of

  /** Only a key/value line matches: a match comes from indentation, the
      key, optional whitespace, `:` or `=`, and a text whose strip is the
      value, or, when that text is blank, whose last character is. */
  lemma KeyValueShape(line: string) returns (w1: string, w2: string, sep: char, rest: string)
    requires MatchKeyValue(line).Some?
    ensures var key, value := MatchKeyValue(line).value.0, MatchKeyValue(line).value.1;
      && AllSpace(w1) && AllSpace(w2) && (sep == ':' || sep == '=')
      && line == w1 + key + w2 + [sep] + rest
      && (Strip(rest) != [] ==> value == Strip(rest))
      && (Strip(rest) == [] ==> rest != [] && value == [rest[|rest| - 1]])
  {
    var key, u := KeyPart(line).value.0, KeyPart(line).value.1;
    w1 := KeyPartShape(line);
    sep := if After(u, ':').Some? then ':' else '=';
    w2 := AfterShape(u, sep);
    rest := After(u, sep).value;
    KeyLineJoin(line, w1, key, u, w2, sep, rest);
  }

  lemma KeyPartShape(line: string) returns (w: string)
    requires KeyPart(line).Some?
    ensures AllSpace(w) && line == w + KeyPart(line).value.0 + KeyPart(line).value.1
  {
    var t := LStrip(line);
    w := LStripSplit(line);
    SplitAt(line, w, t, KeyLength(t));
  }

  lemma KeyLineJoin(line: string, w1: string, key: string, u: string, w2: string, sep: char, rest: string)
    requires line == w1 + key + u && u == w2 + [sep] + rest
    ensures line == w1 + key + w2 + [sep] + rest
  {
    Assoc(w1 + key, w2 + [sep], rest);
    Assoc(w1 + key, w2, [sep]);
  }

  /** Only a placement line matches: `[` first, the two digit runs with
      whitespace and a comma between them, `]`, at least one whitespace
      character, and the group; the group starts with a non-space unless it
      is the last of an all-whitespace tail. */
  lemma PlacementShape(line: string) returns (w1: string, dx: string, w2: string, w3: string, dy: string, w4: string, w5: string)
    requires MatchPlacement(line).Some?
    ensures var m := MatchPlacement(line).value;
      && AllSpace(w1) && AllSpace(w2) && AllSpace(w3) && AllSpace(w4) && AllSpace(w5) && w5 != []
      && dx != [] && AllDigits(dx) && m.0 == DecimalValue(dx)
      && dy != [] && AllDigits(dy) && m.1 == DecimalValue(dy)
      && line == "[" + w1 + dx + w2 + "," + w3 + dy + w4 + "]" + w5 + m.2
      && (IsSpace(m.2[0]) ==> |m.2| == 1 && AllSpace(w5 + m.2))
  {
    var r1 := line[1..];
    var r2 := Number(r1).value.1;
    w1, dx := NumberShape(r1);
    var r3 := After(r2, ',').value;
    w2 := AfterShape(r2, ',');
    var r4 := Number(r3).value.1;
    w3, dy := NumberShape(r3);
    var r5 := After(r4, ']').value;
    w4 := AfterShape(r4, ']');
    var g := GreedyTail(r5).value;
    w5 := GreedyShape(r5);
    PlacementJoin(line, r1, w1, dx, r2, w2, r3, w3, dy, r4, w4, r5, w5, g);
  }

  lemma PlacementJoin(line: string, r1: string, w1: string, dx: string, r2: string, w2: string,
                      r3: string, w3: string, dy: string, r4: string, w4: string, r5: string,
                      w5: string, g: string)
    requires line != [] && line[0] == '[' && r1 == line[1..]
    requires r1 == w1 + dx + r2 && r2 == w2 + [','] + r3 && r3 == w3 + dy + r4
    requires r4 == w4 + [']'] + r5 && r5 == w5 + g
    ensures line == "[" + w1 + dx + w2 + "," + w3 + dy + w4 + "]" + w5 + g
  {
    assert line == "[" + r1;
  }

  /** `s` is its leading whitespace followed by `LStrip(s)`. */
  lemma LStripSplit(s: string) returns (w: string)
    ensures AllSpace(w) && s == w + LStrip(s)
  {
    w := SpaceThen(s, LStrip(s));
  }

  lemma SpaceThen(s: string, b: string) returns (w: string)
    requires |b| <= |s| && b == s[|s| - |b|..]
    requires forall i :: 0 <= i < |s| - |b| ==> IsSpace(s[i])
    ensures AllSpace(w) && s == w + b
  {
    w := s[..|s| - |b|];
  }

  lemma AfterShape(s: string, c: char) returns (w: string)
    requires After(s, c).Some?
    ensures AllSpace(w) && s == w + [c] + After(s, c).value
  {
    var b := LStrip(s);
    w := LStripSplit(s);
    SplitHead(s, w, b);
  }

  lemma SplitHead(s: string, w: string, b: string)
    requires s == w + b && b != []
    ensures s == w + [b[0]] + b[1..]
  {
    assert b == [b[0]] + b[1..];
    Assoc(w, [b[0]], b[1..]);
  }

  lemma NumberShape(s: string) returns (w: string, ds: string)
    requires Number(s).Some?
    ensures AllSpace(w) && ds != [] && AllDigits(ds) && Number(s).value.0 == DecimalValue(ds)
    ensures s == w + ds + Number(s).value.1
  {
    var a := LStrip(s);
    w := LStripSplit(s);
    ds := a[..DigitLength(a)];
    DigitRun(s, w, a, DigitLength(a));
  }

  lemma DigitRun(s: string, w: string, a: string, k: nat)
    requires s == w + a && 0 < k <= |a| && forall i :: 0 <= i < k ==> IsDigit(a[i])
    ensures a[..k] != [] && AllDigits(a[..k])
    ensures s == w + a[..k] + a[k..]
  {
    SplitAt(s, w, a, k);
  }

  lemma SplitAt(s: string, w: string, a: string, k: nat)
    requires s == w + a && k <= |a|
    ensures s == w + a[..k] + a[k..]
  {
    assert a == a[..k] + a[k..];
    Assoc(w, a[..k], a[k..]);
  }

  lemma GreedyShape(rest: string) returns (w: string)
    requires GreedyTail(rest).Some?
    ensures var g := GreedyTail(rest).value;
      && AllSpace(w) && w != [] && rest == w + g
      && (IsSpace(g[0]) ==> |g| == 1 && AllSpace(rest))
  {
    var w0 := LStripSplit(rest);
    if LStrip(rest) != [] {
      w := w0;
    } else {
      assert rest == w0;
      w := rest[..|rest| - 1];
      assert rest == w + [rest[|rest| - 1]];
    }
  }

  lemma Assoc(a: string, b: string, c: string)
    ensures a + b + c == a + (b + c)
  {
  }
}
