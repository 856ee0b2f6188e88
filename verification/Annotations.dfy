/** Workflow-command annotations: src/intentumdiff/analysis/guardrail_reports.py, with a
  * reader for the lines it prints.
  */
module Annotations {
  import opened Common

  datatype Severity = Important | Immutable

  datatype Position = Position(startLine: nat, startCol: nat)

  datatype Violation = Violation(ruleId: string, severity: Severity, file: string, position: Option<Position>,
                                 oldValue: string, newValue: string, message: string)

  /* ----- Escaping. ----- */

  /** str.replace for a one-character needle. */
  function Replace(s: string, c: char, code: string): string {
    if s == [] then [] else (if s[0] == c then code else [s[0]]) + Replace(s[1..], c, code)
  }

  function EscapeMessage(s: string): string {
    Replace(Replace(Replace(s, '%', "%25"), '\r', "%0D"), '\n', "%0A")
  }

  function EscapeProperty(s: string): string {
    Replace(Replace(EscapeMessage(s), ':', "%3A"), ',', "%2C")
  }

  /** One character's code; `inside` a property two more characters are coded. */
  function Code(c: char, inside: bool): string {
    if c == '%' then "%25"
    else if c == '\r' then "%0D"
    else if c == '\n' then "%0A"
    else if inside && c == ':' then "%3A"
    else if inside && c == ',' then "%2C"
    else [c]
  }

  function OnePass(s: string, inside: bool): string {
    if s == [] then [] else Code(s[0], inside) + OnePass(s[1..], inside)
  }

  lemma {:induction false} ReplaceConcat(a: string, b: string, c: char, code: string)
    ensures Replace(a + b, c, code) == Replace(a, c, code) + Replace(b, c, code)
  {
    if a == [] {
      assert a + b == b;
    } else {
      assert (a + b)[1..] == a[1..] + b;
      ReplaceConcat(a[1..], b, c, code);
    }
  }

  lemma ReplaceShort(s: string, c: char, code: string)
    requires |s| == 1 || |s| == 3
    ensures |s| == 1 ==> Replace(s, c, code) == if s[0] == c then code else s
    ensures |s| == 3 && c !in s ==> Replace(s, c, code) == s
  {
    if |s| == 3 {
      assert s[1..][1..] == [s[2]] && [s[2]][1..] == [];
      assert s[1..][0] == s[1];
      assert Replace([s[2]], c, code) == (if s[2] == c then code else [s[2]]) + Replace([], c, code);
    } else {
      assert s[1..] == [];
    }
  }

  lemma CodeOfOne(c: char)
    ensures EscapeMessage([c]) == Code(c, false)
    ensures EscapeProperty([c]) == Code(c, true)
  {
    hide Replace;
    ReplaceShort([c], '%', "%25");
    var a := Replace([c], '%', "%25");
    ReplaceShort(a, '\r', "%0D");
    var b := Replace(a, '\r', "%0D");
    ReplaceShort(b, '\n', "%0A");
    var d := Replace(b, '\n', "%0A");
    ReplaceShort(d, ':', "%3A");
    var e := Replace(d, ':', "%3A");
    ReplaceShort(e, ',', "%2C");
  }

  lemma EscapeConcat(a: string, b: string)
    ensures EscapeMessage(a + b) == EscapeMessage(a) + EscapeMessage(b)
    ensures EscapeProperty(a + b) == EscapeProperty(a) + EscapeProperty(b)
  {
    ReplaceConcat(a, b, '%', "%25");
    var a1, b1 := Replace(a, '%', "%25"), Replace(b, '%', "%25");
    ReplaceConcat(a1, b1, '\r', "%0D");
    var a2, b2 := Replace(a1, '\r', "%0D"), Replace(b1, '\r', "%0D");
    ReplaceConcat(a2, b2, '\n', "%0A");
    var a3, b3 := EscapeMessage(a), EscapeMessage(b);
    ReplaceConcat(a3, b3, ':', "%3A");
    ReplaceConcat(Replace(a3, ':', "%3A"), Replace(b3, ':', "%3A"), ',', "%2C");
  }

  /** The chained replaces code every character once: no replacement is replaced again. */
  lemma {:induction false} ChainIsOnePass(s: string)
    ensures EscapeMessage(s) == OnePass(s, false)
    ensures EscapeProperty(s) == OnePass(s, true)
  {
    if s != [] {
      assert s == [s[0]] + s[1..];
      EscapeConcat([s[0]], s[1..]);
      CodeOfOne(s[0]);
      ChainIsOnePass(s[1..]);
    }
  }

  /** The three codes of a message, the two more of a property, and nothing else. */
  lemma EscapesExactly(c: char)
    ensures EscapeMessage("%") == EscapeProperty("%") == "%25"
    ensures EscapeMessage("\r") == EscapeProperty("\r") == "%0D"
    ensures EscapeMessage("\n") == EscapeProperty("\n") == "%0A"
    ensures EscapeProperty(":") == "%3A" && EscapeProperty(",") == "%2C"
    ensures c != '%' && c != '\r' && c != '\n' ==> EscapeMessage([c]) == [c]
    ensures c != '%' && c != '\r' && c != '\n' && c != ':' && c != ',' ==> EscapeProperty([c]) == [c]
  {
    hide EscapeMessage, EscapeProperty;
    CodeOfOne(c);
    CodeOfOne('%');
    CodeOfOne('\r');
    CodeOfOne('\n');
    CodeOfOne(':');
    CodeOfOne(',');
  }

  function Decoded(a: char, b: char): Option<char> {
    if a == '2' && b == '5' then Some('%')
    else if a == '0' && b == 'D' then Some('\r')
    else if a == '0' && b == 'A' then Some('\n')
    else if a == '3' && b == 'A' then Some(':')
    else if a == '2' && b == 'C' then Some(',')
    else None
  }

  function Unescape(s: string): string {
    if s == [] then []
    else if |s| >= 3 && s[0] == '%' && Decoded(s[1], s[2]).Some? then [Decoded(s[1], s[2]).value] + Unescape(s[3..])
    else [s[0]] + Unescape(s[1..])
  }

  lemma UnescapeCode(c: char, inside: bool, rest: string)
    ensures Unescape(Code(c, inside) + rest) == [c] + Unescape(rest)
  {
    var code := Code(c, inside);
    var out := code + rest;
    assert out[|code|..] == rest;
    if |code| == 3 {
      assert out[0] == '%' && out[1] == code[1] && out[2] == code[2];
    } else {
      assert out[0] == c != '%';
    }
  }

  lemma {:induction false} UnescapeOnePass(s: string, inside: bool)
    ensures Unescape(OnePass(s, inside)) == s
  {
    if s != [] {
      assert OnePass(s, inside) == Code(s[0], inside) + OnePass(s[1..], inside);
      hide OnePass, Unescape, Code;
      UnescapeCode(s[0], inside, OnePass(s[1..], inside));
      UnescapeOnePass(s[1..], inside);
      assert s == [s[0]] + s[1..];
    } else {
      assert OnePass(s, inside) == [];
    }
  }

  predicate Clean(s: string, inside: bool) {
    forall k :: 0 <= k < |s| ==> s[k] != '\r' && s[k] != '\n' && (inside ==> s[k] != ':' && s[k] != ',')
  }

  lemma {:induction false} OnePassClean(s: string, inside: bool)
    ensures Clean(OnePass(s, inside), inside)
  {
    if s != [] {
      OnePassClean(s[1..], inside);
      var code := Code(s[0], inside);
      assert Clean(code, inside);
    }
  }

  /** Escaping loses nothing and leaves nothing that could end a property or a line. */
  lemma EscapeRoundTrip(s: string)
    ensures Unescape(EscapeMessage(s)) == s && Clean(EscapeMessage(s), false)
    ensures Unescape(EscapeProperty(s)) == s && Clean(EscapeProperty(s), true)
  {
    ChainIsOnePass(s);
    UnescapeOnePass(s, false);
    UnescapeOnePass(s, true);
    OnePassClean(s, false);
    OnePassClean(s, true);
  }

  /* ----- Decimal numbers. ----- */

  function Digit(d: nat): (c: char)
    requires d < 10
    ensures '0' <= c <= '9' && c as int - '0' as int == d
  {
    ('0' as int + d) as char
  }

  function Decimal(n: nat): (s: string)
    ensures |s| > 0 && forall k :: 0 <= k < |s| ==> '0' <= s[k] <= '9'
  {
    if n < 10 then [Digit(n)] else Decimal(n / 10) + [Digit(n % 10)]
  }

  /** Base ten, most significant digit first, no leading zero. */
  lemma DecimalExactly(q: nat, d: nat)
    requires d < 10
    ensures |Decimal(d)| == 1 && Decimal(d)[0] == "0123456789"[d]
    ensures q > 0 ==> Decimal(10 * q + d) == Decimal(q) + Decimal(d)
  {
  }

  function ReadDecimal(s: string): Option<nat> {
    if s == [] then None
    else
      var last := s[|s| - 1];
      if !('0' <= last <= '9') then None
      else if |s| == 1 then Some(last as int - '0' as int)
      else match ReadDecimal(s[..|s| - 1])
        case None => None
        case Some(n) => Some(10 * n + (last as int - '0' as int))
  }

  lemma {:induction false} DecimalRoundTrip(n: nat)
    ensures ReadDecimal(Decimal(n)) == Some(n)
  {
    if n >= 10 {
      DecimalRoundTrip(n / 10);
      assert Decimal(n)[..|Decimal(n)| - 1] == Decimal(n / 10);
    }
  }

  /* ----- Joining and splitting on one character. ----- */

  function Join(parts: seq<string>, c: char): string {
    if parts == [] then [] else if |parts| == 1 then parts[0] else parts[0] + [c] + Join(parts[1..], c)
  }

  /** Where c first stands in s, or |s|. */
  function Find(s: string, c: char): (k: nat)
    ensures k <= |s|
    ensures k < |s| ==> s[k] == c
  {
    if s == [] || s[0] == c then 0 else 1 + Find(s[1..], c)
  }

  function Split(s: string, c: char): (parts: seq<string>)
    ensures parts != []
    decreases |s|
  {
    var k := Find(s, c);
    if k == |s| then [s] else [s[..k]] + Split(s[k + 1..], c)
  }

  predicate Lacks(s: string, c: char) {
    forall k :: 0 <= k < |s| ==> s[k] != c
  }

  lemma {:induction false} FindAfter(a: string, c: char, b: string)
    requires Lacks(a, c)
    ensures Find(a + [c] + b, c) == |a|
    ensures Find(a, c) == |a|
  {
    if a == [] {
      assert (a + [c] + b)[0] == c;
    } else {
      assert (a + [c] + b)[1..] == a[1..] + [c] + b;
      FindAfter(a[1..], c, b);
    }
  }

  lemma {:induction false} SplitJoin(parts: seq<string>, c: char)
    requires parts != [] && forall k :: 0 <= k < |parts| ==> Lacks(parts[k], c)
    ensures Split(Join(parts, c), c) == parts
  {
    var rest := Join(parts[1..], c);
    FindAfter(parts[0], c, rest);
    if |parts| == 1 {
      assert parts == [parts[0]];
    } else {
      var all := parts[0] + [c] + rest;
      assert all[..|parts[0]|] == parts[0] && all[|parts[0]| + 1..] == rest;
      SplitJoin(parts[1..], c);
      assert parts == [parts[0]] + parts[1..];
    }
  }

  /* ----- The printed line. ----- */

  function SeverityText(s: Severity): string {
    match s case Important => "important" case Immutable => "immutable"
  }

  function Level(s: Severity): string {
    if s == Immutable then "error" else "warning"
  }

  function Title(v: Violation): string {
    SeverityText(v.severity) + " guardrail " + v.ruleId
  }

  function MessageOf(v: Violation, repr: string -> string): string {
    var m := if v.message != "" then v.message else "Protected semantic path changed";
    if v.oldValue != "" || v.newValue != "" then m + ": " + repr(v.oldValue) + " -> " + repr(v.newValue) else m
  }

  function Properties(v: Violation): seq<string> {
    ["file=" + EscapeProperty(v.file), "title=" + EscapeProperty(Title(v))]
    + if v.position.None? then []
      else ["line=" + Decimal(v.position.value.startLine + 1), "col=" + Decimal(v.position.value.startCol + 1)]
  }

  function AnnotationLine(v: Violation, repr: string -> string): string {
    "::" + Level(v.severity) + " " + Join(Properties(v), ',') + "::" + EscapeMessage(MessageOf(v, repr))
  }

  function Lines(vs: seq<Violation>, repr: string -> string): (lines: seq<string>)
    ensures |lines| == |vs| && forall k :: 0 <= k < |vs| ==> lines[k] == AnnotationLine(vs[k], repr)
  {
    seq(|vs|, k requires 0 <= k < |vs| => AnnotationLine(vs[k], repr))
  }

  function Render(vs: seq<Violation>, repr: string -> string): string {
    Join(Lines(vs, repr), '\n')
  }

  /** The words of an annotation. */
  lemma WordsExactly(v: Violation, repr: string -> string)
    ensures v.severity == Immutable ==> Level(v.severity) == "error" && Title(v) == "immutable guardrail " + v.ruleId
    ensures v.severity == Important ==> Level(v.severity) == "warning" && Title(v) == "important guardrail " + v.ruleId
    ensures v.message != "" && v.oldValue == "" && v.newValue == "" ==> MessageOf(v, repr) == v.message
    ensures v.message != "" && (v.oldValue != "" || v.newValue != "") ==>
              MessageOf(v, repr) == v.message + ": " + repr(v.oldValue) + " -> " + repr(v.newValue)
    ensures v.message == "" ==> MessageOf(v, repr) == MessageOf(v.(message := "Protected semantic path changed"), repr)
  {
    if v.severity == Immutable {
      assert "immutable guardrail " == "immutable" + " guardrail ";
    } else {
      assert "important guardrail " == "important" + " guardrail ";
    }
  }

  /** The layout of a line, and of the whole output. */
  lemma LayoutExactly(v: Violation, repr: string -> string, vs: seq<Violation>)
    ensures var file, title := "file=" + EscapeProperty(v.file), "title=" + EscapeProperty(Title(v));
            var start, end := "::" + Level(v.severity) + " ", "::" + EscapeMessage(MessageOf(v, repr));
            AnnotationLine(v, repr) ==
            match v.position
            case None => start + (file + "," + title) + end
            case Some(p) =>
              var line, col := "line=" + Decimal(p.startLine + 1), "col=" + Decimal(p.startCol + 1);
              start + (file + "," + title + "," + line + "," + col) + end
    ensures Render([], repr) == "" && Render([v], repr) == AnnotationLine(v, repr)
    ensures vs != [] ==> Render([v] + vs, repr) == AnnotationLine(v, repr) + "\n" + Render(vs, repr)
  {
    hide Level, EscapeProperty, EscapeMessage, MessageOf, Title, Decimal;
    var properties := Properties(v);
    JoinMeans(properties, ',');
    assert "," == [','];
    var lines := Lines([v] + vs, repr);
    hide AnnotationLine;
    assert lines[1..] == Lines(vs, repr);
    assert Lines([v], repr) == [AnnotationLine(v, repr)];
  }

  lemma JoinMeans(parts: seq<string>, c: char)
    ensures |parts| == 2 ==> Join(parts, c) == parts[0] + [c] + parts[1]
    ensures |parts| == 4 ==> Join(parts, c) == parts[0] + [c] + parts[1] + [c] + parts[2] + [c] + parts[3]
  {
    if |parts| == 2 {
      assert parts[1..] == [parts[1]];
    } else if |parts| == 4 {
      assert parts[1..][1..] == parts[2..] && parts[2..][1..] == [parts[3]];
    }
  }

  /* ----- The reader. ----- */

  datatype Annotation = Annotation(level: string, file: string, title: string, position: Option<(nat, nat)>,
                                   message: string)

  /** The value of the property `name=value`, if that is its name. */
  function Field(property: string, name: string): Option<string> {
    if |name| + 1 <= |property| && property[..|name|] == name && property[|name|] == '='
    then Some(property[|name| + 1..]) else None
  }

  function ReadProperties(level: string, parts: seq<string>, message: string): Option<Annotation> {
    if |parts| != 2 && |parts| != 4 then None
    else
      var file, title := Field(parts[0], "file"), Field(parts[1], "title");
      if file.None? || title.None? then None
      else if |parts| == 2 then Some(Annotation(level, Unescape(file.value), Unescape(title.value), None, message))
      else
        var line, col := Field(parts[2], "line"), Field(parts[3], "col");
        if line.None? || col.None? then None
        else
          var l, c := ReadDecimal(line.value), ReadDecimal(col.value);
          if l.None? || c.None? then None
          else Some(Annotation(level, Unescape(file.value), Unescape(title.value), Some((l.value, c.value)), message))
  }

  /** `::level properties::message`: the level ends at the first blank, the properties at the
    * first colon, which must be doubled.
    */
  function ReadLine(line: string): Option<Annotation> {
    if |line| < 2 || line[..2] != "::" then None
    else
      var body := line[2..];
      var blank := Find(body, ' ');
      if blank == |body| then None
      else
        var rest := body[blank + 1..];
        var colon := Find(rest, ':');
        if colon + 1 >= |rest| || rest[colon + 1] != ':' then None
        else ReadProperties(body[..blank], Split(rest[..colon], ','), Unescape(rest[colon + 2..]))
  }

  function Read(text: string): seq<Option<Annotation>> {
    if text == "" then []
    else
      var lines := Split(text, '\n');
      seq(|lines|, k requires 0 <= k < |lines| => ReadLine(lines[k]))
  }

  /** Positions are zero-based, annotations one-based. */
  function PlaceOf(v: Violation): Option<(nat, nat)> {
    if v.position.None? then None else Some((v.position.value.startLine + 1, v.position.value.startCol + 1))
  }

  /** What a reader of the violation's line should find. */
  function Expected(v: Violation, repr: string -> string): Annotation {
    Annotation(Level(v.severity), v.file, Title(v),
               PlaceOf(v), MessageOf(v, repr))
  }

  lemma FieldRead(name: string, value: string)
    ensures Field(name + "=" + value, name) == Some(value)
  {
    var p := name + "=" + value;
    assert p[..|name|] == name && p[|name| + 1..] == value;
  }

  lemma PropertiesRead(v: Violation, message: string)
    ensures ReadProperties(Level(v.severity), Properties(v), message)
         == Some(Annotation(Level(v.severity), v.file, Title(v),
                            PlaceOf(v), message))
  {
    hide EscapeProperty, Unescape, Title, Decimal, ReadDecimal, Level, Field;
    EscapeRoundTrip(v.file);
    EscapeRoundTrip(Title(v));
    FieldRead("file", EscapeProperty(v.file));
    FieldRead("title", EscapeProperty(Title(v)));
    assert "file=" == "file" + "=" && "title=" == "title" + "=" && "line=" == "line" + "=" && "col=" == "col" + "=";
    if v.position.Some? {
      var l, c := v.position.value.startLine + 1, v.position.value.startCol + 1;
      DecimalRoundTrip(l);
      DecimalRoundTrip(c);
      FieldRead("line", Decimal(l));
      FieldRead("col", Decimal(c));
    }
  }

  /** No property holds a comma, a colon or a line break. */
  lemma PropertiesClean(v: Violation)
    ensures Properties(v) != []
    ensures forall k :: 0 <= k < |Properties(v)| ==> Clean(Properties(v)[k], true)
  {
    hide EscapeProperty, Title, Decimal, Unescape;
    EscapeRoundTrip(v.file);
    EscapeRoundTrip(Title(v));
  }

  lemma {:induction false} JoinClean(parts: seq<string>)
    requires forall k :: 0 <= k < |parts| ==> Clean(parts[k], true)
    ensures Clean(Join(parts, ','), false) && Lacks(Join(parts, ','), ':')
  {
    if |parts| > 1 {
      JoinClean(parts[1..]);
    }
  }

  /** A printed line is one line. */
  lemma LineClean(v: Violation, repr: string -> string)
    ensures Clean(AnnotationLine(v, repr), false) && AnnotationLine(v, repr) != ""
  {
    hide EscapeMessage, Properties, MessageOf, Join;
    PropertiesClean(v);
    JoinClean(Properties(v));
    EscapeRoundTrip(MessageOf(v, repr));
  }

  /** A reader recovers level, file, title, line, column and message from the printed line. */
  lemma LineRead(v: Violation, repr: string -> string)
    ensures ReadLine(AnnotationLine(v, repr)) == Some(Expected(v, repr))
  {
    hide EscapeMessage, Properties, MessageOf, Join, Split, Unescape, ReadLine, ReadProperties, Title;
    var level, props, message := Level(v.severity), Join(Properties(v), ','), EscapeMessage(MessageOf(v, repr));
    var line := AnnotationLine(v, repr);
    PropertiesClean(v);
    JoinClean(Properties(v));
    EscapeRoundTrip(MessageOf(v, repr));
    PropertiesRead(v, MessageOf(v, repr));
    SplitJoin(Properties(v), ',');
    ReadLineParts(level, props, message);
    assert line == "::" + level + " " + props + "::" + message;
  }

  /** Taking a line apart at its blank and its first doubled colon. */
  lemma ReadLineParts(level: string, props: string, message: string)
    requires Lacks(level, ' ') && Lacks(props, ':')
    ensures ReadLine("::" + level + " " + props + "::" + message)
         == ReadProperties(level, Split(props, ','), Unescape(message))
  {
    var line := "::" + level + " " + props + "::" + message;
    var rest := props + "::" + message;
    var body := level + [' '] + rest;
    assert line[2..] == body;
    assert line[..2] == "::";
    FindAfter(level, ' ', rest);
    assert body[|level| + 1..] == rest && body[..|level|] == level;
    assert rest == props + [':'] + ([':'] + message);
    FindAfter(props, ':', [':'] + message);
    assert rest[..|props|] == props && rest[|props| + 2..] == message && rest[|props| + 1] == ':';
  }

  /** One line per violation, in order, each read back whole: nothing in a violation can
    * forge a second command or another property.
    */
  lemma RenderRead(vs: seq<Violation>, repr: string -> string)
    ensures |Read(Render(vs, repr))| == |vs|
    ensures forall k :: 0 <= k < |vs| ==> Read(Render(vs, repr))[k] == Some(Expected(vs[k], repr))
  {
    hide AnnotationLine, ReadLine, Expected;
    var lines := Lines(vs, repr);
    forall k | 0 <= k < |vs|
      ensures Lacks(lines[k], '\n') && lines[k] != "" && ReadLine(lines[k]) == Some(Expected(vs[k], repr))
    {
      LineClean(vs[k], repr);
      LineRead(vs[k], repr);
    }
    if vs != [] {
      SplitJoin(lines, '\n');
      assert Join(lines, '\n') != "";
    }
  }

  /* ----- SARIF rules. ----- */

  datatype Rule = Rule(id: string, text: string)

  function RuleText(v: Violation): string {
    if v.message != "" then v.message else "Protected semantic path changed"
  }

  predicate FirstWith(vs: seq<Violation>, k: nat) {
    k < |vs| && forall j :: 0 <= j < k ==> vs[j].ruleId != vs[k].ruleId
  }

  /** The violations among the first n that name a rule for the first time. */
  function Owners(vs: seq<Violation>, n: nat): (owners: seq<nat>)
    requires n <= |vs|
    ensures forall i :: 0 <= i < |owners| ==> owners[i] < n
  {
    if n == 0 then []
    else if FirstWith(vs, n - 1) then Owners(vs, n - 1) + [n - 1]
    else Owners(vs, n - 1)
  }

  /** The owners are exactly the first namings, in order. */
  lemma {:induction false} OwnersExact(vs: seq<Violation>, n: nat)
    requires n <= |vs|
    ensures forall i, j :: 0 <= i < j < |Owners(vs, n)| ==> Owners(vs, n)[i] < Owners(vs, n)[j]
    ensures forall k: nat :: k in Owners(vs, n) <==> k < n && FirstWith(vs, k)
  {
    hide FirstWith;
    if n > 0 {
      OwnersExact(vs, n - 1);
      var before := Owners(vs, n - 1);
      if FirstWith(vs, n - 1) {
        assert Owners(vs, n) == before + [n - 1];
      }
    }
  }

  /** Every violation's rule has an owner, and only one. */
  lemma {:induction false} OneOwner(vs: seq<Violation>, k: nat) returns (first: nat)
    requires k < |vs|
    ensures first in Owners(vs, |vs|) && vs[first].ruleId == vs[k].ruleId
    ensures forall other: nat :: other in Owners(vs, |vs|) && vs[other].ruleId == vs[k].ruleId ==> other == first
  {
    if FirstWith(vs, k) {
      first := k;
    } else {
      var j :| 0 <= j < k && vs[j].ruleId == vs[k].ruleId;
      first := OneOwner(vs, j);
    }
    OwnersExact(vs, |vs|);
    forall other: nat | other in Owners(vs, |vs|) && vs[other].ruleId == vs[k].ruleId ensures other == first {
      assert FirstWith(vs, other) && FirstWith(vs, first);
    }
  }

  /** rules_by_id: one rule per id, described by the first violation that names it. */
  method SarifRules(vs: seq<Violation>) returns (rules: seq<Rule>)
    ensures |rules| == |Owners(vs, |vs|)|
    ensures forall i :: 0 <= i < |rules| ==>
              rules[i] == Rule(vs[Owners(vs, |vs|)[i]].ruleId, RuleText(vs[Owners(vs, |vs|)[i]]))
    ensures forall i :: 0 <= i < |rules| ==>
              var message := vs[Owners(vs, |vs|)[i]].message;
              rules[i].text == if message == "" then "Protected semantic path changed" else message
  {
    rules := [];
    var ids: set<string> := {};
    var n := 0;
    while n < |vs|
      invariant 0 <= n <= |vs|
      invariant forall k :: 0 <= k < n ==> vs[k].ruleId in ids
      invariant forall id :: id in ids ==> exists k :: 0 <= k < n && vs[k].ruleId == id
      invariant |rules| == |Owners(vs, n)|
      invariant forall i :: 0 <= i < |rules| ==>
                  rules[i] == Rule(vs[Owners(vs, n)[i]].ruleId, RuleText(vs[Owners(vs, n)[i]]))
    {
      var v := vs[n];
      assert v.ruleId in ids <==> !FirstWith(vs, n);
      if v.ruleId !in ids {
        ids := ids + {v.ruleId};
        rules := rules + [Rule(v.ruleId, RuleText(v))];
      }
      n := n + 1;
    }
  }
}
