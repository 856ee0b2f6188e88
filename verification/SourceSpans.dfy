/**
 Row and byte-column positions in a source text: how the release checks validate
 the spans of a changed tree, read the text under a span, and name the position
 of a character.
 */
module SourceSpans {
  import opened ByteStrings
  import opened Common
  import opened Utf8

  datatype Span = Span(startLine: int, startCol: int, endLine: int, endCol: int)

  /** The characters at which splitlines() ends a line. */
  predicate IsBreak(c: char) {
    || '\n' <= c <= '\r'
    || '\U{1c}' <= c <= '\U{1e}'
    || c == '\U{85}' || c == '\U{2028}' || c == '\U{2029}'
  }

  /** The length of the first line, with its terminator; a CR and LF pair is one terminator. */
  function LineEnd(s: string): (n: nat)
    requires s != ""
    ensures 0 < n <= |s|
  {
    if IsBreak(s[0]) then (if s[0] == '\r' && 1 < |s| && s[1] == '\n' then 2 else 1)
    else if |s| == 1 then 1
    else 1 + LineEnd(s[1..])
  }

  /** splitlines(keepends=True). */
  function SplitKeep(s: string): seq<string>
    decreases |s|
  {
    if s == "" then [] else [s[..LineEnd(s)]] + SplitKeep(s[LineEnd(s)..])
  }

  /** A line without its terminator. */
  function Strip(line: string): (r: string)
    ensures r <= line
  {
    if line == "" || !IsBreak(line[|line| - 1]) then line
    else if 1 < |line| && line[|line| - 2..] == "\r\n" then line[..|line| - 2]
    else line[..|line| - 1]
  }

  /** The byte offset at which row r starts. */
  function LineOffset(lines: seq<string>, r: nat): nat
    requires r <= |lines|
  {
    if r == 0 then 0 else Size(lines[0]) + LineOffset(lines[1..], r - 1)
  }

  // ---------------------------------------------------------------- reading a span

  datatype Text = Text(value: string) | OutOfRange | NotInSource | NotUtf8

  /** The entry of the table of row offsets, which a negative row indexes from its end. */
  function RowOffset(source: string, row: int): Option<nat> {
    var lines := SplitKeep(source);
    if 0 <= row <= |lines| then Some(LineOffset(lines, row))
    else if -|lines| - 1 <= row < 0 then Some(LineOffset(lines, |lines| + 1 + row))
    else None
  }

  function NodeSourceText(source: string, span: Span): Text {
    match (RowOffset(source, span.startLine), RowOffset(source, span.endLine))
    case (Some(a), Some(b)) =>
      var raw, start, end := Encode(source), a + span.startCol, b + span.endCol;
      if !(0 <= start <= end <= |raw|) then NotInSource
      else (match Decode(raw[start..end]) case Some(text) => Text(text) case None => NotUtf8)
    case _ => OutOfRange
  }

  /** The loop that builds the table of row offsets. */
  method BuildOffsets(lines: seq<string>) returns (offsets: seq<nat>)
    ensures |offsets| == |lines| + 1
    ensures forall r :: 0 <= r <= |lines| ==> offsets[r] == LineOffset(lines, r)
  {
    offsets := [0];
    for r := 0 to |lines|
      invariant |offsets| == r + 1
      invariant forall k :: 0 <= k <= r ==> offsets[k] == LineOffset(lines, k)
    {
      LineOffsetNext(lines, r);
      offsets := offsets + [offsets[r] + Size(lines[r])];
    }
  }

  /** _node_source_text. */
  method ReadNodeText(source: string, span: Span) returns (text: Text)
    ensures text == NodeSourceText(source, span)
  {
    var offsets := BuildOffsets(SplitKeep(source));
    hide SplitKeep, LineOffset, Encode, Decode;
    var n := |offsets|;
    if !(-n <= span.startLine < n) || !(-n <= span.endLine < n) {
      return OutOfRange;
    }
    var start := offsets[if span.startLine < 0 then n + span.startLine else span.startLine] + span.startCol;
    var end := offsets[if span.endLine < 0 then n + span.endLine else span.endLine] + span.endCol;
    var raw := Encode(source);
    if !(0 <= start <= end <= |raw|) {
      return NotInSource;
    }
    match Decode(raw[start..end])
    case Some(t) => text := Text(t);
    case None => text := NotUtf8;
  }

  lemma {:induction false} LineOffsetNext(lines: seq<string>, r: nat)
    requires r < |lines|
    ensures LineOffset(lines, r + 1) == LineOffset(lines, r) + Size(lines[r])
  {
    if r > 0 {
      LineOffsetNext(lines[1..], r - 1);
    } else {
      assert LineOffset(lines[1..], 0) == 0;
    }
  }

  // ---------------------------------------------------------------- validating a tree

  datatype Node = Node(labelText: string, span: Span, children: seq<Node>)

  /** The byte columns of a line at which a character starts or the line ends. */
  function Boundaries(line: string): set<int> {
    set k | 0 <= k <= |line| :: Size(line[..k])
  }

  /** A row past the last one is a position only in an empty source or after a final CR or LF. */
  predicate TerminalRow(source: string) {
    source == "" || source[|source| - 1] == '\n' || source[|source| - 1] == '\r'
  }

  predicate PointOk(source: string, row: int, col: int) {
    var lines := SplitKeep(source);
    && (0 <= row < |lines| || (row == |lines| && TerminalRow(source) && col == 0))
    && col in Boundaries(if row < |lines| then Strip(lines[row]) else "")
  }

  predicate SpanOk(source: string, span: Span) {
    && (span.startLine < span.endLine || (span.startLine == span.endLine && span.startCol <= span.endCol))
    && PointOk(source, span.startLine, span.startCol)
    && PointOk(source, span.endLine, span.endCol)
  }

  /** Every node below and including this one has a valid span. */
  predicate TreeOk(source: string, node: Node)
    decreases node, 0
  {
    SpanOk(source, node.span) && ForestOk(source, node.children)
  }

  predicate ForestOk(source: string, nodes: seq<Node>)
    decreases nodes
  {
    nodes == [] || (TreeOk(source, nodes[0]) && ForestOk(source, nodes[1..]))
  }

  function TreeSize(node: Node): nat
    decreases node, 0
  {
    1 + ForestSize(node.children)
  }

  function ForestSize(nodes: seq<Node>): nat
    decreases nodes
  {
    if nodes == [] then 0 else TreeSize(nodes[0]) + ForestSize(nodes[1..])
  }

  lemma {:induction false} ForestAppend(source: string, a: seq<Node>, b: seq<Node>)
    ensures ForestOk(source, a + b) <==> ForestOk(source, a) && ForestOk(source, b)
    ensures ForestSize(a + b) == ForestSize(a) + ForestSize(b)
  {
    if a == [] {
      assert a + b == b;
    } else {
      assert (a + b)[1..] == a[1..] + b;
      ForestAppend(source, a[1..], b);
    }
  }

  /** The loop that collects the boundaries of a line. */
  method CollectBoundaries(line: string) returns (boundaries: set<int>)
    ensures boundaries == Boundaries(line)
  {
    boundaries := {0};
    var offset := 0;
    assert line[..0] == "";
    for i := 0 to |line|
      invariant offset == Size(line[..i])
      invariant boundaries == set k | 0 <= k <= i :: Size(line[..k])
    {
      SizeAppend(line[..i], [line[i]]);
      assert line[..i + 1] == line[..i] + [line[i]];
      offset := offset + CharSize(line[i]);
      boundaries := boundaries + {offset};
    }
  }

  /**
   check_source_spans for one changed node: a walk with an explicit stack that
   accepts exactly when every span of the tree is valid.
   */
  method CheckSourceSpans(source: string, root: Node) returns (ok: bool)
    ensures ok <==> TreeOk(source, root)
  {
    var lines := SplitKeep(source);
    var stack := [root];
    while stack != []
      invariant TreeOk(source, root) <==> ForestOk(source, stack)
      decreases ForestSize(stack)
    {
      var current := stack[|stack| - 1];
      var rest := stack[..|stack| - 1];
      assert stack == rest + [current];
      ForestAppend(source, rest, [current]);
      ForestAppend(source, rest, current.children);
      var span := current.span;
      if span.startLine > span.endLine || (span.startLine == span.endLine && span.startCol > span.endCol) {
        return false;
      }
      var startOk := CheckPoint(source, lines, span.startLine, span.startCol);
      var endOk := CheckPoint(source, lines, span.endLine, span.endCol);
      if !startOk || !endOk {
        return false;
      }
      stack := rest + current.children;
    }
    return true;
  }

  method CheckPoint(source: string, lines: seq<string>, row: int, col: int) returns (ok: bool)
    requires lines == SplitKeep(source)
    ensures ok <==> PointOk(source, row, col)
  {
    if !(0 <= row < |lines| || (row == |lines| && TerminalRow(source) && col == 0)) {
      return false;
    }
    var boundaries := CollectBoundaries(if row < |lines| then Strip(lines[row]) else "");
    return col in boundaries;
  }

  // ---------------------------------------------------------------- soundness

  /** The position of the character at which row r starts. */
  function RowStart(s: string, r: nat): (i: nat)
    requires r <= |SplitKeep(s)|
    ensures i <= |s|
    decreases |s|
  {
    if r == 0 then 0 else LineEnd(s) + RowStart(s[LineEnd(s)..], r - 1)
  }

  /** The rows after the first are those of what follows it. */
  lemma FirstRow(s: string, r: nat)
    requires s != "" && r <= |SplitKeep(s[LineEnd(s)..])|
    ensures |SplitKeep(s)| == 1 + |SplitKeep(s[LineEnd(s)..])|
    ensures LineOffset(SplitKeep(s), r + 1) == Size(s[..LineEnd(s)]) + LineOffset(SplitKeep(s[LineEnd(s)..]), r)
  {
    assert SplitKeep(s)[1..] == SplitKeep(s[LineEnd(s)..]);
  }

  lemma FirstRowText(s: string, r: nat)
    requires s != "" && r <= |SplitKeep(s[LineEnd(s)..])|
    ensures |SplitKeep(s)| == 1 + |SplitKeep(s[LineEnd(s)..])|
    ensures RowStart(s, r + 1) == LineEnd(s) + RowStart(s[LineEnd(s)..], r)
    ensures SplitKeep(s)[r] == if r == 0 then s[..LineEnd(s)] else SplitKeep(s[LineEnd(s)..])[r - 1]
  {
  }

  lemma RowCount(s: string)
    requires s != ""
    ensures |SplitKeep(s)| == 1 + |SplitKeep(s[LineEnd(s)..])|
  {
  }

  lemma PrefixOfDrop(line: string, s: string, n: nat, i: nat)
    requires n <= |s| && i <= |s| - n
    requires line <= s[n..][i..]
    ensures line <= s[n + i..]
  {
    assert s[n..][i..] == s[n + i..];
  }

  lemma SizeOfStart(s: string, n: nat, i: nat)
    requires n <= |s| && i <= |s| - n
    ensures Size(s[..n + i]) == Size(s[..n]) + Size(s[n..][..i])
  {
    assert s[..n + i] == s[..n] + s[n..][..i];
    SizeAppend(s[..n], s[n..][..i]);
  }

  lemma {:induction false} RowStartOffset(s: string, r: nat)
    requires r <= |SplitKeep(s)|
    ensures LineOffset(SplitKeep(s), r) == Size(s[..RowStart(s, r)])
    decreases |s|
  {
    if r == 0 {
      assert s[..0] == "";
    } else {
      RowCount(s);
      RowOffsetOfRest(s, r);
      RowStartOffset(s[LineEnd(s)..], r - 1);
    }
  }

  lemma RowOffsetOfRest(s: string, r: nat)
    requires s != "" && 0 < r <= |SplitKeep(s)| && r - 1 <= |SplitKeep(s[LineEnd(s)..])|
    ensures LineOffset(SplitKeep(s), r) - Size(s[..RowStart(s, r)])
         == LineOffset(SplitKeep(s[LineEnd(s)..]), r - 1) - Size(s[LineEnd(s)..][..RowStart(s[LineEnd(s)..], r - 1)])
  {
    hide SplitKeep, RowStart, LineOffset, LineEnd, Size, IsBreak;
    FirstRow(s, r - 1);
    FirstRowText(s, r - 1);
    SizeOfStart(s, LineEnd(s), RowStart(s[LineEnd(s)..], r - 1));
  }

  /** The row after the last one starts at the end. */
  lemma {:induction false} LastRowStart(s: string)
    ensures RowStart(s, |SplitKeep(s)|) == |s|
    decreases |s|
  {
    if s != "" {
      RowCount(s);
      LastRowStart(s[LineEnd(s)..]);
    }
  }

  lemma FirstRowMeaning(s: string)
    requires s != ""
    ensures RowStart(s, 0) == 0 && 1 <= |SplitKeep(s)|
    ensures RowStart(s, 1) == LineEnd(s) == |SplitKeep(s)[0]|
    ensures SplitKeep(s)[0] <= s[0..]
  {
    assert s[..LineEnd(s)] <= s[0..];
  }

  lemma {:induction false} RowStartMeaning(s: string, r: nat)
    requires r < |SplitKeep(s)|
    ensures RowStart(s, r + 1) == RowStart(s, r) + |SplitKeep(s)[r]|
    ensures SplitKeep(s)[r] <= s[RowStart(s, r)..]
    decreases |s|
  {
    assert s != "";
    hide SplitKeep, RowStart, LineOffset, LineEnd, IsBreak, Size;
    RowCount(s);
    if r == 0 {
      FirstRowMeaning(s);
    } else {
      FirstRowText(s, r);
      FirstRowText(s, r - 1);
      RowStartMeaning(s[LineEnd(s)..], r - 1);
      PrefixOfDrop(SplitKeep(s)[r], s, LineEnd(s), RowStart(s[LineEnd(s)..], r - 1));
    }
  }

  lemma {:induction false} RowStartGrows(s: string, q: nat, r: nat)
    requires q <= r <= |SplitKeep(s)|
    ensures RowStart(s, q) <= RowStart(s, r)
    decreases r - q
  {
    if q < r {
      RowStartMeaning(s, r - 1);
      RowStartGrows(s, q, r - 1);
    }
  }

  /** A valid position is that of a character of its row, or of the end of the row's text. */
  lemma CharacterAt(source: string, row: int, col: int) returns (i: nat)
    requires PointOk(source, row, col)
    ensures 0 <= row <= |SplitKeep(source)|
    ensures i <= |source| && LineOffset(SplitKeep(source), row) + col == Size(source[..i])
    ensures RowStart(source, row) <= i
    ensures row < |SplitKeep(source)| ==> i <= RowStart(source, row + 1)
    ensures row == |SplitKeep(source)| ==> col == 0
  {
    var lines := SplitKeep(source);
    var start := RowStart(source, row);
    RowStartOffset(source, row);
    if row < |lines| {
      RowStartMeaning(source, row);
    } else {
      LastRowStart(source);
    }
    hide SplitKeep, RowStart, LineOffset, Size, IsBreak;
    var line := if row < |lines| then Strip(lines[row]) else "";
    var k :| 0 <= k <= |line| && Size(line[..k]) == col;
    i := start + k;
    if row < |lines| {
      PrefixAt(source, start, lines[row], k);
      assert line[..k] == lines[row][..k];
    } else {
      assert i == start && line[..k] == "" && source[..start] + "" == source[..start];
    }
    SizeAppend(source[..start], line[..k]);
  }

  lemma PrefixAt(source: string, start: nat, line: string, k: nat)
    requires start <= |source| && line <= source[start..] && k <= |line|
    ensures source[..start + k] == source[..start] + line[..k]
  {
  }

  /** A span whose ends are at the byte offsets of two characters reads the text between them. */
  lemma ReadBetween(source: string, span: Span, i: nat, j: nat)
    requires i <= j <= |source|
    requires 0 <= span.startLine <= |SplitKeep(source)| && 0 <= span.endLine <= |SplitKeep(source)|
    requires LineOffset(SplitKeep(source), span.startLine) + span.startCol == Size(source[..i])
    requires LineOffset(SplitKeep(source), span.endLine) + span.endCol == Size(source[..j])
    ensures NodeSourceText(source, span) == Text(source[i..j])
  {
    hide SplitKeep, LineOffset, Encode, Decode, Size;
    EncodeSlice(source, i, j);
    DecodeEncode(source[i..j]);
  }

  /**
   Soundness: a valid span is that of a stretch of whole characters of the
   source, so reading it stays in range, decodes, and yields that stretch.
   */
  lemma ValidSpansRead(source: string, span: Span) returns (i: nat, j: nat)
    requires SpanOk(source, span)
    ensures i <= j <= |source|
    ensures NodeSourceText(source, span) == Text(source[i..j])
  {
    hide SplitKeep, LineOffset, RowStart, PointOk;
    i := CharacterAt(source, span.startLine, span.startCol);
    j := CharacterAt(source, span.endLine, span.endCol);
    if span.startLine < span.endLine {
      RowStartGrows(source, span.startLine + 1, span.endLine);
    } else if j < i {
      EncodeSlice(source, j, i);
    }
    ReadBetween(source, span, i, j);
  }

  // ---------------------------------------------------------------- completeness

  predicate NoBreak(s: string) {
    forall k :: 0 <= k < |s| ==> !IsBreak(s[k])
  }

  /** The line breaks of str.splitlines(), by code point. */
  lemma BreakCharacters(c: char)
    ensures IsBreak(c) <==> c as int in {0xA, 0xB, 0xC, 0xD, 0x1C, 0x1D, 0x1E, 0x85, 0x2028, 0x2029}
  {
  }

  /** A row has a break at its end only: one character, or a CR and an LF. */
  predicate RowShaped(line: string) {
    forall k :: 0 <= k < |line| - 1 && IsBreak(line[k]) ==> k == |line| - 2 && line[k] == '\r' && line[k + 1] == '\n'
  }

  lemma {:induction false} RowsShaped(s: string, r: nat)
    requires r < |SplitKeep(s)|
    ensures RowShaped(SplitKeep(s)[r]) && SplitKeep(s)[r] != ""
    decreases |s|
  {
    if r == 0 {
      LineEndMeaning(s);
    } else {
      RowsShaped(s[LineEnd(s)..], r - 1);
    }
  }

  /** What stays of a row without its terminator is its longest start without a break. */
  lemma StripMeaning(line: string, k: nat)
    requires RowShaped(line) && k <= |line|
    ensures k <= |Strip(line)| <==> NoBreak(line[..k])
  {
    assert line[..k] == line[0..k];
    if line != "" && IsBreak(line[|line| - 1]) {
      assert k == |line| ==> IsBreak(line[..k][k - 1]);
      if 1 < |line| && line[|line| - 2..] == "\r\n" {
        assert line[|line| - 2] == line[|line| - 2..][0] == '\r' && line[|line| - 1] == line[|line| - 2..][1] == '\n';
        assert IsBreak('\r');
        assert k >= |line| - 1 ==> IsBreak(line[..k][|line| - 2]);
      } else if 1 < |line| {
        assert line[|line| - 2..] == [line[|line| - 2], line[|line| - 1]];
      }
    } else if line != "" {
      assert IsBreak('\n');
    }
  }

  /** Character i lies in row `row`, no break before it in the row, at byte column col. */
  predicate Reaches(s: string, row: nat, col: int, i: nat)
    requires row < |SplitKeep(s)|
  {
    var start := RowStart(s, row);
    start <= i <= start + |SplitKeep(s)[row]| && i <= |s| && NoBreak(s[start..i]) && col == Size(s[start..i])
  }

  /** A position of a row by its text alone. */
  lemma RowPosition(s: string, row: int, k: nat)
    requires 0 <= row < |SplitKeep(s)| && k <= |SplitKeep(s)[row]|
    ensures RowStart(s, row) + k <= |s|
    ensures s[RowStart(s, row)..RowStart(s, row) + k] == SplitKeep(s)[row][..k]
    ensures k <= |Strip(SplitKeep(s)[row])| <==> NoBreak(SplitKeep(s)[row][..k])
  {
    RowsShaped(s, row);
    RowStartMeaning(s, row);
    hide SplitKeep, RowStart, Strip, NoBreak, RowShaped;
    StripMeaning(SplitKeep(s)[row], k);
  }

  lemma PointReaches(s: string, row: int, col: int) returns (i: nat)
    requires 0 <= row < |SplitKeep(s)| && PointOk(s, row, col)
    ensures Reaches(s, row, col, i)
  {
    var line := SplitKeep(s)[row];
    hide SplitKeep, RowStart, Size, Strip, NoBreak;
    var k :| 0 <= k <= |Strip(line)| && Size(Strip(line)[..k]) == col;
    RowPosition(s, row, k);
    assert Strip(line)[..k] == line[..k];
    i := RowStart(s, row) + k;
  }

  lemma ReachesPoint(s: string, row: int, col: int, i: nat)
    requires 0 <= row < |SplitKeep(s)| && Reaches(s, row, col, i)
    ensures PointOk(s, row, col)
  {
    var line := SplitKeep(s)[row];
    hide SplitKeep, RowStart, Size, Strip, NoBreak;
    var k := i - RowStart(s, row);
    RowPosition(s, row, k);
    assert Strip(line)[..k] == line[..k];
    assert Size(Strip(line)[..k]) in Boundaries(Strip(line));
  }

  /** The check of positions, on a row of the source: exactly the characters before the row's
    * terminator, and its end.
    */
  lemma PointOnRow(s: string, row: int, col: int)
    requires 0 <= row < |SplitKeep(s)|
    ensures PointOk(s, row, col) <==> exists i :: 0 <= i <= |s| && Reaches(s, row, col, i)
  {
    hide PointOk, SplitKeep, Reaches;
    if PointOk(s, row, col) {
      var i := PointReaches(s, row, col);
      ReachesInside(s, row, col, i);
    }
    if i :| 0 <= i <= |s| && Reaches(s, row, col, i) {
      ReachesPoint(s, row, col, i);
    }
  }

  lemma ReachesInside(s: string, row: int, col: int, i: nat)
    requires 0 <= row < |SplitKeep(s)| && Reaches(s, row, col, i)
    ensures i <= |s|
  {
  }

  /** And elsewhere: only column 0 of the row after a source that is empty or ends with a CR or an LF. */
  lemma PointOffRows(s: string, row: int, col: int)
    requires row < 0 || row >= |SplitKeep(s)|
    ensures PointOk(s, row, col) <==>
      row == |SplitKeep(s)| && col == 0 && (s == "" || s[|s| - 1] == '\n' || s[|s| - 1] == '\r')
  {
    assert Size(""[..0]) == 0;
    assert 0 in Boundaries("");
  }

  /** A span is accepted exactly when both ends are and the second does not come before the first. */
  lemma SpanOkExactly(source: string, span: Span)
    ensures SpanOk(source, span) <==>
      && PointOk(source, span.startLine, span.startCol) && PointOk(source, span.endLine, span.endCol)
      && !(span.endLine < span.startLine || (span.endLine == span.startLine && span.endCol < span.startCol))
  {
  }

  // ---------------------------------------------------------------- what is read, exactly

  /** A negative row counts from the end of the table of row offsets. */
  lemma NegativeRows(source: string, row: int)
    requires row < 0
    ensures RowOffset(source, row) ==
      if -row <= |SplitKeep(source)| + 1 then RowOffset(source, row + |SplitKeep(source)| + 1) else None
  {
  }

  /** A text is read exactly when the rows are in range, the offsets in order within the source,
    * and the bytes between them encode it.
    */
  lemma ReadExactly(source: string, span: Span, t: string)
    ensures NodeSourceText(source, span) == Text(t) <==>
      var a, b := RowOffset(source, span.startLine), RowOffset(source, span.endLine);
      && a.Some? && b.Some?
      && 0 <= a.value + span.startCol <= b.value + span.endCol <= |Encode(source)|
      && Encode(source)[a.value + span.startCol..b.value + span.endCol] == Encode(t)
  {
    hide SplitKeep, LineOffset, Encode, Decode;
    DecodeEncode(t);
    var a, b := RowOffset(source, span.startLine), RowOffset(source, span.endLine);
    if NodeSourceText(source, span) == Text(t) {
      EncodeDecode(Encode(source)[a.value + span.startCol..b.value + span.endCol]);
    }
  }

  /** Why a span is not read. */
  lemma RefusedExactly(source: string, span: Span)
    ensures var a, b := RowOffset(source, span.startLine), RowOffset(source, span.endLine);
      && (NodeSourceText(source, span).OutOfRange? <==> a.None? || b.None?)
      && (NodeSourceText(source, span).NotInSource? <==>
          a.Some? && b.Some? && !(0 <= a.value + span.startCol <= b.value + span.endCol <= |Encode(source)|))
  {
  }

  // ---------------------------------------------------------------- naming a position

  function CountNewlines(s: string): nat {
    if s == "" then 0 else (if s[0] == '\n' then 1 else 0) + CountNewlines(s[1..])
  }

  /** rsplit("\n", 1)[-1]. */
  function AfterLastNewline(s: string): string {
    if s == "" then ""
    else if CountNewlines(s) == 0 then s
    else AfterLastNewline(s[1..])
  }

  datatype Point = Point(row: int, col: int)

  /** The point of the character at `index`. */
  function PointAt(source: string, index: nat): Point
    requires index <= |source|
  {
    var preceding := source[..index];
    Point(CountNewlines(preceding), Size(AfterLastNewline(preceding)))
  }

  function SpanOf(start: Point, end: Point): Span { Span(start.row, start.col, end.row, end.col) }

  function SpanAt(source: string, i: nat, j: nat): Span
    requires i <= |source| && j <= |source|
  {
    SpanOf(PointAt(source, i), PointAt(source, j))
  }

  /** The line break at k ends with an LF. */
  predicate EndsWithLf(s: string, k: nat)
    requires k < |s|
  {
    s[k] == '\n' || (s[k] == '\r' && k + 1 < |s| && s[k + 1] == '\n')
  }

  /** Up to the last LF, every line break of the source ends with an LF. */
  predicate LfAligned(source: string) {
    forall k: nat, m: nat {:trigger EndsWithLf(source, k), source[m]} :: k < m < |source| && source[m] == '\n' ==>
      IsBreak(source[k]) ==> EndsWithLf(source, k)
  }

  lemma {:induction false} CountAppend(a: string, b: string)
    ensures CountNewlines(a + b) == CountNewlines(a) + CountNewlines(b)
    ensures AfterLastNewline(a + b) == if CountNewlines(b) == 0 then AfterLastNewline(a) + b else AfterLastNewline(b)
  {
    if a == "" {
      assert a + b == b;
    } else {
      assert (a + b)[1..] == a[1..] + b;
      CountAppend(a[1..], b);
    }
  }

  lemma {:induction false} NoNewline(s: string)
    requires forall k :: 0 <= k < |s| ==> s[k] != '\n'
    ensures CountNewlines(s) == 0 && AfterLastNewline(s) == s
  {
    if s != "" {
      NoNewline(s[1..]);
    }
  }

  /** The first line has a break only at its end. */
  lemma {:induction false} LineEndMeaning(s: string)
    requires s != ""
    ensures var n := LineEnd(s);
      && (forall k :: 0 <= k < n - 1 && IsBreak(s[k]) ==> k == n - 2 && s[k] == '\r' && s[n - 1] == '\n')
      && (n < |s| ==> IsBreak(s[n - 1]) && (s[n - 1] == '\r' ==> s[n] != '\n'))
  {
    if !IsBreak(s[0]) && |s| > 1 {
      LineEndMeaning(s[1..]);
      assert forall k :: 1 <= k < |s| ==> s[k] == s[1..][k - 1];
    }
  }

  /** A position in the first line. */
  lemma PointInFirstLine(s: string, i: nat)
    requires i <= |s| && forall k :: 0 <= k < i ==> s[k] != '\n'
    ensures PointAt(s, i) == Point(0, Size(s[..i]))
  {
    NoNewline(s[..i]);
  }

  /** A position after a first line that ends with its only newline. */
  lemma PointInRest(s: string, n: nat, i: nat)
    requires 0 < n <= i <= |s| && s[n - 1] == '\n' && forall k :: 0 <= k < n - 1 ==> s[k] != '\n'
    ensures PointAt(s, i) == var p := PointAt(s[n..], i - n); Point(p.row + 1, p.col)
    ensures Size(s[..i]) == Size(s[..n]) + Size(s[n..][..i - n])
  {
    var rest := s[n..][..i - n];
    assert s[..i] == s[..n] + rest;
    assert s[..n] == s[..n - 1] + "\n";
    NoNewline(s[..n - 1]);
    CountAppend(s[..n - 1], "\n");
    assert CountNewlines("\n") == 1 && AfterLastNewline("\n") == "";
    CountAppend(s[..n], rest);
    SizeAppend(s[..n], rest);
    assert "" + rest == rest;
  }

  lemma AlignedRest(s: string, n: nat)
    requires LfAligned(s) && n <= |s|
    ensures LfAligned(s[n..])
  {
    hide IsBreak;
    var rest := s[n..];
    forall k: nat, q: nat | k < q < |rest| && rest[q] == '\n' && IsBreak(rest[k])
      ensures EndsWithLf(rest, k)
    {
      assert s[n + q] == '\n' && IsBreak(s[n + k]);
      assert EndsWithLf(s, n + k);
    }
  }

  /** On an aligned source with a newline the first line ends with one, and the rest is aligned. */
  lemma AlignedFirstLine(s: string, m: nat)
    requires LfAligned(s) && m < |s| && s[m] == '\n'
    ensures var n := LineEnd(s);
      && n <= m + 1 && s[n - 1] == '\n'
      && (forall k :: 0 <= k < n - 1 ==> s[k] != '\n')
      && LfAligned(s[n..])
  {
    LineEndMeaning(s);
    NoInnerNewline(s);
    hide LineEnd, LfAligned, IsBreak;
    AlignedRest(s, LineEnd(s));
    AlignedEnd(s, LineEnd(s), m);
  }

  lemma AlignedEnd(s: string, n: nat, m: nat)
    requires 0 < n <= |s| && LfAligned(s) && m < |s| && s[m] == '\n'
    requires forall k :: 0 <= k < n - 1 ==> s[k] != '\n'
    requires n < |s| ==> IsBreak(s[n - 1]) && (s[n - 1] == '\r' ==> s[n] != '\n')
    ensures n <= m + 1 && s[n - 1] == '\n'
  {
    hide IsBreak;
    if n - 1 < m {
      assert EndsWithLf(s, n - 1);
    }
  }

  lemma NoInnerNewline(s: string)
    requires s != ""
    ensures forall k :: 0 <= k < LineEnd(s) - 1 ==> s[k] != '\n'
  {
    LineEndMeaning(s);
    hide LineEnd;
    assert IsBreak('\n');
  }

  /** A point after the first line misses its character by as much as in the rest of the source. */
  lemma PointShift(s: string, i: nat)
    requires s != "" && LineEnd(s) <= i <= |s| && s[LineEnd(s) - 1] == '\n'
    requires forall k :: 0 <= k < LineEnd(s) - 1 ==> s[k] != '\n'
    requires PointAt(s[LineEnd(s)..], i - LineEnd(s)).row <= |SplitKeep(s[LineEnd(s)..])|
    ensures PointAt(s, i).row <= |SplitKeep(s)|
    ensures var rest := s[LineEnd(s)..]; var p, q := PointAt(rest, i - LineEnd(s)), PointAt(s, i);
      LineOffset(SplitKeep(s), q.row) + q.col - Size(s[..i])
      == LineOffset(SplitKeep(rest), p.row) + p.col - Size(rest[..i - LineEnd(s)])
  {
    var n := LineEnd(s);
    var rest := s[n..];
    var row := PointAt(rest, i - n).row;
    assert row >= 0;
    hide SplitKeep, LineOffset, PointAt, LineEnd, Size, RowStart;
    PointInRest(s, n, i);
    FirstRow(s, row);
  }

  lemma {:induction false} PointsLand(s: string, i: nat)
    requires i <= |s| && LfAligned(s)
    ensures PointAt(s, i).row <= |SplitKeep(s)|
    ensures LineOffset(SplitKeep(s), PointAt(s, i).row) + PointAt(s, i).col == Size(s[..i])
    decreases |s|
  {
    if m: nat :| m < i && s[m] == '\n' {
      hide SplitKeep, LineOffset, PointAt, LineEnd, LfAligned, Size;
      AlignedFirstLine(s, m);
      PointsLand(s[LineEnd(s)..], i - LineEnd(s));
      PointShift(s, i);
    } else {
      PointInFirstLine(s, i);
    }
  }

  /**
   Round trip: on a source whose line breaks up to the last LF all end with an
   LF, reading the span between two characters yields the text between them.
   */
  lemma PointRoundTrip(source: string, i: nat, j: nat)
    requires i <= j <= |source| && LfAligned(source)
    ensures NodeSourceText(source, SpanAt(source, i, j)) == Text(source[i..j])
  {
    PointsLand(source, i);
    PointsLand(source, j);
    ReadBetween(source, SpanAt(source, i, j), i, j);
    hide LfAligned, PointAt, SplitKeep, LineOffset, NodeSourceText;
  }

  /** A first line that ends otherwise, although a newline follows, puts the next row too early. */
  lemma MisplacedHere(s: string, m: nat) returns (i: nat)
    requires m < |s| && s[m] == '\n' && LineEnd(s) <= m && s[LineEnd(s) - 1] != '\n'
    ensures 0 < i <= |s| && s[i - 1] == '\n'
    ensures PointAt(s, i).row <= |SplitKeep(s)|
    ensures LineOffset(SplitKeep(s), PointAt(s, i).row) + PointAt(s, i).col < Size(s[..i])
  {
    hide SplitKeep, LineOffset, LineEnd, Size, IsBreak, PointAt;
    NoInnerNewline(s);
    SecondRow(s);
    var at := FirstNewlineFrom(s, LineEnd(s), m);
    i := at + 1;
    PointAfterNewline(s, at);
    SizeIncreases(s, LineEnd(s), i);
  }

  lemma SecondRow(s: string)
    requires s != ""
    ensures 1 <= |SplitKeep(s)| && LineOffset(SplitKeep(s), 1) == Size(s[..LineEnd(s)])
  {
    FirstRow(s, 0);
  }

  lemma SizeIncreases(s: string, i: nat, j: nat)
    requires i < j <= |s|
    ensures Size(s[..i]) < Size(s[..j])
  {
    EncodeSlice(s, i, j);
  }

  lemma PointAfterNewline(s: string, at: nat)
    requires at < |s| && s[at] == '\n' && forall k :: 0 <= k < at ==> s[k] != '\n'
    ensures PointAt(s, at + 1) == Point(1, 0)
  {
    assert s[..at + 1] == s[..at] + "\n";
    NoNewline(s[..at]);
    CountAppend(s[..at], "\n");
    assert CountNewlines("\n") == 1 && AfterLastNewline("\n") == "";
  }

  /** A break without an LF, with a newline after it: it is not inside the first line. */
  lemma MisalignedBreak(s: string) returns (k: nat, m: nat)
    requires !LfAligned(s)
    ensures k < m < |s| && IsBreak(s[k]) && s[m] == '\n' && !EndsWithLf(s, k)
    ensures LineEnd(s) - 1 <= k
  {
    k, m :| k < m < |s| && IsBreak(s[k]) && s[m] == '\n' && !EndsWithLf(s, k);
    LineEndMeaning(s);
  }

  lemma MisalignedRest(s: string, n: nat, k: nat, m: nat)
    requires 0 < n <= k + 1 && k < m < |s| && IsBreak(s[k]) && s[m] == '\n' && !EndsWithLf(s, k)
    requires s[n - 1] == '\n'
    ensures n <= k && !LfAligned(s[n..])
  {
    hide IsBreak;
    var rest := s[n..];
    assert n <= k;
    assert rest[m - n] == '\n' && IsBreak(rest[k - n]) && !EndsWithLf(rest, k - n);
  }

  /** Otherwise some point after a newline lands too early. */
  lemma {:induction false} Misplaced(s: string) returns (i: nat)
    requires !LfAligned(s)
    ensures 0 < i <= |s| && s[i - 1] == '\n'
    ensures PointAt(s, i).row <= |SplitKeep(s)|
    ensures LineOffset(SplitKeep(s), PointAt(s, i).row) + PointAt(s, i).col < Size(s[..i])
    decreases |s|
  {
    var n := LineEnd(s);
    var k, m := MisalignedBreak(s);
    NoInnerNewline(s);
    hide IsBreak, LfAligned, EndsWithLf, LineEnd, SplitKeep, LineOffset, PointAt, Size;
    if s[n - 1] == '\n' {
      var rest := s[n..];
      MisalignedRest(s, n, k, m);
      var i' := Misplaced(rest);
      i := n + i';
      PointShift(s, i);
    } else {
      i := MisplacedHere(s, m);
    }
  }

  lemma FirstNewlineFrom(s: string, n: nat, m: nat) returns (at: nat)
    requires n <= m < |s| && s[m] == '\n'
    requires forall k :: 0 <= k < n ==> s[k] != '\n'
    ensures n <= at <= m && s[at] == '\n' && forall k :: 0 <= k < at ==> s[k] != '\n'
  {
    at := n;
    while s[at] != '\n'
      invariant n <= at <= m && forall k :: 0 <= k < at ==> s[k] != '\n'
      decreases m - at
    {
      at := at + 1;
    }
  }

  /** The round trip holds between all positions exactly on the aligned sources. */
  lemma RoundTripExact(source: string)
    ensures LfAligned(source) <==>
      forall i, j :: 0 <= i <= j <= |source| ==> NodeSourceText(source, SpanAt(source, i, j)) == Text(source[i..j])
  {
    if LfAligned(source) {
      forall i, j | 0 <= i <= j <= |source|
        ensures NodeSourceText(source, SpanAt(source, i, j)) == Text(source[i..j])
      {
        PointRoundTrip(source, i, j);
      }
    } else {
      var j := Misplaced(source);
      assert source[0..j] == source[..j];
      ShortRead(source, j);
    }
  }

  /** A span from the start to a misplaced point reads too little. */
  lemma ShortRead(source: string, j: nat)
    requires j <= |source| && PointAt(source, j).row <= |SplitKeep(source)|
    requires LineOffset(SplitKeep(source), PointAt(source, j).row) + PointAt(source, j).col < Size(source[..j])
    ensures NodeSourceText(source, SpanAt(source, 0, j)) != Text(source[..j])
  {
    var end := LineOffset(SplitKeep(source), PointAt(source, j).row) + PointAt(source, j).col;
    var t := source[..j];
    EncodeSlice(source, j, |source|);
    SizeIsLength(t);
    if NodeSourceText(source, SpanAt(source, 0, j)) == Text(t) {
      StartIsZero(source);
      assert Decode(Encode(source)[0..end]) == Some(t);
      hide *;
      EncodeDecode(Encode(source)[0..end]);
    }
  }

  lemma StartIsZero(source: string)
    ensures PointAt(source, 0) == Point(0, 0) && LineOffset(SplitKeep(source), 0) == 0
  {
  }
}
