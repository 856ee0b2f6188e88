/**
 Source evidence: the walks that require a changed tree to carry the tokens of an
 addition, and the content of an edit, at spans that really hold them.
 Case folding and the two token patterns are functions of a Lexicon.
 */
module TokenEvidence {
  import opened Common
  import opened SourceSpans
  import opened Utf8

  datatype Lexicon = Lexicon(fold: string -> string, words: string -> seq<string>, parts: string -> seq<string>)

  /** `part in text` */
  predicate Contains(text: string, part: string) {
    exists k :: 0 <= k <= |text| && part <= text[k..]
  }

  predicate Earlier(a: Point, b: Point) {
    a.row < b.row || (a.row == b.row && a.col < b.col)
  }

  function Start(n: Node): Point { Point(n.span.startLine, n.span.startCol) }

  function End(n: Node): Point { Point(n.span.endLine, n.span.endCol) }

  predicate Wide(n: Node) {
    Earlier(Start(n), End(n))
  }

  /** The node is n, or lies below one of the forest's nodes. */
  ghost predicate Below(n: Node, forest: seq<Node>)
    decreases forest
  {
    forest != [] && (AtOrBelow(n, forest[0]) || Below(n, forest[1..]))
  }

  ghost predicate AtOrBelow(n: Node, top: Node)
    decreases top, 0
  {
    n == top || Below(n, top.children)
  }

  lemma {:induction false} BelowAppend(n: Node, a: seq<Node>, b: seq<Node>)
    ensures Below(n, a + b) <==> Below(n, a) || Below(n, b)
  {
    if a == [] {
      assert a + b == b;
    } else {
      assert (a + b)[1..] == a[1..] + b;
      BelowAppend(n, a[1..], b);
    }
  }

  /** What is below a stack is its last node, what is below that node, or below the rest. */
  lemma PopExact(n: Node, stack: seq<Node>)
    requires stack != []
    ensures var top, rest := stack[|stack| - 1], stack[..|stack| - 1];
            Below(n, stack) <==> n == top || Below(n, rest + top.children)
  {
    var top, rest := stack[|stack| - 1], stack[..|stack| - 1];
    assert stack == rest + [top];
    BelowAppend(n, rest, [top]);
    BelowAppend(n, rest, top.children);
    assert [top][1..] == [];
  }

  // ---------------------------------------------------------------- tokens of an addition

  /** A labelled node with an extent is read; the others are not. */
  predicate Read(n: Node) {
    n.labelText != "" && Wide(n)
  }

  /** The node carries the token in its label and, up to case, in its own source text. */
  predicate Anchors(source: string, fold: string -> string, token: string, n: Node) {
    && Read(n)
    && Contains(n.labelText, token)
    && NodeSourceText(source, n.span).Text?
    && Contains(fold(NodeSourceText(source, n.span).value), fold(token))
  }

  ghost predicate Anchored(source: string, fold: string -> string, token: string, forest: seq<Node>) {
    exists n :: Below(n, forest) && Anchors(source, fold, token, n)
  }

  ghost predicate Readable(source: string, forest: seq<Node>) {
    forall n :: Below(n, forest) && Read(n) ==> NodeSourceText(source, n.span).Text?
  }

  datatype Verdict = Accepted | Unreadable | MissingTokens(tokens: seq<string>)

  /** The tokens of `expected` that one node anchors. */
  method AnchoredBy(source: string, fold: string -> string, expected: seq<string>, n: Node, text: string)
    returns (found: set<string>)
    requires Read(n) && NodeSourceText(source, n.span) == Text(text)
    ensures forall t :: t in found <==> t in expected && Anchors(source, fold, t, n)
  {
    hide Contains, NodeSourceText;
    found := {};
    var i := 0;
    while i < |expected|
      invariant 0 <= i <= |expected|
      invariant forall t :: t in found <==> t in expected[..i] && Anchors(source, fold, t, n)
    {
      assert expected[..i + 1] == expected[..i] + [expected[i]];
      if Contains(n.labelText, expected[i]) && Contains(fold(text), fold(expected[i])) {
        found := found + {expected[i]};
      }
      i := i + 1;
    }
    assert expected[..i] == expected;
  }

  /** The walk has settled `anchored`, and the stack holds what is left to see. */
  ghost predicate Settled(source: string, fold: string -> string, expected: seq<string>, roots: seq<Node>,
                          stack: seq<Node>, anchored: set<string>)
  {
    && (Readable(source, roots) <==> Readable(source, stack))
    && (forall t :: t in expected ==>
          (Anchored(source, fold, t, roots) <==> t in anchored || Anchored(source, fold, t, stack)))
  }

  lemma SettledPop(source: string, fold: string -> string, expected: seq<string>, roots: seq<Node>, stack: seq<Node>,
                   anchored: set<string>, more: set<string>)
    requires stack != [] && Settled(source, fold, expected, roots, stack, anchored)
    requires var top := stack[|stack| - 1];
             && (Read(top) ==> NodeSourceText(source, top.span).Text?)
             && forall t :: t in expected ==> (t in more <==> t in anchored || Anchors(source, fold, t, top))
    ensures Settled(source, fold, expected, roots, stack[..|stack| - 1] + stack[|stack| - 1].children, more)
  {
    var top := stack[|stack| - 1];
    var left := stack[..|stack| - 1] + top.children;
    hide Anchors, Read, NodeSourceText, Below;
    forall n ensures Below(n, stack) <==> n == top || Below(n, left) {
      PopExact(n, stack);
    }
    assert Readable(source, stack) <==> Readable(source, left);
    forall t | t in expected
      ensures Anchored(source, fold, t, roots) <==> t in more || Anchored(source, fold, t, left)
    {
      assert Anchored(source, fold, t, stack) <==> Anchors(source, fold, t, top) || Anchored(source, fold, t, left);
    }
  }

  /** check_visible_corpus_tokens: accepts exactly when every expected token is anchored
    * at some node of the new trees.
    */
  method CheckVisibleTokens(source: string, fold: string -> string, expected: seq<string>, roots: seq<Node>)
    returns (v: Verdict)
    ensures v.Unreadable? <==> !Readable(source, roots)
    ensures v.Accepted? <==> Readable(source, roots) && forall t :: t in expected ==> Anchored(source, fold, t, roots)
    ensures v.MissingTokens? ==> forall t :: t in v.tokens <==> t in expected && !Anchored(source, fold, t, roots)
  {
    hide Settled, Anchors, Anchored, Readable, Read, NodeSourceText;
    var anchored: set<string> := {};
    var stack := roots;
    NothingSettled(source, fold, expected, roots);
    while stack != []
      invariant Settled(source, fold, expected, roots, stack, anchored)
      decreases ForestSize(stack)
    {
      var n, rest := stack[|stack| - 1], stack[..|stack| - 1];
      assert stack == rest + [n];
      ForestAppend(source, rest, [n]);
      ForestAppend(source, rest, n.children);
      var more := anchored;
      if n.labelText != "" && Wide(n) {
        var text := ReadNodeText(source, n.span);
        TopIsRead(source, stack);
        if !text.Text? {
          SettledMeans(source, fold, expected, roots, stack, anchored);
          return Unreadable;
        }
        var found := AnchoredBy(source, fold, expected, n, text.value);
        more := more + found;
      } else {
        NotRead(source, fold, n);
      }
      SettledPop(source, fold, expected, roots, stack, anchored, more);
      anchored := more;
      stack := rest + n.children;
    }
    SettledMeans(source, fold, expected, roots, [], anchored);
    var missing: seq<string> := [];
    var i := 0;
    while i < |expected|
      invariant 0 <= i <= |expected|
      invariant forall t :: t in missing <==> t in expected[..i] && t !in anchored
    {
      assert expected[..i + 1] == expected[..i] + [expected[i]];
      if expected[i] !in anchored {
        missing := missing + [expected[i]];
      }
      i := i + 1;
    }
    assert expected[..i] == expected;
    if missing == [] {
      forall t | t in expected ensures t in anchored {
        assert t in anchored || t in missing;
      }
      return Accepted;
    }
    assert missing[0] in missing;
    return MissingTokens(missing);
  }

  lemma NothingSettled(source: string, fold: string -> string, expected: seq<string>, roots: seq<Node>)
    ensures Settled(source, fold, expected, roots, roots, {})
  {
  }

  lemma TopIsRead(source: string, stack: seq<Node>)
    requires stack != []
    ensures var n := stack[|stack| - 1];
            (n.labelText != "" && Wide(n) ==> Read(n))
            && (Read(n) && !NodeSourceText(source, n.span).Text? ==> !Readable(source, stack))
  {
    PopExact(stack[|stack| - 1], stack);
  }

  lemma NotRead(source: string, fold: string -> string, n: Node)
    requires !(n.labelText != "" && Wide(n))
    ensures !Read(n) && forall t :: !Anchors(source, fold, t, n)
  {
  }

  lemma SettledMeans(source: string, fold: string -> string, expected: seq<string>, roots: seq<Node>, stack: seq<Node>,
                     anchored: set<string>)
    requires Settled(source, fold, expected, roots, stack, anchored)
    ensures Readable(source, roots) <==> Readable(source, stack)
    ensures stack == [] ==> Readable(source, roots)
                            && forall t :: t in expected ==> (Anchored(source, fold, t, roots) <==> t in anchored)
  {
  }

  // ---------------------------------------------------------------- content of an edit

  /** One side of an edit: where it is and what it reads. */
  datatype Region = Region(start: Point, end: Point, token: string)

  predicate Overlaps(r: Region, n: Node) {
    Earlier(Start(n), r.end) && Earlier(r.start, End(n)) && Wide(n)
  }

  /** Every word of the label occurs in the node's own text, and the label shows some of the edit. */
  predicate Shows(lex: Lexicon, r: Region, labelText: string, text: string) {
    var words, folded := lex.words(lex.fold(labelText)), lex.fold(text);
    && words != []
    && (forall k :: 0 <= k < |words| ==> Contains(folded, words[k]))
    && (|| Contains(lex.fold(labelText), lex.fold(r.token))
        || exists k :: 0 <= k < |lex.parts(lex.fold(r.token))|
                       && Contains(lex.fold(labelText), lex.parts(lex.fold(r.token))[k]))
  }

  predicate Witness(source: string, lex: Lexicon, r: Region, n: Node) {
    && Overlaps(r, n)
    && NodeSourceText(source, n.span).Text?
    && Shows(lex, r, n.labelText, NodeSourceText(source, n.span).value)
  }

  ghost predicate Witnessed(source: string, lex: Lexicon, r: Region, forest: seq<Node>) {
    exists n :: Below(n, forest) && Witness(source, lex, r, n)
  }

  ghost predicate Touched(r: Region, forest: seq<Node>) {
    exists n :: Below(n, forest) && Overlaps(r, n)
  }

  ghost predicate TouchedReadable(source: string, r: Region, forest: seq<Node>) {
    forall n :: Below(n, forest) && Overlaps(r, n) ==> NodeSourceText(source, n.span).Text?
  }

  datatype EditVerdict = Supported | MissesEdit | LacksContent | Unread

  lemma PopTouched(source: string, lex: Lexicon, r: Region, stack: seq<Node>)
    requires stack != []
    ensures var top := stack[|stack| - 1]; var left := stack[..|stack| - 1] + top.children;
            && (Witnessed(source, lex, r, stack) <==> Witness(source, lex, r, top) || Witnessed(source, lex, r, left))
            && (Touched(r, stack) <==> Overlaps(r, top) || Touched(r, left))
            && (TouchedReadable(source, r, stack) <==>
                (Overlaps(r, top) ==> NodeSourceText(source, top.span).Text?) && TouchedReadable(source, r, left))
  {
    var top := stack[|stack| - 1];
    var left := stack[..|stack| - 1] + top.children;
    hide Below, Witness, Overlaps, NodeSourceText;
    forall n ensures Below(n, stack) <==> n == top || Below(n, left) {
      PopExact(n, stack);
    }
  }

  /** check_mutation_source_evidence for one side: an edit that removed nothing here needs no
    * evidence; any other is supported exactly by a witness among the changed nodes.
    */
  method CheckEditEvidence(source: string, lex: Lexicon, r: Region, roots: seq<Node>) returns (v: EditVerdict)
    ensures r.start == r.end ==> v.Supported?
    ensures v.Supported? ==> r.start == r.end || Witnessed(source, lex, r, roots)
    ensures v.MissesEdit? ==> r.start != r.end && !Touched(r, roots)
    ensures v.LacksContent? ==> Touched(r, roots) && !Witnessed(source, lex, r, roots)
    ensures v.Unread? ==> !TouchedReadable(source, r, roots)
    ensures TouchedReadable(source, r, roots) ==>
              (v.Supported? <==> r.start == r.end || Witnessed(source, lex, r, roots))
  {
    hide Witnessed, Touched, TouchedReadable, NodeSourceText, Shows, Overlaps;
    if r.start == r.end {
      return Supported;
    }
    var stack := roots;
    var overlap := false;
    while stack != []
      invariant Witnessed(source, lex, r, roots) <==> Witnessed(source, lex, r, stack)
      invariant Touched(r, roots) <==> overlap || Touched(r, stack)
      invariant TouchedReadable(source, r, roots) ==> TouchedReadable(source, r, stack)
      decreases ForestSize(stack)
    {
      var n, rest := stack[|stack| - 1], stack[..|stack| - 1];
      assert stack == rest + [n];
      ForestAppend(source, rest, [n]);
      ForestAppend(source, rest, n.children);
      PopTouched(source, lex, r, stack);
      if Overlaps(r, n) {
        overlap := true;
        var text := ReadNodeText(source, n.span);
        if !text.Text? {
          return Unread;
        }
        if Shows(lex, r, n.labelText, text.value) {
          return Supported;
        }
      }
      stack := rest + n.children;
    }
    NothingTouched(source, lex, r);
    return if overlap then LacksContent else MissesEdit;
  }

  lemma NothingTouched(source: string, lex: Lexicon, r: Region)
    ensures !Witnessed(source, lex, r, []) && !Touched(r, []) && TouchedReadable(source, r, [])
  {
  }

  // ---------------------------------------------------------------- what acceptance is worth

  lemma {:induction false} BelowIsOk(source: string, n: Node, forest: seq<Node>)
    requires ForestOk(source, forest) && Below(n, forest)
    ensures SpanOk(source, n.span)
    decreases forest
  {
    if AtOrBelow(n, forest[0]) {
      AtOrBelowIsOk(source, n, forest[0]);
    } else {
      BelowIsOk(source, n, forest[1..]);
    }
  }

  lemma {:induction false} AtOrBelowIsOk(source: string, n: Node, top: Node)
    requires TreeOk(source, top) && AtOrBelow(n, top)
    ensures SpanOk(source, n.span)
    decreases top, 0
  {
    if n != top {
      BelowIsOk(source, n, top.children);
    }
  }

  /** After check_source_spans neither walk can fail to read a node. */
  lemma ValidForestIsReadable(source: string, r: Region, forest: seq<Node>)
    requires ForestOk(source, forest)
    ensures Readable(source, forest) && TouchedReadable(source, r, forest)
  {
    hide NodeSourceText, ForestOk, SpanOk, Below;
    forall n | Below(n, forest) ensures NodeSourceText(source, n.span).Text? {
      BelowIsOk(source, n, forest);
      var i, j := ValidSpansRead(source, n.span);
    }
  }

  /** An accepted token stands, up to case, in a stretch of whole characters of the source
    * under a node whose label shows it.
    */
  lemma AnchoredMeans(source: string, fold: string -> string, token: string, forest: seq<Node>)
    returns (n: Node, i: nat, j: nat)
    requires ForestOk(source, forest) && Anchored(source, fold, token, forest)
    ensures Below(n, forest) && Contains(n.labelText, token)
    ensures i <= j <= |source| && Contains(fold(source[i..j]), fold(token))
  {
    hide NodeSourceText, ForestOk, SpanOk, Below, Contains;
    n :| Below(n, forest) && Anchors(source, fold, token, n);
    BelowIsOk(source, n, forest);
    i, j := ValidSpansRead(source, n.span);
  }

  /** Zero-width nodes are no evidence, whatever their labels say. */
  lemma ZeroWidthProvesNothing(source: string, fold: string -> string, token: string, lex: Lexicon, r: Region,
                               forest: seq<Node>)
    requires forall n :: Below(n, forest) ==> !Wide(n)
    ensures !Anchored(source, fold, token, forest)
    ensures !Witnessed(source, lex, r, forest)
  {
  }

  /** More changed nodes never take evidence away. */
  lemma EvidenceGrows(source: string, fold: string -> string, token: string, lex: Lexicon, r: Region,
                      forest: seq<Node>, more: seq<Node>)
    ensures Anchored(source, fold, token, forest) ==> Anchored(source, fold, token, forest + more)
    ensures Witnessed(source, lex, r, forest) ==> Witnessed(source, lex, r, forest + more)
  {
    hide Anchors, Witness, Below;
    forall n ensures Below(n, forest) ==> Below(n, forest + more) {
      BelowAppend(n, forest, more);
    }
  }

  /** Positions follow the order of the characters they name. */
  lemma PointsIncrease(source: string, i: nat, j: nat)
    requires i < j <= |source|
    ensures Earlier(PointAt(source, i), PointAt(source, j))
  {
    assert source[..j] == source[..i] + source[i..j];
    CountAppend(source[..i], source[i..j]);
    if CountNewlines(source[i..j]) == 0 {
      SizeAppend(AfterLastNewline(source[..i]), source[i..j]);
    }
  }

  /** A node laid exactly over the edit and labelled with it is a witness, provided the
    * source positions name its characters and the label has a word, found in itself.
    */
  lemma ExactNodeIsWitness(source: string, lex: Lexicon, i: nat, j: nat)
    requires LfAligned(source) && i < j <= |source|
    requires var words := lex.words(lex.fold(source[i..j]));
             words != [] && forall k :: 0 <= k < |words| ==> Contains(lex.fold(source[i..j]), words[k])
    ensures Witness(source, lex, Region(PointAt(source, i), PointAt(source, j), source[i..j]),
                    Node(source[i..j], SpanAt(source, i, j), []))
  {
    PointRoundTrip(source, i, j);
    PointsIncrease(source, i, j);
    var t := lex.fold(source[i..j]);
    hide NodeSourceText, PointAt, LfAligned;
    assert t <= t[0..];
  }

  lemma ContainsExactly(text: string, part: string)
    ensures Contains(text, part) <==> exists head, tail :: text == head + part + tail
  {
    if Contains(text, part) {
      var k :| 0 <= k <= |text| && part <= text[k..];
      assert text == text[..k] + part + text[k + |part|..];
    }
    if head, tail :| text == head + part + tail {
      assert text[|head|..] == part + tail;
    }
  }

  /** A node is below a forest when it is one of its trees or below the children of one. */
  lemma {:induction false} BelowExactly(n: Node, forest: seq<Node>)
    ensures Below(n, forest) <==> exists top :: top in forest && (n == top || Below(n, top.children))
  {
    if forest != [] {
      BelowExactly(n, forest[1..]);
      assert forest == [forest[0]] + forest[1..];
    }
  }

  /** Characters and the points that name them are in the same order. */
  lemma EarlierExactly(source: string, i: nat, j: nat)
    requires i <= |source| && j <= |source|
    ensures Earlier(PointAt(source, i), PointAt(source, j)) <==> i < j
  {
    hide PointAt;
    if i < j {
      PointsIncrease(source, i, j);
    } else if j < i {
      PointsIncrease(source, j, i);
    }
  }

  /** A node laid over source[i..j] anchors a token exactly when it is not empty, its label
    * holds the token, and the text does up to case.
    */
  lemma AnchorsExactly(source: string, fold: string -> string, token: string, n: Node, i: nat, j: nat)
    requires LfAligned(source) && i <= |source| && j <= |source| && n.span == SpanAt(source, i, j)
    ensures Anchors(source, fold, token, n) <==>
            && i < j && n.labelText != ""
            && Contains(n.labelText, token)
            && Contains(fold(source[i..j]), fold(token))
  {
    EarlierExactly(source, i, j);
    hide NodeSourceText, PointAt, LfAligned, Contains;
    if i < j {
      PointRoundTrip(source, i, j);
    }
  }

  /** A node laid over source[i..j] is a witness of an edit of source[k..l] exactly when both
    * share a character, every word of the label stands in the text, and the label holds the
    * edit or one of its parts, up to case.
    */
  lemma WitnessExactly(source: string, lex: Lexicon, k: nat, l: nat, n: Node, i: nat, j: nat)
    requires LfAligned(source) && i <= |source| && j <= |source| && n.span == SpanAt(source, i, j)
    requires k < l <= |source|
    ensures var seen, edit := lex.fold(n.labelText), lex.fold(source[k..l]);
            Witness(source, lex, Region(PointAt(source, k), PointAt(source, l), source[k..l]), n) <==>
            && i < j && i < l && k < j
            && lex.words(seen) != []
            && (forall word :: word in lex.words(seen) ==> Contains(lex.fold(source[i..j]), word))
            && (Contains(seen, edit) || exists part :: part in lex.parts(edit) && Contains(seen, part))
  {
    EarlierExactly(source, i, j);
    EarlierExactly(source, i, l);
    EarlierExactly(source, k, j);
    hide NodeSourceText, PointAt, LfAligned, Contains;
    if i < j {
      PointRoundTrip(source, i, j);
    }
  }
}
