/** The extent of a source edit: what is left of two texts without their common ends. */
module EditExtent {
  import opened Common
  import opened SourceSpans
  import opened Utf8

  datatype Side = Side(start: Point, end: Point, token: string)
  datatype Extent = Extent(before: Side, after: Side)
  datatype Outcome = Found(extent: Extent) | SameSource | BlankEdit

  /** The characters that str.strip() removes. */
  predicate IsSpace(c: char) {
    || '\t' <= c <= '\r' || '\U{1c}' <= c <= ' '
    || c == '\U{85}' || c == '\U{a0}' || c == '\U{1680}' || '\U{2000}' <= c <= '\U{200a}'
    || c == '\U{2028}' || c == '\U{2029}' || c == '\U{202f}' || c == '\U{205f}' || c == '\U{3000}'
  }

  predicate Blank(s: string) { forall i :: 0 <= i < |s| ==> IsSpace(s[i]) }

  /** p is the length of the longest common prefix. */
  predicate LongestPrefix(a: string, b: string, p: nat) {
    && p <= |a| && p <= |b| && a[..p] == b[..p]
    && (p < |a| && p < |b| ==> a[p] != b[p])
  }

  /** s is the length of the longest common suffix of at most `limit` characters. */
  predicate LongestSuffix(a: string, b: string, limit: nat, s: nat) {
    && s <= limit <= |a| && limit <= |b| && a[|a| - s..] == b[|b| - s..]
    && (s < limit ==> a[|a| - s - 1] != b[|b| - s - 1])
  }

  function Min(a: nat, b: nat): nat { if a < b then a else b }

  /** The side of a text between its first p and its last s characters. */
  function SideOf(source: string, p: nat, s: nat): Side
    requires p + s <= |source|
  {
    Side(PointAt(source, p), PointAt(source, |source| - s), source[p..|source| - s])
  }

  /** The texts differ between their first p and their last s characters, which cannot be extended. */
  predicate Differ(before: string, after: string, p: nat, s: nat) {
    && LongestPrefix(before, after, p)
    && LongestSuffix(before, after, Min(|before|, |after|) - p, s)
  }

  /** _mutation_source_extent, with its two loops. */
  method MutationSourceExtent(before: string, after: string) returns (r: Outcome, prefix: nat, suffix: nat)
    ensures r.SameSource? <==> before == after
    ensures before != after ==> Differ(before, after, prefix, suffix)
    ensures r.BlankEdit? <==> before != after && Blank(after[prefix..|after| - suffix])
    ensures r.Found? ==> r.extent == Extent(SideOf(before, prefix, suffix), SideOf(after, prefix, suffix))
  {
    prefix, suffix := 0, 0;
    if before == after {
      return SameSource, 0, 0;
    }
    while prefix < Min(|before|, |after|) && before[prefix] == after[prefix]
      invariant prefix <= |before| && prefix <= |after| && before[..prefix] == after[..prefix]
    {
      prefix := prefix + 1;
    }
    var limit := Min(|before| - prefix, |after| - prefix);
    while suffix < limit && before[|before| - suffix - 1] == after[|after| - suffix - 1]
      invariant suffix <= limit && before[|before| - suffix..] == after[|after| - suffix..]
    {
      suffix := suffix + 1;
      assert before[|before| - suffix..] == [before[|before| - suffix]] + before[|before| - suffix + 1..];
      assert after[|after| - suffix..] == [after[|after| - suffix]] + after[|after| - suffix + 1..];
    }
    var blank := IsBlank(after[prefix..|after| - suffix]);
    if blank {
      return BlankEdit, prefix, suffix;
    }
    r := Found(Extent(SideOf(before, prefix, suffix), SideOf(after, prefix, suffix)));
  }

  method IsBlank(s: string) returns (blank: bool)
    ensures blank <==> Blank(s)
  {
    for i := 0 to |s|
      invariant forall k :: 0 <= k < i ==> IsSpace(s[k])
    {
      if !IsSpace(s[i]) {
        return false;
      }
    }
    return true;
  }

  /** The two sides are cut out of the same surroundings, which do not overlap. */
  lemma Reconstructs(before: string, after: string, p: nat, s: nat)
    requires Differ(before, after, p, s)
    ensures p + s <= |before| && p + s <= |after|
    ensures before == before[..p] + SideOf(before, p, s).token + before[|before| - s..]
    ensures after == before[..p] + SideOf(after, p, s).token + before[|before| - s..]
  {
  }

  /** No common prefix is longer than the longest one. */
  lemma PrefixIsLongest(before: string, after: string, p: nat, a: string)
    requires LongestPrefix(before, after, p) && a <= before && a <= after
    ensures |a| <= p
  {
    assert forall k :: 0 <= k < |a| ==> before[k] == a[k] && after[k] == a[k];
  }

  /** No common suffix within the limit is longer than the longest one. */
  lemma SuffixIsLongest(before: string, after: string, limit: nat, s: nat, b: string)
    requires LongestSuffix(before, after, limit, s)
    requires |b| <= |before| && before[|before| - |b|..] == b && |b| <= |after| && after[|after| - |b|..] == b
    ensures |b| <= s || s == limit
  {
    assert forall k :: 0 <= k < |b| ==>
      before[|before| - |b| + k] == b[k] && after[|after| - |b| + k] == b[k];
  }

  /** Minimality: however the texts are cut into equal ends and two middles, the middles are no shorter. */
  lemma TokensAreMinimal(before: string, after: string, p: nat, s: nat, a: string, x: string, y: string, b: string)
    requires Differ(before, after, p, s)
    requires before == a + x + b && after == a + y + b
    ensures |SideOf(before, p, s).token| <= |x| && |SideOf(after, p, s).token| <= |y|
  {
    PrefixIsLongest(before, after, p, a);
    SuffixIsLongest(before, after, Min(|before|, |after|) - p, s, b);
  }

  /** On aligned sources, reading the recorded points gives back the recorded tokens. */
  lemma ExtentReads(source: string, p: nat, s: nat)
    requires p + s <= |source| && LfAligned(source)
    ensures var side := SideOf(source, p, s);
      NodeSourceText(source, SpanOf(side.start, side.end)) == Text(side.token)
  {
    PointRoundTrip(source, p, |source| - s);
  }

  /** The only line terminator of the source is the LF. */
  predicate LfOnly(s: string) { forall k :: 0 <= k < |s| && IsBreak(s[k]) ==> s[k] == '\n' }

  /** The first line of such a source, without its newline. */
  lemma FirstLineText(s: string, i: nat)
    requires s != "" && LfOnly(s) && i <= |s| && forall k :: 0 <= k < i ==> s[k] != '\n'
    ensures i <= |Strip(s[..LineEnd(s)])| && Strip(s[..LineEnd(s)])[..i] == s[..i]
  {
    var n := LineEnd(s);
    LineEndMeaning(s);
    if IsBreak(s[n - 1]) {
      assert s[n - 1] == '\n' && i <= n - 1;
      assert IsBreak('\r');
      assert 1 < n ==> s[n - 2] != '\r';
      assert Strip(s[..n]) == s[..n - 1];
    } else {
      assert n == |s| && s[..n] == s;
    }
  }

  lemma FirstLinePoint(s: string, i: nat)
    requires s != "" && LfOnly(s) && i <= |s| && forall k :: 0 <= k < i ==> s[k] != '\n'
    ensures PointOk(s, PointAt(s, i).row, PointAt(s, i).col)
  {
    PointInFirstLine(s, i);
    FirstLineText(s, i);
    FirstRow(s, 0);
    var line := Strip(s[..LineEnd(s)]);
    hide Strip, LfOnly, LineEnd, PointAt, Size;
    assert Size(line[..i]) in Boundaries(line);
  }

  lemma EmptyPoint()
    ensures PointOk("", PointAt("", 0).row, PointAt("", 0).col)
  {
    assert Size(""[..0]) == 0;
    assert 0 in Boundaries("");
  }

  /** The named points of such a source pass the span validation. */
  lemma {:induction false} NamedPointIsValid(s: string, i: nat)
    requires i <= |s| && LfOnly(s)
    ensures PointOk(s, PointAt(s, i).row, PointAt(s, i).col)
    decreases |s|
  {
    hide PointOk, PointAt, LfAligned;
    if s == "" {
      EmptyPoint();
    } else if forall k :: 0 <= k < i ==> s[k] != '\n' {
      FirstLinePoint(s, i);
    } else {
      var m: nat :| m < i && s[m] == '\n';
      LfOnlyIsAligned(s);
      AlignedFirstLine(s, m);
      var n := LineEnd(s);
      PointInRest(s, n, i);
      NamedPointIsValid(s[n..], i - n);
      PointOkBelow(s, PointAt(s[n..], i - n).row, PointAt(s[n..], i - n).col);
    }
  }

  lemma LfOnlyIsAligned(s: string)
    requires LfOnly(s)
    ensures LfAligned(s)
  {
  }

  /** A valid point of what follows the first line. */
  lemma PointOkBelow(s: string, row: int, col: int)
    requires s != "" && s[LineEnd(s) - 1] == '\n' && PointOk(s[LineEnd(s)..], row, col)
    ensures PointOk(s, row + 1, col)
  {
    FirstRow(s, 0);
    hide SplitKeep, LineOffset, RowStart, Strip, Boundaries;
  }

  lemma NamedSpanIsValid(source: string, i: nat, j: nat)
    requires i <= j <= |source| && LfOnly(source)
    ensures SpanOk(source, SpanAt(source, i, j))
  {
    NamedPointIsValid(source, i);
    NamedPointIsValid(source, j);
    assert source[..j] == source[..i] + source[i..j];
    CountAppend(source[..i], source[i..j]);
    if CountNewlines(source[i..j]) == 0 {
      SizeAppend(AfterLastNewline(source[..i]), source[i..j]);
    }
  }

  /** A point below the first line is valid exactly when it is in what follows that line. */
  lemma PointOkShift(s: string, row: int, col: int)
    requires s != "" && s[LineEnd(s) - 1] == '\n' && row >= 0
    ensures PointOk(s, row + 1, col) <==> PointOk(s[LineEnd(s)..], row, col)
  {
    var rest := s[LineEnd(s)..];
    RowCount(s);
    if row < |SplitKeep(rest)| {
      FirstRowText(s, row + 1);
    }
    assert rest != "" ==> rest[|rest| - 1] == s[|s| - 1];
    assert rest == "" ==> LineEnd(s) == |s|;
    hide SplitKeep, LineOffset, RowStart, Strip, Boundaries, LineEnd;
  }

  /** On an aligned source the point of a character is valid exactly when no break, of any kind,
    * stands between the last newline before it and the character.
    */
  lemma {:induction false} NamedPointExactly(s: string, i: nat)
    requires i <= |s| && LfAligned(s)
    ensures PointOk(s, PointAt(s, i).row, PointAt(s, i).col) <==> NoBreak(AfterLastNewline(s[..i]))
    decreases |s|
  {
    if s == "" {
      EmptyPoint();
    } else if m: nat :| m < i && s[m] == '\n' {
      hide PointOk, PointAt, LfAligned, LineEnd, NoBreak, AfterLastNewline, SplitKeep, Size;
      AlignedFirstLine(s, m);
      NamedPointExactly(s[LineEnd(s)..], i - LineEnd(s));
      NamedPointShift(s, i);
    } else {
      NoNewline(s[..i]);
      PointInFirstLine(s, i);
      FirstRowMeaning(s);
      PointOnFirstRow(s, i);
      hide PointOk, PointAt, LfAligned, LineEnd, NoBreak, AfterLastNewline, SplitKeep, Size;
    }
  }

  lemma NamedPointShift(s: string, i: nat)
    requires s != "" && LineEnd(s) <= i <= |s| && s[LineEnd(s) - 1] == '\n'
    requires forall k :: 0 <= k < LineEnd(s) - 1 ==> s[k] != '\n'
    ensures var rest, p := s[LineEnd(s)..], PointAt(s[LineEnd(s)..], i - LineEnd(s));
      && (PointOk(s, PointAt(s, i).row, PointAt(s, i).col) <==> PointOk(rest, p.row, p.col))
      && AfterLastNewline(s[..i]) == AfterLastNewline(rest[..i - LineEnd(s)])
  {
    assert PointAt(s[LineEnd(s)..], i - LineEnd(s)).row >= 0;
    hide PointOk, PointAt, LineEnd, AfterLastNewline, SplitKeep, Size;
    AfterFirstLine(s, LineEnd(s), i);
    PointInRest(s, LineEnd(s), i);
    PointOkShift(s, PointAt(s[LineEnd(s)..], i - LineEnd(s)).row, PointAt(s[LineEnd(s)..], i - LineEnd(s)).col);
  }

  lemma AfterFirstLine(s: string, n: nat, i: nat)
    requires n <= i <= |s| && n > 0 && s[n - 1] == '\n'
    ensures AfterLastNewline(s[..i]) == AfterLastNewline(s[n..][..i - n])
  {
    var rest := s[n..][..i - n];
    assert s[..i] == s[..n - 1] + ("\n" + rest);
    CountAppend(s[..n - 1], "\n" + rest);
    CountAppend("\n", rest);
    assert CountNewlines("\n") == 1 && AfterLastNewline("\n") == "";
    assert "" + rest == rest;
    if CountNewlines(rest) == 0 {
      NoNewlineAfter(rest);
    }
  }

  lemma {:induction false} NoNewlineAfter(s: string)
    requires CountNewlines(s) == 0
    ensures AfterLastNewline(s) == s
  {
  }

  lemma PointOnFirstRow(s: string, i: nat)
    requires s != "" && i <= |s| && 1 <= |SplitKeep(s)| && RowStart(s, 0) == 0
    requires |SplitKeep(s)[0]| == LineEnd(s)
    ensures PointOk(s, 0, Size(s[..i])) <==> NoBreak(s[..i])
  {
    PointOnRow(s, 0, Size(s[..i]));
    BreakEndsRow(s, i);
    hide PointOk, SplitKeep, RowStart, LineEnd, Size, NoBreak;
    if NoBreak(s[..i]) {
      assert s[0..i] == s[..i];
      assert Reaches(s, 0, Size(s[..i]), i);
    }
    if k :| 0 <= k <= |s| && Reaches(s, 0, Size(s[..i]), k) {
      assert s[0..k] == s[..k];
      if k < i {
        SizeIncreases(s, k, i);
      } else if i < k {
        SizeIncreases(s, i, k);
      }
    }
  }

  /** A start without a break lies in the first row. */
  lemma BreakEndsRow(s: string, i: nat)
    requires s != "" && i <= |s|
    ensures NoBreak(s[..i]) ==> i <= LineEnd(s)
  {
    LineEndMeaning(s);
    if LineEnd(s) < i {
      assert IsBreak(s[..i][LineEnd(s) - 1]);
    }
  }

  /** And the span between two characters is accepted exactly when both their points are. */
  lemma NamedSpanExactly(source: string, i: nat, j: nat)
    requires i <= j <= |source| && LfAligned(source)
    ensures SpanOk(source, SpanAt(source, i, j)) <==>
      NoBreak(AfterLastNewline(source[..i])) && NoBreak(AfterLastNewline(source[..j]))
  {
    hide PointOk, LfAligned, NoBreak;
    NamedPointExactly(source, i);
    NamedPointExactly(source, j);
    assert source[..j] == source[..i] + source[i..j];
    CountAppend(source[..i], source[i..j]);
    if CountNewlines(source[i..j]) == 0 {
      SizeAppend(AfterLastNewline(source[..i]), source[i..j]);
    }
  }

  /** The white space of str.strip(), by code point. */
  lemma SpaceCharacters(c: char)
    ensures IsSpace(c) <==>
      || c as int in {0x9, 0xA, 0xB, 0xC, 0xD, 0x1C, 0x1D, 0x1E, 0x1F, 0x20, 0x85, 0xA0, 0x1680}
      || c as int in {0x2000, 0x2001, 0x2002, 0x2003, 0x2004, 0x2005, 0x2006, 0x2007, 0x2008, 0x2009, 0x200A}
      || c as int in {0x2028, 0x2029, 0x202F, 0x205F, 0x3000}
  {
  }
}
