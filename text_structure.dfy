/** The plain-text structure parser of the text processor
    (`TextProcessor._extract_basic_structure`): the text is split into lines
    and every line is stripped; paragraphs are the maximal runs of non-empty
    stripped lines, headings are `#`-prefixed lines or lines underlined by a
    line of `=` or `-`. */
module TextStructure {
  import opened Util
  import opened Text

  datatype Heading = Heading(text: string, level: nat, line: nat)

  datatype Structure = Structure(paragraphs: seq<string>, headings: seq<Heading>,
                                 totalParagraphs: nat, totalHeadings: nat)

  /** Every line stripped; the parser looks at lines only after stripping them. */
  function StripAll(lines: seq<string>): (r: seq<string>)
    ensures |r| == |lines|
    ensures forall k :: 0 <= k < |lines| ==> r[k] == Strip(lines[k])
  {
    seq(|lines|, k requires 0 <= k < |lines| => Strip(lines[k]))
  }

  // ---------------------------------------------------------------------------
  // Paragraphs, defined run by run over the stripped lines.

  /** Number of leading non-empty lines. */
  function RunLength(t: seq<string>): (n: nat)
    ensures n <= |t|
    ensures forall k :: 0 <= k < n ==> t[k] != []
    ensures n < |t| ==> t[n] == []
  {
    if t == [] || t[0] == [] then 0 else 1 + RunLength(t[1..])
  }

  /** Each maximal run of non-empty stripped lines, joined by one space. */
  function Runs(t: seq<string>): seq<string>
    decreases |t|
  {
    if t == [] then []
    else if t[0] == [] then Runs(t[1..])
    else
      var n := RunLength(t);
      [JoinSpace(t[..n])] + Runs(t[n..])
  }

  function Paragraphs(lines: seq<string>): seq<string> {
    Runs(StripAll(lines))
  }

  /** Number of lines that begin a run: non-empty, and first or after an empty line. */
  function RunStarts(t: seq<string>, prevEmpty: bool): nat {
    if t == [] then 0
    else (if t[0] != [] && prevEmpty then 1 else 0) + RunStarts(t[1..], t[0] == [])
  }

  /** The lines are none, or the last one is empty. */
  predicate EndsEmpty(t: seq<string>) {
    t == [] || t[|t| - 1] == []
  }

  lemma EndsEmptySuffix(t: seq<string>, n: nat)
    requires n <= |t| && EndsEmpty(t)
    ensures EndsEmpty(t[n..])
  {
    if n < |t| {
      assert t[n..][|t[n..]| - 1] == t[|t| - 1];
    }
  }

  lemma {:induction false} RunLengthAppend(a: seq<string>, b: seq<string>)
    requires a != [] && a[|a| - 1] == []
    ensures RunLength(a + b) == RunLength(a)
  {
    if a[0] != [] {
      AppendSlices(a, b, 1);
      RunLengthAppend(a[1..], b);
    }
  }

  lemma RunsStep(t: seq<string>)
    requires t != [] && t[0] != []
    ensures Runs(t) == [JoinSpace(t[..RunLength(t)])] + Runs(t[RunLength(t)..])
  {
  }

  /** Lines cut after an empty line split into the paragraphs of the two halves. */
  lemma {:induction false} RunsAppend(a: seq<string>, b: seq<string>)
    requires EndsEmpty(a)
    ensures Runs(a + b) == Runs(a) + Runs(b)
    decreases |a|, 1
  {
    if a == [] {
      assert a + b == b;
    } else if a[0] == [] {
      RunsAppendEmpty(a, b);
    } else {
      RunsAppendRun(a, b);
    }
  }

  lemma {:induction false} RunsAppendEmpty(a: seq<string>, b: seq<string>)
    requires a != [] && a[0] == [] && a[|a| - 1] == []
    ensures Runs(a + b) == Runs(a) + Runs(b)
    decreases |a|, 0
  {
    AppendSlices(a, b, 1);
    assert (a + b)[0] == a[0];
    EndsEmptySuffix(a, 1);
    RunsAppend(a[1..], b);
  }

  lemma {:induction false} RunsAppendRun(a: seq<string>, b: seq<string>)
    requires a != [] && a[0] != [] && a[|a| - 1] == []
    ensures Runs(a + b) == Runs(a) + Runs(b)
    decreases |a|, 0
  {
    var n := RunLength(a);
    var rest := a[n..];
    EndsEmptySuffix(a, n);
    RunLengthAppend(a, b);
    AppendSlices(a, b, n);
    assert (a + b)[0] == a[0];
    var p := [JoinSpace(a[..n])];
    calc {
      Runs(a + b);
      { RunsStep(a + b); }
      p + Runs(rest + b);
      { RunsAppend(rest, b); }
      p + (Runs(rest) + Runs(b));
      { AppendAssoc(p, Runs(rest), Runs(b)); }
      (p + Runs(rest)) + Runs(b);
      { RunsStep(a); }
      Runs(a) + Runs(b);
    }
  }

  /** The run length is pinned down by its two defining facts. */
  lemma {:induction false} RunLengthUnique(t: seq<string>, n: nat)
    requires n <= |t|
    requires forall k :: 0 <= k < n ==> t[k] != []
    requires n < |t| ==> t[n] == []
    ensures RunLength(t) == n
  {
    if n > 0 {
      RunLengthUnique(t[1..], n - 1);
    }
  }

  /** A run of non-empty lines and then an empty line make one paragraph (or none). */
  lemma RunThenEmpty(run: seq<string>)
    requires forall k :: 0 <= k < |run| ==> run[k] != []
    ensures Runs(run + [[]]) == if run == [] then [] else [JoinSpace(run)]
  {
    var t := run + [[]];
    AppendHalves(run, [[]]);
    if run != [] {
      RunLengthUnique(t, |run|);
      RunsStep(t);
    } else {
      assert t == [[]];
    }
  }

  lemma RunAlone(run: seq<string>)
    requires forall k :: 0 <= k < |run| ==> run[k] != []
    ensures Runs(run) == if run == [] then [] else [JoinSpace(run)]
  {
    if run != [] {
      RunLengthUnique(run, |run|);
      assert run[..|run|] == run;
      assert run[|run|..] == [];
    }
  }

  /** No paragraph is empty, and there is one paragraph per run. */
  lemma {:induction false} RunsFacts(t: seq<string>)
    ensures forall k :: 0 <= k < |Runs(t)| ==> Runs(t)[k] != []
    ensures |Runs(t)| == RunStarts(t, true)
    decreases |t|
  {
    if t != [] {
      if t[0] == [] {
        RunsFacts(t[1..]);
      } else {
        var n := RunLength(t);
        RunsFacts(t[n..]);
        JoinNonEmpty(t[..n], " ");
        RunStartsInRun(t, n);
      }
    }
  }

  /** Inside a run only its first line starts a run. */
  lemma {:induction false} RunStartsInRun(t: seq<string>, n: nat)
    requires 0 < n <= |t|
    requires forall k :: 0 <= k < n ==> t[k] != []
    requires n < |t| ==> t[n] == []
    ensures RunStarts(t, true) == 1 + RunStarts(t[n..], true)
  {
    RunStartsSkip(t[1..], n - 1);
  }

  lemma {:induction false} RunStartsSkip(t: seq<string>, m: nat)
    requires m <= |t|
    requires forall k :: 0 <= k < m ==> t[k] != []
    requires m < |t| ==> t[m] == []
    ensures RunStarts(t, false) == RunStarts(t[m..], true)
  {
    if m > 0 {
      RunStartsSkip(t[1..], m - 1);
      assert t[1..][m - 1..] == t[m..];
    } else {
      assert t[0..] == t;
    }
  }

  /** Every paragraph of a text is non-empty, and there are as many as there are
      runs of non-blank lines. */
  lemma ParagraphsFacts(lines: seq<string>)
    ensures forall k :: 0 <= k < |Paragraphs(lines)| ==> Paragraphs(lines)[k] != []
    ensures |Paragraphs(lines)| == RunStarts(StripAll(lines), true)
  {
    RunsFacts(StripAll(lines));
  }

  // ---------------------------------------------------------------------------
  // Headings.

  /** Number of leading `#` characters. */
  function HashCount(s: string): (n: nat)
    ensures n <= |s|
    ensures forall k :: 0 <= k < n ==> s[k] == '#'
    ensures n < |s| ==> s[n] != '#'
  {
    if s != [] && s[0] == '#' then 1 + HashCount(s[1..]) else 0
  }

  function Hashes(n: nat): (r: string)
    ensures |r| == n && forall k :: 0 <= k < n ==> r[k] == '#'
  {
    seq(n, k => '#')
  }

  predicate AllChar(s: string, c: char) {
    forall k :: 0 <= k < |s| ==> s[k] == c
  }

  /** The heading, if any, that stripped line `i` gives. */
  function HeadingAt(t: seq<string>, i: nat): (h: Option<Heading>)
    requires i < |t|
    ensures h.Some? ==> h.value.line == i && 1 <= h.value.level <= 6
  {
    var line := t[i];
    if line != [] && line[0] == '#' then
      var level := HashCount(line);
      if level <= 6 then Some(Heading(Strip(line[level..]), level, i)) else None
    else if i < |t| - 1 && t[i + 1] != [] && AllChar(t[i + 1], '=') then
      Some(Heading(line, 1, i))
    else if i < |t| - 1 && t[i + 1] != [] && AllChar(t[i + 1], '-') then
      Some(Heading(line, 2, i))
    else
      None
  }

  /** The line-by-line heading results. */
  function LineHeadings(t: seq<string>): (r: seq<Option<Heading>>)
    ensures |r| == |t|
    ensures forall i :: 0 <= i < |t| ==> r[i] == HeadingAt(t, i)
  {
    seq(|t|, i requires 0 <= i < |t| => HeadingAt(t, i))
  }

  /** The present values, in order. */
  function Somes(os: seq<Option<Heading>>): seq<Heading> {
    if os == [] then []
    else Somes(os[..|os| - 1]) + (match os[|os| - 1] case Some(h) => [h] case None => [])
  }

  /** Each option carries the index it sits at. */
  predicate LineTagged(os: seq<Option<Heading>>) {
    forall i :: 0 <= i < |os| && os[i].Some? ==> os[i].value.line == i
  }

  function Headings(lines: seq<string>): seq<Heading> {
    Somes(LineHeadings(StripAll(lines)))
  }

  lemma SomesSnoc(os: seq<Option<Heading>>, o: Option<Heading>)
    ensures Somes(os + [o]) == Somes(os) + (match o case Some(h) => [h] case None => [])
  {
    AppendHalves(os, [o]);
  }

  /** Every listed value is the option at its own index. */
  lemma {:induction false} SomesSound(os: seq<Option<Heading>>)
    requires LineTagged(os)
    ensures forall a :: 0 <= a < |Somes(os)| ==>
              Somes(os)[a].line < |os| && os[Somes(os)[a].line] == Some(Somes(os)[a])
  {
    if os != [] {
      var init := os[..|os| - 1];
      assert LineTagged(init) by {
        forall i | 0 <= i < |init| && init[i].Some? ensures init[i].value.line == i {
          assert init[i] == os[i];
        }
      }
      SomesSound(init);
      forall a | 0 <= a < |Somes(init)|
        ensures os[Somes(init)[a].line] == init[Somes(init)[a].line]
      {
      }
    }
  }

  /** The values come in strictly increasing index order. */
  lemma {:induction false} SomesOrdered(os: seq<Option<Heading>>)
    requires LineTagged(os)
    ensures forall a, b :: 0 <= a < b < |Somes(os)| ==> Somes(os)[a].line < Somes(os)[b].line
  {
    if os != [] {
      var init := os[..|os| - 1];
      assert LineTagged(init) by {
        forall i | 0 <= i < |init| && init[i].Some? ensures init[i].value.line == i {
          assert init[i] == os[i];
        }
      }
      SomesOrdered(init);
      SomesSound(init);
    }
  }

  /** Every present value is listed. */
  lemma {:induction false} SomesComplete(os: seq<Option<Heading>>)
    ensures forall i :: 0 <= i < |os| && os[i].Some? ==> os[i].value in Somes(os)
  {
    if os != [] {
      var init := os[..|os| - 1];
      SomesComplete(init);
      forall i | 0 <= i < |init| && os[i].Some? ensures os[i].value in Somes(os) {
        assert os[i] == init[i];
      }
    }
  }

  /** Headings come in strictly increasing line order, each is the heading its
      line gives, and every line that gives a heading is listed. */
  lemma HeadingsFacts(lines: seq<string>)
    ensures forall a, b :: 0 <= a < b < |Headings(lines)| ==>
              Headings(lines)[a].line < Headings(lines)[b].line
    ensures forall a :: 0 <= a < |Headings(lines)| ==>
              Headings(lines)[a].line < |lines| &&
              HeadingAt(StripAll(lines), Headings(lines)[a].line) == Some(Headings(lines)[a])
    ensures forall i :: 0 <= i < |lines| && HeadingAt(StripAll(lines), i).Some? ==>
              HeadingAt(StripAll(lines), i).value in Headings(lines)
  {
    var os := LineHeadings(StripAll(lines));
    SomesSound(os);
    SomesOrdered(os);
    SomesComplete(os);
  }

  /** The hash count is pinned down by its two defining facts. */
  lemma {:induction false} HashCountUnique(s: string, n: nat)
    requires n <= |s|
    requires forall k :: 0 <= k < n ==> s[k] == '#'
    requires n < |s| ==> s[n] != '#'
    ensures HashCount(s) == n
  {
    if n > 0 {
      HashCountUnique(s[1..], n - 1);
    }
  }

  lemma {:induction false} HashCountAtLeast(s: string, n: nat)
    requires n <= |s|
    requires forall k :: 0 <= k < n ==> s[k] == '#'
    ensures HashCount(s) >= n
  {
    if n > 0 {
      HashCountAtLeast(s[1..], n - 1);
    }
  }

  /** A stripped line of k `#` characters (1 <= k <= 6) and a rest that does not
      start with `#` gives a heading of level k whose text is the stripped rest. */
  lemma HashHeading(t: seq<string>, i: nat, k: nat, rest: string)
    requires i < |t|
    requires t[i] == Hashes(k) + rest
    requires rest == [] || rest[0] != '#'
    requires 1 <= k <= 6
    ensures HeadingAt(t, i) == Some(Heading(Strip(rest), k, i))
  {
    HashCountUnique(Hashes(k) + rest, k);
    assert (Hashes(k) + rest)[k..] == rest;
  }

  /** More than six leading `#`: no heading, whatever the next line holds. */
  lemma TooManyHashes(t: seq<string>, i: nat, rest: string)
    requires i < |t|
    requires t[i] == Hashes(7) + rest
    ensures HeadingAt(t, i) == None
  {
    assert t[i][0] == '#';
    HashCountAtLeast(t[i], 7);
  }

  /** A line not starting with `#` and followed by a non-empty line made only of
      `=` is a level-1 heading; made only of `-`, a level-2 heading. */
  lemma UnderlinedHeading(t: seq<string>, i: nat, c: char)
    requires i + 1 < |t|
    requires t[i] == [] || t[i][0] != '#'
    requires t[i + 1] != [] && AllChar(t[i + 1], c)
    requires c == '=' || c == '-'
    ensures HeadingAt(t, i) == Some(Heading(t[i], if c == '=' then 1 else 2, i))
  {
    if c == '-' {
      assert t[i + 1][0] == '-';
      assert !AllChar(t[i + 1], '=');
    }
  }

  /** The last line, or a line followed by anything but a rule, and not a `#`
      line, gives no heading. */
  lemma NoHeading(t: seq<string>, i: nat)
    requires i < |t|
    requires t[i] == [] || t[i][0] != '#'
    requires i + 1 < |t| ==>
               t[i + 1] == [] || (!AllChar(t[i + 1], '=') && !AllChar(t[i + 1], '-'))
    ensures HeadingAt(t, i) == None
  {
  }

  // ---------------------------------------------------------------------------
  // The parser itself.

  /** An empty line closes the run of lines `k..i`. */
  lemma EmptyLineStep(t: seq<string>, k: nat, i: nat)
    requires k <= i < |t|
    requires EndsEmpty(t[..k])
    requires forall j :: k <= j < i ==> t[j] != []
    requires t[i] == []
    ensures Runs(t[..i + 1]) == Runs(t[..k]) + (if k == i then [] else [JoinSpace(t[k..i])])
    ensures EndsEmpty(t[..i + 1])
  {
    var run := t[k..i];
    forall j | 0 <= j < |run| ensures run[j] != [] {
      assert run[j] == t[k + j];
    }
    SliceSnoc(t, k, i);
    assert t[k..i + 1] == run + [[]];
    SliceCut(t, k, i + 1);
    RunsAppend(t[..k], t[k..i + 1]);
    RunThenEmpty(run);
    assert t[..i + 1][i] == t[i];
  }

  /** The end of the text closes the last run, lines `k..`. */
  lemma LastRunStep(t: seq<string>, k: nat)
    requires k <= |t|
    requires EndsEmpty(t[..k])
    requires forall j :: k <= j < |t| ==> t[j] != []
    ensures Runs(t) == Runs(t[..k]) + (if k == |t| then [] else [JoinSpace(t[k..])])
  {
    SliceCut(t, k, |t|);
    assert t[..|t|] == t;
    RunsAppend(t[..k], t[k..]);
    RunAlone(t[k..]);
  }

  /** The state of the paragraph loop after `i` lines: `paragraphs` holds
      the runs of the lines before the current run, which starts at `k`, and
      `current` holds the lines of the current run. */
  predicate Collected(t: seq<string>, k: nat, i: nat, paragraphs: seq<string>, current: seq<string>) {
    && k <= i <= |t|
    && EndsEmpty(t[..k])
    && (forall j :: k <= j < i ==> t[j] != [])
    && paragraphs == Runs(t[..k])
    && current == t[k..i]
  }

  /** A blank line flushes the current run and starts a new one after it. */
  lemma CollectBlank(t: seq<string>, k: nat, i: nat, paragraphs: seq<string>, current: seq<string>)
    requires Collected(t, k, i, paragraphs, current) && i < |t| && t[i] == []
    ensures Collected(t, i + 1, i + 1, if current != [] then paragraphs + [JoinSpace(current)] else paragraphs, [])
  {
    EmptyLineStep(t, k, i);
  }

  /** A non-blank line joins the current run. */
  lemma CollectLine(t: seq<string>, k: nat, i: nat, paragraphs: seq<string>, current: seq<string>)
    requires Collected(t, k, i, paragraphs, current) && i < |t| && t[i] != []
    ensures Collected(t, k, i + 1, paragraphs, current + [t[i]])
  {
    SliceSnoc(t, k, i);
  }

  /** The end of the text flushes the last run, giving all the runs. */
  lemma CollectEnd(t: seq<string>, k: nat, paragraphs: seq<string>, current: seq<string>)
    requires Collected(t, k, |t|, paragraphs, current)
    ensures (if current != [] then paragraphs + [JoinSpace(current)] else paragraphs) == Runs(t)
  {
    assert t[k..|t|] == t[k..];
    LastRunStep(t, k);
  }

  /** The paragraph half of the parser: accumulates the stripped lines of the
      current run and flushes them at each blank line and at the end. */
  method CollectParagraphs(lines: seq<string>) returns (paragraphs: seq<string>)
    ensures paragraphs == Paragraphs(lines)
  {
    ghost var t := StripAll(lines);
    paragraphs := [];
    var current: seq<string> := [];
    ghost var k := 0;  // first line of the current run
    for i := 0 to |lines|
      invariant Collected(t, k, i, paragraphs, current)
    {
      var line := Strip(lines[i]);
      assert line == t[i];
      if line == [] {
        CollectBlank(t, k, i, paragraphs, current);
        if current != [] {
          paragraphs := paragraphs + [JoinSpace(current)];
          current := [];
        }
        k := i + 1;
      } else {
        CollectLine(t, k, i, paragraphs, current);
        current := current + [line];
      }
    }
    CollectEnd(t, k, paragraphs, current);
    if current != [] {
      paragraphs := paragraphs + [JoinSpace(current)];
    }
  }

  /** Counts the leading `#` characters one by one, stopping at the first other. */
  method CountHashes(line: string) returns (level: nat)
    ensures level == HashCount(line)
  {
    level := 0;
    while level < |line| && line[level] == '#'
      invariant level <= |line|
      invariant forall j :: 0 <= j < level ==> line[j] == '#'
    {
      level := level + 1;
    }
    HashCountUnique(line, level);
  }

  /** The heading test for line `i`, on the raw lines. */
  method HeadingOfLine(lines: seq<string>, i: nat) returns (h: Option<Heading>)
    requires i < |lines|
    ensures h == HeadingAt(StripAll(lines), i)
  {
    var line := Strip(lines[i]);
    if line != [] && line[0] == '#' {
      var level := CountHashes(line);
      if 0 < level <= 6 {
        h := Some(Heading(Strip(line[level..]), level, i));
      } else {
        h := None;
      }
    } else if i < |lines| - 1 && Strip(lines[i + 1]) != [] && AllChar(Strip(lines[i + 1]), '=') {
      h := Some(Heading(line, 1, i));
    } else if i < |lines| - 1 && Strip(lines[i + 1]) != [] && AllChar(Strip(lines[i + 1]), '-') {
      h := Some(Heading(line, 2, i));
    } else {
      h := None;
    }
  }

  /** The heading half of the parser: one test per line, in line order. */
  method CollectHeadings(lines: seq<string>) returns (headings: seq<Heading>)
    ensures headings == Headings(lines)
  {
    ghost var os := LineHeadings(StripAll(lines));
    headings := [];
    for i := 0 to |lines|
      invariant headings == Somes(os[..i])
    {
      var h := HeadingOfLine(lines, i);
      SliceSnoc(os, 0, i);
      SomesSnoc(os[..i], os[i]);
      match h {
        case Some(x) => headings := headings + [x];
        case None =>
      }
    }
    assert os[..|lines|] == os;
  }

  /** Splits the text on line feeds, collects paragraphs and headings, and counts
      them. */
  method ExtractBasicStructure(text: string) returns (st: Structure)
    ensures st.paragraphs == Paragraphs(Split(text, '\n'))
    ensures st.headings == Headings(Split(text, '\n'))
    ensures st.totalParagraphs == |st.paragraphs| && st.totalHeadings == |st.headings|
  {
    var lines := Split(text, '\n');
    var paragraphs := CollectParagraphs(lines);
    var headings := CollectHeadings(lines);
    st := Structure(paragraphs, headings, |paragraphs|, |headings|);
  }
}
