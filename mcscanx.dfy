/** The MCScanX block parser (`read_mcscanx`): a scanner over the lines of an
    MCScanX collinearity file. Each `## Alignment` header opens a block whose
    first entry is the header line itself; every later line not starting with
    `#` is a data row `<descriptor>: <payload>`, and the payload's whitespace
    fields 1 and 2 (the two gene ids) become one pair of the block. Every block,
    the last one included, is returned.

    As for the ColinearScan parser, the loop body first strips the line and
    tests its prefixes (`Classify`), then acts on the result and the state
    (`Transition`). */
module McScanX {
  import opened Results
  import opened Text
  import opened LineScan

  /** An element of a block: the header line (the source's `[line]`) or a gene
      pair (the source's `[c[1], c[2]]`). */
  datatype Entry = Header(line: string) | Pair(gene1: string, gene2: string)

  type Alignment = seq<Entry>

  /** The loop's state: the finished blocks (`data`), the block being filled
      (`b`) and whether a header has been seen (`flag`; it is never reset). */
  datatype Scanner = Scanner(blocks: seq<Alignment>, current: Alignment, started: bool)

  const Start := Scanner([], [], false)

  predicate IsHeaderLine(line: string) { StartsWith(line, "## Alignment") }
  predicate IsCommentLine(line: string) { StartsWith(line, "#") }

  /** A stripped line as the loop body sees it. A data row either names its
      two genes or lacks a field the source indexes (`Malformed`). */
  datatype Line = Heading(text: string) | Comment | Row(gene1: string, gene2: string) | Malformed

  /** A data row: field 1 of the line split on `:`, split on whitespace runs,
      gives the genes at positions 1 and 2. */
  function ParseRow(line: string): Line {
    var a := Split(line, Char(':'));
    if |a| < 2 then Malformed
    else
      var c := SplitRuns(a[1]);
      if |c| < 3 then Malformed else Row(c[1], c[2])
  }

  /** The prefix tests of the loop body, in the source's order (every header
      also starts with `#`, so the header test comes first). */
  function Classify(raw: string): Line {
    var line := Strip(raw);
    if IsHeaderLine(line) then Heading(line)
    else if IsCommentLine(line) then Comment
    else ParseRow(line)
  }

  /** What the loop body does with line `i`, once classified. */
  function Transition(st: Scanner, line: Line, i: nat): Result<Scanner> {
    match line
    case Heading(h) =>
      if st.current == [] then Ok(Scanner(st.blocks, [Header(h)], true))
      else Ok(Scanner(st.blocks + [st.current], [Header(h)], true))
    case Comment => Ok(st)
    case Row(g1, g2) =>
      if !st.started then Ok(st)
      else Ok(st.(current := st.current + [Pair(g1, g2)]))
    case Malformed =>
      if !st.started then Ok(st)
      else Err(IndexError(i))
  }

  /** What `read_mcscanx` returns for a file with these lines: the finished
      blocks and then the block being filled, whatever it holds. */
  function Alignments(lines: seq<string>): Result<seq<Alignment>> {
    match Scan(Transition, Start, Lex(Classify, lines), 0)
    case Err(e) => Err(e)
    case Ok(st) => Ok(st.blocks + [st.current])
  }

  method ReadMcScanX(lines: seq<string>) returns (r: Result<seq<Alignment>>)
    ensures r == Alignments(lines)
  {
    var data: seq<Alignment>, b: Alignment, flag := [], [], false;
    for i := 0 to |lines|
      invariant Scan(Transition, Start, Lex(Classify, lines)[..i], 0) == Ok(Scanner(data, b, flag))
    {
      StepAt(Transition, Classify, Start, lines, i, Scanner(data, b, flag));
      var line := Strip(lines[i]);
      if StartsWith(line, "## Alignment") {
        flag := true;
        if |b| == 0 {
          assert b + [Header(line)] == [Header(line)];
          b := b + [Header(line)];
          continue;
        }
        data := data + [b];
        b := [];
        assert b + [Header(line)] == [Header(line)];
        b := b + [Header(line)];
        continue;
      }
      if !flag {
        continue;
      }
      if StartsWith(line, "#") {
        continue;
      }
      var a := Split(line, Char(':'));
      if |a| < 2 {
        ErrorAt(Transition, Classify, Start, lines, i);
        return Err(IndexError(i));
      }
      var c := SplitRuns(a[1]);
      if |c| < 3 {
        ErrorAt(Transition, Classify, Start, lines, i);
        return Err(IndexError(i));
      }
      b := b + [Pair(c[1], c[2])];
    }
    assert Lex(Classify, lines)[..|lines|] == Lex(Classify, lines);
    return Ok(data + [b]);
  }

  /** What the classification means: a header is kept verbatim (stripped), a
      comment is a `#` line that is not a header, and a data row is malformed
      exactly when it has no `:` or its field 1 has fewer than three
      whitespace-run fields. */
  lemma ClassifyMeans(raw: string)
    ensures var line := Strip(raw);
            && (Classify(raw) == Heading(line) <==> IsHeaderLine(line))
            && (Classify(raw).Heading? <==> IsHeaderLine(line))
            && (Classify(raw) == Comment <==> IsCommentLine(line) && !IsHeaderLine(line))
            && (Classify(raw).Row? || Classify(raw).Malformed? <==> !IsCommentLine(line))
            && (Classify(raw) == Malformed <==>
                  !IsCommentLine(line)
                  && (Count(line, Char(':')) == 0 || |SplitRuns(Split(line, Char(':'))[1])| < 3))
  {
    var line := Strip(raw);
    if IsHeaderLine(line) {
      assert line[..1] == line[..|"## Alignment"|][..1];
    }
  }

  /** The number of header lines. */
  function CountHeadings(lines: seq<Line>): nat {
    if lines == [] then 0
    else CountHeadings(lines[..|lines| - 1]) + (if lines[|lines| - 1].Heading? then 1 else 0)
  }

  /** A block as the source builds it: its header, then gene pairs only. */
  predicate IsAlignment(b: Alignment) {
    |b| >= 1 && b[0].Header? && forall j :: 1 <= j < |b| ==> b[j].Pair?
  }

  /** The shape every reachable state has: a block is being filled exactly when
      a header has been seen, one block per header seen so far, and every block
      well formed. */
  predicate Shaped(st: Scanner, headings: nat) {
    && (st.started <==> st.current != [])
    && (st.started <==> headings > 0)
    && (st.started ==> IsAlignment(st.current))
    && |st.blocks| + (if st.started then 1 else 0) == headings
    && forall j :: 0 <= j < |st.blocks| ==> IsAlignment(st.blocks[j])
  }

  lemma AlignmentGrows(b: Alignment, e: Entry)
    requires IsAlignment(b) && e.Pair?
    ensures IsAlignment(b + [e])
  {
    assert forall j :: 1 <= j < |b| ==> (b + [e])[j] == b[j];
  }

  lemma AlignmentsGrow(bs: seq<Alignment>, b: Alignment)
    requires forall j :: 0 <= j < |bs| ==> IsAlignment(bs[j])
    requires IsAlignment(b)
    ensures forall j :: 0 <= j < |bs + [b]| ==> IsAlignment((bs + [b])[j])
  {
    assert forall j :: 0 <= j < |bs| ==> (bs + [b])[j] == bs[j];
  }

  /** Every step keeps the shape, counting the headers read. */
  lemma {:induction false} ScanKeepsShape(lines: seq<Line>)
    requires Scan(Transition, Start, lines, 0).Ok?
    ensures Shaped(Scan(Transition, Start, lines, 0).value, CountHeadings(lines))
    decreases |lines|
  {
    if lines != [] {
      var init := lines[..|lines| - 1];
      ScanKeepsShape(init);
      var st := Scan(Transition, Start, init, 0).value;
      var last := lines[|lines| - 1];
      if last.Row? && st.started {
        AlignmentGrows(st.current, Pair(last.gene1, last.gene2));
      }
      if last.Heading? && st.current != [] {
        AlignmentsGrow(st.blocks, st.current);
      }
    }
  }

  /** A file with `k >= 1` header lines yields exactly `k` blocks, each a header
      followed by gene pairs; a file with none yields the single empty block. */
  lemma BlockCount(lines: seq<string>)
    requires Alignments(lines).Ok?
    ensures var k := CountHeadings(Lex(Classify, lines));
            var v := Alignments(lines).value;
            && |v| == (if k == 0 then 1 else k)
            && (k == 0 ==> v == [[]])
            && (k > 0 ==> forall j :: 0 <= j < |v| ==> IsAlignment(v[j]))
  {
    ScanKeepsShape(Lex(Classify, lines));
    var st := Scan(Transition, Start, Lex(Classify, lines), 0).value;
    if st.started {
      AlignmentsGrow(st.blocks, st.current);
    } else {
      assert st.blocks + [st.current] == [[]];
    }
  }

  /** Until the first header every line is ignored, malformed or not. */
  lemma {:induction false} IgnoredUntilHeader(lines: seq<Line>, base: nat)
    requires forall i :: 0 <= i < |lines| ==> !lines[i].Heading?
    ensures Scan(Transition, Start, lines, base) == Ok(Start)
    decreases |lines|
  {
    if lines != [] {
      IgnoredUntilHeader(lines[..|lines| - 1], base);
    }
  }

  /** A file without a header line yields `[[]]` and never raises. */
  lemma NoHeaderOneEmptyBlock(lines: seq<string>)
    requires forall i :: 0 <= i < |lines| ==> !IsHeaderLine(Strip(lines[i]))
    ensures Alignments(lines) == Ok([[]])
  {
    forall i | 0 <= i < |lines| ensures !Lex(Classify, lines)[i].Heading? {
      ClassifyMeans(lines[i]);
    }
    IgnoredUntilHeader(Lex(Classify, lines), 0);
    assert Start.blocks + [Start.current] == [[]];
  }

  /** An error moved `offset` lines further down the file. */
  function Shift<T>(r: Result<T>, offset: nat): Result<T> {
    match r
    case Ok(v) => Ok(v)
    case Err(IndexError(k)) => Err(IndexError(k + offset))
  }

  /** Where the lines sit in the file only numbers the error. */
  lemma {:induction false} BaseNumbersErrors(st: Scanner, lines: seq<Line>, base: nat)
    ensures Scan(Transition, st, lines, base) == Shift(Scan(Transition, st, lines, 0), base)
    decreases |lines|
  {
    if lines != [] {
      BaseNumbersErrors(st, lines[..|lines| - 1], base);
    }
  }

  /** Lines before the first header make no difference to the result, except
      that an error is reported at its line in the whole file. */
  lemma PrefixIgnored(pre: seq<string>, rest: seq<string>)
    requires forall i :: 0 <= i < |pre| ==> !IsHeaderLine(Strip(pre[i]))
    ensures Alignments(pre + rest) == Shift(Alignments(rest), |pre|)
  {
    var lp, lr := Lex(Classify, pre), Lex(Classify, rest);
    NoHeadingLexed(pre);
    LexAppend(Classify, pre, rest);
    IgnoredUntilHeader(lp, 0);
    ScanAppend(Transition, Start, lp, lr, 0);
    BaseNumbersErrors(Start, lr, |pre|);
    var whole := Scan(Transition, Start, Lex(Classify, pre + rest), 0);
    var alone := Scan(Transition, Start, lr, 0);
    assert whole == Shift(alone, |pre|);
    match alone
    case Ok(st) =>
      assert Alignments(pre + rest) == Ok(st.blocks + [st.current]);
    case Err(IndexError(k)) =>
      assert Alignments(pre + rest) == Err(IndexError(k + |pre|));
  }

  /** Raw lines without a header line classify to lines without a heading. */
  lemma NoHeadingLexed(lines: seq<string>)
    requires forall i :: 0 <= i < |lines| ==> !IsHeaderLine(Strip(lines[i]))
    ensures forall i :: 0 <= i < |lines| ==> !Lex(Classify, lines)[i].Heading?
  {
    forall i | 0 <= i < |lines| ensures !Lex(Classify, lines)[i].Heading? {
      ClassifyMeans(lines[i]);
    }
  }

  /** The gene pairs of the data rows among `body`, in order. */
  function Pairs(body: seq<Line>): seq<Entry> {
    if body == [] then []
    else
      var last := body[|body| - 1];
      Pairs(body[..|body| - 1]) + (if last.Row? then [Pair(last.gene1, last.gene2)] else [])
  }

  /** The number of lines that are not `#` lines. */
  function CountRows(body: seq<Line>): nat {
    if body == [] then 0
    else CountRows(body[..|body| - 1]) + (if body[|body| - 1].Row? || body[|body| - 1].Malformed? then 1 else 0)
  }

  /** Lines between two headers that the source reads without raising:
      comments and well-formed data rows. */
  predicate Readable(body: seq<Line>) {
    forall i :: 0 <= i < |body| ==> body[i] == Comment || body[i].Row?
  }

  lemma ReadableInit(body: seq<Line>)
    requires Readable(body) && body != []
    ensures Readable(body[..|body| - 1])
  {
    var init := body[..|body| - 1];
    assert forall i :: 0 <= i < |init| ==> init[i] == body[i];
  }

  /** Readable lines contribute one pair per data row. */
  lemma {:induction false} PairsCount(body: seq<Line>)
    requires Readable(body)
    ensures |Pairs(body)| == CountRows(body)
    decreases |body|
  {
    if body != [] {
      ReadableInit(body);
      PairsCount(body[..|body| - 1]);
    }
  }

  /** Once started, readable lines append their pairs and change nothing else. */
  lemma {:induction false} FillBlock(blocks: seq<Alignment>, current: Alignment, body: seq<Line>, base: nat)
    requires Readable(body)
    ensures Scan(Transition, Scanner(blocks, current, true), body, base) == Ok(Scanner(blocks, current + Pairs(body), true))
    decreases |body|
  {
    if body == [] {
      assert current + [] == current;
    } else {
      var init := body[..|body| - 1];
      ReadableInit(body);
      FillBlock(blocks, current, init, base);
      var last := body[|body| - 1];
      if last.Row? {
        assert current + Pairs(init) + [Pair(last.gene1, last.gene2)] == current + (Pairs(init) + [Pair(last.gene1, last.gene2)]);
      } else {
        assert Pairs(init) + [] == Pairs(init);
      }
    }
  }

  /** A header followed by readable lines: the block being filled is flushed
      (unless nothing was ever filled) and the new block is the header and
      then the pairs of the lines. */
  lemma {:induction false} SegmentStep(st: Scanner, h: string, body: seq<Line>, base: nat)
    requires Readable(body)
    ensures Scan(Transition, st, [Heading(h)] + body, base) ==
      Ok(Scanner(st.blocks + (if st.current == [] then [] else [st.current]), [Header(h)] + Pairs(body), true))
  {
    ScanAppend(Transition, st, [Heading(h)], body, base);
    ScanOne(Transition, st, Heading(h), base);
    var blocks := st.blocks + (if st.current == [] then [] else [st.current]);
    assert st.blocks + [] == st.blocks;
    FillBlock(blocks, [Header(h)], body, base + 1);
  }

  /** A header and readable lines after a prefix that scans cleanly: all the
      blocks so far, the one being filled included, are kept, and the new one
      is being filled. */
  lemma {:induction false} SegmentAfter(ls: seq<Line>, h: string, body: seq<Line>)
    requires Scan(Transition, Start, ls, 0).Ok?
    requires Readable(body)
    ensures var st := Scan(Transition, Start, ls, 0).value;
            Scan(Transition, Start, ls + ([Heading(h)] + body), 0) ==
              Ok(Scanner((if CountHeadings(ls) > 0 then st.blocks + [st.current] else []), [Header(h)] + Pairs(body), true))
  {
    var st := Scan(Transition, Start, ls, 0).value;
    ScanKeepsShape(ls);
    ScanAppend(Transition, Start, ls, [Heading(h)] + body, 0);
    SegmentStep(st, h, body, |ls|);
    if CountHeadings(ls) == 0 {
      assert st.blocks == [] && st.current == [];
      assert st.blocks + [] == [];
    }
  }

  /** Whether a file has a header line. */
  predicate HasHeader(lines: seq<string>) {
    exists i :: 0 <= i < |lines| && IsHeaderLine(Strip(lines[i]))
  }

  lemma {:induction false} CountHeadingsPositive(lines: seq<Line>, i: nat)
    requires i < |lines| && lines[i].Heading?
    ensures CountHeadings(lines) > 0
    decreases |lines|
  {
    if i < |lines| - 1 {
      CountHeadingsPositive(lines[..|lines| - 1], i);
    }
  }

  lemma {:induction false} CountHeadingsWitness(lines: seq<Line>)
    requires CountHeadings(lines) > 0
    ensures exists i :: 0 <= i < |lines| && lines[i].Heading?
    decreases |lines|
  {
    if !lines[|lines| - 1].Heading? {
      var init := lines[..|lines| - 1];
      CountHeadingsWitness(init);
      var i :| 0 <= i < |init| && init[i].Heading?;
      assert lines[i] == init[i];
    }
  }

  /** A file has a header exactly when some line classifies as one. */
  lemma HasHeaderCounts(lines: seq<string>)
    ensures HasHeader(lines) <==> CountHeadings(Lex(Classify, lines)) > 0
  {
    if HasHeader(lines) {
      var i :| 0 <= i < |lines| && IsHeaderLine(Strip(lines[i]));
      ClassifyMeans(lines[i]);
      CountHeadingsPositive(Lex(Classify, lines), i);
    }
    if CountHeadings(Lex(Classify, lines)) > 0 {
      CountHeadingsWitness(Lex(Classify, lines));
      var i :| 0 <= i < |lines| && Lex(Classify, lines)[i].Heading?;
      ClassifyMeans(lines[i]);
    }
  }

  lemma LexSegment(lines: seq<string>, h: string, body: seq<string>)
    requires IsHeaderLine(Strip(h))
    ensures Lex(Classify, lines + [h] + body) == Lex(Classify, lines) + ([Heading(Strip(h))] + Lex(Classify, body))
  {
    ClassifyMeans(h);
    LexAppend(Classify, lines, [h]);
    LexAppend(Classify, lines + [h], body);
  }

  lemma AlignmentsOfScan(lines: seq<string>, st: Scanner)
    requires Scan(Transition, Start, Lex(Classify, lines), 0) == Ok(st)
    ensures Alignments(lines) == Ok(st.blocks + [st.current])
  {
  }

  /** Appending a header line `h` and the readable lines `body` to a file that
      parses appends exactly one block: `h` stripped, then one pair per data
      row of `body`, so that the block's length is 1 plus the number of
      non-`#` lines. A file without a header had only the placeholder `[]`,
      which the new block replaces. */
  lemma NextAlignment(lines: seq<string>, h: string, body: seq<string>)
    requires Alignments(lines).Ok?
    requires IsHeaderLine(Strip(h))
    requires Readable(Lex(Classify, body))
    ensures var block := [Header(Strip(h))] + Pairs(Lex(Classify, body));
            && |block| == 1 + CountRows(Lex(Classify, body))
            && Alignments(lines + [h] + body) ==
                 Ok((if HasHeader(lines) then Alignments(lines).value else []) + [block])
  {
    PairsCount(Lex(Classify, body));
    HasHeaderCounts(lines);
    LexSegment(lines, h, body);
    SegmentAfter(Lex(Classify, lines), Strip(h), Lex(Classify, body));
    var st := Scan(Transition, Start, Lex(Classify, lines), 0).value;
    var blocks := if HasHeader(lines) then st.blocks + [st.current] else [];
    AlignmentsOfScan(lines + [h] + body, Scanner(blocks, [Header(Strip(h))] + Pairs(Lex(Classify, body)), true));
  }

  /** Line `k` raises: a malformed data row after some header. */
  predicate Raises(ls: seq<Line>, k: nat) {
    k < |ls| && ls[k] == Malformed && CountHeadings(ls[..k]) > 0
  }

  /** A malformed data row after a header makes the scan up to it fail. */
  lemma RaisesAt(ls: seq<Line>, k: nat)
    requires Raises(ls, k)
    ensures Scan(Transition, Start, ls[..k + 1], 0).Err?
  {
    ScanNext(Transition, Start, ls, k, 0);
    if Scan(Transition, Start, ls[..k], 0).Ok? {
      ScanKeepsShape(ls[..k]);
    }
  }

  /** The error of a failing scan is at the first line that raises. */
  lemma {:induction false} FirstRaise(ls: seq<Line>)
    requires Scan(Transition, Start, ls, 0).Err?
    ensures var k := Scan(Transition, Start, ls, 0).error.line;
            && Raises(ls, k)
            && forall i :: 0 <= i < k ==> !Raises(ls, i)
    decreases |ls|
  {
    var init := ls[..|ls| - 1];
    var k := Scan(Transition, Start, ls, 0).error.line;
    if Scan(Transition, Start, init, 0).Err? {
      FirstRaise(init);
      assert init[..k] == ls[..k];
      forall i | 0 <= i < k ensures !Raises(ls, i) {
        assert init[..i] == ls[..i];
        assert !Raises(init, i);
      }
    } else {
      ScanKeepsShape(init);
      forall i | 0 <= i < k ensures !Raises(ls, i) {
        if Raises(ls, i) {
          assert init[..i] == ls[..i] && init[i] == ls[i];
          RaisesAt(init, i);
          ScanErrorSticks(Transition, Start, init, i + 1, 0);
          assert false;
        }
      }
    }
  }

  /** A scan fails exactly when some line raises. */
  lemma FailsIffRaises(ls: seq<Line>)
    ensures Scan(Transition, Start, ls, 0).Err? <==> exists k :: 0 <= k < |ls| && Raises(ls, k)
  {
    if Scan(Transition, Start, ls, 0).Err? {
      FirstRaise(ls);
    }
    if exists k :: 0 <= k < |ls| && Raises(ls, k) {
      var k :| 0 <= k < |ls| && Raises(ls, k);
      RaisesAt(ls, k);
      ScanErrorSticks(Transition, Start, ls, k + 1, 0);
    }
  }

  /** A stripped line that the source splits and indexes in vain: not a `#`
      line, and without a `:` or with fewer than three whitespace-run fields
      in the text between the first and the second `:`. */
  predicate IsMalformedRow(line: string) {
    !IsCommentLine(line) && (Count(line, Char(':')) == 0 || |SplitRuns(Split(line, Char(':'))[1])| < 3)
  }

  /** Line `k` of the file raises, stated on the raw lines. */
  lemma RaisesMeans(lines: seq<string>, k: nat)
    requires k < |lines|
    ensures Raises(Lex(Classify, lines), k) <==> IsMalformedRow(Strip(lines[k])) && HasHeader(lines[..k])
  {
    ClassifyMeans(lines[k]);
    assert Lex(Classify, lines[..k]) == Lex(Classify, lines)[..k];
    HasHeaderCounts(lines[..k]);
  }

  /** A file fails exactly when some data row after a header is malformed,
      and the error names the first such row. */
  lemma ErrorsAreMalformedRows(lines: seq<string>)
    ensures Alignments(lines).Err? <==>
              exists k :: 0 <= k < |lines| && IsMalformedRow(Strip(lines[k])) && HasHeader(lines[..k])
    ensures Alignments(lines).Err? ==>
              var k := Alignments(lines).error.line;
              && k < |lines| && IsMalformedRow(Strip(lines[k])) && HasHeader(lines[..k])
              && forall i :: 0 <= i < k ==> !(IsMalformedRow(Strip(lines[i])) && HasHeader(lines[..i]))
  {
    var ls := Lex(Classify, lines);
    FailsIffRaises(ls);
    forall k | 0 <= k < |lines|
      ensures Raises(ls, k) <==> IsMalformedRow(Strip(lines[k])) && HasHeader(lines[..k])
    {
      RaisesMeans(lines, k);
    }
    if Alignments(lines).Err? {
      FirstRaise(ls);
    }
  }

  /** A file with exactly two headers, each followed by readable lines, yields
      exactly two blocks, each its header and then one pair per data row. */
  lemma TwoAlignments(pre: seq<string>, h1: string, body1: seq<string>, h2: string, body2: seq<string>)
    requires forall i :: 0 <= i < |pre| ==> !IsHeaderLine(Strip(pre[i]))
    requires IsHeaderLine(Strip(h1)) && IsHeaderLine(Strip(h2))
    requires Readable(Lex(Classify, body1)) && Readable(Lex(Classify, body2))
    ensures Alignments(pre + [h1] + body1 + [h2] + body2) ==
              Ok([[Header(Strip(h1))] + Pairs(Lex(Classify, body1)), [Header(Strip(h2))] + Pairs(Lex(Classify, body2))])
  {
    var b1 := [Header(Strip(h1))] + Pairs(Lex(Classify, body1));
    var b2 := [Header(Strip(h2))] + Pairs(Lex(Classify, body2));
    NoHeaderOneEmptyBlock(pre);
    assert !HasHeader(pre);
    NextAlignment(pre, h1, body1);
    var first := pre + [h1] + body1;
    assert Alignments(first) == Ok([] + [b1]);
    assert [] + [b1] == [b1];
    assert first[|pre|] == h1;
    assert HasHeader(first);
    NextAlignment(first, h2, body2);
    assert Alignments(first + [h2] + body2) == Ok([b1] + [b2]);
    assert [b1] + [b2] == [b1, b2];
  }
}
