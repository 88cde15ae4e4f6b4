/** The ColinearScan block parser (`read_colinearscan`): a two-mode scanner over
    the lines of a ColinearScan dump. A line starting `the` opens a block, the
    following lines are its rows (each split on single whitespace characters),
    and a line starting `>LOCALE` closes it; the block's metadata is field 1 of
    that line split on `:`. `MAXIMUM GAP` lines are skipped everywhere.

    The loop body first strips the line and tests its prefixes (`Classify`),
    then acts on the result and the state (`Transition`). */
module ColinearScan {
  import opened Results
  import opened Text
  import opened LineScan

  datatype Block = Block(rows: seq<seq<string>>, meta: string)

  /** The source's `flag`: 0 is `Seeking`, 1 is `Collecting`. */
  datatype Mode = Seeking | Collecting

  /** The loop's state: the finished blocks (`data`), the rows collected so far
      (`b`) and the mode (`flag`). */
  datatype Scanner = Scanner(blocks: seq<Block>, rows: seq<seq<string>>, mode: Mode)

  const Start := Scanner([], [], Seeking)

  predicate IsGapLine(line: string) { StartsWith(line, "MAXIMUM GAP") }
  predicate IsTheLine(line: string) { StartsWith(line, "the") }
  predicate IsLocaleLine(line: string) { StartsWith(line, ">LOCALE") }

  /** A stripped line as the loop body sees it. A `>LOCALE` line carries its
      `:`-split fields (`p`) and, for the fall-through append, its tokens. */
  datatype Line = Gap | The | Locale(fields: seq<string>, tokens: seq<string>) | Data(tokens: seq<string>)

  /** A data row: the stripped line split on every single whitespace character. */
  function Tokens(line: string): seq<string> {
    Split(line, Space)
  }

  /** The prefix tests of the loop body, in the source's order. */
  function Classify(raw: string): Line {
    var line := Strip(raw);
    if IsGapLine(line) then Gap
    else if IsTheLine(line) then The
    else if IsLocaleLine(line) then Locale(Split(line, Char(':')), Tokens(line))
    else Data(Tokens(line))
  }

  /** What the loop body does with line `i`, once classified. */
  function Transition(st: Scanner, line: Line, i: nat): Result<Scanner> {
    match line
    case Gap => Ok(st)
    case The => Ok(Scanner(st.blocks, [], Collecting))
    case Locale(p, tokens) =>
      if st.mode == Seeking then Ok(st)
      else if st.rows == [] then Ok(st.(mode := Seeking))
      else if |p| < 2 then Err(IndexError(i))
      // no `continue` after the emission: the line's own tokens become the first row of the fresh accumulator
      else Ok(Scanner(st.blocks + [Block(st.rows, p[1])], [tokens], Seeking))
    case Data(tokens) =>
      if st.mode == Seeking then Ok(st)
      else Ok(st.(rows := st.rows + [tokens]))
  }

  /** What `read_colinearscan` returns for a file with these lines: the finished
      blocks; rows still collected at the end are not returned. */
  function Blocks(lines: seq<string>): Result<seq<Block>> {
    match Scan(Transition, Start, Lex(Classify, lines), 0)
    case Err(e) => Err(e)
    case Ok(st) => Ok(st.blocks)
  }

  method ReadColinearScan(lines: seq<string>) returns (r: Result<seq<Block>>)
    ensures r == Blocks(lines)
  {
    var data: seq<Block>, b: seq<seq<string>>, flag := [], [], Seeking;
    for i := 0 to |lines|
      invariant Scan(Transition, Start, Lex(Classify, lines)[..i], 0) == Ok(Scanner(data, b, flag))
    {
      StepAt(Transition, Classify, Start, lines, i, Scanner(data, b, flag));
      var line := Strip(lines[i]);
      if StartsWith(line, "MAXIMUM GAP") {
        continue;
      }
      if StartsWith(line, "the") {
        b := [];
        flag := Collecting;
        continue;
      }
      if flag == Seeking {
        continue;
      }
      if StartsWith(line, ">LOCALE") {
        flag := Seeking;
        if |b| == 0 {
          continue;
        }
        var p := Split(line, Char(':'));
        if |p| < 2 {
          ErrorAt(Transition, Classify, Start, lines, i);
          return Err(IndexError(i));
        }
        data := data + [Block(b, p[1])];
        b := [];
      }
      var a := Split(line, Space);
      assert [] + [a] == [a];
      b := b + [a];
    }
    assert Lex(Classify, lines)[..|lines|] == Lex(Classify, lines);
    return Ok(data);
  }

  /** What the classification means: a line is of the first kind whose prefix
      its stripped text carries; the three marker prefixes exclude each other. */
  lemma ClassifyMeans(raw: string)
    ensures var line := Strip(raw);
            && (Classify(raw) == Gap <==> IsGapLine(line))
            && (Classify(raw) == The <==> IsTheLine(line))
            && (Classify(raw).Locale? <==> IsLocaleLine(line))
            && (Classify(raw).Data? <==> !IsGapLine(line) && !IsTheLine(line) && !IsLocaleLine(line))
  {
    var line := Strip(raw);
    if |line| > 0 {
      assert IsGapLine(line) ==> line[0] == "MAXIMUM GAP"[0];
      assert IsTheLine(line) ==> line[0] == "the"[0];
      assert IsLocaleLine(line) ==> line[0] == ">LOCALE"[0];
    }
  }

  /** A `>LOCALE` line has fewer than two `:` fields exactly when it has no `:`. */
  lemma LocaleFieldsMissing(raw: string)
    requires Classify(raw).Locale?
    ensures |Classify(raw).fields| < 2 <==> Count(Strip(raw), Char(':')) == 0
  {
  }

  /** The rows a block collects from `body`: the tokens of its data lines, in order. */
  function Rows(body: seq<Line>): seq<seq<string>> {
    if body == [] then []
    else Rows(body[..|body| - 1]) + (if body[|body| - 1].Data? then [body[|body| - 1].tokens] else [])
  }

  /** Lines that neither open nor close a block. */
  predicate NoMarkers(body: seq<Line>) {
    forall i :: 0 <= i < |body| ==> body[i].Gap? || body[i].Data?
  }

  /** While collecting, lines without markers append their rows and change nothing else. */
  lemma {:induction false} CollectBody(blocks: seq<Block>, rows: seq<seq<string>>, body: seq<Line>, base: nat)
    requires NoMarkers(body)
    ensures Scan(Transition, Scanner(blocks, rows, Collecting), body, base) == Ok(Scanner(blocks, rows + Rows(body), Collecting))
    decreases |body|
  {
    if body == [] {
      assert rows + [] == rows;
    } else {
      var init := body[..|body| - 1];
      assert NoMarkers(init) by {
        forall i | 0 <= i < |init| ensures init[i].Gap? || init[i].Data? {
          assert init[i] == body[i];
        }
      }
      CollectBody(blocks, rows, init, base);
      var last := body[|body| - 1];
      assert last.Gap? || last.Data?;
      if last.Data? {
        assert rows + Rows(init) + [last.tokens] == rows + (Rows(init) + [last.tokens]);
      } else {
        assert Rows(init) + [] == Rows(init);
      }
    }
  }

  /** One complete cycle `the`, body, `>LOCALE`: the block holds the body's rows
      and field 1 of the `>LOCALE` line; with no rows nothing is emitted; a
      `>LOCALE` line with fewer than two fields after rows raises IndexError.
      Whatever state the scanner started in, it is seeking afterwards. */
  lemma {:induction false} BlockOfCycle(st: Scanner, body: seq<Line>, p: seq<string>, tokens: seq<string>, base: nat)
    requires NoMarkers(body)
    ensures var rows := Rows(body);
            Scan(Transition, st, [The] + body + [Locale(p, tokens)], base) ==
              if rows == [] then Ok(Scanner(st.blocks, [], Seeking))
              else if |p| < 2 then Err(IndexError(base + |body| + 1))
              else Ok(Scanner(st.blocks + [Block(rows, p[1])], [tokens], Seeking))
  {
    var full := Scanner(st.blocks, Rows(body), Collecting);
    ScanOne(Transition, st, The, base);
    ScanAppend(Transition, st, [The], body, base);
    CollectBody(st.blocks, [], body, base + 1);
    assert [] + Rows(body) == Rows(body);
    ScanAppend(Transition, st, [The] + body, [Locale(p, tokens)], base);
    ScanOne(Transition, full, Locale(p, tokens), base + 1 + |body|);
  }

  /** While seeking, every line other than a `the` line is ignored. */
  lemma {:induction false} SeekingIgnores(st: Scanner, lines: seq<Line>, base: nat)
    requires st.mode == Seeking
    requires forall i :: 0 <= i < |lines| ==> lines[i] != The
    ensures Scan(Transition, st, lines, base) == Ok(st)
    decreases |lines|
  {
    if lines != [] {
      SeekingIgnores(st, lines[..|lines| - 1], base);
    }
  }

  /** A file without any `the` line yields no blocks and no error. */
  lemma NoTheNoBlocks(lines: seq<string>)
    requires forall i :: 0 <= i < |lines| ==> !IsTheLine(Strip(lines[i]))
    ensures Blocks(lines) == Ok([])
  {
    forall i | 0 <= i < |lines| ensures Lex(Classify, lines)[i] != The {
      ClassifyMeans(lines[i]);
    }
    SeekingIgnores(Start, Lex(Classify, lines), 0);
  }

  /** Without a `>LOCALE` line nothing new is emitted and nothing can fail. */
  lemma {:induction false} UnclosedRowsDropped(st: Scanner, tail: seq<Line>, base: nat)
    requires forall i :: 0 <= i < |tail| ==> !tail[i].Locale?
    ensures Scan(Transition, st, tail, base).Ok?
    ensures Scan(Transition, st, tail, base).value.blocks == st.blocks
    decreases |tail|
  {
    if tail != [] {
      UnclosedRowsDropped(st, tail[..|tail| - 1], base);
    }
  }

  /** Rows left open at the end of the file are never returned: after a prefix
      that scans cleanly, a tail without `>LOCALE` lines changes nothing. */
  lemma TrailingLinesAddNothing(lines: seq<string>, tail: seq<string>)
    requires Blocks(lines).Ok?
    requires forall i :: 0 <= i < |tail| ==> !IsLocaleLine(Strip(tail[i]))
    ensures Blocks(lines + tail) == Blocks(lines)
  {
    var lt := Lex(Classify, tail);
    forall i | 0 <= i < |lt| ensures !lt[i].Locale? {
      ClassifyMeans(tail[i]);
    }
    LexAppend(Classify, lines, tail);
    ScanAppend(Transition, Start, Lex(Classify, lines), lt, 0);
    UnclosedRowsDropped(Scan(Transition, Start, Lex(Classify, lines), 0).value, lt, |lines|);
  }

  /** The number of `the` lines. */
  function CountThe(lines: seq<Line>): nat {
    if lines == [] then 0
    else CountThe(lines[..|lines| - 1]) + (if lines[|lines| - 1] == The then 1 else 0)
  }

  function Open(st: Scanner): nat {
    if st.mode == Collecting then 1 else 0
  }

  /** Each emitted block and the block being collected are owed to distinct `the` lines. */
  lemma {:induction false} BlocksOwedToTheLines(st: Scanner, lines: seq<Line>, base: nat)
    requires Scan(Transition, st, lines, base).Ok?
    ensures var s := Scan(Transition, st, lines, base).value;
            |s.blocks| + Open(s) <= |st.blocks| + Open(st) + CountThe(lines)
    decreases |lines|
  {
    if lines != [] {
      BlocksOwedToTheLines(st, lines[..|lines| - 1], base);
    }
  }

  /** A file yields at most one block per `the` line. */
  lemma AtMostOneBlockPerThe(lines: seq<string>)
    requires Blocks(lines).Ok?
    ensures |Blocks(lines).value| <= CountThe(Lex(Classify, lines))
  {
    BlocksOwedToTheLines(Start, Lex(Classify, lines), 0);
  }

  /** Errors arise only at a `>LOCALE` line with fewer than two fields that
      closes a non-empty block. */
  lemma {:induction false} WhereErrorsArise(st: Scanner, lines: seq<Line>, base: nat)
    requires Scan(Transition, st, lines, base).Err?
    ensures var k := Scan(Transition, st, lines, base).error.line - base;
            && 0 <= k < |lines|
            && Scan(Transition, st, lines[..k], base).Ok?
            && var s := Scan(Transition, st, lines[..k], base).value;
               && s.mode == Collecting && s.rows != []
               && lines[k].Locale? && |lines[k].fields| < 2
    decreases |lines|
  {
    var init := lines[..|lines| - 1];
    if Scan(Transition, st, init, base).Err? {
      WhereErrorsArise(st, init, base);
      var k := Scan(Transition, st, lines, base).error.line - base;
      assert init[..k] == lines[..k];
    }
  }

  /** In a file, the line that raises is a `>LOCALE` line without any `:`,
      reached while collecting a non-empty block. */
  lemma ErrorIsColonlessLocale(lines: seq<string>)
    requires Blocks(lines).Err?
    ensures var k := Blocks(lines).error.line;
            && k < |lines|
            && IsLocaleLine(Strip(lines[k])) && Count(Strip(lines[k]), Char(':')) == 0
            && Scan(Transition, Start, Lex(Classify, lines)[..k], 0).Ok?
            && Scan(Transition, Start, Lex(Classify, lines)[..k], 0).value.rows != []
  {
    WhereErrorsArise(Start, Lex(Classify, lines), 0);
    var k := Blocks(lines).error.line;
    ClassifyMeans(lines[k]);
    LocaleFieldsMissing(lines[k]);
  }

  /** The loop body as it would be with a `continue` after the emission, so
      that the `>LOCALE` line's tokens never enter the fresh accumulator. */
  function TransitionWithContinue(st: Scanner, line: Line, i: nat): Result<Scanner> {
    match line
    case Locale(p, tokens) =>
      if st.mode == Collecting && st.rows != [] && |p| >= 2
      then Ok(Scanner(st.blocks + [Block(st.rows, p[1])], [], Seeking))
      else Transition(st, line, i)
    case _ => Transition(st, line, i)
  }

  /** Two scanner states that no later line can tell apart: the accumulator
      matters only while collecting, since the next `the` line resets it. */
  predicate Agree(s: Scanner, t: Scanner) {
    s.blocks == t.blocks && s.mode == t.mode && (s.mode == Collecting ==> s.rows == t.rows)
  }

  predicate AgreeResults(r: Result<Scanner>, q: Result<Scanner>) {
    match r
    case Err(e) => q == Err(e)
    case Ok(s) => q.Ok? && Agree(s, q.value)
  }

  lemma {:induction false} ContinueMakesNoDifference(st: Scanner, lines: seq<Line>, base: nat)
    ensures AgreeResults(Scan(Transition, st, lines, base), Scan(TransitionWithContinue, st, lines, base))
    decreases |lines|
  {
    if lines != [] {
      ContinueMakesNoDifference(st, lines[..|lines| - 1], base);
    }
  }

  /** The tokens of the `>LOCALE` line that fall through into the fresh
      accumulator never reach the output: with the append removed the parser
      returns the same blocks and raises the same errors. */
  lemma FallThroughInvisible(lines: seq<string>)
    ensures Blocks(lines) ==
      match Scan(TransitionWithContinue, Start, Lex(Classify, lines), 0)
      case Err(e) => Err(e)
      case Ok(st) => Ok(st.blocks)
  {
    ContinueMakesNoDifference(Start, Lex(Classify, lines), 0);
  }

  lemma BlocksOfScan(lines: seq<string>, st: Scanner)
    requires Scan(Transition, Start, Lex(Classify, lines), 0) == Ok(st)
    ensures Blocks(lines) == Ok(st.blocks)
  {
  }

  /** Lines without `the` and then one complete cycle leave exactly that cycle's block. */
  lemma {:induction false} CycleAfterNoise(pre: seq<Line>, body: seq<Line>, loc: Line)
    requires forall i :: 0 <= i < |pre| ==> pre[i] != The
    requires NoMarkers(body) && Rows(body) != []
    requires loc.Locale? && |loc.fields| >= 2
    ensures Scan(Transition, Start, pre + ([The] + body + [loc]), 0)
            == Ok(Scanner([Block(Rows(body), loc.fields[1])], [loc.tokens], Seeking))
  {
    var cycle := [The] + body + [loc];
    SeekingIgnores(Start, pre, 0);
    ScanAppend(Transition, Start, pre, cycle, 0);
    BlockOfCycle(Start, body, loc.fields, loc.tokens, |pre|);
    assert Start.blocks + [Block(Rows(body), loc.fields[1])] == [Block(Rows(body), loc.fields[1])];
  }

  /** The classified form of a file made of `pre`, a `the` line, `body` and a last line `l`. */
  lemma LexCycle(pre: seq<string>, t: string, body: seq<string>, l: string)
    requires IsTheLine(Strip(t))
    ensures Lex(Classify, pre + [t] + body + [l]) == Lex(Classify, pre) + ([The] + Lex(Classify, body) + [Classify(l)])
  {
    ClassifyMeans(t);
    LexAppend(Classify, pre, [t]);
    LexAppend(Classify, pre + [t], body);
    LexAppend(Classify, pre + [t] + body, [l]);
  }

  /** A file made of lines without `the`, then one `the ... >LOCALE...:meta`
      cycle, yields exactly one block: the rows of the lines in between, split on
      single whitespace characters, without the `MAXIMUM GAP` lines, and `meta`,
      the text between the first and the second `:` of the `>LOCALE` line. */
  lemma OneCycle(pre: seq<string>, t: string, body: seq<string>, l: string, a: string, meta: string, rest: string)
    requires forall i :: 0 <= i < |pre| ==> !IsTheLine(Strip(pre[i]))
    requires IsTheLine(Strip(t))
    requires forall i :: 0 <= i < |body| ==> !IsTheLine(Strip(body[i])) && !IsLocaleLine(Strip(body[i]))
    requires Rows(Lex(Classify, body)) != []
    requires Strip(l) == a + [':'] + meta + rest && IsLocaleLine(a)
    requires forall i :: 0 <= i < |a| ==> a[i] != ':'
    requires forall i :: 0 <= i < |meta| ==> meta[i] != ':'
    requires rest == [] || rest[0] == ':'
    ensures Blocks(pre + [t] + body + [l]) == Ok([Block(Rows(Lex(Classify, body)), meta)])
  {
    var lb := Lex(Classify, body);
    forall i | 0 <= i < |lb| ensures lb[i].Gap? || lb[i].Data? {
      ClassifyMeans(body[i]);
    }
    forall i | 0 <= i < |pre| ensures Lex(Classify, pre)[i] != The {
      ClassifyMeans(pre[i]);
    }
    assert IsLocaleLine(Strip(l)) by {
      assert Strip(l)[..|">LOCALE"|] == a[..|">LOCALE"|];
    }
    ClassifyMeans(l);
    SecondField(a, meta, rest, ':');
    var loc := Classify(l);
    LexCycle(pre, t, body, l);
    CycleAfterNoise(Lex(Classify, pre), lb, loc);
    BlocksOfScan(pre + [t] + body + [l], Scanner([Block(Rows(lb), meta)], [loc.tokens], Seeking));
  }
}
