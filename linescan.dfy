/** Both block parsers are one loop over the file's lines that threads a small
    state through a per-line step which may raise. `Scan` is that loop, over
    lines of any type `L`: each parser first classifies its raw lines (`Lex`). */
module LineScan {
  import opened Results

  /** The state after running `step` over `lines` from `st`, where `base` is the
      index of `lines[0]` in the file; the first error ends the loop. */
  function Scan<S, L>(step: (S, L, nat) -> Result<S>, st: S, lines: seq<L>, base: nat): Result<S>
    decreases |lines|
  {
    if lines == [] then Ok(st)
    else
      match Scan(step, st, lines[..|lines| - 1], base)
      case Err(e) => Err(e)
      case Ok(s) => step(s, lines[|lines| - 1], base + |lines| - 1)
  }

  /** Scanning a concatenation is scanning the first part, then the second from where the first stopped. */
  lemma {:induction false} ScanAppend<S, L>(step: (S, L, nat) -> Result<S>, st: S, a: seq<L>, b: seq<L>, base: nat)
    ensures Scan(step, st, a + b, base) ==
      match Scan(step, st, a, base)
      case Err(e) => Err(e)
      case Ok(s) => Scan(step, s, b, base + |a|)
    decreases |b|
  {
    if b == [] {
      assert a + b == a;
    } else {
      ScanAppend(step, st, a, b[..|b| - 1], base);
      assert (a + b)[..|a + b| - 1] == a + b[..|b| - 1];
      assert (a + b)[|a + b| - 1] == b[|b| - 1];
    }
  }

  /** Scanning one line is one step. */
  lemma ScanOne<S, L>(step: (S, L, nat) -> Result<S>, st: S, line: L, base: nat)
    ensures Scan(step, st, [line], base) == step(st, line, base)
  {
    assert [line][..0] == [];
  }

  /** An error raised on some line is the result of the whole scan. */
  lemma ScanErrorSticks<S, L>(step: (S, L, nat) -> Result<S>, st: S, lines: seq<L>, k: nat, base: nat)
    requires k <= |lines| && Scan(step, st, lines[..k], base).Err?
    ensures Scan(step, st, lines, base) == Scan(step, st, lines[..k], base)
  {
    ScanAppend(step, st, lines[..k], lines[k..], base);
    assert lines[..k] + lines[k..] == lines;
  }

  /** One more line: the scan of `lines[..i + 1]` is one step after the scan of `lines[..i]`. */
  lemma ScanNext<S, L>(step: (S, L, nat) -> Result<S>, st: S, lines: seq<L>, i: nat, base: nat)
    requires i < |lines|
    ensures Scan(step, st, lines[..i + 1], base) ==
      match Scan(step, st, lines[..i], base)
      case Err(e) => Err(e)
      case Ok(s) => step(s, lines[i], base + i)
  {
    assert lines[..i + 1][..i] == lines[..i];
  }

  /** The lines of a file, each classified by a parser's `classify`. */
  function Lex<L>(classify: string -> L, lines: seq<string>): (r: seq<L>)
    ensures |r| == |lines|
  {
    seq(|lines|, i requires 0 <= i < |lines| => classify(lines[i]))
  }

  /** Classification is line by line. */
  lemma LexAppend<L>(classify: string -> L, a: seq<string>, b: seq<string>)
    ensures Lex(classify, a + b) == Lex(classify, a) + Lex(classify, b)
  {
    forall i | 0 <= i < |a + b| ensures Lex(classify, a + b)[i] == (Lex(classify, a) + Lex(classify, b))[i] {
      if i < |a| {
        assert (a + b)[i] == a[i];
      } else {
        assert (a + b)[i] == b[i - |a|];
      }
    }
  }

  /** One turn of a parser's loop: line `i` is classified and the state moves on. */
  lemma StepAt<S, L>(step: (S, L, nat) -> Result<S>, classify: string -> L, start: S, lines: seq<string>, i: nat, st: S)
    requires i < |lines| && Scan(step, start, Lex(classify, lines)[..i], 0) == Ok(st)
    ensures Scan(step, start, Lex(classify, lines)[..i + 1], 0) == step(st, classify(lines[i]), i)
  {
    ScanNext(step, start, Lex(classify, lines), i, 0);
  }

  /** An error at line `i` is the result of the parser's whole loop. */
  lemma ErrorAt<S, L>(step: (S, L, nat) -> Result<S>, classify: string -> L, start: S, lines: seq<string>, i: nat)
    requires i < |lines| && Scan(step, start, Lex(classify, lines)[..i + 1], 0).Err?
    ensures Scan(step, start, Lex(classify, lines), 0) == Scan(step, start, Lex(classify, lines)[..i + 1], 0)
  {
    ScanErrorSticks(step, start, Lex(classify, lines), i + 1, 0);
  }
}
