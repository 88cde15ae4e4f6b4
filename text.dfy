/** The three pieces of Python string handling the parsers rely on:
    `str.strip()`, `re.match` against a literal prefix, and `re.split` on a
    pattern that matches one character (`':'`, `\s`) or a run of whitespace
    (`\s+`). */
module Text {

  /** Python's `str.isspace()`: the characters the class `\s` matches in a
      `str` pattern and the characters `str.strip()` removes. */
  predicate IsSpace(c: char) {
    c == ' ' || '\t' <= c <= '\r' || '\U{1c}' <= c <= '\U{1f}'
    || c == '\U{85}' || c == '\U{a0}' || c == '\U{1680}'
    || '\U{2000}' <= c <= '\U{200a}' || c == '\U{2028}' || c == '\U{2029}'
    || c == '\U{202f}' || c == '\U{205f}' || c == '\U{3000}'
  }

  predicate AllSpace(s: string) {
    forall i :: 0 <= i < |s| ==> IsSpace(s[i])
  }

  /** `re.match(p, s)` for a pattern `p` without metacharacters: `p` is a prefix of `s`. */
  predicate StartsWith(s: string, p: string) {
    |p| <= |s| && s[..|p|] == p
  }

  /** `s` without its leading whitespace. */
  function TrimStart(s: string): (r: string)
    ensures |r| <= |s|
  {
    if s != [] && IsSpace(s[0]) then TrimStart(s[1..]) else s
  }

  /** `s` without its trailing whitespace. */
  function TrimEnd(s: string): string {
    if s != [] && IsSpace(s[|s| - 1]) then TrimEnd(s[..|s| - 1]) else s
  }

  /** `s.strip()`. */
  function Strip(s: string): string {
    TrimEnd(TrimStart(s))
  }

  /** `TrimStart` removes exactly the leading run of whitespace. */
  lemma {:induction false} TrimStartRemovesLeadingSpace(s: string)
    ensures var r := TrimStart(s);
            r == s[|s| - |r|..] && AllSpace(s[..|s| - |r|]) && (r == [] || !IsSpace(r[0]))
  {
    if s != [] && IsSpace(s[0]) {
      TrimStartRemovesLeadingSpace(s[1..]);
      var r := TrimStart(s);
      assert s[..|s| - |r|] == [s[0]] + s[1..][..|s| - 1 - |r|];
    }
  }

  /** `TrimEnd` removes exactly the trailing run of whitespace. */
  lemma {:induction false} TrimEndRemovesTrailingSpace(s: string)
    ensures var r := TrimEnd(s);
            |r| <= |s| && r == s[..|r|] && AllSpace(s[|r|..]) && (r == [] || !IsSpace(r[|r| - 1]))
  {
    if s != [] && IsSpace(s[|s| - 1]) {
      var init := s[..|s| - 1];
      TrimEndRemovesTrailingSpace(init);
      var r := TrimEnd(s);
      assert s[|r|..] == init[|r|..] + [s[|s| - 1]];
    }
  }

  /** `Strip(s)` is the part of `s` between its leading and trailing whitespace:
      a slice of `s` with only whitespace around it, empty exactly when `s` is
      all whitespace, and otherwise starting and ending with a non-whitespace
      character. */
  lemma StripRemovesOuterSpace(s: string)
    ensures var r := Strip(s);
            |r| <= |s|
            && (exists i, j :: 0 <= i <= j <= |s| && r == s[i..j] && AllSpace(s[..i]) && AllSpace(s[j..]))
            && (r == [] <==> AllSpace(s))
            && (r == [] || (!IsSpace(r[0]) && !IsSpace(r[|r| - 1])))
  {
    var t := TrimStart(s);
    TrimStartRemovesLeadingSpace(s);
    TrimEndRemovesTrailingSpace(t);
    var i, j := |s| - |t|, |s| - |t| + |Strip(s)|;
    assert Strip(s) == s[i..j] && AllSpace(s[j..]) by {
      assert t == s[i..];
      assert s[j..] == t[|Strip(s)|..];
    }
    if t == [] {
      assert s[..|s|] == s;
    } else {
      assert !AllSpace(s) by {
        assert s[|s| - |t|] == t[0];
      }
      var r := Strip(s);
      if r != [] {
        assert r[0] == t[0];
      }
    }
  }

  /** The delimiter of a one-character `re.split` pattern: a literal character, or `\s`. */
  datatype Delim = Char(c: char) | Space {
    predicate Matches(ch: char) {
      match this
      case Char(c) => ch == c
      case Space => IsSpace(ch)
    }
  }

  /** The number of characters of `s` that `d` matches. */
  function Count(s: string, d: Delim): (n: nat)
    ensures n <= |s|
  {
    if s == [] then 0 else (if d.Matches(s[0]) then 1 else 0) + Count(s[1..], d)
  }

  /** `re.split(d, s)` for a pattern matching exactly one character: one field
      per delimiter plus one, so that adjacent delimiters give empty fields. */
  function Split(s: string, d: Delim): (r: seq<string>)
    ensures |r| == 1 + Count(s, d)
  {
    if s == [] then [""]
    else
      var t := Split(s[1..], d);
      if d.Matches(s[0]) then [""] + t else [[s[0]] + t[0]] + t[1..]
  }

  /** No field of a split contains the delimiter. */
  lemma {:induction false} SplitFieldsFree(s: string, d: Delim)
    ensures forall i, j :: 0 <= i < |Split(s, d)| && 0 <= j < |Split(s, d)[i]| ==> !d.Matches(Split(s, d)[i][j])
    decreases |s|
  {
    if s != [] {
      SplitFieldsFree(s[1..], d);
      var t := Split(s[1..], d);
      var r := Split(s, d);
      forall i, j | 0 <= i < |r| && 0 <= j < |r[i]| ensures !d.Matches(r[i][j]) {
        if d.Matches(s[0]) {
          assert r == [""] + t;
          assert r[i] == t[i - 1];
          assert !d.Matches(t[i - 1][j]);
        } else {
          assert r == [[s[0]] + t[0]] + t[1..];
          if i > 0 {
            assert r[i] == t[i];
            assert !d.Matches(t[i][j]);
          } else if j > 0 {
            assert r[0][j] == t[0][j - 1];
            assert !d.Matches(t[0][j - 1]);
          }
        }
      }
    }
  }

  /** `sep.join(fs)`. */
  function Join(fs: seq<string>, sep: char): string {
    if |fs| == 0 then ""
    else if |fs| == 1 then fs[0]
    else fs[0] + [sep] + Join(fs[1..], sep)
  }

  /** Splitting on a character loses nothing: joining the fields back with it gives `s`. */
  lemma {:induction false} JoinSplit(s: string, c: char)
    ensures Join(Split(s, Char(c)), c) == s
  {
    if s != [] {
      var t := Split(s[1..], Char(c));
      JoinSplit(s[1..], c);
      if s[0] == c {
        assert Split(s, Char(c)) == [""] + t;
        assert ([""] + t)[1..] == t;
      } else {
        var r := Split(s, Char(c));
        assert r == [[s[0]] + t[0]] + t[1..];
        if |t| == 1 {
          assert r == [[s[0]] + t[0]];
        } else {
          assert r[1..] == t[1..];
          assert Join(t, c) == t[0] + [c] + Join(t[1..], c);
        }
      }
    }
  }

  /** `fs[0] + ws[0] + fs[1] + ... + ws[|ws| - 1] + fs[|fs| - 1]`: fields
      interleaved with the separators found between them. */
  function Weave(fs: seq<string>, ws: seq<string>): string
    requires |fs| == |ws| + 1
  {
    if ws == [] then fs[0] else fs[0] + ws[0] + Weave(fs[1..], ws[1..])
  }

  /** Prefixing the first field prefixes the woven string. */
  lemma WeavePrefix(x: string, fs: seq<string>, ws: seq<string>)
    requires |fs| == |ws| + 1
    ensures Weave([x + fs[0]] + fs[1..], ws) == x + Weave(fs, ws)
  {
    var g := [x + fs[0]] + fs[1..];
    if ws != [] {
      assert g[1..] == fs[1..];
    }
  }

  /** An empty first field and a first gap put the gap in front. */
  lemma WeaveEmptyFirst(gap: string, fs: seq<string>, ws: seq<string>)
    requires |fs| == |ws| + 1
    ensures Weave([""] + fs, [gap] + ws) == gap + Weave(fs, ws)
  {
    var g, w := [""] + fs, [gap] + ws;
    assert g[0] == "" && w[0] == gap && g[1..] == fs && w[1..] == ws;
    assert Weave(g, w) == g[0] + w[0] + Weave(fs, ws);
    assert "" + gap == gap;
  }

  /** The characters of `s` that `d` matches, in order, each as a string. */
  function Matched(s: string, d: Delim): (ws: seq<string>)
    ensures |ws| == Count(s, d)
    ensures forall k :: 0 <= k < |ws| ==> |ws[k]| == 1 && d.Matches(ws[k][0])
  {
    if s == [] then [] else (if d.Matches(s[0]) then [[s[0]]] else []) + Matched(s[1..], d)
  }

  /** A one-character split loses nothing: `s` is its fields interleaved with
      the single matched characters that separated them. */
  lemma {:induction false} SplitRebuilds(s: string, d: Delim)
    ensures Weave(Split(s, d), Matched(s, d)) == s
    decreases |s|
  {
    if s != [] {
      var t := Split(s[1..], d);
      var ws := Matched(s[1..], d);
      SplitRebuilds(s[1..], d);
      if d.Matches(s[0]) {
        assert Split(s, d) == [""] + t;
        assert Matched(s, d) == [[s[0]]] + ws;
        assert ([""] + t)[1..] == t && ([[s[0]]] + ws)[1..] == ws;
      } else {
        assert Split(s, d) == [[s[0]] + t[0]] + t[1..];
        assert Matched(s, d) == ws;
        WeavePrefix([s[0]], t, ws);
      }
    }
  }

  /** The first field of a split is everything up to the first delimiter. */
  lemma {:induction false} FirstField(m: string, rest: string, c: char)
    requires forall i :: 0 <= i < |m| ==> m[i] != c
    requires rest == [] || rest[0] == c
    ensures Split(m + rest, Char(c))[0] == m
  {
    if m == [] {
      assert m + rest == rest;
    } else {
      assert (m + rest)[1..] == m[1..] + rest;
      FirstField(m[1..], rest, c);
      assert [m[0]] + m[1..] == m;
    }
  }

  /** Field 1 of a split is the text between the first and the second delimiter
      (or the end of the string when there is only one). */
  lemma {:induction false} SecondField(a: string, m: string, rest: string, c: char)
    requires forall i :: 0 <= i < |a| ==> a[i] != c
    requires forall i :: 0 <= i < |m| ==> m[i] != c
    requires rest == [] || rest[0] == c
    ensures |Split(a + [c] + m + rest, Char(c))| >= 2
    ensures Split(a + [c] + m + rest, Char(c))[1] == m
  {
    var s := a + [c] + m + rest;
    if a == [] {
      assert s == [c] + (m + rest);
      assert s[1..] == m + rest;
      FirstField(m, rest, c);
    } else {
      assert s[1..] == a[1..] + [c] + m + rest;
      SecondField(a[1..], m, rest, c);
    }
  }

  /** `re.split(r"\s+", s)`: fields separated by maximal runs of whitespace.
      A leading or a trailing run still yields one empty field. */
  function SplitRuns(s: string): (r: seq<string>)
    ensures |r| >= 1
    ensures forall i, j :: 0 <= i < |r| && 0 <= j < |r[i]| ==> !IsSpace(r[i][j])
    ensures forall i :: 0 < i < |r| - 1 ==> r[i] != []
    ensures r[0] == [] <==> s == [] || IsSpace(s[0])
    decreases |s|
  {
    if s == [] then [""]
    else if IsSpace(s[0]) then
      TrimStartRemovesLeadingSpace(s);
      [""] + SplitRuns(TrimStart(s))
    else
      var t := SplitRuns(s[1..]);
      [[s[0]] + t[0]] + t[1..]
  }

  /** The maximal runs of whitespace in `s`, in order. */
  function Gaps(s: string): seq<string>
    decreases |s|
  {
    if s == [] then []
    else if IsSpace(s[0]) then
      var u := TrimStart(s);
      [s[..|s| - |u|]] + Gaps(u)
    else Gaps(s[1..])
  }

  /** A `\s+` split loses nothing: `s` is its fields interleaved with the
      non-empty whitespace runs that separated them. */
  lemma {:induction false} SplitRunsRebuilds(s: string)
    ensures var ws := Gaps(s);
            && |ws| + 1 == |SplitRuns(s)|
            && (forall k :: 0 <= k < |ws| ==> ws[k] != [] && AllSpace(ws[k]))
            && Weave(SplitRuns(s), ws) == s
    decreases |s|
  {
    if s != [] && IsSpace(s[0]) {
      var u := TrimStart(s);
      TrimStartRemovesLeadingSpace(s);
      var gap := s[..|s| - |u|];
      assert |u| < |s| && gap != [];
      SplitRunsRebuilds(u);
      WeaveEmptyFirst(gap, SplitRuns(u), Gaps(u));
      assert gap + u == s;
    } else if s != [] {
      var t := SplitRuns(s[1..]);
      SplitRunsRebuilds(s[1..]);
      WeavePrefix([s[0]], t, Gaps(s[1..]));
    }
  }

  /** The non-empty fields of `fs`, in order. */
  function NonEmpty(fs: seq<string>): (r: seq<string>)
    ensures |r| <= |fs|
    ensures forall i :: 0 <= i < |r| ==> r[i] != []
  {
    if fs == [] then [] else (if fs[0] == [] then [] else [fs[0]]) + NonEmpty(fs[1..])
  }

  lemma NonEmptyCons(x: string, fs: seq<string>)
    ensures NonEmpty([x] + fs) == (if x == [] then [] else [x]) + NonEmpty(fs)
  {
    assert ([x] + fs)[1..] == fs;
  }

  /** Splitting on a leading whitespace character adds only an empty field. */
  lemma {:induction false} SplitSkipsSpace(s: string)
    requires s != [] && IsSpace(s[0])
    ensures NonEmpty(Split(s, Space)) == NonEmpty(Split(s[1..], Space))
  {
    NonEmptyCons("", Split(s[1..], Space));
  }

  lemma {:induction false} SplitSkipsSpaces(s: string)
    ensures NonEmpty(Split(s, Space)) == NonEmpty(Split(TrimStart(s), Space))
    decreases |s|
  {
    if s != [] && IsSpace(s[0]) {
      SplitSkipsSpace(s);
      SplitSkipsSpaces(s[1..]);
    }
  }

  /** `\s+` and `\s` agree on the first field and on every non-empty field:
      the runs version only drops the empty fields between adjacent whitespace. */
  lemma {:induction false} SplitRunsAgreesWithSplit(s: string)
    ensures SplitRuns(s)[0] == Split(s, Space)[0]
    ensures NonEmpty(SplitRuns(s)) == NonEmpty(Split(s, Space))
    decreases |s|
  {
    if s == [] {
    } else if IsSpace(s[0]) {
      var u := TrimStart(s);
      SplitRunsAgreesWithSplit(u);
      SplitSkipsSpaces(s);
      NonEmptyCons("", SplitRuns(u));
      SplitSkipsSpace(s);
      NonEmptyCons("", Split(s[1..], Space));
    } else {
      var t := SplitRuns(s[1..]);
      var w := Split(s[1..], Space);
      SplitRunsAgreesWithSplit(s[1..]);
      NonEmptyCons(t[0], t[1..]);
      NonEmptyCons(w[0], w[1..]);
      NonEmptyCons([s[0]] + t[0], t[1..]);
      NonEmptyCons([s[0]] + w[0], w[1..]);
      assert t == [t[0]] + t[1..];
      assert w == [w[0]] + w[1..];
      var x: seq<string> := if t[0] == [] then [] else [t[0]];
      assert NonEmpty(t[1..]) == (x + NonEmpty(t[1..]))[|x|..];
      assert NonEmpty(w[1..]) == (x + NonEmpty(w[1..]))[|x|..];
      assert NonEmpty(t[1..]) == NonEmpty(w[1..]);
      assert SplitRuns(s) == [[s[0]] + t[0]] + t[1..];
      assert Split(s, Space) == [[s[0]] + w[0]] + w[1..];
    }
  }
}
