/**
 The string operations the shell borrows from JavaScript: `split` on a
 separator character, `join`, `filter(p => p)`, `trim`, and the splitting of a
 trimmed line on runs of whitespace.
 */
module Text {

  /** No character of `s` is one of `seps`. */
  predicate Avoids(s: string, seps: set<char>) {
    forall i :: 0 <= i < |s| ==> s[i] !in seps
  }

  /** Every character of `s` is one of `seps`. */
  predicate Within(s: string, seps: set<char>) {
    forall i :: 0 <= i < |s| ==> s[i] in seps
  }

  /** `s.split(c)` where every character of `seps` acts as the separator `c`:
      the pieces between separators, empty pieces kept. */
  function Split(s: string, seps: set<char>): (r: seq<string>)
    ensures |r| >= 1
    ensures forall i :: 0 <= i < |r| ==> Avoids(r[i], seps)
  {
    if |s| == 0 then [""]
    else
      var rest := Split(s[1..], seps);
      if s[0] in seps then [""] + rest
      else [[s[0]] + rest[0]] + rest[1..]
  }

  /** `parts.join(sep)`. */
  function Join(parts: seq<string>, sep: string): string {
    if |parts| == 0 then ""
    else if |parts| == 1 then parts[0]
    else parts[0] + sep + Join(parts[1..], sep)
  }

  /** The length of `n` copies of something `k` long. */
  function Repeated(n: nat, k: nat): nat {
    if n == 0 then 0 else k + Repeated(n - 1, k)
  }

  /** `parts.filter(p => p)`: the non-empty pieces, in order. */
  function NonEmpty(parts: seq<string>): (r: seq<string>)
    ensures |r| <= |parts|
    ensures forall i :: 0 <= i < |r| ==> r[i] != ""
    ensures forall x :: x in r <==> x in parts && x != ""
    ensures Concat(r) == Concat(parts)
  {
    if |parts| == 0 then []
    else
      var rest := NonEmpty(parts[1..]);
      if parts[0] == "" then
        assert [] + rest == rest;
        [] + rest
      else
        assert ([parts[0]] + rest)[1..] == rest;
        [parts[0]] + rest
  }

  /** All pieces glued together with nothing between them. */
  function Concat(parts: seq<string>): string {
    if |parts| == 0 then "" else parts[0] + Concat(parts[1..])
  }

  /** `s` with every character of `seps` deleted. */
  function Remove(s: string, seps: set<char>): string {
    if |s| == 0 then ""
    else (if s[0] in seps then "" else [s[0]]) + Remove(s[1..], seps)
  }

  lemma {:induction false} NonEmptyAppend(a: seq<string>, b: seq<string>)
    ensures NonEmpty(a + b) == NonEmpty(a) + NonEmpty(b)
  {
    if |a| == 0 {
      assert a + b == b;
    } else {
      assert (a + b)[1..] == a[1..] + b;
      NonEmptyAppend(a[1..], b);
    }
  }

  lemma NonEmptyHead(x: seq<string>)
    requires |x| > 0
    ensures NonEmpty(x) == NonEmpty([x[0]]) + NonEmpty(x[1..])
  {
    assert [x[0]][1..] == [];
    assert NonEmpty([x[0]]) == (if x[0] == "" then [] else [x[0]]) + NonEmpty([]);
  }

  lemma {:induction false} NonEmptyKeeps(parts: seq<string>)
    requires forall i :: 0 <= i < |parts| ==> parts[i] != ""
    ensures NonEmpty(parts) == parts
  {
    if |parts| > 0 {
      NonEmptyKeeps(parts[1..]);
    }
  }

  /** Dropping empty pieces does not change what they glue to. */
  lemma {:induction false} ConcatNonEmpty(parts: seq<string>)
    ensures Concat(NonEmpty(parts)) == Concat(parts)
  {
    if |parts| > 0 {
      ConcatNonEmpty(parts[1..]);
      if parts[0] != "" {
        assert NonEmpty(parts) == [parts[0]] + NonEmpty(parts[1..]);
        assert ([parts[0]] + NonEmpty(parts[1..]))[1..] == NonEmpty(parts[1..]);
      } else {
        assert NonEmpty(parts) == NonEmpty(parts[1..]);
      }
    }
  }

  /** Splitting never loses a character that is not a separator. */
  lemma {:induction false} ConcatSplit(s: string, seps: set<char>)
    ensures Concat(Split(s, seps)) == Remove(s, seps)
  {
    if |s| > 0 {
      var rest := Split(s[1..], seps);
      ConcatSplit(s[1..], seps);
      if s[0] in seps {
        assert ([""] + rest)[1..] == rest;
      } else {
        var r := [[s[0]] + rest[0]] + rest[1..];
        assert r[1..] == rest[1..];
        assert Concat(rest) == rest[0] + Concat(rest[1..]);
      }
    }
  }

  lemma {:induction false} RemoveAppend(a: string, b: string, seps: set<char>)
    ensures Remove(a + b, seps) == Remove(a, seps) + Remove(b, seps)
  {
    if |a| == 0 {
      assert a + b == b;
    } else {
      assert (a + b)[1..] == a[1..] + b;
      RemoveAppend(a[1..], b, seps);
    }
  }

  lemma {:induction false} RemoveEmpty(s: string, seps: set<char>)
    ensures Remove(s, seps) == "" <==> Within(s, seps)
  {
    if |s| > 0 {
      RemoveEmpty(s[1..], seps);
      if s[0] in seps {
        assert Within(s, seps) <==> Within(s[1..], seps) by {
          if Within(s[1..], seps) {
            forall i | 0 <= i < |s| ensures s[i] in seps {
              if i > 0 { assert s[i] == s[1..][i - 1]; }
            }
          }
        }
      }
    }
  }

  /** Splitting `a + s` when `a` has no separator: `a` lands at the front of
      the first piece. */
  lemma {:induction false} SplitPrefix(a: string, s: string, seps: set<char>)
    requires Avoids(a, seps)
    ensures Split(a + s, seps) == [a + Split(s, seps)[0]] + Split(s, seps)[1..]
  {
    if |a| > 0 {
      assert (a + s)[0] == a[0];
      assert (a + s)[1..] == a[1..] + s;
      SplitPrefix(a[1..], s, seps);
      assert [a[0]] + (a[1..] + Split(s, seps)[0]) == a + Split(s, seps)[0];
    } else {
      var r := Split(s, seps);
      assert a + s == s;
      assert a + r[0] == r[0];
      assert [r[0]] + r[1..] == r;
    }
  }

  /** A trailing separator adds one empty piece at the end. */
  lemma {:induction false} SplitSnoc(s: string, c: char, seps: set<char>)
    requires c in seps
    ensures Split(s + [c], seps) == Split(s, seps) + [""]
  {
    if |s| == 0 {
      assert s + [c] == [c];
      assert Split([c][1..], seps) == [""];
    } else {
      assert (s + [c])[1..] == s[1..] + [c];
      SplitSnoc(s[1..], c, seps);
    }
  }

  /** Joining the pieces of a split with the separator gives the string back. */
  lemma {:induction false} JoinSplit(s: string, c: char)
    ensures Join(Split(s, {c}), [c]) == s
  {
    if |s| > 0 {
      var rest := Split(s[1..], {c});
      JoinSplit(s[1..], c);
      if s[0] == c {
        assert ([""] + rest)[1..] == rest;
      } else {
        var r := [[s[0]] + rest[0]] + rest[1..];
        assert r[1..] == rest[1..];
        if |rest| == 1 {
          assert s == [s[0]] + rest[0];
        } else {
          assert Join(rest, [c]) == rest[0] + [c] + Join(rest[1..], [c]);
          assert s == [s[0]] + s[1..];
        }
      }
    }
  }

  /** A join is as long as its pieces plus one separator between each two. */
  lemma {:induction false} JoinLength(parts: seq<string>, sep: string)
    requires |parts| > 0
    ensures |Join(parts, sep)| == |Concat(parts)| + Repeated(|parts| - 1, |sep|)
  {
    if |parts| > 1 {
      JoinLength(parts[1..], sep);
    }
  }

  /** Splitting a join of separator-free pieces gives the pieces back. */
  lemma {:induction false} SplitJoin(parts: seq<string>, c: char)
    requires |parts| >= 1
    requires forall i :: 0 <= i < |parts| ==> Avoids(parts[i], {c})
    ensures Split(Join(parts, [c]), {c}) == parts
  {
    if |parts| == 1 {
      SplitPrefix(parts[0], "", {c});
      assert parts[0] + "" == parts[0];
    } else {
      var tail := Join(parts[1..], [c]);
      SplitJoin(parts[1..], c);
      assert Join(parts, [c]) == parts[0] + ([c] + tail);
      SplitPrefix(parts[0], [c] + tail, {c});
      assert ([c] + tail)[1..] == tail;
      assert Split([c] + tail, {c}) == [""] + parts[1..];
      assert parts[0] + "" == parts[0];
    }
  }

  /** The whitespace characters of JavaScript's `trim` and of `\s` in a
      regular expression. */
  const Whitespace: set<char> := {
    '\t', '\n', '\U{000B}', '\U{000C}', '\r', ' ', '\U{00A0}', '\U{1680}',
    '\U{2000}', '\U{2001}', '\U{2002}', '\U{2003}', '\U{2004}', '\U{2005}',
    '\U{2006}', '\U{2007}', '\U{2008}', '\U{2009}', '\U{200A}',
    '\U{2028}', '\U{2029}', '\U{202F}', '\U{205F}', '\U{3000}', '\U{FEFF}'
  }

  /** `s.trimStart()` when `ws` holds the whitespace characters: the suffix
      that starts at the first character outside `ws`. */
  function TrimStart(s: string, ws: set<char>): (r: string)
    ensures |r| <= |s| && r == s[|s| - |r|..]
    ensures Within(s[..|s| - |r|], ws)
    ensures |r| > 0 ==> r[0] !in ws
  {
    if |s| > 0 && s[0] in ws then TrimStart(s[1..], ws) else s
  }

  /** `s.trimEnd()` when `ws` holds the whitespace characters: the prefix
      that ends at the last character outside `ws`. */
  function TrimEnd(s: string, ws: set<char>): (r: string)
    ensures |r| <= |s| && r == s[..|r|]
    ensures Within(s[|r|..], ws)
    ensures |r| > 0 ==> r[|r| - 1] !in ws
  {
    if |s| > 0 && s[|s| - 1] in ws then TrimEnd(s[..|s| - 1], ws) else s
  }

  /** `s.trim()`: whitespace is taken off both ends and nowhere else, and
      nothing is left exactly when the line is all whitespace. */
  function Trim(s: string): (r: string)
    ensures exists i :: Cut(s, r, i, Whitespace)
    ensures |r| > 0 ==> r[0] !in Whitespace && r[|r| - 1] !in Whitespace
    ensures Remove(r, Whitespace) == Remove(s, Whitespace)
    ensures r == "" <==> Within(s, Whitespace)
  {
    TrimEnds(s, Whitespace);
    TrimKeepsText(s, Whitespace);
    TrimCuts(s, Whitespace);
    TrimEnd(TrimStart(s, Whitespace), Whitespace)
  }

  /** `r` is the piece of `s` starting at `i`, with only characters of `ws`
      before and after it. */
  predicate Cut(s: string, r: string, i: int, ws: set<char>) {
    && 0 <= i <= |s| - |r|
    && s[i..i + |r|] == r
    && Within(s[..i], ws)
    && Within(s[i + |r|..], ws)
  }

  /** Trimming cuts one piece out of the string. */
  lemma TrimCuts(s: string, ws: set<char>)
    ensures Cut(s, TrimEnd(TrimStart(s, ws), ws), |s| - |TrimStart(s, ws)|, ws)
  {
    var u := TrimStart(s, ws);
    var t := TrimEnd(u, ws);
    assert |u| <= |s| && u == s[|s| - |u|..] && Within(s[..|s| - |u|], ws);
    assert |t| <= |u| && t == u[..|t|] && Within(u[|t|..], ws);
    CutOfCut(s, u, t, ws);
  }

  /** A prefix of a suffix, with only separators cut off at each end, is a
      cut of the whole. */
  lemma CutOfCut(s: string, u: string, t: string, ws: set<char>)
    requires |u| <= |s| && u == s[|s| - |u|..] && Within(s[..|s| - |u|], ws)
    requires |t| <= |u| && t == u[..|t|] && Within(u[|t|..], ws)
    ensures Cut(s, t, |s| - |u|, ws)
  {
    var i := |s| - |u|;
    assert s[i..i + |t|] == u[..|t|];
    assert s[i + |t|..] == u[|t|..];
  }

  /** A trimmed string neither starts nor ends with a character of `ws`. */
  lemma TrimEnds(s: string, ws: set<char>)
    ensures var t := TrimEnd(TrimStart(s, ws), ws);
      |t| > 0 ==> t[0] !in ws && t[|t| - 1] !in ws
  {
    var u := TrimStart(s, ws);
    var t := TrimEnd(u, ws);
    if |t| > 0 {
      assert t[0] == u[0];
    }
  }

  /** Trimming only removes whitespace, and leaves nothing exactly when there
      was nothing else. */
  lemma TrimKeepsText(s: string, ws: set<char>)
    ensures Remove(TrimEnd(TrimStart(s, ws), ws), ws) == Remove(s, ws)
    ensures TrimEnd(TrimStart(s, ws), ws) == "" <==> Within(s, ws)
  {
    var t := TrimStart(s, ws);
    var u := TrimEnd(t, ws);
    TrimStartKeepsText(s, ws);
    TrimEndKeepsText(t, ws);
    RemoveEmpty(s, ws);
    RemoveEmpty(u, ws);
    if u != "" {
      assert !Within(u, ws) by {
        assert u[0] !in ws;
      }
    }
  }

  lemma TrimStartKeepsText(s: string, ws: set<char>)
    ensures Remove(TrimStart(s, ws), ws) == Remove(s, ws)
  {
    var t := TrimStart(s, ws);
    assert s == s[..|s| - |t|] + t;
    DropWhitespace(s[..|s| - |t|], t, ws);
  }

  lemma TrimEndKeepsText(t: string, ws: set<char>)
    ensures Remove(TrimEnd(t, ws), ws) == Remove(t, ws)
  {
    var u := TrimEnd(t, ws);
    assert t == u + t[|u|..];
    DropWhitespace(t[|u|..], u, ws);
  }

  lemma DropWhitespace(w: string, t: string, ws: set<char>)
    requires Within(w, ws)
    ensures Remove(w + t, ws) == Remove(t, ws)
    ensures Remove(t + w, ws) == Remove(t, ws)
  {
    RemoveAppend(w, t, ws);
    RemoveAppend(t, w, ws);
    RemoveEmpty(w, ws);
  }

  /** The pieces of `s` between runs of whitespace, empty ones dropped. On a
      trimmed, non-empty line this is `line.split(/\s+/)`: such a line has no
      leading or trailing whitespace, so the regular expression yields no
      empty piece. */
  function Words(s: string): seq<string> {
    NonEmpty(Split(s, Whitespace))
  }

  /** `s.split(/[ws]+/)`: the pieces between maximal runs of characters of
      `ws`. A run at either end leaves an empty piece there. */
  function SplitRuns(s: string, ws: set<char>): (r: seq<string>)
    ensures |r| >= 1
    ensures forall i :: 0 <= i < |r| ==> Avoids(r[i], ws)
    decreases |s|
  {
    if |s| == 0 then [""]
    else if s[0] in ws then [""] + SplitRuns(TrimStart(s[1..], ws), ws)
    else
      var rest := SplitRuns(s[1..], ws);
      [[s[0]] + rest[0]] + rest[1..]
  }

  /** A trailing stretch of separators only adds empty pieces. */
  lemma {:induction false} SkipTrailing(t: string, w: string, seps: set<char>)
    requires Within(w, seps)
    ensures NonEmpty(Split(t + w, seps)) == NonEmpty(Split(t, seps))
    decreases |w|
  {
    if |w| > 0 {
      var v := w[..|w| - 1];
      assert t + w == (t + v) + [w[|w| - 1]];
      SplitSnoc(t + v, w[|w| - 1], seps);
      NonEmptyAppend(Split(t + v, seps), [""]);
      assert NonEmpty([""]) == [];
      assert NonEmpty(Split(t + v, seps)) + [] == NonEmpty(Split(t + v, seps));
      SkipTrailing(t, v, seps);
    } else {
      assert t + w == t;
    }
  }

  /** Cutting a piece out of a string between stretches of separators does
      not change its non-empty pieces. */
  lemma CutKeepsPieces(s: string, r: string, i: int, ws: set<char>)
    requires Cut(s, r, i, ws)
    ensures NonEmpty(Split(s, ws)) == NonEmpty(Split(r, ws))
  {
    var w := s[..i];
    var tail := s[i + |r|..];
    assert s == w + (r + tail);
    SkipSeparators(w, r + tail, ws);
    SkipTrailing(r, tail, ws);
  }

  /** Trimming a line does not change its words. */
  lemma WordsOfTrim(s: string)
    ensures Words(Trim(s)) == Words(s)
  {
    var r := Trim(s);
    var i :| Cut(s, r, i, Whitespace);
    CutKeepsPieces(s, r, i, Whitespace);
  }

  /** A leading stretch of separators only adds empty pieces. */
  lemma {:induction false} SkipSeparators(w: string, t: string, seps: set<char>)
    requires Within(w, seps)
    ensures NonEmpty(Split(w + t, seps)) == NonEmpty(Split(t, seps))
    decreases |w|
  {
    if |w| > 0 {
      assert (w + t)[1..] == w[1..] + t;
      assert (w + t)[0] in seps;
      SkipSeparators(w[1..], t, seps);
      NonEmptyHead(Split(w + t, seps));
    } else {
      assert w + t == t;
    }
  }

  /** Splitting at every separator and at runs of them agree once the empty
      pieces are dropped: the first pieces are equal, and so are the
      non-empty later ones. */
  lemma {:induction false} RunsAgree(s: string, ws: set<char>)
    ensures SplitRuns(s, ws)[0] == Split(s, ws)[0]
    ensures NonEmpty(SplitRuns(s, ws)[1..]) == NonEmpty(Split(s, ws)[1..])
    decreases |s|
  {
    if |s| > 0 {
      if s[0] in ws {
        var t := TrimStart(s[1..], ws);
        var w := s[1..][..|s| - 1 - |t|];
        assert s[1..] == w + t;
        RunsAgree(t, ws);
        NonEmptyHead(SplitRuns(t, ws));
        NonEmptyHead(Split(t, ws));
        SkipSeparators(w, t, ws);
        assert SplitRuns(s, ws)[1..] == SplitRuns(t, ws);
        assert Split(s, ws)[1..] == Split(s[1..], ws);
      } else {
        RunsAgree(s[1..], ws);
        assert SplitRuns(s, ws)[1..] == SplitRuns(s[1..], ws)[1..];
        assert Split(s, ws)[1..] == Split(s[1..], ws)[1..];
      }
    }
  }

  /** When `s` ends outside `ws`, every piece after the first is non-empty. */
  lemma {:induction false} RunsInnerNonEmpty(s: string, ws: set<char>)
    requires |s| > 0 && s[|s| - 1] !in ws
    ensures forall i :: 1 <= i < |SplitRuns(s, ws)| ==> SplitRuns(s, ws)[i] != ""
    decreases |s|
  {
    if s[0] in ws {
      var t := TrimStart(s[1..], ws);
      assert |s| > 1;
      assert |t| > 0;
      assert t[|t| - 1] == s[|s| - 1];
      RunsInnerNonEmpty(t, ws);
      assert SplitRuns(s, ws)[1..] == SplitRuns(t, ws);
    } else if |s| > 1 {
      assert s[1..][|s| - 2] == s[|s| - 1];
      RunsInnerNonEmpty(s[1..], ws);
    }
  }

  /** On a non-empty string with no separator at either end, dropping the
      empty pieces of `Split` gives exactly the pieces between runs. */
  lemma RunsOfTrimmed(t: string, ws: set<char>)
    requires |t| > 0 && t[0] !in ws && t[|t| - 1] !in ws
    ensures NonEmpty(Split(t, ws)) == SplitRuns(t, ws)
  {
    var r := SplitRuns(t, ws);
    var p := Split(t, ws);
    RunsAgree(t, ws);
    RunsInnerNonEmpty(t, ws);
    assert r[0] != "";
    NonEmptyKeeps(r);
    NonEmptyHead(r);
    NonEmptyHead(p);
    assert NonEmpty([r[0]]) == NonEmpty([p[0]]);
  }

  /** On a non-empty line with no whitespace at either end, the words are
      exactly `line.split(/\s+/)`. */
  lemma WordsAreRuns(t: string)
    requires |t| > 0 && t[0] !in Whitespace && t[|t| - 1] !in Whitespace
    ensures Words(t) == SplitRuns(t, Whitespace)
  {
    RunsOfTrimmed(t, Whitespace);
  }

  /** The words are non-empty, hold no whitespace, and together hold exactly
      the non-whitespace text of the line; there are none exactly when the
      line is all whitespace. */
  lemma WordsSpec(s: string)
    ensures forall i :: 0 <= i < |Words(s)| ==> Words(s)[i] != "" && Avoids(Words(s)[i], Whitespace)
    ensures Concat(Words(s)) == Remove(s, Whitespace)
    ensures |Words(s)| == 0 <==> Within(s, Whitespace)
  {
    var pieces := Split(s, Whitespace);
    forall i | 0 <= i < |Words(s)|
      ensures Avoids(Words(s)[i], Whitespace)
    {
      assert Words(s)[i] in pieces;
    }
    ConcatNonEmpty(pieces);
    ConcatSplit(s, Whitespace);
    RemoveEmpty(s, Whitespace);
    var w := Words(s);
    if |w| > 0 {
      assert Concat(w) == w[0] + Concat(w[1..]);
    }
  }
}
