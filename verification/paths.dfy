/**
 The path resolver of the shell (`resolvePath`, script.js): absolute paths
 are tidied textually, relative paths are interpreted segment by segment
 against the cursor. Every result of a non-empty path is in canonical form:
 `/`, or `/` followed by non-empty, slash-free segments joined by `/`.
 */
module Paths {
  import opened Text

  const Slash: set<char> := {'/'}

  /** A path segment: non-empty, without `/`. */
  predicate IsName(s: string) {
    s != "" && Avoids(s, Slash)
  }

  predicate AllNames(segs: seq<string>) {
    forall i :: 0 <= i < |segs| ==> IsName(segs[i])
  }

  /** `p.split("/").filter(p => p)`. */
  function Segments(p: string): (r: seq<string>)
    ensures AllNames(r)
  {
    var r := NonEmpty(Split(p, Slash));
    assert forall i :: 0 <= i < |r| ==> r[i] in Split(p, Slash);
    r
  }

  /** The absolute spelling of a list of segments: `/` for none, otherwise
      `"/" + segs.join("/")`. */
  function Canon(segs: seq<string>): string {
    if |segs| == 0 then "/" else "/" + Join(segs, "/")
  }

  /** `p` is the root, or the canonical spelling of its own segments (which
      the root is too: see `RootHasNoSegments`). */
  predicate IsNormal(p: string) {
    p == "/" || p == Canon(Segments(p))
  }

  /** The cursor's type: a canonical absolute path. */
  type Path = p: string | IsNormal(p) witness "/"

  predicate NoDoubleSlash(p: string) {
    forall i :: 0 <= i < |p| - 1 ==> !(p[i] == '/' && p[i + 1] == '/')
  }

  /** The textual description of the canonical form: starts with `/`, no `//`
      anywhere, and no trailing `/` except for the root itself. */
  predicate WellFormed(p: string) {
    && |p| > 0 && p[0] == '/'
    && (|p| == 1 || p[|p| - 1] != '/')
    && NoDoubleSlash(p)
  }

  /** `s.replace(/\/+/g, "/")`: each run of slashes becomes one slash. */
  function CollapseSlashes(s: string): (r: string)
    ensures |s| > 0 ==> |r| > 0 && r[0] == s[0]
    ensures |s| > 0 ==> r[|r| - 1] == s[|s| - 1]
    ensures NoDoubleSlash(r)
  {
    if |s| == 0 then ""
    else if s[0] == '/' && |s| >= 2 && s[1] == '/' then CollapseSlashes(s[1..])
    else [s[0]] + CollapseSlashes(s[1..])
  }

  /** `t.replace(/\/$/, "")`: one trailing slash is dropped. */
  function DropTrailingSlash(t: string): string {
    if |t| > 0 && t[|t| - 1] == '/' then t[..|t| - 1] else t
  }

  /** The absolute branch of `resolvePath`: slash runs collapsed, one
      trailing slash dropped. The result is the canonical spelling of the
      path's own segments; `.` and `..` are left as they are. */
  function ResolveAbsolute(path: string): (r: string)
    requires |path| > 0 && path[0] == '/'
    ensures r == Canon(Segments(path))
  {
    if path == "/" then
      RootHasNoSegments();
      "/"
    else
      var t := DropTrailingSlash(CollapseSlashes(path));
      TidyIsCanonical(path);
      if t == "" then "/" else t
  }

  /** One pass of the relative-path loop: `..` pops a segment when there is
      one, `.` is dropped, anything else is pushed. */
  function Step(parts: seq<string>, part: string): (r: seq<string>)
    ensures part == ".." ==> r <= parts && |r| == (if |parts| > 0 then |parts| - 1 else 0)
    ensures part == "." ==> r == parts
    ensures part != "." && part != ".." ==> |r| == |parts| + 1 && r[..|parts|] == parts && r[|parts|] == part
    ensures AllNames(parts) && IsName(part) ==> AllNames(r)
  {
    if part == ".." then (if |parts| > 0 then parts[..|parts| - 1] else parts)
    else if part != "." then parts + [part]
    else parts
  }

  /** The relative-path loop over `todo`, starting from `parts`. */
  function Walk(parts: seq<string>, todo: seq<string>): (r: seq<string>)
    ensures AllNames(parts) && AllNames(todo) ==> AllNames(r)
    decreases |todo|
  {
    if |todo| == 0 then parts else Walk(Step(parts, todo[0]), todo[1..])
  }

  /** `resolvePath(path)` with `currentPath == cwd`. An empty path stands for
      an absent argument. */
  function Resolve(path: string, cwd: string): (r: string)
    ensures path == "" ==> r == cwd
    ensures path != "" ==> IsNormal(r)
    ensures path != "" && path[0] == '/' ==> r == Canon(Segments(path))
  {
    if path == "" then cwd
    else if path[0] == '/' then
      SegmentsCanon(Segments(path));
      ResolveAbsolute(path)
    else
      var parts := if cwd == "/" then [] else Segments(cwd);
      var segs := Walk(parts, Segments(path));
      SegmentsCanon(segs);
      Canon(segs)
  }

  // ---------------------------------------------------------------------
  // Canonical form

  /** Segments of the canonical spelling give the segments back. */
  lemma SegmentsCanon(segs: seq<string>)
    requires AllNames(segs)
    ensures Segments(Canon(segs)) == segs
  {
    if |segs| == 0 {
      assert "/"[1..] == "";
      assert Split("", Slash) == [""];
      assert Split("/", Slash) == [""] + Split("", Slash);
      assert Split("/", Slash) == ["", ""];
      assert ["", ""][1..] == [""];
      assert [""][1..] == [];
    } else {
      var j := Join(segs, "/");
      assert ("/" + j)[1..] == j;
      assert Split("/" + j, Slash) == [""] + Split(j, Slash);
      assert forall i :: 0 <= i < |segs| ==> Avoids(segs[i], {'/'});
      SplitJoin(segs, '/');
      NonEmptyKeeps(segs);
    }
  }

  lemma RootHasNoSegments()
    ensures Segments("/") == []
  {
    SegmentsCanon([]);
  }

  /** The canonical spelling is the root exactly when there are no segments. */
  lemma RootIffNoSegments(p: string)
    requires IsNormal(p)
    ensures p == "/" <==> Segments(p) == []
  {
    RootHasNoSegments();
    if Segments(p) != [] {
      assert |Canon(Segments(p))| > 1;
    }
  }

  /** For a canonical result, the root is the result with no segments. */
  lemma ResolvedRoot(path: string, cwd: string)
    ensures path != "" || IsNormal(cwd) ==>
      (Resolve(path, cwd) == "/" <==> Segments(Resolve(path, cwd)) == [])
  {
    if path != "" || IsNormal(cwd) {
      RootIffNoSegments(Resolve(path, cwd));
    }
  }

  /** A slash-free, non-empty run of text with single slashes inside splits
      into non-empty pieces. */
  lemma {:induction false} InnerPiecesNonEmpty(q: string)
    requires |q| > 0 && q[0] != '/' && q[|q| - 1] != '/' && NoDoubleSlash(q)
    ensures forall i :: 0 <= i < |Split(q, Slash)| ==> Split(q, Slash)[i] != ""
  {
    var rest := Split(q[1..], Slash);
    if |q| == 1 {
      assert rest == [""];
    } else if q[1] != '/' {
      InnerPiecesNonEmpty(q[1..]);
    } else {
      assert q[2] != '/';
      assert q[1..][1..] == q[2..];
      assert rest == [""] + Split(q[2..], Slash);
      InnerPiecesNonEmpty(q[2..]);
    }
  }

  lemma WellFormedIsCanonical(p: string)
    requires WellFormed(p)
    ensures Canon(Segments(p)) == p
  {
    if |p| == 1 {
      assert p == "/";
      RootHasNoSegments();
    } else {
      var q := p[1..];
      WellFormedPieces(p);
      JoinSplit(q, '/');
      assert p == "/" + q;
    }
  }

  /** Past its leading slash, a well-formed path other than `/` splits into
      exactly its segments. */
  lemma WellFormedPieces(p: string)
    requires WellFormed(p) && |p| > 1
    ensures Segments(p) == Split(p[1..], Slash)
  {
    var q := p[1..];
    assert q[0] != '/';
    assert Split(p, Slash) == [""] + Split(q, Slash);
    assert ([""] + Split(q, Slash))[1..] == Split(q, Slash);
    assert Segments(p) == NonEmpty(Split(q, Slash));
    InnerPiecesNonEmpty(q);
    NonEmptyKeeps(Split(q, Slash));
  }

  lemma {:induction false} JoinShape(segs: seq<string>)
    requires |segs| > 0 && AllNames(segs)
    ensures var j := Join(segs, "/");
      |j| > 0 && j[0] != '/' && j[|j| - 1] != '/' && NoDoubleSlash(j)
  {
    if |segs| > 1 {
      var a := segs[0];
      var t := Join(segs[1..], "/");
      JoinShape(segs[1..]);
      var j := a + "/" + t;
      assert j == Join(segs, "/");
      forall i | 0 <= i < |j| - 1 ensures !(j[i] == '/' && j[i + 1] == '/') {
        if i < |a| {
          assert j[i] == a[i];
        } else if i == |a| {
          assert j[i + 1] == t[0];
        } else {
          assert j[i] == t[i - |a| - 1] && j[i + 1] == t[i - |a|];
        }
      }
      assert j[0] == a[0];
    }
  }

  /** Canonical means well formed: the textual and the segment-wise
      descriptions of a resolved path agree. */
  lemma NormalIffWellFormed(p: string)
    ensures IsNormal(p) <==> WellFormed(p)
  {
    if WellFormed(p) {
      WellFormedIsCanonical(p);
    }
    if IsNormal(p) {
      var segs := Segments(p);
      if |segs| > 0 {
        JoinShape(segs);
        var j := Join(segs, "/");
        assert p == "/" + j;
        forall i | 0 <= i < |p| - 1 ensures !(p[i] == '/' && p[i + 1] == '/') {
          if i > 0 { assert p[i] == j[i - 1] && p[i + 1] == j[i]; }
        }
      }
    }
  }

  // ---------------------------------------------------------------------
  // The absolute branch

  /** Collapsing slashes keeps the first piece and the non-empty later pieces. */
  lemma {:induction false} CollapseSplit(s: string)
    ensures Split(CollapseSlashes(s), Slash)[0] == Split(s, Slash)[0]
    ensures NonEmpty(Split(CollapseSlashes(s), Slash)[1..]) == NonEmpty(Split(s, Slash)[1..])
  {
    if |s| > 0 {
      var c := CollapseSlashes(s[1..]);
      CollapseSplit(s[1..]);
      if s[0] == '/' && |s| >= 2 && s[1] == '/' {
        var x := Split(s[1..], Slash);
        assert x == [""] + Split(s[2..], Slash) by {
          assert s[1..][1..] == s[2..];
        }
        assert Split(s, Slash) == [""] + x;
        NonEmptyHead(x);
        NonEmptyHead(Split(c, Slash));
      } else if s[0] == '/' {
        assert ("/" + c)[1..] == c;
        assert Split("/" + c, Slash) == [""] + Split(c, Slash);
        NonEmptyHead(Split(c, Slash));
        NonEmptyHead(Split(s[1..], Slash));
      } else {
        assert ([s[0]] + c)[1..] == c;
      }
    }
  }

  lemma CollapseSegments(s: string)
    ensures Segments(CollapseSlashes(s)) == Segments(s)
  {
    CollapseSplit(s);
    NonEmptyHead(Split(CollapseSlashes(s), Slash));
    NonEmptyHead(Split(s, Slash));
  }

  lemma DropSegments(t: string)
    ensures Segments(DropTrailingSlash(t)) == Segments(t)
  {
    if |t| > 0 && t[|t| - 1] == '/' {
      var u := t[..|t| - 1];
      assert t == u + ['/'];
      SplitSnoc(u, '/', Slash);
      NonEmptyAppend(Split(u, Slash), [""]);
    }
  }

  /** Dropping a trailing slash cannot create a doubled slash. */
  lemma DropKeepsSingleSlashes(c: string)
    requires NoDoubleSlash(c)
    ensures NoDoubleSlash(DropTrailingSlash(c))
  {
    var t := DropTrailingSlash(c);
    assert forall i :: 0 <= i < |t| ==> t[i] == c[i];
  }

  /** The textual tidying of an absolute path other than `/` spells its
      segments canonically. */
  lemma TidyIsCanonical(path: string)
    requires |path| > 0 && path[0] == '/' && path != "/"
    ensures var t := DropTrailingSlash(CollapseSlashes(path));
      (if t == "" then "/" else t) == Canon(Segments(path))
  {
    var c := CollapseSlashes(path);
    var t := DropTrailingSlash(c);
    CollapseSegments(path);
    DropSegments(c);
    if t == "" {
      assert Split("", Slash) == [""];
      assert [""][1..] == [];
      assert Segments(t) == [];
    } else {
      TidyWellFormed(c);
      WellFormedIsCanonical(t);
    }
  }

  /** Dropping the trailing slash of a slash-led path without doubled
      slashes leaves it empty or well formed. */
  lemma TidyWellFormed(c: string)
    requires |c| > 0 && c[0] == '/' && NoDoubleSlash(c)
    ensures var t := DropTrailingSlash(c);
      t != "" ==> WellFormed(t)
  {
    var t := DropTrailingSlash(c);
    if t != "" {
      DropKeepsSingleSlashes(c);
      assert t[0] == c[0];
      if t != c {
        assert c[|c| - 2] == t[|t| - 1];
      }
    }
  }

  // ---------------------------------------------------------------------
  // Properties of resolution

  /** Resolving twice is resolving once. */
  lemma ResolveIdempotent(path: string, cwd: string)
    requires path != "" || IsNormal(cwd)
    ensures Resolve(Resolve(path, cwd), cwd) == Resolve(path, cwd)
  {
    var r := Resolve(path, cwd);
    RootHasNoSegments();
    if r != "" {
      assert r == Canon(Segments(r));
      assert r[0] == '/';
    }
  }

  lemma DotDotSegments()
    ensures Segments(".") == ["."]
    ensures Segments("..") == [".."]
  {
    assert Split("", Slash) == [""];
    assert "."[1..] == "";
    assert [""][1..] == [];
    assert ['.'] + "" == ".";
    assert Split(".", Slash) == [['.'] + ""] + [""][1..];
    assert Split(".", Slash) == ["."];
    assert ".."[1..] == ".";
    assert ["."][1..] == [];
    assert ['.'] + "." == "..";
    assert Split("..", Slash) == [['.'] + "."] + ["."][1..];
    assert Split("..", Slash) == [".."];
    assert [".."][1..] == [];
  }

  /** `..` at the root stays at the root. */
  lemma ParentOfRoot()
    ensures Resolve("..", "/") == "/"
  {
    DotDotSegments();
  }

  /** `..` from a directory below the root drops its last segment. */
  lemma ParentDropsLast(segs: seq<string>, name: string)
    requires AllNames(segs + [name])
    ensures Resolve("..", Canon(segs + [name])) == Canon(segs)
  {
    DotDotSegments();
    SegmentsCanon(segs + [name]);
    JoinShape(segs + [name]);
    var cwd := Canon(segs + [name]);
    assert cwd != "/";
    assert Walk(segs + [name], [".."]) == Walk(Step(segs + [name], ".."), []);
    assert (segs + [name])[..|segs|] == segs;
  }

  /** `.` names the cursor itself. */
  lemma DotIsCursor(cwd: string)
    requires IsNormal(cwd)
    ensures Resolve(".", cwd) == cwd
  {
    DotDotSegments();
    RootHasNoSegments();
  }

  /** A plain name resolves to the child of the cursor with that name. */
  lemma ResolveChild(name: string, cwd: string)
    requires IsName(name) && name != "." && name != ".."
    requires IsNormal(cwd)
    ensures Segments(name) == [name]
    ensures Segments(Resolve(name, cwd)) == Segments(cwd) + [name]
    ensures Resolve(name, cwd) == Canon(Segments(cwd) + [name])
  {
    SplitPrefix(name, "", Slash);
    assert name + "" == name;
    assert Split("", Slash) == [""];
    assert Split(name, Slash) == [name];
    NonEmptyHead([name]);
    assert NonEmpty([name]) == [name];
    RootHasNoSegments();
    var parts := if cwd == "/" then [] else Segments(cwd);
    assert parts == Segments(cwd);
    assert Walk(parts, [name]) == Walk(parts + [name], []);
    SegmentsCanon(parts + [name]);
  }

  lemma {:induction false} SplitAround(a: string, c: char, b: string, seps: set<char>)
    requires c in seps
    ensures Split(a + [c] + b, seps) == Split(a, seps) + Split(b, seps)
  {
    if |a| == 0 {
      assert a + [c] + b == [c] + b;
      assert ([c] + b)[1..] == b;
    } else {
      assert (a + [c] + b)[1..] == a[1..] + [c] + b;
      SplitAround(a[1..], c, b, seps);
    }
  }

  lemma {:induction false} WalkAppend(parts: seq<string>, x: seq<string>, y: seq<string>)
    ensures Walk(parts, x + y) == Walk(Walk(parts, x), y)
    decreases |x|
  {
    if |x| > 0 {
      assert (x + y)[1..] == x[1..] + y;
      WalkAppend(Step(parts, x[0]), x[1..], y);
    } else {
      assert x + y == y;
    }
  }

  /** Resolving `a/b` leads where resolving `b` leads from the result of
      resolving `a`: a relative path can be followed one part at a time. */
  lemma ResolveCompose(a: string, b: string, cwd: string)
    requires a != "" && a[0] != '/'
    requires b == "" || b[0] != '/'
    ensures Resolve(a + "/" + b, cwd) == Resolve(b, Resolve(a, cwd))
  {
    var parts := if cwd == "/" then [] else Segments(cwd);
    SplitAround(a, '/', b, Slash);
    NonEmptyAppend(Split(a, Slash), Split(b, Slash));
    assert Segments(a + "/" + b) == Segments(a) + Segments(b);
    WalkAppend(parts, Segments(a), Segments(b));
    var w := Walk(parts, Segments(a));
    SegmentsCanon(w);
    RootHasNoSegments();
    if b == "" {
      assert Split("", Slash) == [""];
    }
    assert (a + "/" + b)[0] == a[0];
  }
}
