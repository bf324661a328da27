/**
 The in-memory filesystem of the shell and its lookups (`getCurrentDir`,
 `pathExists`, `isDirectory`, `getPathObject`, `getParentDir`, script.js).

 The tree is kept as the JavaScript values the source builds: objects and
 strings. Nothing tags a node as a file or a directory. A lookup `dir[name]`
 succeeds only on a present, truthy entry, and the walks descend only into
 values that pass `typeof x === "object" && !x.content`. Names are assumed to
 be own properties; nothing inherited from `Object.prototype` is modelled.
 */
module Tree {
  import opened Wrappers
  import opened Text
  import opened Paths

  /** A value in the tree: an object with its own properties, or a string. */
  datatype JVal = Obj(fields: map<string, JVal>) | Str(s: string)

  /** The properties of a directory object. */
  type Dir = map<string, JVal>

  /** JavaScript truthiness: every object is truthy, a string unless empty. */
  predicate Truthy(v: JVal) {
    v.Obj? || v.s != ""
  }

  /** `typeof v === "object" && !v.content`: the shell's test for a directory. */
  predicate IsDirLike(v: JVal) {
    v.Obj? && !("content" in v.fields && Truthy(v.fields["content"]))
  }

  /** `dir[name]` used as a condition: the entry, when present and truthy. */
  function Get(dir: Dir, name: string): Option<JVal> {
    if name in dir && Truthy(dir[name]) then Some(dir[name]) else None
  }

  // ---------------------------------------------------------------------
  // A reference description of what a walk finds

  /** The value reached from `v` by following own properties along `path`,
      with no truthiness or directory test. */
  function Raw(v: JVal, path: seq<string>): Option<JVal> {
    if |path| == 0 then Some(v)
    else if v.Obj? && path[0] in v.fields then Raw(v.fields[path[0]], path[1..])
    else None
  }

  /** Every proper, non-empty prefix of `path` leads from `v` to a
      directory-like value: a walk along `path` never passes through a file. */
  predicate Descends(v: JVal, path: seq<string>) {
    forall k :: 0 < k < |path| ==> Raw(v, path[..k]).Some? && IsDirLike(Raw(v, path[..k]).value)
  }

  /** The node the shell finds at `parts` below the root `fs`: reached by own
      properties, only through directory-like nodes, and truthy. The root
      itself is never tested. */
  function Located(fs: Dir, parts: seq<string>): Option<JVal> {
    var w := Raw(Obj(fs), parts);
    if w.Some? && Truthy(w.value) && Descends(Obj(fs), parts) then w else None
  }

  /** The directory the shell can use at `parts`: the root, or a located
      directory-like node. */
  function DirAt(fs: Dir, parts: seq<string>): Option<Dir> {
    if |parts| == 0 then Some(fs)
    else
      var n := Located(fs, parts);
      if n.Some? && IsDirLike(n.value) then Some(n.value.fields) else None
  }

  /** Taking the first step of a walk by hand. */
  lemma LocatedStep(dir: Dir, parts: seq<string>)
    requires |parts| > 0
    ensures Located(dir, parts) ==
      if Get(dir, parts[0]).None? then None
      else if |parts| == 1 then Get(dir, parts[0])
      else if IsDirLike(dir[parts[0]]) then Located(dir[parts[0]].fields, parts[1..])
      else None
  {
    var a := parts[0];
    var rest := parts[1..];
    if a in dir {
      var v := dir[a];
      assert Raw(Obj(dir), parts) == Raw(v, rest);
      assert parts[..1][1..] == [];
      assert Raw(Obj(dir), parts[..1]) == Some(v);
      if |parts| > 1 && IsDirLike(v) {
        assert v == Obj(v.fields);
        forall k | 1 < k < |parts|
          ensures Raw(Obj(dir), parts[..k]) == Raw(v, rest[..k - 1])
        {
          assert parts[..k][1..] == rest[..k - 1];
        }
        assert Descends(Obj(dir), parts) <==> Descends(v, rest) by {
          if Descends(v, rest) {
            forall k | 0 < k < |parts|
              ensures Raw(Obj(dir), parts[..k]).Some? && IsDirLike(Raw(Obj(dir), parts[..k]).value)
            {
              if k > 1 { assert Raw(Obj(dir), parts[..k]) == Raw(v, rest[..k - 1]); }
            }
          }
          if Descends(Obj(dir), parts) {
            forall k | 0 < k < |rest|
              ensures Raw(v, rest[..k]).Some? && IsDirLike(Raw(v, rest[..k]).value)
            {
              assert Raw(Obj(dir), parts[..k + 1]) == Raw(v, rest[..k]);
            }
          }
        }
      } else if |parts| > 1 {
        assert !Descends(Obj(dir), parts);
      }
    }
  }

  // ---------------------------------------------------------------------
  // The walks, one segment at a time

  /** The loop of `getCurrentDir`. */
  function CurrentDirFrom(dir: Dir, parts: seq<string>): (r: Option<Dir>)
    ensures AllNames(parts) ==> r == DirAt(dir, parts)
    decreases |parts|
  {
    if |parts| == 0 then Some(dir)
    else
      LocatedStep(dir, parts);
      match Get(dir, parts[0])
      case None => None
      case Some(v) =>
        if parts[0] != "" && IsDirLike(v) then CurrentDirFrom(v.fields, parts[1..])
        else None
  }

  /** The loop of `pathExists`. */
  function ExistsFrom(dir: Dir, parts: seq<string>): (r: bool)
    requires |parts| > 0
    ensures r == Located(dir, parts).Some?
    decreases |parts|
  {
    LocatedStep(dir, parts);
    match Get(dir, parts[0])
    case None => false
    case Some(v) =>
      if |parts| == 1 then true
      else if IsDirLike(v) then ExistsFrom(v.fields, parts[1..])
      else false
  }

  /** The loop of `isDirectory`. */
  function DirFrom(dir: Dir, parts: seq<string>): (r: bool)
    requires |parts| > 0
    ensures r == DirAt(dir, parts).Some?
    decreases |parts|
  {
    LocatedStep(dir, parts);
    match Get(dir, parts[0])
    case None => false
    case Some(v) =>
      if |parts| == 1 then IsDirLike(v)
      else if IsDirLike(v) then DirFrom(v.fields, parts[1..])
      else false
  }

  /** The loop of `getPathObject`. */
  function ObjectFrom(dir: Dir, parts: seq<string>): (r: Option<JVal>)
    requires |parts| > 0
    ensures r == Located(dir, parts)
    decreases |parts|
  {
    LocatedStep(dir, parts);
    match Get(dir, parts[0])
    case None => None
    case Some(v) =>
      if |parts| == 1 then Some(v)
      else if IsDirLike(v) then ObjectFrom(v.fields, parts[1..])
      else None
  }

  // ---------------------------------------------------------------------
  // The lookups, with the root `fs` and the cursor `cwd`

  /** `getCurrentDir()`: the directory the cursor names, when the shell can
      still reach it. */
  function GetCurrentDir(fs: Dir, cwd: string): (r: Option<Dir>)
    ensures r == DirAt(fs, Segments(cwd))
  {
    RootHasNoSegments();
    if cwd == "/" then Some(fs) else CurrentDirFrom(fs, Segments(cwd))
  }

  /** `pathExists(path)`. */
  function PathExists(fs: Dir, cwd: string, path: string): (r: bool)
    ensures r <==> Located(fs, Segments(Resolve(path, cwd))).Some?
  {
    RootHasNoSegments();
    var resolved := Resolve(path, cwd);
    if resolved == "/" then true
    else
      var parts := Segments(resolved);
      if |parts| == 0 then true
      else ExistsFrom(fs, parts)
  }

  /** `isDirectory(path)`. */
  function IsDirectory(fs: Dir, cwd: string, path: string): (r: bool)
    ensures path != "" || IsNormal(cwd) ==> (r <==> DirAt(fs, Segments(Resolve(path, cwd))).Some?)
  {
    ResolvedRoot(path, cwd);
    RootHasNoSegments();
    var resolved := Resolve(path, cwd);
    if resolved == "/" then true
    else
      var parts := Segments(resolved);
      if |parts| == 0 then
        false
      else DirFrom(fs, parts)
  }

  /** `getPathObject(path)`. */
  function GetPathObject(fs: Dir, cwd: string, path: string): (r: Option<JVal>)
    ensures path != "" || IsNormal(cwd) ==> r == Located(fs, Segments(Resolve(path, cwd)))
  {
    ResolvedRoot(path, cwd);
    RootHasNoSegments();
    var resolved := Resolve(path, cwd);
    if resolved == "/" then Some(Obj(fs))
    else
      var parts := Segments(resolved);
      if |parts| == 0 then
        None
      else ObjectFrom(fs, parts)
  }

  /** `getParentDir(path)`: the node one level up from the resolved path, the
      root when that node cannot be found, and nothing for the root itself. */
  function GetParentDir(fs: Dir, cwd: string, path: string): (r: Option<JVal>)
    ensures path != "" || IsNormal(cwd) ==>
      var parts := Segments(Resolve(path, cwd));
      if |parts| == 0 then r.None?
      else
        var up := Located(fs, parts[..|parts| - 1]);
        r == if up.Some? then up else Some(Obj(fs))
  {
    var resolved := Resolve(path, cwd);
    ResolvedRoot(path, cwd);
    RootHasNoSegments();
    if resolved == "/" then None
    else
      var parts := Segments(resolved);
      if |parts| == 0 then
        Some(Obj(fs))
      else
        var parentPath := "/" + Join(parts[..|parts| - 1], "/");
        assert parentPath == Canon(parts[..|parts| - 1]);
        SegmentsCanon(parts[..|parts| - 1]);
        match GetPathObject(fs, cwd, parentPath)
        case Some(v) => Some(v)
        case None => Some(Obj(fs))
  }

  // ---------------------------------------------------------------------
  // How the lookups agree

  /** Whatever `isDirectory` accepts, `pathExists` accepts. */
  lemma DirectoryExists(fs: Dir, cwd: string, path: string)
    ensures IsDirectory(fs, cwd, path) ==> PathExists(fs, cwd, path)
  {
    var resolved := Resolve(path, cwd);
    var parts := Segments(resolved);
    if resolved != "/" && |parts| > 0 && IsDirectory(fs, cwd, path) {
      assert DirFrom(fs, parts);
    }
  }

  /** `getPathObject` finds a node exactly when `pathExists` says it exists. */
  lemma ObjectIffExists(fs: Dir, cwd: string, path: string)
    requires path != "" || IsNormal(cwd)
    ensures GetPathObject(fs, cwd, path).Some? <==> PathExists(fs, cwd, path)
  {
  }

  /** With the cursor in canonical form, `getCurrentDir()` is not null exactly
      when `isDirectory(currentPath)` holds, and it is then the object
      `getPathObject(currentPath)` finds. */
  lemma CurrentDirIffDirectory(fs: Dir, cwd: string)
    requires IsNormal(cwd)
    ensures GetCurrentDir(fs, cwd).Some? <==> IsDirectory(fs, cwd, cwd)
    ensures GetCurrentDir(fs, cwd).Some? ==> GetPathObject(fs, cwd, cwd) == Some(Obj(GetCurrentDir(fs, cwd).value))
  {
    RootHasNoSegments();
    assert Resolve(cwd, cwd) == cwd;
  }

  // ---------------------------------------------------------------------
  // Adding one entry to a directory

  /** `dir[name] = v` on the directory object reached from `fs` along `at`. */
  function SetChild(fs: Dir, at: seq<string>, name: string, v: JVal): (r: Dir)
    ensures r.Keys == fs.Keys + (if |at| == 0 then {name} else {})
    ensures |at| == 0 ==> r[name] == v
    decreases |at|
  {
    if |at| == 0 then fs[name := v]
    else if at[0] in fs && fs[at[0]].Obj? then
      fs[at[0] := Obj(SetChild(fs[at[0]].fields, at[1..], name, v))]
    else fs
  }

  /** The directory at `at` gains the entry, keeping all its others. */
  lemma {:induction false} SetChildAt(fs: Dir, at: seq<string>, name: string, v: JVal, d: Dir)
    requires Raw(Obj(fs), at) == Some(Obj(d))
    ensures Raw(Obj(SetChild(fs, at, name, v)), at) == Some(Obj(d[name := v]))
    decreases |at|
  {
    if |at| > 0 {
      var child := fs[at[0]];
      SetChildAt(child.fields, at[1..], name, v, d);
    }
  }

  /** Every path that neither leads to the directory at `at` nor passes
      through the new entry reaches what it reached before. */
  lemma {:induction false} SetChildFrame(fs: Dir, at: seq<string>, name: string, v: JVal, q: seq<string>)
    requires !(q <= at) && !(at + [name] <= q)
    ensures Raw(Obj(SetChild(fs, at, name, v)), q) == Raw(Obj(fs), q)
    decreases |at|
  {
    var r := SetChild(fs, at, name, v);
    if |at| == 0 {
      assert q[..1] != [name];
      assert q[0] != name;
    } else if at[0] in fs && fs[at[0]].Obj? && q[0] == at[0] {
      assert !(q[1..] <= at[1..]);
      assert !(at[1..] + [name] <= q[1..]);
      SetChildFrame(fs[at[0]].fields, at[1..], name, v, q[1..]);
    }
  }

  /** The directories on the way to `at` keep their entry names. */
  lemma {:induction false} SetChildKeepsAncestors(fs: Dir, at: seq<string>, name: string, v: JVal, k: nat)
    requires k < |at|
    requires Raw(Obj(fs), at).Some? && Raw(Obj(fs), at).value.Obj?
    ensures Raw(Obj(fs), at[..k]).Some? && Raw(Obj(fs), at[..k]).value.Obj?
    ensures Raw(Obj(SetChild(fs, at, name, v)), at[..k]).Some?
    ensures Raw(Obj(SetChild(fs, at, name, v)), at[..k]).value.Obj?
    ensures Raw(Obj(SetChild(fs, at, name, v)), at[..k]).value.fields.Keys
         == Raw(Obj(fs), at[..k]).value.fields.Keys
    decreases |at|
  {
    var child := fs[at[0]];
    if k == 0 {
      assert at[..0] == [];
    } else {
      assert child.Obj?;
      assert at[..k][1..] == at[1..][..k - 1];
      SetChildKeepsAncestors(child.fields, at[1..], name, v, k - 1);
    }
  }

  /** The tree after `SetChild` is the tree before with exactly one entry
      `name := v` put into the directory `d` at `at`: every path off the way
      to `at` and off the new entry reaches what it reached before, and the
      directories on the way keep their entry names. */
  ghost predicate Added(before: Dir, after: Dir, at: seq<string>, d: Dir, name: string, v: JVal) {
    && Raw(Obj(before), at) == Some(Obj(d))
    && Raw(Obj(after), at) == Some(Obj(d[name := v]))
    && (forall q :: !(q <= at) && !(at + [name] <= q) ==> Raw(Obj(after), q) == Raw(Obj(before), q))
    && (forall k :: 0 <= k < |at| ==>
          && Raw(Obj(after), at[..k]).Some? && Raw(Obj(after), at[..k]).value.Obj?
          && Raw(Obj(before), at[..k]).Some? && Raw(Obj(before), at[..k]).value.Obj?
          && Raw(Obj(after), at[..k]).value.fields.Keys == Raw(Obj(before), at[..k]).value.fields.Keys)
  }

  lemma SetChildAdds(fs: Dir, at: seq<string>, d: Dir, name: string, v: JVal)
    requires Raw(Obj(fs), at) == Some(Obj(d))
    ensures Added(fs, SetChild(fs, at, name, v), at, d, name, v)
  {
    SetChildAt(fs, at, name, v, d);
    forall q | !(q <= at) && !(at + [name] <= q)
      ensures Raw(Obj(SetChild(fs, at, name, v)), q) == Raw(Obj(fs), q)
    {
      SetChildFrame(fs, at, name, v, q);
    }
    forall k | 0 <= k < |at|
      ensures Raw(Obj(SetChild(fs, at, name, v)), at[..k]).Some?
      ensures Raw(Obj(SetChild(fs, at, name, v)), at[..k]).value.Obj?
      ensures Raw(Obj(fs), at[..k]).Some? && Raw(Obj(fs), at[..k]).value.Obj?
      ensures Raw(Obj(SetChild(fs, at, name, v)), at[..k]).value.fields.Keys
           == Raw(Obj(fs), at[..k]).value.fields.Keys
    {
      SetChildKeepsAncestors(fs, at, name, v, k);
    }
  }

  /** A usable directory is the value its path reaches. */
  lemma DirAtRaw(fs: Dir, parts: seq<string>)
    requires DirAt(fs, parts).Some?
    ensures Raw(Obj(fs), parts) == Some(Obj(DirAt(fs, parts).value))
  {
  }

  /** Taking the first step towards a usable directory. */
  lemma DirAtStep(fs: Dir, parts: seq<string>)
    requires |parts| > 0
    ensures DirAt(fs, parts) ==
      if Get(fs, parts[0]).Some? && IsDirLike(fs[parts[0]]) then DirAt(fs[parts[0]].fields, parts[1..])
      else None
  {
    LocatedStep(fs, parts);
  }

  /** One more segment below a usable directory: a usable directory when the
      entry is directory-like. */
  lemma {:induction false} DirAtSnoc(fs: Dir, parts: seq<string>, name: string)
    ensures DirAt(fs, parts + [name]) ==
      if DirAt(fs, parts).Some? && Get(DirAt(fs, parts).value, name).Some?
         && IsDirLike(DirAt(fs, parts).value[name])
      then Some(DirAt(fs, parts).value[name].fields)
      else None
    decreases |parts|
  {
    DirAtStep(fs, parts + [name]);
    if |parts| == 0 {
      assert parts + [name] == [name];
    } else {
      assert (parts + [name])[1..] == parts[1..] + [name];
      DirAtStep(fs, parts);
      if Get(fs, parts[0]).Some? && IsDirLike(fs[parts[0]]) {
        DirAtSnoc(fs[parts[0]].fields, parts[1..], name);
      }
    }
  }

  /** `SetChild` changes a single entry of `fs`: the new one at the top, or the
      first directory on the way. */
  lemma SetChildTouchesOne(fs: Dir, at: seq<string>, name: string, v: JVal, key: string)
    requires key != (if |at| == 0 then name else at[0])
    ensures key in SetChild(fs, at, name, v) <==> key in fs
    ensures key in fs ==> SetChild(fs, at, name, v)[key] == fs[key]
  {
  }

  /** Adding an entry keeps the directory usable, now with the new entry,
      unless the entry is `content` and the directory is not the root. */
  lemma {:induction false} AddKeepsDir(fs: Dir, at: seq<string>, name: string, v: JVal)
    requires DirAt(fs, at).Some?
    requires name != "content" || |at| == 0
    ensures DirAt(SetChild(fs, at, name, v), at) == Some(DirAt(fs, at).value[name := v])
    decreases |at|
  {
    var fs' := SetChild(fs, at, name, v);
    if |at| > 0 {
      var a := at[0];
      DirAtStep(fs, at);
      DirAtStep(fs', at);
      var c := fs[a];
      var inner := SetChild(c.fields, at[1..], name, v);
      assert fs' == fs[a := Obj(inner)];
      AddKeepsDir(c.fields, at[1..], name, v);
      if |at| > 1 {
        DirAtStep(c.fields, at[1..]);
        assert at[1..][0] != "content";
      }
      SetChildTouchesOne(c.fields, at[1..], name, v, "content");
      assert IsDirLike(Obj(inner));
    }
  }

  /** A truthy `content` entry turns a directory below the root into
      something the shell no longer treats as a directory. */
  lemma ContentBreaksDir(fs: Dir, at: seq<string>, v: JVal)
    requires |at| > 0 && DirAt(fs, at).Some?
    requires Truthy(v)
    ensures DirAt(SetChild(fs, at, "content", v), at).None?
  {
    var fs' := SetChild(fs, at, "content", v);
    DirAtRaw(fs, at);
    SetChildAt(fs, at, "content", v, DirAt(fs, at).value);
    if DirAt(fs', at).Some? {
      DirAtRaw(fs', at);
      assert false;
    }
  }

  /** One more step of a walk over own properties. */
  lemma {:induction false} RawSnoc(v: JVal, p: seq<string>, n: string)
    ensures Raw(v, p + [n]) ==
      if Raw(v, p).Some? && Raw(v, p).value.Obj? && n in Raw(v, p).value.fields
      then Some(Raw(v, p).value.fields[n])
      else None
    decreases |p|
  {
    if |p| == 0 {
      assert p + [n] == [n];
    } else {
      assert (p + [n])[1..] == p[1..] + [n];
      if v.Obj? && p[0] in v.fields {
        RawSnoc(v.fields[p[0]], p[1..], n);
      }
    }
  }

  /** `SetChild` deletes nothing: every node that could be reached still
      can, provided the entry it replaces, if any, is a string, which has
      nothing below it. */
  lemma {:induction false} SetChildKeepsPaths(fs: Dir, at: seq<string>, name: string, v: JVal, q: seq<string>)
    requires Raw(Obj(fs), at + [name]).Some? ==> Raw(Obj(fs), at + [name]).value.Str?
    requires Raw(Obj(fs), q).Some?
    ensures Raw(Obj(SetChild(fs, at, name, v)), q).Some?
    decreases |at|
  {
    var fs' := SetChild(fs, at, name, v);
    if |q| > 0 {
      if |at| == 0 {
        assert at + [name] == [name];
        if q[0] == name {
          assert name in fs;
          assert Raw(Obj(fs), [name]) == Raw(fs[name], []);
          assert fs[name].Str?;
          assert |q[1..]| == 0;
        } else {
          assert fs'[q[0]] == fs[q[0]];
        }
      } else if at[0] in fs && fs[at[0]].Obj? {
        var child := fs[at[0]].fields;
        if q[0] == at[0] {
          assert (at + [name])[1..] == at[1..] + [name];
          SetChildKeepsPaths(child, at[1..], name, v, q[1..]);
        } else {
          assert fs'[q[0]] == fs[q[0]];
        }
      }
    }
  }
}
