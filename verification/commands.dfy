/**
 The command handlers of the shell (`commands`, script.js): each is a
 transformer of the session state that returns what the handler returns.
 The session is the filesystem root, the cursor `currentPath`, and whether
 `mario` has been called.
 */
module Commands {
  import opened Wrappers
  import opened Text
  import opened Order
  import opened Paths
  import opened Tree

  /** The session. The cursor is always canonical: it starts at `/` and is
      only ever set to `/` or to a resolved path. `marioCalled` records
      that `mario` has been run; the game itself is outside the model. */
  datatype Shell = Shell(fs: Dir, cwd: Path, marioCalled: bool)

  /** A handler's new session and return value. Handlers return strings,
      except that `cat` returns a node's `content` as it is, which need not
      be a string. */
  datatype Reply = Reply(shell: Shell, out: JVal)

  /** The session at start-up: the cursor on a usable root that holds
      exactly the empty directories `home`, `var` and `tmp`, and `mario` not
      yet run. */
  function Initial(): (r: Shell)
    ensures r.cwd == "/" && !r.marioCalled
    ensures Here(r) == Some(r.fs)
    ensures r.fs.Keys == {"home", "var", "tmp"}
    ensures forall k :: k in r.fs ==> DirAt(r.fs, [k]) == Some(map[])
  {
    RootHasNoSegments();
    var fs := map["home" := Obj(map[]), "var" := Obj(map[]), "tmp" := Obj(map[])];
    EmptyDirsUsable(fs);
    Shell(fs, "/", false)
  }

  /** Entries that are empty objects are usable, empty directories. */
  lemma EmptyDirsUsable(fs: Dir)
    requires forall k :: k in fs ==> fs[k] == Obj(map[])
    ensures forall k :: k in fs ==> DirAt(fs, [k]) == Some(map[])
  {
    forall k | k in fs
      ensures DirAt(fs, [k]) == Some(map[])
    {
      LocatedStep(fs, [k]);
    }
  }

  const AccessError: string := "Error: Cannot access current directory"

  /** What `mkdir` and `touch` accept as a new entry's name. */
  predicate ValidName(name: string) {
    !('/' in name || name == "" || name == "." || name == "..")
  }

  /** The directory the cursor names, when the shell can still use it. */
  function Here(sh: Shell): Option<Dir> {
    DirAt(sh.fs, Segments(sh.cwd))
  }

  /** The empty file `touch` creates. Its `content` is falsy. */
  const EmptyFile: JVal := Obj(map["content" := Str("")])

  /** `pwd`: the cursor, always a well-formed absolute path. */
  function Pwd(sh: Shell): (r: Reply)
    ensures r.shell == sh
    ensures r.out == Str(sh.cwd)
    ensures r.out.Str? && WellFormed(r.out.s)
  {
    NormalIffWellFormed(sh.cwd);
    Reply(sh, Str(sh.cwd))
  }

  /** `ls`: the names in the current directory in ascending order, two spaces
      apart; `(empty)` when there are none. */
  function Ls(sh: Shell, args: seq<string>): (r: Reply)
    ensures r.shell == sh
    ensures Here(sh).None? ==> r.out == Str(AccessError)
    ensures Here(sh).Some? ==> r.out == Str(Listing(Here(sh).value))
  {
    match GetCurrentDir(sh.fs, sh.cwd)
    case None => Reply(sh, Str(AccessError))
    case Some(dir) => Reply(sh, Str(Listing(dir)))
  }

  /** What `ls` prints for a usable directory: `(empty)`, or its one
      ascending listing with two spaces between names. */
  function Listing(dir: Dir): (out: string)
    ensures dir == map[] ==> out == "(empty)"
    ensures dir != map[] ==>
      forall names :: Ascending(names) && (forall x :: x in names <==> x in dir) ==>
        out == Join(names, "  ")
  {
    var items := Sort(dir.Keys);
    ListingUnique(dir);
    if |items| == 0 then "(empty)" else Join(items, "  ")
  }

  /** The sorted names of a directory are its only ascending listing. */
  lemma ListingUnique(dir: Dir)
    ensures |Sort(dir.Keys)| == 0 <==> dir == map[]
    ensures forall names :: Ascending(names) && (forall x :: x in names <==> x in dir) ==>
      names == Sort(dir.Keys)
  {
    var items := Sort(dir.Keys);
    if dir != map[] {
      var k :| k in dir;
      assert k in items;
    }
    forall names | Ascending(names) && (forall x :: x in names <==> x in dir) ensures names == items {
      AscendingUnique(names, items);
    }
  }

  /** `cd`: moves the cursor to the resolved target when that is a usable
      directory; otherwise reports why and changes nothing. */
  function Cd(sh: Shell, args: seq<string>): (r: Reply)
    ensures r.shell.fs == sh.fs && r.shell.marioCalled == sh.marioCalled
    ensures r.out != Str("") ==> r.shell == sh
    ensures r.out == Str("") ==> Here(r.shell).Some?
    ensures |args| == 0 ==> r.shell.cwd == "/" && r.out == Str("")
    ensures |args| > 0 ==>
      var res := Resolve(args[0], sh.cwd);
      var node := Located(sh.fs, Segments(res));
      if res == "/" then r.shell.cwd == "/" && r.out == Str("")
      else if node.None? then r.out == Str("cd: " + args[0] + ": No such file or directory")
      else if !IsDirLike(node.value) then r.out == Str("cd: " + args[0] + ": Not a directory")
      else r.shell.cwd == res && r.out == Str("")
  {
    RootHasNoSegments();
    if |args| == 0 then Reply(sh.(cwd := "/"), Str(""))
    else
      var target := args[0];
      var resolved := Resolve(target, sh.cwd);
      ResolveIdempotent(target, sh.cwd);
      ResolvedRoot(target, sh.cwd);
      if resolved == "" || resolved == "/" then Reply(sh.(cwd := "/"), Str(""))
      else if !PathExists(sh.fs, sh.cwd, resolved) then
        Reply(sh, Str("cd: " + target + ": No such file or directory"))
      else if !IsDirectory(sh.fs, sh.cwd, resolved) then
        Reply(sh, Str("cd: " + target + ": Not a directory"))
      else Reply(sh.(cwd := resolved), Str(""))
  }

  /** `mkdir name`: adds exactly the empty directory `name` to the current
      directory, unless the name is invalid, the current directory cannot be
      used, or the name is taken; in those cases nothing changes. */
  function Mkdir(sh: Shell, args: seq<string>): (r: Reply)
    ensures r.shell.cwd == sh.cwd && r.shell.marioCalled == sh.marioCalled
    ensures r.out != Str("") ==> r.shell == sh
    ensures |args| == 0 ==> r.out == Str("mkdir: missing operand")
    ensures |args| > 0 ==>
      var name := args[0];
      if !ValidName(name) then r.out == Str("mkdir: cannot create directory '" + name + "': Invalid name")
      else if Here(sh).None? then r.out == Str(AccessError)
      else if Get(Here(sh).value, name).Some? then
        r.out == Str("mkdir: cannot create directory '" + name + "': File exists")
      else
        r.out == Str("") && Added(sh.fs, r.shell.fs, Segments(sh.cwd), Here(sh).value, name, Obj(map[]))
  {
    if |args| == 0 then Reply(sh, Str("mkdir: missing operand"))
    else
      var dirName := args[0];
      if '/' in dirName || dirName == "" || dirName == "." || dirName == ".." then
        Reply(sh, Str("mkdir: cannot create directory '" + dirName + "': Invalid name"))
      else match GetCurrentDir(sh.fs, sh.cwd)
        case None => Reply(sh, Str(AccessError))
        case Some(currentDir) =>
          if Get(currentDir, dirName).Some? then
            Reply(sh, Str("mkdir: cannot create directory '" + dirName + "': File exists"))
          else
            var at := Segments(sh.cwd);
            DirAtRaw(sh.fs, at);
            SetChildAdds(sh.fs, at, currentDir, dirName, Obj(map[]));
            Reply(sh.(fs := SetChild(sh.fs, at, dirName, Obj(map[]))), Str(""))
  }

  /** `touch name`: adds exactly the empty file `name` to the current
      directory when no truthy entry has that name; an existing entry is left
      alone and the answer is still empty. */
  function Touch(sh: Shell, args: seq<string>): (r: Reply)
    ensures r.shell.cwd == sh.cwd && r.shell.marioCalled == sh.marioCalled
    ensures r.out != Str("") ==> r.shell == sh
    ensures |args| == 0 ==> r.out == Str("touch: missing file operand")
    ensures |args| > 0 ==>
      var name := args[0];
      if !ValidName(name) then r.out == Str("touch: cannot create file '" + name + "': Invalid name")
      else if Here(sh).None? then r.out == Str(AccessError)
      else if Get(Here(sh).value, name).Some? then r == Reply(sh, Str(""))
      else r.out == Str("") && Added(sh.fs, r.shell.fs, Segments(sh.cwd), Here(sh).value, name, EmptyFile)
  {
    if |args| == 0 then Reply(sh, Str("touch: missing file operand"))
    else
      var fileName := args[0];
      if '/' in fileName || fileName == "" || fileName == "." || fileName == ".." then
        Reply(sh, Str("touch: cannot create file '" + fileName + "': Invalid name"))
      else match GetCurrentDir(sh.fs, sh.cwd)
        case None => Reply(sh, Str(AccessError))
        case Some(currentDir) =>
          if Get(currentDir, fileName).None? then
            var at := Segments(sh.cwd);
            DirAtRaw(sh.fs, at);
            SetChildAdds(sh.fs, at, currentDir, fileName, EmptyFile);
            Reply(sh.(fs := SetChild(sh.fs, at, fileName, EmptyFile)), Str(""))
          else Reply(sh, Str(""))
  }

  /** `cat path`: the truthy `content` of the node the path leads to. A node
      whose `content` is missing or falsy is reported as a directory, and so
      is every file `touch` made. Nothing changes. */
  function Cat(sh: Shell, args: seq<string>): (r: Reply)
    ensures r.shell == sh
    ensures |args| == 0 ==> r.out == Str("cat: missing file operand")
    ensures |args| > 0 ==>
      var node := Located(sh.fs, Segments(Resolve(args[0], sh.cwd)));
      if node.None? then r.out == Str("cat: " + args[0] + ": No such file or directory")
      else if IsDirLike(node.value) then r.out == Str("cat: " + args[0] + ": Is a directory")
      else if node.value.Obj? then r.out == node.value.fields["content"] && Truthy(r.out)
      else r.out == Str("")
  {
    if |args| == 0 then Reply(sh, Str("cat: missing file operand"))
    else
      var fileName := args[0];
      var resolved := Resolve(fileName, sh.cwd);
      ResolveIdempotent(fileName, sh.cwd);
      if !PathExists(sh.fs, sh.cwd, resolved) then
        Reply(sh, Str("cat: " + fileName + ": No such file or directory"))
      else match GetPathObject(sh.fs, sh.cwd, resolved)
        case None => assert false; Reply(sh, Str(""))
        case Some(fileObj) =>
          if IsDirLike(fileObj) then Reply(sh, Str("cat: " + fileName + ": Is a directory"))
          else if fileObj.Obj? && "content" in fileObj.fields then Reply(sh, fileObj.fields["content"])
          else Reply(sh, Str(""))
  }

  /** `mario`: starts the game, which is outside the model, records that it
      was called, and prints nothing. */
  function Mario(sh: Shell): (r: Reply)
    ensures r.shell.fs == sh.fs && r.shell.cwd == sh.cwd
    ensures r.shell.marioCalled && r.out == Str("")
  {
    Reply(sh.(marioCalled := true), Str(""))
  }

  // ---------------------------------------------------------------------
  // Properties across commands

  /** A second `touch` of the same name changes nothing. It answers as the
      first did, except that an empty file called `content` created below
      the root leaves the cursor unusable. */
  lemma TouchTwice(sh: Shell, args: seq<string>)
    ensures Touch(Touch(sh, args).shell, args).shell == Touch(sh, args).shell
    ensures (|args| == 0 || args[0] != "content" || sh.cwd == "/") ==>
      Touch(Touch(sh, args).shell, args).out == Touch(sh, args).out
  {
    if |args| > 0 && ValidName(args[0]) && Here(sh).Some? && Get(Here(sh).value, args[0]).None? {
      TouchAgain(sh, args);
    }
  }

  /** `touch` again right after it created a file. */
  lemma TouchAgain(sh: Shell, args: seq<string>)
    requires |args| > 0 && ValidName(args[0]) && Here(sh).Some? && Get(Here(sh).value, args[0]).None?
    ensures Touch(Touch(sh, args).shell, args).shell == Touch(sh, args).shell
    ensures args[0] != "content" || sh.cwd == "/" ==> Touch(Touch(sh, args).shell, args).out == Str("")
  {
    var name := args[0];
    var at := Segments(sh.cwd);
    var made := Touch(sh, args).shell;
    assert made == sh.(fs := SetChild(sh.fs, at, name, EmptyFile));
    if name != "content" {
      AddKeepsDir(sh.fs, at, name, EmptyFile);
      assert Get(Here(made).value, name).Some?;
    } else if sh.cwd == "/" {
      RootHasNoSegments();
      assert Get(Here(made).value, name).Some?;
    } else {
      RootIffNoSegments(sh.cwd);
      ContentBreaksDir(sh.fs, at, EmptyFile);
    }
  }

  /** What a successful `mkdir` did: the name was valid and free in a usable
      current directory, and the new directory went there. */
  lemma MkdirMade(sh: Shell, args: seq<string>)
    requires Mkdir(sh, args).out == Str("")
    ensures |args| > 0 && ValidName(args[0]) && Here(sh).Some? && Get(Here(sh).value, args[0]).None?
    ensures Mkdir(sh, args).shell == sh.(fs := SetChild(sh.fs, Segments(sh.cwd), args[0], Obj(map[])))
  {
  }

  /** What a `touch` that changed the tree did: the name was valid and free
      in a usable current directory, and the empty file went there. */
  lemma TouchMade(sh: Shell, args: seq<string>)
    requires Touch(sh, args).shell != sh
    ensures |args| > 0 && ValidName(args[0]) && Here(sh).Some? && Get(Here(sh).value, args[0]).None?
    ensures Touch(sh, args).shell == sh.(fs := SetChild(sh.fs, Segments(sh.cwd), args[0], EmptyFile))
  {
  }

  /** `cd name` enters a usable child directory of the cursor. */
  lemma CdChild(sh: Shell, name: string)
    requires ValidName(name)
    requires DirAt(sh.fs, Segments(sh.cwd) + [name]).Some?
    ensures Cd(sh, [name]).out == Str("")
    ensures Cd(sh, [name]).shell.cwd == Canon(Segments(sh.cwd) + [name])
    ensures Here(Cd(sh, [name]).shell) == DirAt(sh.fs, Segments(sh.cwd) + [name])
  {
    assert [name][0] == name;
    ResolveChild(name, sh.cwd);
    RootHasNoSegments();
    var node := Located(sh.fs, Segments(sh.cwd) + [name]);
    assert node.Some? && IsDirLike(node.value);
  }

  /** After `mkdir name` succeeds, `cd name` enters the new, empty
      directory. The name `content` is the exception below the root: it
      disables the directory it is made in. The root is never tested for
      `content`, so there it behaves like any other name. */
  lemma MkdirThenCd(sh: Shell, name: string)
    requires Mkdir(sh, [name]).out == Str("")
    requires name != "content" || sh.cwd == "/"
    ensures var moved := Cd(Mkdir(sh, [name]).shell, [name]);
      moved.out == Str("") && moved.shell.cwd == Canon(Segments(sh.cwd) + [name])
    ensures Ls(Cd(Mkdir(sh, [name]).shell, [name]).shell, []).out == Str("(empty)")
    ensures Pwd(Cd(Mkdir(sh, [name]).shell, [name]).shell).out == Str(Canon(Segments(sh.cwd) + [name]))
  {
    MkdirMade(sh, [name]);
    assert [name][0] == name;
    var made := Mkdir(sh, [name]).shell;
    var at := Segments(sh.cwd);
    RootHasNoSegments();
    AddKeepsDir(sh.fs, at, name, Obj(map[]));
    DirAtSnoc(made.fs, at, name);
    assert DirAt(made.fs, at + [name]) == Some(map[]);
    CdChild(made, name);
  }

  /** `touch` makes a node the shell treats as a directory, so `cat`
      refuses it. */
  lemma TouchedFileIsDirectory(sh: Shell, name: string)
    requires Here(sh).Some? && Get(Here(sh).value, name).None?
    requires Touch(sh, [name]).out == Str("")
    requires name != "content" || sh.cwd == "/"
    ensures Cat(Touch(sh, [name]).shell, [name]).out == Str("cat: " + name + ": Is a directory")
  {
    TouchedFileNode(sh, name);
    CatChildDir(Touch(sh, [name]).shell, name);
  }

  /** `cd` enters a freshly touched file. */
  lemma CdIntoTouchedFile(sh: Shell, name: string)
    requires Here(sh).Some? && Get(Here(sh).value, name).None?
    requires Touch(sh, [name]).out == Str("")
    requires name != "content" || sh.cwd == "/"
    ensures var moved := Cd(Touch(sh, [name]).shell, [name]);
      moved.out == Str("") && moved.shell.cwd == Canon(Segments(sh.cwd) + [name])
      && Here(moved.shell) == Some(map["content" := Str("")])
  {
    TouchedFileNode(sh, name);
    CdChild(Touch(sh, [name]).shell, name);
  }

  /** Inside a freshly touched file, `ls` shows its one key, `content`. */
  lemma LsInTouchedFile(sh: Shell, name: string)
    requires Here(sh).Some? && Get(Here(sh).value, name).None?
    requires Touch(sh, [name]).out == Str("")
    requires name != "content" || sh.cwd == "/"
    ensures Ls(Cd(Touch(sh, [name]).shell, [name]).shell, []).out == Str("content")
  {
    CdIntoTouchedFile(sh, name);
    ListingOne("content", Str(""));
  }

  /** A directory with one entry is listed as that entry's name. */
  lemma ListingOne(k: string, v: JVal)
    ensures Listing(map[k := v]) == k
  {
    assert Ascending([k]);
    assert forall x :: x in [k] <==> x in map[k := v];
    assert Join([k], "  ") == k;
  }

  /** Where `touch` puts the empty file: a usable directory holding only the
      falsy `content`. */
  lemma TouchedFileNode(sh: Shell, name: string)
    requires Here(sh).Some? && Get(Here(sh).value, name).None?
    requires Touch(sh, [name]).out == Str("")
    requires name != "content" || sh.cwd == "/"
    ensures var made := Touch(sh, [name]).shell;
      && ValidName(name) && made.cwd == sh.cwd
      && DirAt(made.fs, Segments(sh.cwd) + [name]) == Some(map["content" := Str("")])
  {
    assert [name][0] == name;
    var made := Touch(sh, [name]).shell;
    var at := Segments(sh.cwd);
    assert made.fs == SetChild(sh.fs, at, name, EmptyFile);
    RootHasNoSegments();
    AddKeepsDir(sh.fs, at, name, EmptyFile);
    DirAtSnoc(made.fs, at, name);
  }

  /** `cat name` on a usable child directory says it is a directory. */
  lemma CatChildDir(sh: Shell, name: string)
    requires ValidName(name)
    requires DirAt(sh.fs, Segments(sh.cwd) + [name]).Some?
    ensures Cat(sh, [name]).out == Str("cat: " + name + ": Is a directory")
  {
    assert [name][0] == name;
    ResolveChild(name, sh.cwd);
    var node := Located(sh.fs, Segments(sh.cwd) + [name]);
    assert node.Some? && IsDirLike(node.value);
  }

  /** Creating an entry called `content` below the root makes the current
      directory unusable: `ls` then reports that it cannot access it. */
  lemma ContentBlocksCwd(sh: Shell)
    requires sh.cwd != "/"
    requires Here(sh).Some? && Get(Here(sh).value, "content").None?
    ensures Here(Mkdir(sh, ["content"]).shell).None?
    ensures Ls(Mkdir(sh, ["content"]).shell, []).out == Str(AccessError)
    ensures Here(Touch(sh, ["content"]).shell).None?
    ensures Ls(Touch(sh, ["content"]).shell, []).out == Str(AccessError)
  {
    RootIffNoSegments(sh.cwd);
    ContentBreaksDir(sh.fs, Segments(sh.cwd), Obj(map[]));
    ContentBreaksDir(sh.fs, Segments(sh.cwd), EmptyFile);
  }

  /** `ls` lists a usable directory as its one ascending enumeration. */
  lemma LsLists(sh: Shell, args: seq<string>, names: seq<string>)
    requires Here(sh).Some? && Here(sh).value != map[]
    requires Ascending(names) && forall x :: x in names <==> x in Here(sh).value
    ensures Ls(sh, args).out == Str(Join(names, "  "))
  {
    assert Ls(sh, args).out == Str(Listing(Here(sh).value));
  }

  /** The start-up listing. */
  lemma InitialListing()
    ensures Ls(Initial(), []).out == Str(Join(["home", "tmp", "var"], "  "))
  {
    RootHasNoSegments();
    assert Here(Initial()) == Some(Initial().fs);
    var names := ["home", "tmp", "var"];
    assert Below("home", "tmp") && Below("tmp", "var") && Below("home", "var");
    assert Ascending(names);
    assert forall x :: x in names <==> x in Initial().fs;
    assert "home" in Initial().fs;
    LsLists(Initial(), [], names);
  }
}
