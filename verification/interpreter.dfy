/**
 The interpreter loop (`parseCommand` and `executeCommand`, script.js): a
 line is trimmed and cut into words, the first word picks a handler, and
 the rest are its arguments. A blank line does nothing at all.
 */
module Interpreter {
  import opened Wrappers
  import opened Text
  import opened Paths
  import opened Tree
  import opened Commands

  /** A parsed line: the command word and its arguments. */
  datatype Parsed = Parsed(command: string, args: seq<string>)

  /** `parseCommand`: nothing for a blank line; otherwise the pieces of
      the trimmed line between runs of whitespace. They are non-empty, hold
      no whitespace, and together spell the line with its whitespace taken
      out. */
  function ParseCommand(input: string): (r: Option<Parsed>)
    ensures r.None? <==> Within(input, Whitespace)
    ensures r.Some? ==> r.value.command != "" && Avoids(r.value.command, Whitespace)
    ensures r.Some? ==> forall i :: 0 <= i < |r.value.args| ==>
      r.value.args[i] != "" && Avoids(r.value.args[i], Whitespace)
    ensures r.Some? ==> r.value.command + Concat(r.value.args) == Remove(input, Whitespace)
    ensures r.Some? ==> [r.value.command] + r.value.args == SplitRuns(Trim(input), Whitespace)
    ensures r.Some? ==> [r.value.command] + r.value.args == Words(input)
  {
    var trimmed := Trim(input);
    TrimKeepsText(input, Whitespace);
    if trimmed == "" then None
    else
      var parts := Words(trimmed);
      LineWords(input);
      WordsOfTrim(input);
      Some(Parsed(parts[0], parts[1..]))
  }

  /** The words of a line that is not blank, cut into command and
      arguments. */
  lemma LineWords(input: string)
    requires Trim(input) != ""
    ensures var parts := Words(Trim(input));
      && |parts| > 0
      && parts[0] != "" && Avoids(parts[0], Whitespace)
      && (forall i :: 0 <= i < |parts[1..]| ==> parts[1..][i] != "" && Avoids(parts[1..][i], Whitespace))
      && parts[0] + Concat(parts[1..]) == Remove(input, Whitespace)
      && [parts[0]] + parts[1..] == SplitRuns(Trim(input), Whitespace)
  {
    TrimmedWords(input);
    HeadTail(Words(Trim(input)));
  }

  /** The words of a line that is not blank. */
  lemma TrimmedWords(input: string)
    requires Trim(input) != ""
    ensures var parts := Words(Trim(input));
      && |parts| > 0
      && (forall i :: 0 <= i < |parts| ==> parts[i] != "" && Avoids(parts[i], Whitespace))
      && Concat(parts) == Remove(input, Whitespace)
      && parts == SplitRuns(Trim(input), Whitespace)
  {
    var trimmed := Trim(input);
    TrimKeepsText(input, Whitespace);
    TrimEnds(input, Whitespace);
    WordsSpec(trimmed);
    WordsAreRuns(trimmed);
    assert !Within(trimmed, Whitespace) by {
      assert trimmed[0] !in Whitespace;
    }
  }

  /** A list of words seen as its first word and the rest. */
  lemma HeadTail(parts: seq<string>)
    requires |parts| > 0
    requires forall i :: 0 <= i < |parts| ==> parts[i] != "" && Avoids(parts[i], Whitespace)
    ensures parts[0] != "" && Avoids(parts[0], Whitespace)
    ensures forall i :: 0 <= i < |parts[1..]| ==> parts[1..][i] != "" && Avoids(parts[1..][i], Whitespace)
    ensures Concat(parts) == parts[0] + Concat(parts[1..])
    ensures [parts[0]] + parts[1..] == parts
  {
  }

  /** The handler a command word names. */
  predicate Known(command: string) {
    command in {"pwd", "ls", "cd", "mkdir", "touch", "cat", "mario"}
  }

  /** Runs the handler `command` names. Only `cd` moves the cursor, only
      `mkdir` and `touch` change the tree, only `mario` marks `mario` as called,
      and an unknown word changes nothing and is reported. */
  function Dispatch(sh: Shell, command: string, args: seq<string>): (r: Reply)
    ensures r.shell.cwd != sh.cwd ==> command == "cd"
    ensures r.shell.fs != sh.fs ==> command == "mkdir" || command == "touch"
    ensures r.shell.marioCalled <==> sh.marioCalled || command == "mario"
    ensures !Known(command) ==> r == Reply(sh, Str("Command not found: " + command))
  {
    match command
    case "pwd" => Pwd(sh)
    case "ls" => Ls(sh, args)
    case "cd" => Cd(sh, args)
    case "mkdir" => Mkdir(sh, args)
    case "touch" => Touch(sh, args)
    case "cat" => Cat(sh, args)
    case "mario" => Mario(sh)
    case _ => Reply(sh, Str("Command not found: " + command))
  }

  /** `executeCommand` without the display: nothing for a blank line,
      otherwise the reply of the named handler. */
  function Execute(sh: Shell, input: string): (r: Option<Reply>)
    ensures r.None? <==> Within(input, Whitespace)
    ensures r.Some? ==> r.value.shell.cwd == sh.cwd || ParseCommand(input).value.command == "cd"
    ensures r.Some? ==>
      r.value.shell.fs == sh.fs || ParseCommand(input).value.command in {"mkdir", "touch"}
  {
    match ParseCommand(input)
    case None => None
    case Some(p) => Some(Dispatch(sh, p.command, p.args))
  }

  /** Some line of `lines` runs one of the commands `names`. */
  predicate Issues(lines: seq<string>, names: set<string>)
    decreases |lines|
  {
    && |lines| > 0
    && ((ParseCommand(lines[0]).Some? && ParseCommand(lines[0]).value.command in names)
        || Issues(lines[1..], names))
  }

  /** The session after a sequence of lines, each run through
      `executeCommand`. The cursor moves only if some line is a `cd`, the
      tree changes only if some line is a `mkdir` or a `touch`, and `mario`
      has been called exactly when it had been before or some line calls
      it. */
  function Run(sh: Shell, lines: seq<string>): (r: Shell)
    ensures r.cwd != sh.cwd ==> Issues(lines, {"cd"})
    ensures r.fs != sh.fs ==> Issues(lines, {"mkdir", "touch"})
    ensures r.marioCalled <==> sh.marioCalled || Issues(lines, {"mario"})
    decreases |lines|
  {
    if |lines| == 0 then sh
    else
      var next := match Execute(sh, lines[0]) case None => sh case Some(r) => r.shell;
      Run(next, lines[1..])
  }

  // ---------------------------------------------------------------------
  // What a session keeps

  /** The cursor names a node of the tree, though not necessarily one the
      shell can still use as a directory. */
  predicate CursorExists(sh: Shell) {
    Raw(Obj(sh.fs), Segments(sh.cwd)).Some?
  }

  /** Adding a free name to a usable current directory deletes nothing. */
  lemma AddKeepsPaths(sh: Shell, name: string, v: JVal, q: seq<string>)
    requires Here(sh).Some? && Get(Here(sh).value, name).None?
    requires Raw(Obj(sh.fs), q).Some?
    ensures Raw(Obj(SetChild(sh.fs, Segments(sh.cwd), name, v)), q).Some?
  {
    var at := Segments(sh.cwd);
    DirAtRaw(sh.fs, at);
    RawSnoc(Obj(sh.fs), at, name);
    SetChildKeepsPaths(sh.fs, at, name, v, q);
  }

  /** No command deletes anything: every node reachable before a command is
      reachable after it. */
  lemma DispatchKeepsPaths(sh: Shell, command: string, args: seq<string>, q: seq<string>)
    requires Raw(Obj(sh.fs), q).Some?
    ensures Raw(Obj(Dispatch(sh, command, args).shell.fs), q).Some?
  {
    if command == "mkdir" {
      MkdirKeepsPaths(sh, args, q);
    } else if command == "touch" {
      TouchKeepsPaths(sh, args, q);
    }
  }

  /** `mkdir` deletes no node. */
  lemma MkdirKeepsPaths(sh: Shell, args: seq<string>, q: seq<string>)
    requires Raw(Obj(sh.fs), q).Some?
    ensures Raw(Obj(Mkdir(sh, args).shell.fs), q).Some?
  {
    if Mkdir(sh, args).out == Str("") {
      MkdirMade(sh, args);
      AddKeepsPaths(sh, args[0], Obj(map[]), q);
    }
  }

  /** `touch` deletes no node. */
  lemma TouchKeepsPaths(sh: Shell, args: seq<string>, q: seq<string>)
    requires Raw(Obj(sh.fs), q).Some?
    ensures Raw(Obj(Touch(sh, args).shell.fs), q).Some?
  {
    if Touch(sh, args).shell != sh {
      TouchMade(sh, args);
      AddKeepsPaths(sh, args[0], EmptyFile, q);
    }
  }

  /** Every command keeps the cursor on an existing node. */
  lemma DispatchKeepsCursor(sh: Shell, command: string, args: seq<string>)
    requires CursorExists(sh)
    ensures CursorExists(Dispatch(sh, command, args).shell)
  {
    if command == "cd" {
      CdLands(sh, args);
    } else {
      DispatchKeepsPaths(sh, command, args, Segments(sh.cwd));
    }
  }

  /** `cd` always leaves the cursor on an existing node: the root, or the
      located directory it moved to. */
  lemma CdLands(sh: Shell, args: seq<string>)
    ensures Raw(Obj(sh.fs), Segments(Cd(sh, args).shell.cwd)).Some? || Cd(sh, args).shell == sh
  {
    var r := Cd(sh, args);
    RootHasNoSegments();
    if r.shell != sh && |args| > 0 && r.shell.cwd != "/" {
      var node := Located(sh.fs, Segments(Resolve(args[0], sh.cwd)));
      assert node.Some?;
    }
  }

  /** A whole session keeps the cursor on an existing node. */
  lemma {:induction false} RunKeepsCursor(sh: Shell, lines: seq<string>)
    requires CursorExists(sh)
    ensures CursorExists(Run(sh, lines))
    decreases |lines|
  {
    if |lines| > 0 {
      match ParseCommand(lines[0])
      case None =>
        RunKeepsCursor(sh, lines[1..]);
      case Some(p) =>
        DispatchKeepsCursor(sh, p.command, p.args);
        RunKeepsCursor(Dispatch(sh, p.command, p.args).shell, lines[1..]);
    }
  }

  /** A whole session deletes nothing. */
  lemma {:induction false} RunKeepsPaths(sh: Shell, lines: seq<string>, q: seq<string>)
    requires Raw(Obj(sh.fs), q).Some?
    ensures Raw(Obj(Run(sh, lines).fs), q).Some?
    decreases |lines|
  {
    if |lines| > 0 {
      match ParseCommand(lines[0])
      case None =>
        RunKeepsPaths(sh, lines[1..], q);
      case Some(p) =>
        DispatchKeepsPaths(sh, p.command, p.args, q);
        RunKeepsPaths(Dispatch(sh, p.command, p.args).shell, lines[1..], q);
    }
  }

  /** The session starts on an existing node. */
  lemma InitialCursor()
    ensures CursorExists(Initial())
  {
    RootHasNoSegments();
  }
}
