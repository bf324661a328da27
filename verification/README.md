# Terminal emulator shell, modelled in Dafny

The repository is a browser terminal emulator (`script.js`). It keeps a
small in-memory filesystem: one nested JavaScript object rooted at
`filesystem["/"]`. It also keeps a cursor, `currentPath`, and answers seven
commands: `pwd`, `ls`, `cd`, `mkdir`, `touch`, `cat` and `mario`. This
project models the part of the program that does that work:

- the tree and its lookups (`getCurrentDir`, `pathExists`, `isDirectory`,
  `getPathObject`, `getParentDir`);
- the path resolver (`resolvePath`);
- the command handlers;
- the line parser (`parseCommand`) and the handler dispatch of
  `executeCommand`.

## Modules

- **Text** (`text.dfy`) holds the string operations the code relies on:
  - `split` on one separator, and the `filter(p => p)` that drops empty pieces;
  - `join`, `trim`, and `split(/\s+/)` (`SplitRuns`).
- **Order** (`order.dfy`) holds the default order of `Array.prototype.sort`
  on strings. `Sort` sorts a set of names, and `AscendingUnique` shows that
  the ascending listing is unique.
- **Paths** (`paths.dfy`) holds the canonical path form and `resolvePath`:
  - `Segments` is `split("/").filter(p => p)`;
  - `Canon` is `"/" + parts.join("/")`;
  - `Path` is the type of canonical paths.
- **Tree** (`tree.dfy`) holds the nodes of the tree and the lookups.
  - Nodes are `JVal`: an object with named fields, or a string.
  - JavaScript truthiness is modelled as it is, and so is the shell's
    directory test `typeof v === "object" && !v.content`.
  - Each lookup is a loop transcribed as a recursive walk. It is proved equal
    to an independent description: `Located`, the node reached through
    directory-like nodes, and `DirAt`, a directory the shell can use.
  - `SetChild` is the in-place assignment `dir[name] = value`. It comes with
    its frame lemmas.
- **Commands** (`commands.dfy`) holds the session (`Shell`: the tree, the
  cursor, and whether `mario` has been called) and one function per
  handler. Each returns the new session and the handler's return value.
- **Interpreter** (`interpreter.dfy`) holds `parseCommand`, the dispatch,
  one line of `executeCommand` without its display, a whole session `Run`
  over many lines, and the invariants such a session keeps.

## Behaviour the code has and the model keeps

- `touch` creates `{ content: "" }`, and an empty `content` is falsy. So a
  freshly touched file passes the directory test:
  - `cd` enters it;
  - `ls` inside it lists `content`;
  - `cat` answers "Is a directory" (`Commands.TouchedFileIsDirectory`).

  The code's own comments expect otherwise: script.js:273 tells files from
  directories by whether they have a `content` property, and script.js:278
  returns the file's content, which for a touched file is empty. The test
  on line 274 is on the truthiness of `content`, not on its presence. The
  model follows the code.
- `touch` leaves an existing entry alone only when it is truthy. The comment
  at script.js:251 says a file is created only "if it doesn't exist", yet a
  falsy entry is replaced. The only falsy entry that can occur is the empty
  `content` string of a touched file.
- An entry named `content` turns the directory holding it into a non-directory
  for the shell. After `mkdir content` or `touch content` below the root, the
  current directory can no longer be used (`Commands.ContentBlocksCwd`).
- `cd`, `cat` and friends pass an already resolved path to lookups that
  resolve it again. `Paths.ResolveIdempotent` shows this is harmless.

## Model

| member | source | states |
|---|---|---|
| Text.Split | script.js:19 | `split("/")` gives at least one piece, and no piece holds the separator |
| Text.JoinLength | script.js:53 | `join("/")` is as long as the pieces together plus one separator between each two |
| Text.NonEmpty | script.js:19 | `filter(p => p)` keeps no more pieces than it was given, each non-empty; a value is kept exactly when it was a non-empty piece; glued together, the kept pieces spell the same text |
| Text.NonEmptyAppend | script.js:19 | filtering two lists one after the other is filtering their concatenation, so the kept pieces stay in their order |
| Text.JoinSplit | script.js:53 | joining the pieces of a split with the same separator gives back the string |
| Text.SplitJoin | script.js:53 | splitting a join of separator-free pieces gives back the pieces |
| Text.ConcatSplit | script.js:19 | the pieces of a split hold exactly the text with the separators taken out |
| Text.Trim | script.js:290 | `trim` cuts one contiguous piece out of the line with only whitespace before and after it; the piece neither starts nor ends with whitespace, keeps every other character, and is empty exactly for an all-whitespace line |
| Text.TrimCuts | script.js:290 | trimming the start and then the end leaves a piece of the line with only whitespace cut off each side |
| Text.WordsOfTrim | script.js:290-293 | trimming a line does not change its whitespace-separated words |
| Text.CutKeepsPieces | script.js:290-293 | cutting separators off both ends of a string does not change its non-empty pieces |
| Text.SkipTrailing | script.js:290-293 | separators at the end of a string add only empty pieces |
| Text.SplitRuns | script.js:293 | `split(/\s+/)` gives at least one piece, and no piece holds whitespace |
| Text.TrimKeepsText | script.js:290-291 | `trim` removes only whitespace; the result is empty exactly when the line is all whitespace |
| Text.TrimEnds | script.js:290 | a trimmed line neither starts nor ends with whitespace |
| Text.RunsAgree | script.js:293 | splitting at each separator and at runs of separators give the same first piece and the same non-empty later pieces |
| Text.RunsInnerNonEmpty | script.js:293 | when the string ends outside the separators, every piece of `split(/\s+/)` after the first is non-empty |
| Text.RunsOfTrimmed | script.js:293 | on a string with no separator at either end, `split(/\s+/)` has no empty piece, so it equals split-and-filter |
| Text.WordsAreRuns | script.js:293 | on a trimmed non-empty line, the words are exactly `split(/\s+/)` |
| Text.WordsSpec | script.js:293 | the words are non-empty and whitespace-free; together they spell the line without whitespace; there are none exactly for an all-whitespace line |
| Order.BelowReflexive | script.js:175 | the default string order is reflexive |
| Order.BelowTotal | script.js:175 | the default string order is total |
| Order.BelowAntisymmetric | script.js:175 | the default string order is antisymmetric |
| Order.BelowTransitive | script.js:175 | the default string order is transitive |
| Order.LeastExists | script.js:175 | every non-empty set of names has a least name |
| Order.Sort | script.js:175 | `Object.keys(dir).sort()` lists each name once and is strictly ascending |
| Order.AscendingUnique | script.js:175 | two strictly ascending listings of the same names are equal |
| Paths.Segments | script.js:19 | the pieces of `split("/").filter(p => p)` are non-empty and slash-free |
| Paths.CollapseSlashes | script.js:38 | `replace(/\/+/g, "/")` keeps the first and the last character and leaves no doubled slash; with `CollapseSegments`, the segments are kept |
| Paths.Walk | script.js:45-51 | the `..`/`.`/push loop keeps a list of slash-free, non-empty names |
| Paths.Resolve | script.js:33-54 | an empty path gives the cursor; otherwise the result is canonical; an absolute path gives the canonical form of its own segments |
| Paths.SegmentsCanon | script.js:53 | the segments of `"/" + parts.join("/")` are `parts` again |
| Paths.RootIffNoSegments | script.js:15-19 | a canonical path is `/` exactly when it has no segments |
| Paths.ResolvedRoot | script.js:53 | a resolved path is `/` exactly when it has no segments |
| Paths.WellFormedIsCanonical | script.js:53 | a path starting with `/`, with no doubled or trailing slash, is its own canonical form |
| Paths.NormalIffWellFormed | script.js:53 | the canonical form is exactly `/` or a slash-led path with no empty segment and no trailing slash |
| Paths.CollapseSegments | script.js:38 | collapsing slash runs keeps the segments |
| Paths.DropSegments | script.js:38 | dropping a trailing slash keeps the segments |
| Paths.ResolveAbsolute | script.js:37-39 | the absolute branch yields the canonical form of the path's own segments, `/` when there are none |
| Paths.TidyIsCanonical | script.js:38 | collapsing slash runs and dropping one trailing slash spells the segments canonically, or leaves nothing when there are none |
| Paths.Step | script.js:46-50 | `..` drops the last segment when there is one, `.` changes nothing, any other name is pushed at the end; names stay names |
| Paths.ResolveIdempotent | script.js:33-54 | resolving an already resolved path gives it back |
| Paths.DotDotSegments | script.js:43 | `.` and `..` are one segment each |
| Paths.ParentOfRoot | script.js:46-47 | `..` at the root stays at the root |
| Paths.ParentDropsLast | script.js:46-47 | `..` below the root drops exactly the last segment |
| Paths.DotIsCursor | script.js:48 | `.` resolves to the cursor |
| Paths.ResolveChild | script.js:42-53 | a plain name resolves to the cursor's child of that name |
| Paths.SplitAround | script.js:43 | splitting at a separator between two strings splits each side apart |
| Paths.WalkAppend | script.js:45-51 | walking two lists of segments is walking the first and then the second |
| Paths.ResolveCompose | script.js:42-53 | resolving `a/b` from the cursor is resolving `b` from where `a` leads |
| Tree.LocatedStep | script.js:64-77 | the node at a path is the node at the rest of the path below its first step, when that step is a truthy directory |
| Tree.CurrentDirFrom | script.js:19-29 | the loop of `getCurrentDir` returns exactly the usable directory at the segments |
| Tree.ExistsFrom | script.js:64-78 | the loop of `pathExists` answers exactly whether a node is located there |
| Tree.DirFrom | script.js:89-103 | the loop of `isDirectory` answers exactly whether a usable directory is there |
| Tree.ObjectFrom | script.js:114-128 | the loop of `getPathObject` returns exactly the located node |
| Tree.GetCurrentDir | script.js:14-30 | the directory at the cursor's segments, absent when a step is missing, falsy or not directory-like |
| Tree.PathExists | script.js:57-79 | true exactly when a node is located at the resolved path; the root always exists |
| Tree.IsDirectory | script.js:82-104 | true exactly when the resolved path leads to a usable directory |
| Tree.GetPathObject | script.js:107-129 | the located node at the resolved path, the root object for `/` |
| Tree.GetParentDir | script.js:132-141 | absent for `/`; otherwise the node at the path without its last segment, falling back to the root |
| Tree.DirectoryExists | script.js:82-104 | every directory exists |
| Tree.ObjectIffExists | script.js:107-129 | `getPathObject` finds a node exactly when `pathExists` says so |
| Tree.CurrentDirIffDirectory | script.js:14-30 | the cursor is usable exactly when it is a directory, and then `getPathObject` returns that directory |
| Tree.SetChild | script.js:230 | the assignment adds a name to the root only when it is made at the root, with the new value there; below the root, the root keeps its names |
| Tree.SetChildAt | script.js:230 | after the assignment, the directory at the place holds the new entry and nothing else changed in it |
| Tree.SetChildFrame | script.js:230 | every path neither above nor below the new entry reaches the same node as before |
| Tree.SetChildKeepsAncestors | script.js:230 | the directories on the way to the place keep their names |
| Tree.SetChildAdds | script.js:230 | the assignment adds the entry, keeps every unrelated node, and keeps the names on the way |
| Tree.DirAtSnoc | script.js:23 | one more segment below a usable directory is usable exactly when that entry is truthy and directory-like |
| Tree.SetChildTouchesOne | script.js:230 | the assignment changes only one entry of the root |
| Tree.AddKeepsDir | script.js:230 | adding an entry keeps the directory usable, now with the new entry, unless the entry is `content` and the directory is not the root |
| Tree.ContentBreaksDir | script.js:23 | a truthy `content` entry makes a directory below the root unusable |
| Tree.RawSnoc | script.js:66 | one step further along own properties reaches that field of the node, if any |
| Tree.SetChildKeepsPaths | script.js:253-255 | replacing a missing or string entry deletes no node |
| Commands.Pwd | script.js:165-167 | returns the cursor, a well-formed absolute path, and changes nothing |
| Commands.Ls | script.js:169-180 | the access error when the cursor is unusable, otherwise the directory's listing; changes nothing |
| Commands.Listing | script.js:175-179 | `(empty)` for an empty directory, otherwise its one strictly ascending listing joined by two spaces |
| Commands.ListingUnique | script.js:175 | the sorted names are empty exactly for an empty directory and are its only ascending listing |
| Commands.ListingOne | script.js:175-179 | a directory with one entry is listed as that entry's name |
| Commands.Cd | script.js:182-207 | no argument or a target resolving to `/` goes to the root; missing and non-directory targets are reported with nothing changed; otherwise the cursor moves to the resolved path, which is usable |
| Commands.Mkdir | script.js:209-232 | each error in the code's order with nothing changed; otherwise exactly the new empty directory is added at the cursor |
| Commands.Touch | script.js:234-257 | each error in the code's order; an existing truthy entry is left alone; otherwise exactly the empty file is added |
| Commands.Cat | script.js:259-280 | missing operand, missing node and directory-like node are reported; a file returns its truthy content; a string node returns empty; nothing changes |
| Commands.Mario | script.js:282-285 | returns empty, records that `mario` was called, and leaves tree and cursor alone |
| Commands.TouchTwice | script.js:252-254 | a second `touch` of a name changes nothing and answers as the first, except for `content` below the root |
| Commands.TouchAgain | script.js:252-254 | right after `touch` created a file, touching it again changes nothing and, unless it is `content` below the root, answers empty |
| Commands.MkdirMade | script.js:209-232 | a silent `mkdir` had a valid, free name in a usable directory and added it there |
| Commands.TouchMade | script.js:234-257 | a `touch` that changed the session had a valid, free name in a usable directory and added the empty file there |
| Commands.CdChild | script.js:182-207 | `cd name` enters a usable child directory, and the new cursor is usable |
| Commands.MkdirThenCd | script.js:209-232 | after `mkdir x` succeeds, `cd x` enters it, `ls` there says `(empty)`, and `pwd` prints the cursor's path followed by `x` (for any name except `content` below the root; at the root, where `content` is never tested, for every name) |
| Commands.TouchedFileNode | script.js:253 | the new file is a usable directory holding only the falsy `content` (for any name except `content` below the root; at the root, where `content` is never tested, for every name) |
| Commands.CatChildDir | script.js:274-276 | `cat` of a usable child directory says it is a directory |
| Commands.TouchedFileIsDirectory | script.js:274-276 | `cat` of a freshly touched file says it is a directory (for any name except `content` below the root; at the root, where `content` is never tested, for every name) |
| Commands.CdIntoTouchedFile | script.js:182-207 | `cd` enters a freshly touched file, which holds only `content` (for any name except `content` below the root; at the root, where `content` is never tested, for every name) |
| Commands.LsInTouchedFile | script.js:169-180 | `ls` inside a freshly touched file shows `content` (for any name except `content` below the root; at the root, where `content` is never tested, for every name) |
| Commands.ContentBlocksCwd | script.js:23 | creating `content` below the root makes `ls` report that the current directory cannot be accessed |
| Commands.LsLists | script.js:175-179 | `ls` answers a usable non-empty directory with its ascending listing |
| Commands.Initial | script.js:2-11 | the session starts at `/`, which is usable and holds exactly the empty, usable directories `home`, `var` and `tmp` |
| Commands.InitialListing | script.js:2-8 | at start-up `ls` lists `home`, `tmp`, `var` |
| Interpreter.ParseCommand | script.js:289-298 | nothing exactly for a blank line; otherwise the command followed by the arguments are the trimmed line's `split(/\s+/)` and also the non-empty whitespace-separated pieces of the raw line; the words are non-empty, whitespace-free and spell the line without whitespace |
| Interpreter.LineWords | script.js:289-298 | a non-blank line has a first word and further words, all non-empty and whitespace-free, that are the runs of the trimmed line |
| Interpreter.TrimmedWords | script.js:290-293 | the words of a non-blank line are non-empty, whitespace-free, spell the line without whitespace, and are `split(/\s+/)` of the trimmed line |
| Interpreter.Dispatch | script.js:307-326 | only `cd` moves the cursor, only `mkdir` and `touch` change the tree, after the command `mario` has been called exactly when it had been before or the command is `mario`; an unknown word changes nothing and is reported |
| Interpreter.Execute | script.js:301-327 | a blank line does nothing; otherwise the cursor changes only for `cd` and the tree only for `mkdir` and `touch` |
| Interpreter.AddKeepsPaths | script.js:230 | adding a free name to a usable directory deletes no node |
| Interpreter.DispatchKeepsPaths | script.js:307-326 | no command deletes a node |
| Interpreter.MkdirKeepsPaths | script.js:209-232 | `mkdir` deletes no node |
| Interpreter.TouchKeepsPaths | script.js:234-257 | `touch` deletes no node |
| Interpreter.DispatchKeepsCursor | script.js:307-326 | every command leaves the cursor on an existing node |
| Interpreter.CdLands | script.js:182-207 | `cd` either changes nothing or leaves the cursor on an existing node |
| Interpreter.Run | script.js:341-346 | over a sequence of lines, the cursor moves only if some line is `cd`, the tree changes only if some line is `mkdir` or `touch`, and `mario` has been called exactly when it had been before or some line calls it |
| Interpreter.RunKeepsCursor | script.js:341-346 | a whole session keeps the cursor on an existing node |
| Interpreter.RunKeepsPaths | script.js:341-346 | a whole session deletes nothing |
| Interpreter.InitialCursor | script.js:11 | the session starts on an existing node, the root |

## Left out

- The page:
  - the DOM output and `addOutput`/`clearOutput` (script.js:143-161);
  - echoing the line and the error styling in `executeCommand` (script.js:305-306, 312-323);
  - the start-up handlers and welcome text (script.js:329-359).

  `Interpreter.Execute` returns the handler's value where the page would print it.
- The Mario game (script.js:361-974). `mario` is modelled as returning empty and recording that it was called. The game's own key handling, which hands control back to the terminal on Escape, is not modelled.
- Prototype-chain names. Lookups such as `dir[part]` would also find inherited properties like `constructor`. The model assumes every name is an own property.
- Order.Sort: JavaScript compares UTF-16 code units, while Dafny characters are Unicode scalar values. The two orders differ only for names outside the Basic Multilingual Plane.
- Commands.Cat: a node whose `content` is an object is returned as that object. `executeCommand` would then call `startsWith` on it and throw; the page is not modelled.
- Tree.IsDirectory: the contract holds when the path is non-empty or the cursor is canonical, as the shell's cursor always is.
- Tree.GetPathObject: the same condition as `Tree.IsDirectory`.
- Tree.GetParentDir: the same condition as `Tree.IsDirectory`. No handler calls `getParentDir`.
- Tree.ObjectIffExists: requires that same condition.
- Text.SplitRuns: stands for `split(/\s+/)` by definition. Regular expressions are not modelled in general.
