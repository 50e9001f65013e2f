# The pandoc stage of the cyot tutorial build

`build.rs` of the cyot tutorial turns per-lesson Markdown fragments into
HTML slide decks and HTML exercise sheets by running the external renderer
`pandoc`. This project models the `pandoc` module of that build script in
Dafny and proves what it does:

- which entries of a lesson's source directory become fragments: a file
  name whose extension is `md`, other than `mod.md`;
- how the fragment paths are ordered: sorted, by an insertion sort over an
  array, against a reference sort on sequences;
- the exact renderer command line for each artifact kind: the kind's flags,
  then `-o <target> -s`, then the sorted fragments, appended to a command
  builder;
- how one lesson's run ends, and how the build walks its fixed worklist
  (the slide lesson, then the two exercise lessons), stopping at the first
  failure.

Three modules, one per concern:

- `Ordering` (`ordering.dfy`): the code-point order on strings and its
  total-order laws, the reference sort `Sort`, and the in-place
  `SortInPlace` that stands for `src_paths.sort()`.
- `Process` (`process.dfy`): the `Command` builder, a class whose argument
  list only grows, and `Outcome`, what became of running a command.
- `Pandoc` (`pandoc.dfy`): artifact kinds and their flags, paths, fragment
  selection, the renderer's argument vector, one lesson's run
  (`RunPandoc`), and the driver (`ProcessRoot`).

The outside world enters as parameters:

- a directory listing, `listing: string -> DirListing`: a lesson's source
  directory is either unreadable or a sequence of entries, each a file name
  or an entry that could not be read;
- the renderer, `render: seq<string> -> Outcome`: what running `pandoc` with
  a given argument vector comes to. It either launched and exited with or
  without success, or it could not be launched;
- `mkdir: string -> Outcome`: what running `mkdir -p` on an output
  directory comes to.

Points where the code behaves differently from what one might expect:

- Output directories. Each directory is created with
  `mkdir -p ….status().ok().expect(…)` (build.rs:64-72). That aborts only
  when `mkdir` cannot be launched; a `mkdir` that runs and exits non-zero is
  ignored. `ProcessRoot` returns `SetupFailed` only in the first case.
- Errors carry no path. An unreadable directory or entry is reported
  through `try!` as the bare `io::Error` (build.rs:102-103), which does not
  name the path. `DirUnreadable` and `EntryUnreadable` carry no path either.
  An entry that cannot be read fails the lesson as well.
- Sort order. The paths are sorted as `PathBuf`s, which compare component by
  component. All of them lie in `src/tutorial/<name>/`, so this is the order
  of their file names. For strings of Unicode scalar values, the order of
  UTF-8 bytes is the order of code points, which is what `LessEq` compares.
  `FragmentOrderIsFileNameOrder` shows that sorting the full path strings
  gives the same order.
- Extensions. The extension test follows `Path::extension` exactly:
  - the extension is what follows the last `.`;
  - a name whose only dot is its first character has no extension, so
    `.md` is not a fragment;
  - `..` has no extension.

## Model

| member | source | states |
|---|---|---|
| Ordering.LessEqReflexive | build.rs:113 | every path comes no later than itself |
| Ordering.LessEqAntisymmetric | build.rs:113 | two paths each no later than the other are equal, so distinct paths never tie |
| Ordering.LessEqTransitive | build.rs:113 | the path order is transitive |
| Ordering.LessEqTotal | build.rs:113 | any two paths are comparable |
| Ordering.LessEqCommonPrefix | build.rs:113 | strings with a common prefix compare as their remainders do |
| Ordering.InsertPermutes | build.rs:113 | inserting adds exactly the one element |
| Ordering.SortPermutes | build.rs:113 | sorting is a permutation: the same multiset and the same length |
| Ordering.InsertSorted | build.rs:113 | inserting into a sorted sequence keeps it sorted |
| Ordering.SortSorted | build.rs:113 | the reference sort's result is sorted |
| Ordering.SortedUnique | build.rs:113 | two sorted sequences with the same multiset are equal, so the sort result depends only on the paths present |
| Ordering.SortIdempotent | build.rs:113 | sorting a sorted sequence changes nothing, and sorting twice is sorting once |
| Ordering.SwapAdjacent | build.rs:113 | exchanges two neighbouring elements, leaving every other element and the array's multiset unchanged |
| Ordering.InsertionStep | build.rs:113 | one pass of insertion sort extends the sorted prefix by one element, keeps the array's multiset and leaves everything after position `i` unchanged |
| Ordering.SortInPlace | build.rs:113 | sorting the array in place leaves exactly the reference sort of its old contents |
| Process.Command.constructor | build.rs:110 | a new command has the given program and no arguments |
| Process.Command.Arg | build.rs:114-116 | appends exactly one argument at the end |
| Process.Command.Args | build.rs:37-39 | appends the given arguments at the end, in order |
| Pandoc.PandocTarget.AddArgs | build.rs:30-40 | appends the kind's flags, then `-o <tgt>`, then `-s` |
| Pandoc.AddSlideArgs | build.rs:43-54 | appends `-t revealjs -V theme=simple --highlight-style=kate --css ../../slide-style.css --css ../../code-style.css` |
| Pandoc.AddExerciseArgs | build.rs:56-61 | appends `--css ../../code-style.css` |
| Pandoc.FlagPrefixExact | build.rs:23-61 | the full flag prefix of each kind, with the target path `target/slides/<name>.html` or `target/exercises/<name>.html` spelled out |
| Pandoc.ConfigDiffersOnlyInTarget | build.rs:30-40 | two lessons of one kind get flag prefixes of the same length, the kind's flag count plus 3, that agree everywhere except the value after `-o`, which is each lesson's own target path |
| Pandoc.TargetPathInjective | build.rs:23-28 | different lessons or kinds never share an output file: the path determines both kind and name |
| Pandoc.EntryPathInjective | build.rs:100-106 | different file names in a lesson directory give different paths |
| Pandoc.FragmentOrderIsFileNameOrder | build.rs:100-113 | sorting a lesson's paths orders them by file name |
| Pandoc.LastDot | build.rs:105 | finds the last `.` of a name, or reports that it has none |
| Pandoc.ExtensionIsMd | build.rs:105 | the extension is `md` exactly when the name ends in `.md` with at least one character before the dot |
| Pandoc.IsFragmentRule | build.rs:88-107 | an entry is a fragment exactly when its name is not `mod.md` and ends in `.md` with at least one character before the dot |
| Pandoc.FragmentsAppend | build.rs:101-108 | selection is done entry by entry: selecting from a concatenation concatenates the selections |
| Pandoc.FragmentSelection | build.rs:101-108 | a path is selected exactly when the listing holds that file name and the name is a fragment name |
| Pandoc.FragmentsFromEntries | build.rs:101-108 | every selected path is the path of some fragment entry of the listing: nothing is added |
| Pandoc.FragmentsRemoveAt | build.rs:101-108 | taking one entry out of a listing takes exactly its contribution out of the selection |
| Pandoc.FragmentsPermutation | build.rs:101-108 | listings with the same entries in any order select the same paths, with the same multiplicities |
| Pandoc.ArgvShape | build.rs:109-116 | the argument vector is the flag prefix followed by the fragments, which are sorted, are a permutation of the selected paths, and number exactly `|argv|` minus the prefix length |
| Pandoc.ListingOrderIrrelevant | build.rs:101-116 | the same directory contents in any listing order give the same argument vector |
| Pandoc.SortedFragmentsExample | build.rs:101-116 | a directory holding `b.md`, `a.md` and `mod.md` contributes the paths of `a.md` then `b.md` |
| Pandoc.RunSucceedsIff | build.rs:102-138 | a lesson succeeds exactly when its directory reads cleanly and the renderer launched and exited successfully; a non-zero exit is a render failure and a launch error a launch failure |
| Pandoc.FailureReportsCommand | build.rs:117-137 | a renderer failure reports the full command line, `pandoc` followed by the argument vector, which contains the lesson's target path |
| Pandoc.SelectFragments | build.rs:101-108 | reading the listing fails exactly when it holds an unreadable entry; otherwise the collected paths are the selected fragments in listing order |
| Pandoc.SortPaths | build.rs:113 | the collected paths come back as the reference sort |
| Pandoc.BuildCommand | build.rs:109-116 | a fresh `pandoc` command whose arguments are the kind's flag prefix and then the sorted paths |
| Pandoc.RunPandoc | build.rs:98-142 | one lesson's run ends as `Run` says: unreadable directory, unreadable entry, success, render failure or launch failure |
| Pandoc.WorklistOrder | build.rs:74-83 | the worklist is `whistler_rust_intro` as slides, then `ex_part_1` and `ex_part_3` as exercises |
| Pandoc.WorklistTargetsDistinct | build.rs:74-83 | no two lessons of the worklist write the same output file |
| Pandoc.TargetInOutputDir | build.rs:64-72 | each lesson's output file lies directly in the output directory created for its kind, `target/slides/` or `target/exercises/` |
| Pandoc.ProcessRoot | build.rs:63-86 | the build fails at setup exactly when an output directory's `mkdir` cannot be launched, before any lesson; otherwise the lessons begun are a prefix of the worklist, all but the last succeeded, and the build ends `Built` after the whole worklist or `Aborted` with the first failing lesson and its cause |

## Left out

- `tango::process_root` (build.rs:4) runs before this stage and belongs to a crate that is not part of this model. `main`'s order, tango first, is not modelled.
- `main`'s `unwrap` (build.rs:8) turns an error into a panic. Every failure of `ProcessRoot` ends the build in the same way, so the model does not tell a returned error from a panic.
- The text of the failure messages (build.rs:121-136) is not modelled. That covers the `{:?}` quoting of the command, the working directory, the exit code, the captured stdout and stderr, the OS error and `PATH`. A failure carries the command line as a sequence of strings.
- `Command::output` and `mkdir -p` are given as the functions `render` and `mkdir`. They stand for process execution, the search path and the filesystem. So the model does not capture that `mkdir` changes the filesystem.
- File names that are not valid UTF-8 are not modelled, since a file name here is a string of characters. The source still selects such a name when it ends in `.md` and passes it to pandoc: `to_str()` at build.rs:105 is applied only to the extension, and `is_mod_md` treats such a name as not `mod.md`.
- Pandoc.SelectFragments: the `io::Error` of an unreadable entry is not carried, only the fact that reading failed.
- Pandoc.SortPaths: the `Vec<PathBuf>` is a sequence copied into an array for the in-place sort. It compares whole path strings rather than path components; `FragmentOrderIsFileNameOrder` shows the two agree within one directory.
