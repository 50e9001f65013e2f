/** The pandoc stage of the tutorial build: for every lesson, pick the
    Markdown fragments of its source directory, sort them, put together the
    renderer's argument list for the lesson's artifact kind, run the
    renderer, and stop the whole build at the first failure. */
module Pandoc {
  import opened Ordering
  import opened Process

  datatype Option<T> = None | Some(value: T)

  /** The two kinds of artifact a lesson is rendered into. */
  datatype PandocTarget = Slides | Exercises {

    /** The subdirectory of `target/` that holds this kind's output. */
    function Subdir(): string
    {
      match this
      case Slides => "slides"
      case Exercises => "exercises"
    }

    /** Appends this kind's flags, then `-o <tgtPath> -s`. */
    method AddArgs(pandoc: Command, tgtPath: string)
      modifies pandoc
      ensures pandoc.args == old(pandoc.args) + ConfigArgs(this, tgtPath)
    {
      match this {
        case Slides => AddSlideArgs(pandoc);
        case Exercises => AddExerciseArgs(pandoc);
      }
      pandoc.Args(["-o", tgtPath]);
      pandoc.Args(["-s"]);
    }
  }

  /** reveal.js output, the `simple` theme, `kate` highlighting, and the
      slide and code style sheets. */
  const SlideFlags: seq<string> :=
    ["-t", "revealjs", "-V", "theme=simple", "--highlight-style=kate",
     "--css", "../../slide-style.css", "--css", "../../code-style.css"]

  /** The default output format with the code style sheet. */
  const ExerciseFlags: seq<string> := ["--css", "../../code-style.css"]

  function KindFlags(target: PandocTarget): seq<string>
  {
    match target
    case Slides => SlideFlags
    case Exercises => ExerciseFlags
  }

  /** Everything that precedes the fragments on the renderer's command line. */
  function ConfigArgs(target: PandocTarget, tgtPath: string): seq<string>
  {
    KindFlags(target) + ["-o", tgtPath, "-s"]
  }

  method AddSlideArgs(pandoc: Command)
    modifies pandoc
    ensures pandoc.args == old(pandoc.args) + SlideFlags
  {
    pandoc.Args(["-t", "revealjs"]);
    pandoc.Args(["-V", "theme=simple"]);
    pandoc.Args(["--highlight-style=kate"]);
    pandoc.Args(["--css", "../../slide-style.css"]);
    pandoc.Args(["--css", "../../code-style.css"]);
  }

  method AddExerciseArgs(pandoc: Command)
    modifies pandoc
    ensures pandoc.args == old(pandoc.args) + ExerciseFlags
  {
    pandoc.Args(["--css", "../../code-style.css"]);
  }

  /** The concrete flags of each kind, with the target path spelled out. */
  lemma FlagPrefixExact(target: PandocTarget, name: string)
    ensures target.Slides? ==>
              ConfigArgs(target, TargetPath(target, name)) ==
              ["-t", "revealjs", "-V", "theme=simple", "--highlight-style=kate",
               "--css", "../../slide-style.css", "--css", "../../code-style.css",
               "-o", "target/slides/" + name + ".html", "-s"]
    ensures target.Exercises? ==>
              ConfigArgs(target, TargetPath(target, name)) ==
              ["--css", "../../code-style.css", "-o", "target/exercises/" + name + ".html", "-s"]
  {
    assert "target/" + "slides" + "/" == "target/slides/";
    assert "target/" + "exercises" + "/" == "target/exercises/";
  }

  /** Lessons of one kind get the same flags, of the same number, except for
      the value that follows `-o`, which is the lesson's own target path. */
  lemma ConfigDiffersOnlyInTarget(target: PandocTarget, name1: string, name2: string)
    ensures var c1, c2 := ConfigArgs(target, TargetPath(target, name1)), ConfigArgs(target, TargetPath(target, name2));
      var o := |KindFlags(target)|;
      |c1| == |c2| == o + 3 &&
      c1[o] == "-o" && c1[o + 1] == TargetPath(target, name1) && c2[o + 1] == TargetPath(target, name2) &&
      forall i :: 0 <= i < o + 3 && i != o + 1 ==> c1[i] == c2[i]
  {
  }

  // ---------------------------------------------------------------- paths

  function SrcDir(name: string): string
  {
    "src/tutorial/" + name
  }

  /** The path of an entry of a lesson's source directory. */
  function EntryPath(name: string, fileName: string): string
  {
    SrcDir(name) + "/" + fileName
  }

  function TargetPath(target: PandocTarget, name: string): string
  {
    "target/" + target.Subdir() + "/" + name + ".html"
  }

  /** No two lessons, of the same kind or not, write the same output file. */
  lemma TargetPathInjective(t1: PandocTarget, n1: string, t2: PandocTarget, n2: string)
    requires TargetPath(t1, n1) == TargetPath(t2, n2)
    ensures t1 == t2 && n1 == n2
  {
    var p := TargetPath(t1, n1);
    assert p[7] == t1.Subdir()[0] && TargetPath(t2, n2)[7] == t2.Subdir()[0];
    var pre := "target/" + t1.Subdir() + "/";
    assert p == pre + n1 + ".html" == pre + n2 + ".html";
    assert n1 == p[|pre|..|p| - 5] == n2;
  }

  lemma EntryPathInjective(name: string, f: string, g: string)
    requires EntryPath(name, f) == EntryPath(name, g)
    ensures f == g
  {
    var pre := SrcDir(name) + "/";
    assert f == EntryPath(name, f)[|pre|..] == g;
  }

  /** Sorting a lesson's paths orders them by file name, since they all
      share the lesson's directory. */
  lemma FragmentOrderIsFileNameOrder(name: string, f: string, g: string)
    ensures LessEq(EntryPath(name, f), EntryPath(name, g)) <==> LessEq(f, g)
  {
    var pre := SrcDir(name) + "/";
    assert EntryPath(name, f) == pre + f && EntryPath(name, g) == pre + g;
    LessEqCommonPrefix(pre, f, g);
  }

  // -------------------------------------------------- fragment selection

  /** One entry of a directory listing: a file name, or an error reading it. */
  datatype DirEntry = Entry(fileName: string) | EntryError

  /** A lesson's source directory as read: its entries, or unreadable. */
  datatype DirListing = Listed(entries: seq<DirEntry>) | Unreadable

  /** The index of the last `.` in `s`, if there is one. */
  function LastDot(s: string): (r: Option<nat>)
    ensures r.Some? ==> r.value < |s| && s[r.value] == '.' && forall k :: r.value < k < |s| ==> s[k] != '.'
    ensures r.None? ==> forall k :: 0 <= k < |s| ==> s[k] != '.'
  {
    if |s| == 0 then None
    else if s[|s| - 1] == '.' then Some(|s| - 1)
    else LastDot(s[..|s| - 1])
  }

  /** The extension of a file name: what follows its last dot, unless that
      dot is the first character (a hidden file has no extension) or there
      is no dot; `..` has none either. */
  function Extension(fileName: string): Option<string>
  {
    if fileName == ".." then None
    else
      match LastDot(fileName)
      case None => None
      case Some(i) => if i == 0 then None else Some(fileName[i + 1..])
  }

  /** The module's aggregator file, never an orderable fragment. */
  predicate IsModMd(fileName: string)
  {
    fileName == "mod.md"
  }

  predicate IsFragment(fileName: string)
  {
    !IsModMd(fileName) && Extension(fileName) == Some("md")
  }

  /** The extension is `md` exactly when the name ends in `.md` and has at
      least one character before that dot. */
  lemma ExtensionIsMd(f: string)
    ensures Extension(f) == Some("md") <==> 4 <= |f| && f[|f| - 3..] == ".md"
  {
    if 4 <= |f| && f[|f| - 3..] == ".md" {
      assert f[|f| - 3] == '.' && f[|f| - 2] == 'm' && f[|f| - 1] == 'd';
      assert f != "..";
      var d := LastDot(f);
      assert d == Some(|f| - 3);
      assert f[|f| - 2..] == "md";
    }
    if Extension(f) == Some("md") {
      var i := LastDot(f).value;
      assert f[i + 1..] == "md";
      assert f[|f| - 3..] == [f[i]] + f[i + 1..];
    }
  }

  /** The selection rule in plain terms: a name ending in `.md` with
      something before the dot, other than `mod.md`. */
  lemma IsFragmentRule(f: string)
    ensures IsFragment(f) <==> f != "mod.md" && 4 <= |f| && f[|f| - 3..] == ".md"
  {
    ExtensionIsMd(f);
  }

  /** What one entry contributes to the fragment list. */
  function Selected(name: string, entry: DirEntry): seq<string>
  {
    match entry
    case Entry(f) => if IsFragment(f) then [EntryPath(name, f)] else []
    case EntryError => []
  }

  /** The fragment paths of a listing, in listing order. */
  function Fragments(name: string, entries: seq<DirEntry>): seq<string>
    decreases |entries|
  {
    if entries == [] then []
    else Fragments(name, entries[..|entries| - 1]) + Selected(name, entries[|entries| - 1])
  }

  lemma {:induction false} FragmentsAppend(name: string, a: seq<DirEntry>, b: seq<DirEntry>)
    ensures Fragments(name, a + b) == Fragments(name, a) + Fragments(name, b)
    decreases |b|
  {
    if b == [] {
      assert a + b == a;
    } else {
      var b', x := b[..|b| - 1], b[|b| - 1];
      assert (a + b)[..|a + b| - 1] == a + b' && (a + b)[|a + b| - 1] == x;
      FragmentsAppend(name, a, b');
      calc {
        Fragments(name, a + b);
        Fragments(name, a + b') + Selected(name, x);
        Fragments(name, a) + Fragments(name, b') + Selected(name, x);
        Fragments(name, a) + (Fragments(name, b') + Selected(name, x));
        Fragments(name, a) + Fragments(name, b);
      }
    }
  }

  /** A file name's path is selected exactly when the listing has an entry
      of that name and the name is a fragment name. */
  lemma {:induction false} FragmentSelection(name: string, entries: seq<DirEntry>, f: string)
    ensures EntryPath(name, f) in Fragments(name, entries) <==> Entry(f) in entries && IsFragment(f)
    decreases |entries|
  {
    if entries != [] {
      var init, last := entries[..|entries| - 1], entries[|entries| - 1];
      assert entries == init + [last];
      FragmentSelection(name, init, f);
      if last.Entry? && IsFragment(last.fileName) && EntryPath(name, f) == EntryPath(name, last.fileName) {
        EntryPathInjective(name, f, last.fileName);
      }
    }
  }

  /** Nothing else is selected: every fragment path is that of a fragment
      entry of the listing. */
  lemma {:induction false} FragmentsFromEntries(name: string, entries: seq<DirEntry>, p: string)
    requires p in Fragments(name, entries)
    ensures exists k :: 0 <= k < |entries| && entries[k].Entry? && IsFragment(entries[k].fileName) &&
                        p == EntryPath(name, entries[k].fileName)
    decreases |entries|
  {
    var init, last := entries[..|entries| - 1], entries[|entries| - 1];
    if p in Fragments(name, init) {
      FragmentsFromEntries(name, init, p);
      var k :| 0 <= k < |init| && init[k].Entry? && IsFragment(init[k].fileName) &&
               p == EntryPath(name, init[k].fileName);
      assert entries[k] == init[k];
    } else {
      assert entries[|entries| - 1] == last;
    }
  }

  /** Taking one entry out of a listing takes its contribution out of the
      fragments, wherever the entry stood. */
  lemma FragmentsRemoveAt(name: string, b: seq<DirEntry>, j: nat)
    requires j < |b|
    ensures multiset(Fragments(name, b)) ==
            multiset(Fragments(name, b[..j] + b[j + 1..])) + multiset(Selected(name, b[j]))
  {
    var l, x, r := b[..j], b[j], b[j + 1..];
    assert b == l + [x] + r;
    FragmentsAppend(name, l, r);
    FragmentsAppend(name, l + [x], r);
    FragmentsAppend(name, l, [x]);
    assert Fragments(name, [x]) == Selected(name, x) by {
      assert [x][..0] == [];
    }
    calc {
      multiset(Fragments(name, b));
      multiset(Fragments(name, l) + Selected(name, x) + Fragments(name, r));
      multiset(Fragments(name, l)) + multiset(Selected(name, x)) + multiset(Fragments(name, r));
      multiset(Fragments(name, l) + Fragments(name, r)) + multiset(Selected(name, x));
    }
  }

  /** Which fragments are selected, with their multiplicities, depends only
      on which entries the listing holds, not on their order. */
  lemma {:induction false} FragmentsPermutation(name: string, a: seq<DirEntry>, b: seq<DirEntry>)
    requires multiset(a) == multiset(b)
    ensures multiset(Fragments(name, a)) == multiset(Fragments(name, b))
    decreases |a|
  {
    assert |a| == |multiset(a)| == |multiset(b)| == |b|;
    if a != [] {
      var x, a' := a[|a| - 1], a[..|a| - 1];
      assert a == a' + [x];
      assert multiset(a') == multiset(a) - multiset{x};
      assert x in multiset(b);
      var j :| 0 <= j < |b| && b[j] == x;
      MultisetRemoveAt(b, j);
      FragmentsPermutation(name, a', b[..j] + b[j + 1..]);
      FragmentsRemoveAt(name, b, j);
    }
  }

  // ------------------------------------------------------ argument vector

  /** The renderer's arguments for a lesson whose listing is `entries`: the
      kind's configuration, then the sorted fragment paths. */
  function Argv(target: PandocTarget, name: string, entries: seq<DirEntry>): seq<string>
  {
    ConfigArgs(target, TargetPath(target, name)) + Sort(Fragments(name, entries))
  }

  /** The fragments come last, after every flag and after `-o <tgt> -s`,
      sorted, and they are exactly the selected paths: none added, none lost. */
  lemma ArgvShape(target: PandocTarget, name: string, entries: seq<DirEntry>)
    ensures var k, argv, frags := |KindFlags(target)| + 3, Argv(target, name, entries), Fragments(name, entries);
      |argv| == k + |frags| &&
      argv[..k] == ConfigArgs(target, TargetPath(target, name)) &&
      Sorted(argv[k..]) && multiset(argv[k..]) == multiset(frags)
  {
    var frags := Fragments(name, entries);
    SortSorted(frags);
    SortPermutes(frags);
    var k := |KindFlags(target)| + 3;
    assert Argv(target, name, entries)[k..] == Sort(frags);
  }

  /** Listing the same directory contents in another order gives the same
      command line. */
  lemma ListingOrderIrrelevant(target: PandocTarget, name: string, a: seq<DirEntry>, b: seq<DirEntry>)
    requires multiset(a) == multiset(b)
    ensures Argv(target, name, a) == Argv(target, name, b)
  {
    FragmentsPermutation(name, a, b);
    SortSorted(Fragments(name, a));
    SortSorted(Fragments(name, b));
    SortPermutes(Fragments(name, a));
    SortPermutes(Fragments(name, b));
    SortedUnique(Sort(Fragments(name, a)), Sort(Fragments(name, b)));
  }

  /** A directory holding `b.md`, `a.md` and `mod.md` contributes `a.md`
      then `b.md`. */
  lemma SortedFragmentsExample(name: string)
    ensures Sort(Fragments(name, [Entry("b.md"), Entry("a.md"), Entry("mod.md")])) ==
            [EntryPath(name, "a.md"), EntryPath(name, "b.md")]
  {
    var entries := [Entry("b.md"), Entry("a.md"), Entry("mod.md")];
    var pa, pb := EntryPath(name, "a.md"), EntryPath(name, "b.md");
    IsFragmentRule("b.md");
    IsFragmentRule("a.md");
    assert Selected(name, Entry("b.md")) == [pb];
    assert Selected(name, Entry("a.md")) == [pa];
    assert Selected(name, Entry("mod.md")) == [];
    assert entries[..2] == [Entry("b.md"), Entry("a.md")] && entries[..1] == [Entry("b.md")];
    assert Fragments(name, entries[..1]) == [pb] by {
      assert entries[..1][..0] == [];
    }
    assert Fragments(name, entries[..2]) == [pb, pa];
    assert Fragments(name, entries) == [pb, pa];
    FragmentOrderIsFileNameOrder(name, "b.md", "a.md");
    assert !LessEq("b.md", "a.md");
    assert Sort([pa]) == [pa] by {
      assert [pa][1..] == [];
    }
    assert [pb, pa][1..] == [pa];
    assert Sort([pb, pa]) == Insert(pb, [pa]) == [pa] + Insert(pb, []);
  }

  // ------------------------------------------------------- running pandoc

  /** How one lesson's rendering ended. The two failures carry the full
      command line the renderer was given, program first. */
  datatype RunResult =
    | Success
    | DirUnreadable
    | EntryUnreadable
    | RenderFailure(command: seq<string>)
    | LaunchFailure(command: seq<string>)

  /** Success only for a launched process that exited successfully. */
  function Classify(command: seq<string>, outcome: Outcome): RunResult
  {
    match outcome
    case Ran(exitOk) => if exitOk then Success else RenderFailure(command)
    case LaunchError => LaunchFailure(command)
  }

  /** The result of rendering one lesson, given what its source directory
      lists and how the renderer answers each argument list. */
  function Run(target: PandocTarget, name: string, listing: DirListing, render: seq<string> -> Outcome): RunResult
  {
    match listing
    case Unreadable => DirUnreadable
    case Listed(entries) =>
      if EntryError in entries then EntryUnreadable
      else
        var argv := Argv(target, name, entries);
        Classify(["pandoc"] + argv, render(argv))
  }

  /** A lesson succeeds exactly when its directory reads cleanly and the
      renderer, given that lesson's arguments, launched and exited
      successfully; a non-zero exit and a launch error are both failures. */
  lemma RunSucceedsIff(target: PandocTarget, name: string, listing: DirListing, render: seq<string> -> Outcome)
    ensures Run(target, name, listing, render) == Success <==>
      listing.Listed? && EntryError !in listing.entries && render(Argv(target, name, listing.entries)) == Ran(true)
    ensures listing.Listed? && EntryError !in listing.entries ==>
      (render(Argv(target, name, listing.entries)) == Ran(false) <==> Run(target, name, listing, render).RenderFailure?) &&
      (render(Argv(target, name, listing.entries)) == LaunchError <==> Run(target, name, listing, render).LaunchFailure?)
  {
  }

  /** A renderer failure reports the whole command line, which names the
      lesson's target file. */
  lemma FailureReportsCommand(target: PandocTarget, name: string, listing: DirListing, render: seq<string> -> Outcome)
    ensures var r := Run(target, name, listing, render);
      r.RenderFailure? || r.LaunchFailure? ==>
        r.command == ["pandoc"] + Argv(target, name, listing.entries) &&
        TargetPath(target, name) in r.command
  {
    if listing.Listed? && EntryError !in listing.entries {
      var o, argv := |KindFlags(target)|, Argv(target, name, listing.entries);
      var config := ConfigArgs(target, TargetPath(target, name));
      assert config[o + 1] == TargetPath(target, name);
      assert argv[o + 1] == config[o + 1];
      assert (["pandoc"] + argv)[o + 2] == argv[o + 1];
    }
  }

  /** Reads a listing entry by entry, stopping at the first entry that
      cannot be read, and keeps the paths of the fragment entries in
      listing order. */
  method SelectFragments(name: string, entries: seq<DirEntry>) returns (ok: bool, srcPaths: seq<string>)
    ensures ok <==> EntryError !in entries
    ensures ok ==> srcPaths == Fragments(name, entries)
  {
    srcPaths := [];
    var i := 0;
    while i < |entries|
      invariant 0 <= i <= |entries|
      invariant EntryError !in entries[..i]
      invariant srcPaths == Fragments(name, entries[..i])
    {
      assert entries[..i + 1][..i] == entries[..i];
      match entries[i] {
        case EntryError =>
          assert EntryError in entries;
          return false, srcPaths;
        case Entry(f) =>
          if !IsModMd(f) && Extension(f) == Some("md") {
            srcPaths := srcPaths + [EntryPath(name, f)];
          }
      }
      i := i + 1;
    }
    assert entries[..i] == entries;
    ok := true;
  }

  /** Sorts the collected paths in place, in an array of their own. */
  method SortPaths(srcPaths: seq<string>) returns (ordered: seq<string>)
    ensures ordered == Sort(srcPaths)
  {
    var v := new string[|srcPaths|](k requires 0 <= k < |srcPaths| => srcPaths[k]);
    assert v[..] == srcPaths;
    SortInPlace(v);
    ordered := v[..];
  }

  /** The renderer's command for one lesson: the kind's flags and the output
      flags, then the fragment paths, sorted, appended one by one. */
  method BuildCommand(target: PandocTarget, name: string, srcPaths: seq<string>) returns (pandoc: Command)
    ensures fresh(pandoc)
    ensures pandoc.program == "pandoc"
    ensures pandoc.args == ConfigArgs(target, TargetPath(target, name)) + Sort(srcPaths)
  {
    var tgtPath := TargetPath(target, name);
    pandoc := new Command("pandoc");
    target.AddArgs(pandoc, tgtPath);
    var ordered := SortPaths(srcPaths);
    pandoc.Args(ordered);
  }

  /** Renders one lesson: selects its fragments, builds the renderer's
      command, runs it, and classifies how it ended. */
  method RunPandoc(target: PandocTarget, name: string, listing: DirListing, render: seq<string> -> Outcome)
    returns (res: RunResult)
    ensures res == Run(target, name, listing, render)
  {
    if listing.Unreadable? {
      return DirUnreadable;
    }
    var ok, srcPaths := SelectFragments(name, listing.entries);
    if !ok {
      return EntryUnreadable;
    }
    var pandoc := BuildCommand(target, name, srcPaths);
    var command := pandoc.CommandLine();
    res := Classify(command, render(pandoc.args));
  }

  // ------------------------------------------------------------ the driver

  datatype Lesson = Lesson(target: PandocTarget, name: string)

  const SlideSources: seq<string> := ["whistler_rust_intro"]
  const ExerciseSources: seq<string> := ["ex_part_1", "ex_part_3"]

  /** The slide lessons, then the exercise lessons, each list in order. */
  function Worklist(): seq<Lesson>
  {
    seq(|SlideSources|, i requires 0 <= i < |SlideSources| => Lesson(Slides, SlideSources[i])) +
    seq(|ExerciseSources|, i requires 0 <= i < |ExerciseSources| => Lesson(Exercises, ExerciseSources[i]))
  }

  /** The slide lesson first, then the two exercise lessons. */
  lemma WorklistOrder()
    ensures Worklist() == [Lesson(Slides, "whistler_rust_intro"), Lesson(Exercises, "ex_part_1"), Lesson(Exercises, "ex_part_3")]
  {
  }

  /** Each lesson of the worklist has an output file of its own. */
  lemma WorklistTargetsDistinct()
    ensures forall i, j :: 0 <= i < j < |Worklist()| ==>
      TargetPath(Worklist()[i].target, Worklist()[i].name) != TargetPath(Worklist()[j].target, Worklist()[j].name)
  {
    WorklistOrder();
    var w := Worklist();
    forall i, j | 0 <= i < j < |w|
      ensures TargetPath(w[i].target, w[i].name) != TargetPath(w[j].target, w[j].name)
    {
      if TargetPath(w[i].target, w[i].name) == TargetPath(w[j].target, w[j].name) {
        TargetPathInjective(w[i].target, w[i].name, w[j].target, w[j].name);
      }
    }
  }

  function RunLesson(lesson: Lesson, listing: string -> DirListing, render: seq<string> -> Outcome): RunResult
  {
    Run(lesson.target, lesson.name, listing(SrcDir(lesson.name)), render)
  }

  /** The directory `mkdir -p` is asked to create for each kind, before any
      lesson is rendered: `target/slides/` and `target/exercises/`. */
  function OutputDir(target: PandocTarget): string
  {
    "target/" + target.Subdir() + "/"
  }

  /** Every lesson's output file lies directly in its kind's output
      directory, and the two directories differ. */
  lemma TargetInOutputDir(target: PandocTarget, name: string)
    ensures TargetPath(target, name) == OutputDir(target) + name + ".html"
    ensures OutputDir(Slides) == "target/slides/" && OutputDir(Exercises) == "target/exercises/"
  {
    assert "target/" + "slides" + "/" == "target/slides/";
    assert "target/" + "exercises" + "/" == "target/exercises/";
  }

  /** How a whole build ends: every lesson rendered, an output directory
      whose `mkdir` could not be launched, or the first lesson that failed
      and how it failed. */
  datatype BuildResult =
    | Built
    | SetupFailed(dir: string)
    | Aborted(lesson: Lesson, cause: RunResult)

  /** The build: make sure both output directories exist, then render the
      slide lessons and then the exercise lessons, stopping at the first
      lesson that does not succeed. A `mkdir` that launched counts as done,
      whatever its exit status. `attempted` is the lessons begun: a prefix
      of the worklist of which all but the last succeeded. */
  method ProcessRoot(mkdir: string -> Outcome, listing: string -> DirListing, render: seq<string> -> Outcome)
    returns (res: BuildResult, attempted: seq<Lesson>)
    ensures mkdir(OutputDir(Slides)) == LaunchError ==>
              res == SetupFailed(OutputDir(Slides)) && attempted == []
    ensures mkdir(OutputDir(Slides)).Ran? && mkdir(OutputDir(Exercises)) == LaunchError ==>
              res == SetupFailed(OutputDir(Exercises)) && attempted == []
    ensures mkdir(OutputDir(Slides)).Ran? && mkdir(OutputDir(Exercises)).Ran? ==>
              0 < |attempted| <= |Worklist()| && attempted == Worklist()[..|attempted|] &&
              (forall i :: 0 <= i < |attempted| - 1 ==> RunLesson(attempted[i], listing, render).Success?) &&
              var last := attempted[|attempted| - 1];
              (RunLesson(last, listing, render).Success? ==> res == Built && attempted == Worklist()) &&
              (!RunLesson(last, listing, render).Success? ==> res == Aborted(last, RunLesson(last, listing, render)))
  {
    attempted := [];
    if mkdir(OutputDir(Slides)).LaunchError? {
      return SetupFailed(OutputDir(Slides)), attempted;
    }
    if mkdir(OutputDir(Exercises)).LaunchError? {
      return SetupFailed(OutputDir(Exercises)), attempted;
    }
    WorklistOrder();
    for n := 0 to |SlideSources|
      invariant attempted == Worklist()[..n]
      invariant forall i :: 0 <= i < n ==> RunLesson(attempted[i], listing, render).Success?
    {
      var name := SlideSources[n];
      attempted := attempted + [Lesson(Slides, name)];
      var r := RunPandoc(Slides, name, listing(SrcDir(name)), render);
      if !r.Success? {
        return Aborted(Lesson(Slides, name), r), attempted;
      }
    }
    for n := 0 to |ExerciseSources|
      invariant attempted == Worklist()[..|SlideSources| + n]
      invariant forall i :: 0 <= i < |attempted| ==> RunLesson(attempted[i], listing, render).Success?
    {
      var name := ExerciseSources[n];
      attempted := attempted + [Lesson(Exercises, name)];
      var r := RunPandoc(Exercises, name, listing(SrcDir(name)), render);
      if !r.Success? {
        return Aborted(Lesson(Exercises, name), r), attempted;
      }
    }
    res := Built;
  }
}
