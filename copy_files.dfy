/** `copy_files.py`: copy the directories named by a map from an old source
    tree into a new one, walking each with an explicit stack, skipping cache
    directories and editor leftovers, renaming notebooks to `*_src.ipynb`,
    and never overwriting a file that is already there. */
module CopyFiles {
  import opened PyStr
  import opened Wrappers

  // ---------------------------------------------------------------------
  //  Names
  // ---------------------------------------------------------------------

  /** Children that are never pushed onto the work list. */
  predicate SkippedChild(name: string) {
    name == "__pycache__" || name == ".ipynb_checkpoints"
  }

  /** Files that are never copied: names ending in `-` or `,cover`. */
  predicate SkippedFile(name: string) {
    EndsWith(name, "-") || EndsWith(name, ",cover")
  }

  /** The endings tried, in order, by the renaming loop. */
  const StripEndings: seq<string> := ["solution_testing", "testing", "example"]

  /** The first of `_solution_testing.ipynb`, `_testing.ipynb` and
      `_example.ipynb` that ends `st` is replaced by `.ipynb`; at most one. */
  function StripVariantSuffix(st: string): string {
    if EndsWith(st, "_solution_testing.ipynb") then DropLast(st, 23) + ".ipynb"
    else if EndsWith(st, "_testing.ipynb") then DropLast(st, 14) + ".ipynb"
    else if EndsWith(st, "_example.ipynb") then DropLast(st, 14) + ".ipynb"
    else st
  }

  /** The target path string of a notebook: suffix stripped, the last six
      characters replaced by `_src.ipynb`, and the whole path lower-cased. */
  function NotebookTarget(tgt: string): string {
    Lower(DropLast(StripVariantSuffix(tgt), 6) + "_src.ipynb")
  }

  /** The target of a file named `name` whose unrenamed target is `t`. */
  function FileTarget(t: string, name: string): string {
    if EndsWith(name, ".ipynb") then NotebookTarget(t) else t
  }

  /** The renaming of lines 33-39: the loop over the endings with `break`,
      then the `_src` suffix and `lower()`. */
  method RenameNotebook(tgt: string) returns (t: string)
    ensures t == NotebookTarget(tgt)
  {
    var st := tgt;
    for i := 0 to |StripEndings|
      invariant st == tgt
      invariant forall m :: 0 <= m < i ==> !EndsWith(tgt, "_" + StripEndings[m] + ".ipynb")
    {
      var stripEnding := StripEndings[i];
      if EndsWith(st, "_" + stripEnding + ".ipynb") {
        st := DropLast(st, |stripEnding| + 7) + ".ipynb";
        StripVariantSuffixAt(tgt, i);
        break;
      }
    }
    if st == tgt {
      StripVariantSuffixNone(tgt);
    }
    t := Lower(DropLast(st, 6) + "_src.ipynb");
  }

  /** The loop's `break` at ending `i` computes the stripped name. */
  lemma StripVariantSuffixAt(tgt: string, i: nat)
    requires i < |StripEndings|
    requires forall m :: 0 <= m < i ==> !EndsWith(tgt, "_" + StripEndings[m] + ".ipynb")
    requires EndsWith(tgt, "_" + StripEndings[i] + ".ipynb")
    ensures StripVariantSuffix(tgt) == DropLast(tgt, |StripEndings[i]| + 7) + ".ipynb"
  {
    assert "_" + StripEndings[0] + ".ipynb" == "_solution_testing.ipynb";
    assert "_" + StripEndings[1] + ".ipynb" == "_testing.ipynb";
    assert "_" + StripEndings[2] + ".ipynb" == "_example.ipynb";
  }

  /** Running through the loop without `break` leaves the name as it was. */
  lemma StripVariantSuffixNone(tgt: string)
    requires forall m :: 0 <= m < |StripEndings| ==> !EndsWith(tgt, "_" + StripEndings[m] + ".ipynb")
    ensures StripVariantSuffix(tgt) == tgt
  {
    assert "_" + StripEndings[0] + ".ipynb" == "_solution_testing.ipynb";
    assert "_" + StripEndings[1] + ".ipynb" == "_testing.ipynb";
    assert "_" + StripEndings[2] + ".ipynb" == "_example.ipynb";
    assert !EndsWith(tgt, "_" + StripEndings[0] + ".ipynb");
    assert !EndsWith(tgt, "_" + StripEndings[1] + ".ipynb");
    assert !EndsWith(tgt, "_" + StripEndings[2] + ".ipynb");
  }

  /** Every renamed notebook target ends with `_src.ipynb` and holds no
      upper-case ASCII letter. */
  lemma NotebookTargetShape(tgt: string)
    ensures EndsWith(NotebookTarget(tgt), "_src.ipynb")
    ensures forall i :: 0 <= i < |NotebookTarget(tgt)| ==> !('A' <= NotebookTarget(tgt)[i] <= 'Z')
  {
  }

  /** `_solution_testing` is stripped whole, before `_testing` is tried. */
  lemma NotebookTargetSolutionTesting(b: string)
    ensures NotebookTarget(b + "_solution_testing.ipynb") == Lower(b + "_src.ipynb")
  {
  }

  /** `_testing` is stripped when the name is not a `_solution_testing` one. */
  lemma NotebookTargetTesting(b: string)
    requires !EndsWith(b + "_testing.ipynb", "_solution_testing.ipynb")
    ensures NotebookTarget(b + "_testing.ipynb") == Lower(b + "_src.ipynb")
  {
  }

  /** `_example` is stripped; such a name matches neither earlier ending. */
  lemma NotebookTargetExample(b: string)
    ensures NotebookTarget(b + "_example.ipynb") == Lower(b + "_src.ipynb")
  {
    var st := b + "_example.ipynb";
    var n := |st|;
    assert st[n - 14..] == "_example.ipynb";
    assert st[n - 13] == 'e';
    assert !EndsWith(st, "_testing.ipynb") by {
      assert "_testing.ipynb"[1] == 't';
      assert |"_testing.ipynb"| == 14;
    }
    assert !EndsWith(st, "_solution_testing.ipynb") by {
      assert "_solution_testing.ipynb"[10] == 't';
      assert |"_solution_testing.ipynb"| == 23;
    }
    assert DropLast(st, 14) == b;
    var stripped := b + ".ipynb";
    assert DropLast(stripped, 6) == b;
  }

  /** A notebook with none of the three endings only gains `_src`. */
  lemma NotebookTargetPlain(b: string)
    requires !EndsWith(b + ".ipynb", "_solution_testing.ipynb")
    requires !EndsWith(b + ".ipynb", "_testing.ipynb")
    requires !EndsWith(b + ".ipynb", "_example.ipynb")
    ensures NotebookTarget(b + ".ipynb") == Lower(b + "_src.ipynb")
  {
  }

  // ---------------------------------------------------------------------
  //  The source tree and the walk
  // ---------------------------------------------------------------------

  /** A source path: a directory with its entries in `iterdir()` order, a
      file, or a path that does not exist (only a mapped root can be one). */
  datatype Node = Dir(name: string, children: seq<Node>) | File(name: string) | Missing(name: string)

  function Size(n: Node): nat {
    match n
    case Dir(_, cs) => 1 + SizeAll(cs)
    case _ => 1
  }

  function SizeAll(cs: seq<Node>): nat
    decreases cs
  {
    if |cs| == 0 then 0 else SizeAll(cs[..|cs| - 1]) + Size(cs[|cs| - 1])
  }

  /** The files the walk must reach: every non-directory under `n` (or `n`
      itself) that no skipped directory hides and whose name is not skipped. */
  function FileCount(n: Node): nat {
    match n
    case Dir(_, cs) => FileCountAll(cs)
    case _ => if SkippedFile(n.name) then 0 else 1
  }

  function FileCountAll(cs: seq<Node>): nat
    decreases cs
  {
    if |cs| == 0 then 0
    else FileCountAll(cs[..|cs| - 1]) + (if SkippedChild(cs[|cs| - 1].name) then 0 else FileCount(cs[|cs| - 1]))
  }

  /** The directories the walk must create. */
  function DirCount(n: Node): nat {
    match n
    case Dir(_, cs) => 1 + DirCountAll(cs)
    case _ => 0
  }

  function DirCountAll(cs: seq<Node>): nat
    decreases cs
  {
    if |cs| == 0 then 0
    else DirCountAll(cs[..|cs| - 1]) + (if SkippedChild(cs[|cs| - 1].name) then 0 else DirCount(cs[|cs| - 1]))
  }

  /** The node reached from `src` by following the child positions `at`. */
  function NodeAt(src: Node, at: seq<nat>): Option<Node>
    decreases |at|
  {
    if |at| == 0 then Some(src)
    else
      var parent := NodeAt(src, at[..|at| - 1]);
      if parent.Some? && parent.value.Dir? && at[|at| - 1] < |parent.value.children|
      then Some(parent.value.children[at[|at| - 1]])
      else None
  }

  /** `rel` holds the names of the nodes met along the positions `at`, and
      none of them is a skipped directory name. */
  ghost predicate PathOk(src: Node, at: seq<nat>, rel: seq<string>)
    decreases |at|
  {
    && |at| == |rel|
    && (|at| == 0 ||
        (&& PathOk(src, at[..|at| - 1], rel[..|rel| - 1])
         && NodeAt(src, at).Some?
         && NodeAt(src, at).value.name == rel[|rel| - 1]
         && !SkippedChild(rel[|rel| - 1])))
  }

  /** Step `j` of a valid path reaches a node named `rel[j]`, and that name
      is not a skipped directory. */
  lemma {:induction false} PathOkMeaning(src: Node, at: seq<nat>, rel: seq<string>)
    requires PathOk(src, at, rel)
    ensures forall j :: 0 <= j < |rel| ==>
      !SkippedChild(rel[j]) && NodeAt(src, at[..j + 1]).Some? && NodeAt(src, at[..j + 1]).value.name == rel[j]
    decreases |at|
  {
    if |at| > 0 {
      var n := |at| - 1;
      PathOkMeaning(src, at[..n], rel[..n]);
      forall j | 0 <= j < n
        ensures !SkippedChild(rel[j]) && NodeAt(src, at[..j + 1]).Some? && NodeAt(src, at[..j + 1]).value.name == rel[j]
      {
        assert at[..n][..j + 1] == at[..j + 1] && rel[..n][j] == rel[j];
      }
      assert at[..n + 1] == at;
    }
  }

  /** `tgt / rel[0] / rel[1] / ...` as a path string. */
  function JoinTarget(t: string, rel: seq<string>): string
    decreases |rel|
  {
    if |rel| == 0 then t else JoinTarget(t, rel[..|rel| - 1]) + "/" + rel[|rel| - 1]
  }

  /** What the walk does, in order: the lines it prints. `at` is the
      position of the source node in the tree, `rel` the names leading to it. */
  datatype Action =
    | MakeDir(at: seq<nat>, rel: seq<string>, tgt: string)                  // "Create directory"
    | CopyFile(at: seq<nat>, rel: seq<string>, name: string, tgt: string)   // "Copy file"
    | SkipExisting(at: seq<nat>, rel: seq<string>, name: string, tgt: string) // "** SKIP ** existing file"

  /** The proper ancestors of the path string `t`: its prefixes that end
      just before a `/`. */
  function Ancestors(t: string): set<string> {
    set i | 0 < i < |t| && t[i] == '/' :: t[..i]
  }

  /** `Path(p).name`: the part of the path string `p` after its last `/`. */
  function BaseName(p: string): (r: string)
    ensures '/' !in r
    ensures |r| <= |p| && r == p[|p| - |r|..]
  {
    From(p, RFind(p, '/') + 1)
  }

  /** The paths an action makes exist: `mkdir(parents=True)` makes the
      directory and every missing parent, `shutil.copy` the one file. */
  function Made(a: Action): set<string> {
    match a
    case MakeDir(_, _, t) => {t} + Ancestors(t)
    case CopyFile(_, _, _, t) => {t}
    case SkipExisting(_, _, _, _) => {}
  }

  /** A directory created at `t / rel[0] / ... / rel[n-1]` also makes every
      shorter join: its parents up to `t`. */
  lemma {:induction false} MakeDirParents(at: seq<nat>, t: string, rel: seq<string>)
    requires t != ""
    ensures forall j :: 0 <= j <= |rel| ==> JoinTarget(t, rel[..j]) in Made(MakeDir(at, rel, JoinTarget(t, rel)))
    decreases |rel|
  {
    if |rel| > 0 {
      var init := rel[..|rel| - 1];
      var p, q := JoinTarget(t, init), JoinTarget(t, rel);
      MakeDirParents(at, t, init);
      JoinTargetLength(t, init);
      assert q == p + ("/" + rel[|rel| - 1]);
      assert q[|p|] == '/' && q[..|p|] == p;
      assert p in Ancestors(q);
      AncestorsGrow(p, "/" + rel[|rel| - 1]);
      assert Made(MakeDir(at, init, p)) <= Made(MakeDir(at, rel, q));
      assert rel[..|rel|] == rel;
      forall j | 0 <= j < |rel|
        ensures JoinTarget(t, rel[..j]) in Made(MakeDir(at, rel, q))
      {
        assert init[..j] == rel[..j];
      }
    }
  }

  lemma {:induction false} JoinTargetLength(t: string, rel: seq<string>)
    ensures |JoinTarget(t, rel)| >= |t|
    decreases |rel|
  {
    if |rel| > 0 {
      JoinTargetLength(t, rel[..|rel| - 1]);
    }
  }

  /** A path's ancestors are ancestors of every longer path it begins. */
  lemma AncestorsGrow(p: string, s: string)
    ensures Ancestors(p) <= Ancestors(p + s)
  {
    forall x | x in Ancestors(p)
      ensures x in Ancestors(p + s)
    {
      var i :| 0 < i < |p| && p[i] == '/' && x == p[..i];
      assert (p + s)[i] == '/' && (p + s)[..i] == x;
    }
  }

  /** Making `t/a/b` makes `t/a` and `t` too, so a later walk finds them. */
  lemma MadeNested()
    ensures "t/a" in Made(MakeDir([], [], "t/a/b")) && "t" in Made(MakeDir([], [], "t/a/b"))
  {
    var t := "t/a/b";
    assert t[3] == '/' && t[..3] == "t/a";
    assert t[1] == '/' && t[..1] == "t";
  }

  function Targets(acts: seq<Action>): set<string>
    decreases |acts|
  {
    if |acts| == 0 then {} else Targets(acts[..|acts| - 1]) + Made(acts[|acts| - 1])
  }

  function FileActions(acts: seq<Action>): nat
    decreases |acts|
  {
    if |acts| == 0 then 0 else FileActions(acts[..|acts| - 1]) + (if acts[|acts| - 1].MakeDir? then 0 else 1)
  }

  function DirActions(acts: seq<Action>): nat
    decreases |acts|
  {
    if |acts| == 0 then 0 else DirActions(acts[..|acts| - 1]) + (if acts[|acts| - 1].MakeDir? then 1 else 0)
  }

  /** A file is copied exactly when its target does not exist at that
      moment, counting what the run itself created before it. */
  ghost predicate NoOverwrite(existing: set<string>, acts: seq<Action>) {
    forall k :: 0 <= k < |acts| && !acts[k].MakeDir? ==>
      (acts[k].CopyFile? <==> acts[k].tgt !in existing + Targets(acts[..k]))
  }

  /** An action of the walk of `src` into `tgt`: `at` leads to a node of
      `src` through the names `rel`, none a skipped directory (`PathOk`); a directory
      node is created at its joined target; a file node that is not a
      skipped one goes to its joined target, renamed if a notebook, and is
      copied only if it exists. */
  ghost predicate ActionOk(src: Node, tgt: string, a: Action) {
    && PathOk(src, a.at, a.rel)
    && NodeAt(src, a.at).Some?
    && var n := NodeAt(src, a.at).value;
       match a
       case MakeDir(_, rel, t) => n.Dir? && t == JoinTarget(tgt, rel)
       case CopyFile(_, rel, name, t) =>
         n.File? && name == n.name && !SkippedFile(name) && t == FileTarget(JoinTarget(tgt, rel), name)
       case SkipExisting(_, rel, name, t) =>
         !n.Dir? && name == n.name && !SkippedFile(name) && t == FileTarget(JoinTarget(tgt, rel), name)
  }

  /** The copy that raises: `shutil.copy` of a node of `src` that does not
      exist, reached as a file action would be. */
  ghost predicate FailureOk(src: Node, tgt: string, a: Action) {
    && a.CopyFile?
    && PathOk(src, a.at, a.rel)
    && NodeAt(src, a.at) == Some(Missing(a.name))
    && !SkippedFile(a.name)
    && a.tgt == FileTarget(JoinTarget(tgt, a.rel), a.name)
  }

  /** Every action of `acts` is one of the walk of `src` into `tgt`. */
  ghost predicate WalkOk(src: Node, tgt: string, acts: seq<Action>)
    decreases |acts|
  {
    |acts| == 0 || (WalkOk(src, tgt, acts[..|acts| - 1]) && ActionOk(src, tgt, acts[|acts| - 1]))
  }

  lemma WalkOkMeaning(src: Node, tgt: string, acts: seq<Action>)
    ensures WalkOk(src, tgt, acts) <==> forall k :: 0 <= k < |acts| ==> ActionOk(src, tgt, acts[k])
  {
    if WalkOk(src, tgt, acts) {
      WalkOkEach(src, tgt, acts);
    }
    if forall k :: 0 <= k < |acts| ==> ActionOk(src, tgt, acts[k]) {
      WalkOkOfEach(src, tgt, acts);
    }
  }

  /** Every action of a valid walk is a valid action. */
  lemma {:induction false} WalkOkEach(src: Node, tgt: string, acts: seq<Action>)
    requires WalkOk(src, tgt, acts)
    ensures forall k :: 0 <= k < |acts| ==> ActionOk(src, tgt, acts[k])
    decreases |acts|
  {
    if |acts| > 0 {
      var init := acts[..|acts| - 1];
      WalkOkEach(src, tgt, init);
      assert forall k :: 0 <= k < |init| ==> init[k] == acts[k];
    }
  }

  /** A sequence of valid actions is a valid walk. */
  lemma {:induction false} WalkOkOfEach(src: Node, tgt: string, acts: seq<Action>)
    requires forall k :: 0 <= k < |acts| ==> ActionOk(src, tgt, acts[k])
    ensures WalkOk(src, tgt, acts)
    decreases |acts|
  {
    if |acts| > 0 {
      var init := acts[..|acts| - 1];
      assert forall k :: 0 <= k < |init| ==> init[k] == acts[k];
      WalkOkOfEach(src, tgt, init);
    }
  }

  /** A copy of a name the tree does not hold is no action of the walk:
      `r` holds only `a.txt`. */
  lemma ActionNeedsTreeName()
    ensures !ActionOk(Dir("r", [File("a.txt")]), "t", CopyFile([0], ["zzz"], "zzz", "t/zzz"))
  {
    assert NodeAt(Dir("r", [File("a.txt")]), [0]) == Some(File("a.txt"));
  }

  /** A work-list entry `(src, tgt)`, with its position in the tree and the
      names leading to it. */
  datatype Job = Job(node: Node, at: seq<nat>, rel: seq<string>, tgt: string)

  ghost predicate JobOk(src: Node, tgt: string, job: Job) {
    && PathOk(src, job.at, job.rel)
    && NodeAt(src, job.at) == Some(job.node)
    && job.tgt == JoinTarget(tgt, job.rel)
  }

  /** Every entry of the work list is a valid one. */
  ghost predicate StackOk(src: Node, tgt: string, stack: seq<Job>)
    decreases |stack|
  {
    |stack| == 0 || (StackOk(src, tgt, stack[..|stack| - 1]) && JobOk(src, tgt, stack[|stack| - 1]))
  }

  function StackSize(stack: seq<Job>): nat
    decreases |stack|
  {
    if |stack| == 0 then 0 else StackSize(stack[..|stack| - 1]) + Size(stack[|stack| - 1].node)
  }

  function StackFiles(stack: seq<Job>): nat
    decreases |stack|
  {
    if |stack| == 0 then 0 else StackFiles(stack[..|stack| - 1]) + FileCount(stack[|stack| - 1].node)
  }

  function StackDirs(stack: seq<Job>): nat
    decreases |stack|
  {
    if |stack| == 0 then 0 else StackDirs(stack[..|stack| - 1]) + DirCount(stack[|stack| - 1].node)
  }

  /** The fixed inputs of one `copy_subdir` call: the source tree, the
      target root, and the target paths that exist beforehand. */
  datatype Walker = Walker(src: Node, tgt: string, existing: set<string>)

  /** What a walk has done so far, and the target paths that then exist. */
  datatype Progress = Progress(acts: seq<Action>, after: set<string>)

  /** Every action so far is one of the walk, no existing target was
      overwritten, and `after` is what exists now. */
  ghost predicate ProgressOk(w: Walker, p: Progress) {
    && WalkOk(w.src, w.tgt, p.acts)
    && NoOverwrite(w.existing, p.acts)
    && p.after == w.existing + Targets(p.acts)
  }

  /** `copy_subdir(src, tgt)` over the source tree `src`, with `existing`
      the target paths that exist beforehand. Returns what it did, the
      target paths that exist afterwards, and the copy that raised because
      its source does not exist, if one did. */
  method CopySubdir(src: Node, tgt: string, existing: set<string>)
    returns (acts: seq<Action>, after: set<string>, failure: Option<Action>)
    ensures WalkOk(src, tgt, acts)
    ensures NoOverwrite(existing, acts)
    ensures after == existing + Targets(acts)
    ensures failure.None? ==> FileActions(acts) == FileCount(src) && DirActions(acts) == DirCount(src)
    ensures failure.Some? ==> FailureOk(src, tgt, failure.value) && failure.value.tgt !in after
    ensures failure.Some? ==> FileActions(acts) < FileCount(src)
  {
    var w := Walker(src, tgt, existing);
    var stack := [Job(src, [], [], tgt)];
    assert stack[..0] == [] && JobOk(src, tgt, stack[0]);
    var p := Progress([], existing);
    failure := None;
    while stack != []
      invariant StackOk(src, tgt, stack)
      invariant ProgressOk(w, p)
      invariant FileActions(p.acts) + StackFiles(stack) == FileCount(src)
      invariant DirActions(p.acts) + StackDirs(stack) == DirCount(src)
      invariant failure.None?
      decreases StackSize(stack)
    {
      stack, p, failure := Step(w, stack, p);
      if failure.Some? {
        break;
      }
    }
    acts, after := p.acts, p.after;
  }

  /** One turn of the `while stack` loop: pop an entry and handle it. */
  method Step(w: Walker, stack: seq<Job>, p: Progress)
    returns (stack': seq<Job>, p': Progress, failure: Option<Action>)
    requires stack != [] && StackOk(w.src, w.tgt, stack)
    requires ProgressOk(w, p)
    ensures stack' == Turn(stack, p.after).0
    ensures p'.acts == p.acts + Turn(stack, p.after).1 && failure == Turn(stack, p.after).2
    ensures ProgressOk(w, p')
    ensures failure.None? ==> StackOk(w.src, w.tgt, stack') && StackSize(stack') < StackSize(stack)
    ensures failure.None? ==> FileActions(p'.acts) + StackFiles(stack') == FileActions(p.acts) + StackFiles(stack)
    ensures failure.None? ==> DirActions(p'.acts) + StackDirs(stack') == DirActions(p.acts) + StackDirs(stack)
    ensures failure.Some? ==> FailureOk(w.src, w.tgt, failure.value) && failure.value.tgt !in p'.after
    ensures failure.Some? ==> FileActions(p'.acts) + StackFiles(stack') < FileActions(p.acts) + StackFiles(stack)
  {
    var job := stack[|stack| - 1];
    var rest := stack[..|stack| - 1];
    assert JobOk(w.src, w.tgt, job) && StackOk(w.src, w.tgt, rest);
    assert StackFiles(stack) == StackFiles(rest) + FileCount(job.node);
    assert StackDirs(stack) == StackDirs(rest) + DirCount(job.node);
    assert StackSize(stack) == StackSize(rest) + Size(job.node);
    if job.node.Dir? {
      // the directory branch: create the target directory, then push the
      // children that are not skipped
      p' := Record(w, p, MakeDir(job.at, job.rel, job.tgt));
      stack' := PushChildren(w.src, w.tgt, rest, job, job.node.children);
      failure := None;
    } else {
      stack' := rest;
      p', failure := VisitFile(w, job, p);
    }
  }

  /** What one turn of the loop does with the work list `stack` when the
      target paths `after` exist: it pops the LAST entry; a directory logs
      its `MakeDir` and pushes its children that are not skipped, anything
      else goes through `FileStep`. The result is the new work list, the
      actions logged and the copy that raises, if any. */
  function Turn(stack: seq<Job>, after: set<string>): (seq<Job>, seq<Action>, Option<Action>)
    requires stack != []
  {
    var job := stack[|stack| - 1];
    var rest := stack[..|stack| - 1];
    if job.node.Dir? then
      (rest + ChildJobs(job, job.node.children, |job.node.children|), [MakeDir(job.at, job.rel, job.tgt)], None)
    else
      (rest, FileStep(job, after).0, FileStep(job, after).1)
  }

  /** What the non-directory branch does for `job` when the target paths
      `after` exist: the action it records, if any, and the copy that
      raises, if any. */
  function FileStep(job: Job, after: set<string>): (seq<Action>, Option<Action>) {
    var name := job.node.name;
    var t := FileTarget(job.tgt, name);
    if SkippedFile(name) then ([], None)
    else if t in after then ([SkipExisting(job.at, job.rel, name, t)], None)
    else if job.node.Missing? then ([], Some(CopyFile(job.at, job.rel, name, t)))
    else ([CopyFile(job.at, job.rel, name, t)], None)
  }

  /** The non-directory branch: skip a leftover, rename a notebook, then
      skip an existing target or copy, which raises for a missing source. */
  method VisitFile(w: Walker, job: Job, p: Progress) returns (p': Progress, failure: Option<Action>)
    requires JobOk(w.src, w.tgt, job) && !job.node.Dir?
    requires ProgressOk(w, p)
    ensures p'.acts == p.acts + FileStep(job, p.after).0 && failure == FileStep(job, p.after).1
    ensures ProgressOk(w, p')
    ensures failure.None? ==> FileActions(p'.acts) == FileActions(p.acts) + FileCount(job.node)
    ensures failure.Some? ==> FailureOk(w.src, w.tgt, failure.value) && failure.value.tgt !in p'.after
    ensures failure.Some? ==> p'.acts == p.acts && FileCount(job.node) == 1
    ensures DirActions(p'.acts) == DirActions(p.acts)
  {
    var name := job.node.name;
    if SkippedFile(name) {
      p', failure := p, None;
      assert p'.acts == p.acts + [];
      return;
    }
    var t := job.tgt;
    if EndsWith(name, ".ipynb") {
      t := RenameNotebook(t);
    }
    p', failure := CopyOrSkip(w, job, t, p);
  }

  /** The rest of the non-directory branch once the target `t` is known:
      skip an existing target, raise for a missing source, or copy. */
  method CopyOrSkip(w: Walker, job: Job, t: string, p: Progress) returns (p': Progress, failure: Option<Action>)
    requires JobOk(w.src, w.tgt, job) && !job.node.Dir? && !SkippedFile(job.node.name)
    requires t == FileTarget(job.tgt, job.node.name)
    requires ProgressOk(w, p)
    ensures p'.acts == p.acts + FileStep(job, p.after).0 && failure == FileStep(job, p.after).1
    ensures ProgressOk(w, p')
    ensures failure.None? ==> FileActions(p'.acts) == FileActions(p.acts) + FileCount(job.node)
    ensures failure.Some? ==> FailureOk(w.src, w.tgt, failure.value) && failure.value.tgt !in p'.after
    ensures failure.Some? ==> p'.acts == p.acts && FileCount(job.node) == 1
    ensures DirActions(p'.acts) == DirActions(p.acts)
  {
    var name := job.node.name;
    p', failure := p, None;
    if t in p.after {
      p' := Record(w, p, SkipExisting(job.at, job.rel, name, t));
    } else if job.node.Missing? {
      failure := Some(CopyFile(job.at, job.rel, name, t));
      assert p'.acts == p.acts + [];
    } else {
      p' := Record(w, p, CopyFile(job.at, job.rel, name, t));
    }
  }

  /** Appending one action keeps the walk invariants. */
  method Record(w: Walker, p: Progress, a: Action) returns (p': Progress)
    requires ProgressOk(w, p) && ActionOk(w.src, w.tgt, a)
    requires !a.MakeDir? ==> (a.CopyFile? <==> a.tgt !in p.after)
    ensures p'.acts == p.acts + [a]
    ensures ProgressOk(w, p')
    ensures FileActions(p'.acts) == FileActions(p.acts) + (if a.MakeDir? then 0 else 1)
    ensures DirActions(p'.acts) == DirActions(p.acts) + (if a.MakeDir? then 1 else 0)
  {
    p' := Progress(p.acts + [a], p.after + Made(a));
    assert p'.acts[..|p.acts|] == p.acts;
    assert forall k :: 0 <= k < |p.acts| ==> p'.acts[..k] == p.acts[..k];
  }

  /** The entries `for s in src.iterdir()` pushes for the first `n` of the
      children of `job`'s directory, in order: `(s, tgt / s.name)` for each
      child not skipped. */
  function ChildJobs(job: Job, children: seq<Node>, n: nat): seq<Job>
    requires n <= |children|
    decreases n
  {
    if n == 0 then []
    else
      var s := children[n - 1];
      ChildJobs(job, children, n - 1) +
        (if SkippedChild(s.name) then [] else [Job(s, job.at + [n - 1], job.rel + [s.name], job.tgt + "/" + s.name)])
  }

  /** The push loop over the children of the directory of `job`. */
  method PushChildren(src: Node, tgt: string, stack: seq<Job>, job: Job, children: seq<Node>)
    returns (stack': seq<Job>)
    requires JobOk(src, tgt, job) && job.node == Dir(job.node.name, children)
    requires StackOk(src, tgt, stack)
    ensures stack' == stack + ChildJobs(job, children, |children|)
    ensures StackOk(src, tgt, stack')
    ensures StackFiles(stack') == StackFiles(stack) + FileCount(job.node)
    ensures StackDirs(stack') + 1 == StackDirs(stack) + DirCount(job.node)
    ensures StackSize(stack') < StackSize(stack) + Size(job.node)
  {
    stack' := stack;
    for i := 0 to |children|
      invariant stack' == stack + ChildJobs(job, children, i)
    {
      var s := children[i];
      if !SkippedChild(s.name) {
        stack' := stack' + [Job(s, job.at + [i], job.rel + [s.name], job.tgt + "/" + s.name)];
      }
    }
    ChildJobsMeaning(src, tgt, stack, job, children, |children|);
    ChildJobsTally(src, tgt, stack, job, children, |children|);
    assert children[..|children|] == children;
  }

  /** Pushing the children of a valid directory entry keeps the work list
      valid. */
  lemma {:induction false} ChildJobsMeaning(src: Node, tgt: string, stack: seq<Job>, job: Job, children: seq<Node>, n: nat)
    requires JobOk(src, tgt, job) && job.node == Dir(job.node.name, children)
    requires StackOk(src, tgt, stack) && n <= |children|
    ensures StackOk(src, tgt, stack + ChildJobs(job, children, n))
    decreases n
  {
    if n == 0 {
      assert stack + ChildJobs(job, children, n) == stack;
    } else {
      var s := children[n - 1];
      ChildJobsMeaning(src, tgt, stack, job, children, n - 1);
      var before := stack + ChildJobs(job, children, n - 1);
      if !SkippedChild(s.name) {
        var child := Job(s, job.at + [n - 1], job.rel + [s.name], job.tgt + "/" + s.name);
        ChildJobOk(src, tgt, job, children, n - 1);
        PushOne(src, tgt, before, child);
        assert stack + ChildJobs(job, children, n) == before + [child];
      } else {
        assert stack + ChildJobs(job, children, n) == before;
      }
    }
  }

  /** Pushing the children hands over the directory's files and
      subdirectories to the work list. */
  lemma {:induction false} ChildJobsTally(src: Node, tgt: string, stack: seq<Job>, job: Job, children: seq<Node>, n: nat)
    requires n <= |children|
    ensures StackFiles(stack + ChildJobs(job, children, n)) == StackFiles(stack) + FileCountAll(children[..n])
    ensures StackDirs(stack + ChildJobs(job, children, n)) == StackDirs(stack) + DirCountAll(children[..n])
    ensures StackSize(stack + ChildJobs(job, children, n)) <= StackSize(stack) + SizeAll(children[..n])
    decreases n
  {
    if n == 0 {
      assert stack + ChildJobs(job, children, n) == stack;
    } else {
      var s := children[n - 1];
      ChildJobsTally(src, tgt, stack, job, children, n - 1);
      assert children[..n][..n - 1] == children[..n - 1] && children[..n][n - 1] == s;
      var before := stack + ChildJobs(job, children, n - 1);
      if !SkippedChild(s.name) {
        var child := Job(s, job.at + [n - 1], job.rel + [s.name], job.tgt + "/" + s.name);
        PushOne(src, tgt, before, child);
        assert stack + ChildJobs(job, children, n) == before + [child];
      } else {
        assert stack + ChildJobs(job, children, n) == before;
      }
    }
  }

  /** A child that is not skipped makes a valid work-list entry: its
      position extends the directory's by its index. */
  lemma ChildJobOk(src: Node, tgt: string, job: Job, children: seq<Node>, k: nat)
    requires JobOk(src, tgt, job) && job.node == Dir(job.node.name, children)
    requires k < |children| && !SkippedChild(children[k].name)
    ensures JobOk(src, tgt, Job(children[k], job.at + [k], job.rel + [children[k].name], job.tgt + "/" + children[k].name))
  {
    var at, rel := job.at + [k], job.rel + [children[k].name];
    assert at[..|at| - 1] == job.at;
    assert rel[..|rel| - 1] == job.rel;
  }

  /** The tallies and the validity of a stack after a push. */
  lemma PushOne(src: Node, tgt: string, stack: seq<Job>, job: Job)
    ensures StackOk(src, tgt, stack + [job]) <==> StackOk(src, tgt, stack) && JobOk(src, tgt, job)
    ensures StackFiles(stack + [job]) == StackFiles(stack) + FileCount(job.node)
    ensures StackDirs(stack + [job]) == StackDirs(stack) + DirCount(job.node)
    ensures StackSize(stack + [job]) == StackSize(stack) + Size(job.node)
  {
  }

  // ---------------------------------------------------------------------
  //  The map loop
  // ---------------------------------------------------------------------

  /** The `k: v` pairs of the `map` list, list order then dictionary order. */
  function MapEntries(dirmap: seq<seq<(string, string)>>): seq<(string, string)> {
    if |dirmap| == 0 then [] else dirmap[0] + MapEntries(dirmap[1..])
  }

  /** One walk: the source tree it walked, the target it copied into, what
      it did, and the copy that raised, if one did. */
  datatype Run = Run(root: Node, target: string, acts: seq<Action>, failure: Option<Action>)

  function Concat(runs: seq<Run>): seq<Action>
    decreases |runs|
  {
    if |runs| == 0 then [] else Concat(runs[..|runs| - 1]) + runs[|runs| - 1].acts
  }

  lemma {:induction false} TargetsAppend(a: seq<Action>, b: seq<Action>)
    ensures Targets(a + b) == Targets(a) + Targets(b)
    decreases |b|
  {
    if |b| == 0 {
      assert a + b == a;
    } else {
      var bInit := b[..|b| - 1];
      TargetsAppend(a, bInit);
      assert (a + b)[..|a + b| - 1] == a + bInit;
    }
  }

  /** Two runs in sequence keep the no-overwrite rule when the second
      starts from what the first left. */
  lemma NoOverwriteAppend(existing: set<string>, a: seq<Action>, b: seq<Action>)
    requires NoOverwrite(existing, a)
    requires NoOverwrite(existing + Targets(a), b)
    ensures NoOverwrite(existing, a + b)
  {
    forall k | 0 <= k < |a + b| && !(a + b)[k].MakeDir?
      ensures ((a + b)[k].CopyFile? <==> (a + b)[k].tgt !in existing + Targets((a + b)[..k]))
    {
      if k < |a| {
        assert (a + b)[..k] == a[..k];
      } else {
        assert (a + b)[..k] == a + b[..k - |a|];
        TargetsAppend(a, b[..k - |a|]);
      }
    }
  }

  /** `run` is the walk of the source tree `planned.0` into `planned.1`:
      complete when nothing raised, and otherwise stopped at a copy of a
      missing source. */
  ghost predicate RunOk(run: Run, planned: (Node, string)) {
    && run.root == planned.0 && run.target == planned.1
    && WalkOk(run.root, run.target, run.acts)
    && (run.failure.None? ==>
          FileActions(run.acts) == FileCount(run.root) && DirActions(run.acts) == DirCount(run.root))
    && (run.failure.Some? ==>
          FailureOk(run.root, run.target, run.failure.value) && FileActions(run.acts) < FileCount(run.root))
  }

  /** `copy_subdir(root, target)` as one `Run`. */
  method Walk(root: Node, target: string, existing: set<string>) returns (run: Run, after: set<string>)
    ensures RunOk(run, (root, target))
    ensures NoOverwrite(existing, run.acts)
    ensures after == existing + Targets(run.acts)
    ensures run.failure.Some? ==> run.failure.value.tgt !in after
  {
    var acts, failure;
    acts, after, failure := CopySubdir(root, target, existing);
    run := Run(root, target, acts, failure);
  }

  /** The walks the map asks for: `(src / k, tgt / v)` for each entry. */
  function Planned(dirmap: seq<seq<(string, string)>>, src: string, tgt: string,
                   resolve: string -> Node): (plan: seq<(Node, string)>)
    ensures |plan| == |MapEntries(dirmap)|
    ensures forall j :: 0 <= j < |plan| ==>
      plan[j] == (resolve(src + "/" + MapEntries(dirmap)[j].0), tgt + "/" + MapEntries(dirmap)[j].1)
  {
    var entries := MapEntries(dirmap);
    seq(|entries|, j requires 0 <= j < |entries| => (resolve(src + "/" + entries[j].0), tgt + "/" + entries[j].1))
  }

  /** One more walk, started from what the earlier ones left, keeps the
      no-overwrite rule over all of them. */
  lemma RunAppend(existing: set<string>, runs: seq<Run>, run: Run)
    requires NoOverwrite(existing, Concat(runs))
    requires NoOverwrite(existing + Targets(Concat(runs)), run.acts)
    ensures NoOverwrite(existing, Concat(runs + [run]))
    ensures existing + Targets(Concat(runs + [run])) == existing + Targets(Concat(runs)) + Targets(run.acts)
  {
    assert (runs + [run])[..|runs|] == runs;
    NoOverwriteAppend(existing, Concat(runs), run.acts);
    TargetsAppend(Concat(runs), run.acts);
  }

  /** The walks done so far by the map loop, and the target paths that
      then exist. */
  datatype Walked = Walked(runs: seq<Run>, after: set<string>)

  /** `copy_files`: for each map entry `k: v`, in order, the walk of the
      source path `src/k` (looked up by `resolve`) into `tgt/v`. The copy
      that raises ends the whole loop: only the last walk can have failed,
      and without a failure every entry was walked. The tree `resolve`
      gives for a path bears that path's last part as its name, and the
      paths that exist before include the parents of each one. */
  method CopyFiles(dirmap: seq<seq<(string, string)>>, src: string, tgt: string,
                   resolve: string -> Node, existing: set<string>)
    returns (runs: seq<Run>, after: set<string>, failed: bool)
    requires forall q :: resolve(q).name == BaseName(q)
    requires forall e :: e in existing ==> Ancestors(e) <= existing
    ensures |runs| <= |MapEntries(dirmap)|
    ensures forall j :: 0 <= j < |runs| ==> RunOk(runs[j], Planned(dirmap, src, tgt, resolve)[j])
    ensures forall j :: 0 <= j < |runs| - 1 ==> runs[j].failure.None?
    ensures failed <==> |runs| > 0 && runs[|runs| - 1].failure.Some?
    ensures !failed ==> |runs| == |MapEntries(dirmap)|
    ensures NoOverwrite(existing, Concat(runs))
    ensures after == existing + Targets(Concat(runs))
  {
    var entries := MapEntries(dirmap);
    ghost var plan := Planned(dirmap, src, tgt, resolve);
    var done := Walked([], existing);
    failed := false;
    var i := 0;
    while i < |entries|
      invariant 0 <= i <= |entries| && |done.runs| == i
      invariant forall j :: 0 <= j < i ==> RunOk(done.runs[j], plan[j])
      invariant forall j :: 0 <= j < i ==> done.runs[j].failure.None?
      invariant NoOverwrite(existing, Concat(done.runs))
      invariant done.after == existing + Targets(Concat(done.runs))
    {
      var (k, v) := entries[i];
      assert plan[i] == (resolve(src + "/" + k), tgt + "/" + v);
      ghost var before := done.runs;
      done := WalkNext(resolve(src + "/" + k), tgt + "/" + v, existing, done, plan);
      if done.runs[i].failure.Some? {
        failed := true;
        break;
      }
      forall j | 0 <= j < i + 1
        ensures done.runs[j].failure.None?
      {
        if j < i {
          assert done.runs[j] == before[j];
        }
      }
      i := i + 1;
    }
    runs, after := done.runs, done.after;
  }

  /** One turn of the loop over the map entries: the walk of the next
      planned pair, appended to the earlier ones. */
  method WalkNext(root: Node, target: string, existing: set<string>, done: Walked, ghost plan: seq<(Node, string)>)
    returns (done': Walked)
    requires |done.runs| < |plan| && plan[|done.runs|] == (root, target)
    requires forall j :: 0 <= j < |done.runs| ==> RunOk(done.runs[j], plan[j])
    requires NoOverwrite(existing, Concat(done.runs))
    requires done.after == existing + Targets(Concat(done.runs))
    ensures |done'.runs| == |done.runs| + 1 && forall j :: 0 <= j < |done.runs| ==> done'.runs[j] == done.runs[j]
    ensures forall j :: 0 <= j < |done'.runs| ==> RunOk(done'.runs[j], plan[j])
    ensures NoOverwrite(existing, Concat(done'.runs))
    ensures done'.after == existing + Targets(Concat(done'.runs))
  {
    var run, after := Walk(root, target, done.after);
    RunAppend(existing, done.runs, run);
    done' := Walked(done.runs + [run], after);
    forall j | 0 <= j < |done'.runs|
      ensures RunOk(done'.runs[j], plan[j])
    {
      if j < |done.runs| {
        assert done'.runs[j] == done.runs[j];
      }
    }
  }
}
