/** The notebook pre-processor of `idaes_examples/build.py`: from one source
    notebook whose cells carry tags it derives a `test`, a `doc` and, for
    tutorials, an `exercise` and a `solution` notebook, each a copy of the
    source with the cells its exclusion policy names deleted. */
module Build {
  import opened Wrappers
  import opened PyStr

  // ---------------------------------------------------------------------
  //  Tags, cells, notebooks
  // ---------------------------------------------------------------------

  /** The recognised tags, the `Tags` enumeration. */
  datatype Tag = Ex | Sol | Tut | Test

  function TagValue(t: Tag): string {
    match t
    case Ex => "exercise"
    case Sol => "solution"
    case Tut => "tutorial"
    case Test => "testing"
  }

  /** `Tags(s)`: the member whose value is `s`, or `None` where Python raises
      `ValueError` (an unrecognised tag string). */
  function ParseTag(s: string): (r: Option<Tag>)
    ensures forall t :: r == Some(t) <==> s == TagValue(t)
  {
    if s == "exercise" then Some(Ex)
    else if s == "solution" then Some(Sol)
    else if s == "tutorial" then Some(Tut)
    else if s == "testing" then Some(Test)
    else None
  }

  /** One notebook cell: its `cell_type`, its `source` lines when the key is
      present, and the set made of its `metadata.tags` list (empty when the
      key is absent). */
  datatype Cell = Cell(cellType: string, source: Option<seq<string>>, tags: set<string>)

  /** A loaded notebook: the `cells` list and, abstractly, the other
      top-level keys, which a copy carries over unchanged. */
  datatype NbFile = NbFile(cells: seq<Cell>, other: map<string, string>)

  /** The recognised tags among a cell's tag strings (what the inner loop
      adds to `had_tag`). */
  function RecognisedTags(tags: set<string>): (r: set<Tag>)
    ensures forall t :: t in r <==> TagValue(t) in tags
  {
    (if "exercise" in tags then {Ex} else {})
    + (if "solution" in tags then {Sol} else {})
    + (if "tutorial" in tags then {Tut} else {})
    + (if "testing" in tags then {Test} else {})
  }

  // ---------------------------------------------------------------------
  //  Variants and the exclusion policy
  // ---------------------------------------------------------------------

  /** The generated notebooks, the keys of `exclude_tags`. */
  datatype Variant = TestNb | ExerciseNb | SolutionNb | DocNb

  function VariantName(v: Variant): string {
    match v
    case TestNb => "test"
    case ExerciseNb => "exercise"
    case SolutionNb => "solution"
    case DocNb => "doc"
  }

  /** The keys of `exclude_tags` in the order the dictionary lists them. */
  const PolicyOrder: seq<Variant> := [TestNb, ExerciseNb, SolutionNb, DocNb]

  /** The position of a variant in `PolicyOrder`. */
  function Rank(v: Variant): (r: nat)
    ensures r < |PolicyOrder| && PolicyOrder[r] == v
  {
    match v
    case TestNb => 0
    case ExerciseNb => 1
    case SolutionNb => 2
    case DocNb => 3
  }

  /** `exclude_tags[v]`: the tag strings that drop a cell from variant `v`.
      Every one of them is the value of a `Tags` member. */
  function ExcludeTags(v: Variant): (r: set<string>)
    ensures forall s :: s in r ==> ParseTag(s).Some?
  {
    match v
    case TestNb => {TagValue(Ex)}
    case ExerciseNb => {TagValue(Test), TagValue(Sol)}
    case SolutionNb => {TagValue(Test)}
    case DocNb => {TagValue(Ex), TagValue(Test)}
  }

  /** `cell_tags & ex_tags` is non-empty. */
  predicate Excluded(c: Cell, v: Variant) {
    c.tags * ExcludeTags(v) != {}
  }

  /** The policy read tag by tag: which variants lose a cell that carries a
      given tag. `tutorial` and unrecognised strings drop it from none. */
  lemma PolicyByTag(c: Cell)
    ensures Excluded(c, TestNb) <==> "exercise" in c.tags
    ensures Excluded(c, SolutionNb) <==> "testing" in c.tags
    ensures Excluded(c, ExerciseNb) <==> "testing" in c.tags || "solution" in c.tags
    ensures Excluded(c, DocNb) <==> "exercise" in c.tags || "testing" in c.tags
  {
    if "exercise" in c.tags { assert "exercise" in c.tags * ExcludeTags(TestNb); assert "exercise" in c.tags * ExcludeTags(DocNb); }
    if "testing" in c.tags {
      assert "testing" in c.tags * ExcludeTags(SolutionNb);
      assert "testing" in c.tags * ExcludeTags(ExerciseNb);
      assert "testing" in c.tags * ExcludeTags(DocNb);
    }
    if "solution" in c.tags { assert "solution" in c.tags * ExcludeTags(ExerciseNb); }
  }

  /** Adding unrecognised tag strings to a cell changes neither what it
      contributes to `had_tag` nor any variant's decision to drop it. */
  lemma UnrecognisedTagsIgnored(c: Cell, extra: set<string>, v: Variant)
    requires forall s :: s in extra ==> ParseTag(s).None?
    ensures RecognisedTags(c.tags + extra) == RecognisedTags(c.tags)
    ensures Excluded(c.(tags := c.tags + extra), v) <==> Excluded(c, v)
  {
  }

  // ---------------------------------------------------------------------
  //  Classifying the cells
  // ---------------------------------------------------------------------

  /** `had_tag` after scanning `cells`. */
  function HadTags(cells: seq<Cell>): set<Tag>
    decreases |cells|
  {
    if |cells| == 0 then {}
    else HadTags(cells[..|cells| - 1]) + RecognisedTags(cells[|cells| - 1].tags)
  }

  lemma {:induction false} HadTagsMeaning(cells: seq<Cell>, t: Tag)
    ensures t in HadTags(cells) <==> exists k :: 0 <= k < |cells| && TagValue(t) in cells[k].tags
    decreases |cells|
  {
    if |cells| > 0 {
      var init := cells[..|cells| - 1];
      HadTagsMeaning(init, t);
      if t in HadTags(init) {
        var k :| 0 <= k < |init| && TagValue(t) in init[k].tags;
        assert cells[k] == init[k];
      }
      if exists k :: 0 <= k < |cells| && TagValue(t) in cells[k].tags {
        var k :| 0 <= k < |cells| && TagValue(t) in cells[k].tags;
        if k < |init| { assert init[k] == cells[k]; }
      }
    }
  }

  /** `exclude_cells[v]` after scanning `cells`: the indexes of the cells
      variant `v` drops, each new one inserted at the front. */
  function ExclusionList(cells: seq<Cell>, v: Variant): seq<nat>
    decreases |cells|
  {
    if |cells| == 0 then []
    else
      (if Excluded(cells[|cells| - 1], v) then [|cells| - 1] else [])
      + ExclusionList(cells[..|cells| - 1], v)
  }

  predicate StrictlyDecreasing(xs: seq<nat>) {
    forall a, b :: 0 <= a < b < |xs| ==> xs[a] > xs[b]
  }

  /** An index is listed exactly when its cell is dropped, the list runs
      strictly downwards, and it has no duplicates. */
  lemma {:induction false} ExclusionListMeaning(cells: seq<Cell>, v: Variant)
    ensures forall k: nat :: k in ExclusionList(cells, v) <==> k < |cells| && Excluded(cells[k], v)
    ensures forall j :: 0 <= j < |ExclusionList(cells, v)| ==> ExclusionList(cells, v)[j] < |cells|
    ensures StrictlyDecreasing(ExclusionList(cells, v))
    decreases |cells|
  {
    if |cells| > 0 {
      var init := cells[..|cells| - 1];
      ExclusionListMeaning(init, v);
      assert forall k :: 0 <= k < |init| ==> init[k] == cells[k];
      var rest := ExclusionList(init, v);
      assert forall j :: 0 <= j < |rest| ==> rest[j] < |init|;
    }
  }

  /** `had_tag & {Tags.EX, Tags.SOL}` is non-empty. */
  predicate IsTutorial(had: set<Tag>) {
    Ex in had || Sol in had
  }

  /** `nb_names`: the variants written for a notebook with tags `had`. */
  function VariantList(had: set<Tag>): seq<Variant> {
    [TestNb, DocNb] + (if IsTutorial(had) then [ExerciseNb, SolutionNb] else [])
  }

  /** A notebook gets the exercise and solution variants exactly when some
      cell is tagged `exercise` or `solution`; `tutorial` or `testing` alone
      leaves it with the test and doc variants. */
  lemma VariantListOfCells(cells: seq<Cell>)
    ensures VariantList(HadTags(cells)) ==
      if exists k :: 0 <= k < |cells| && ("exercise" in cells[k].tags || "solution" in cells[k].tags)
      then [TestNb, DocNb, ExerciseNb, SolutionNb]
      else [TestNb, DocNb]
  {
    var had := HadTags(cells);
    HadTagsMeaning(cells, Ex);
    HadTagsMeaning(cells, Sol);
    assert TagValue(Ex) == "exercise" && TagValue(Sol) == "solution";
    assert IsTutorial(had) <==> exists k :: 0 <= k < |cells| && ("exercise" in cells[k].tags || "solution" in cells[k].tags);
  }

  /** The scanning loop of `_preprocess`: it grows `had_tag` and the per
      variant index lists cell by cell. */
  method ClassifyCells(cells: seq<Cell>) returns (had: set<Tag>, exclude: map<Variant, seq<nat>>)
    ensures had == HadTags(cells)
    ensures forall v :: v in exclude && exclude[v] == ExclusionList(cells, v)
  {
    had := {};
    exclude := map v | v in PolicyOrder :: [];
    forall v: Variant ensures v in exclude {
      assert PolicyOrder[Rank(v)] == v;
    }
    for i := 0 to |cells|
      invariant had == HadTags(cells[..i])
      invariant forall v :: v in exclude && exclude[v] == ExclusionList(cells[..i], v)
    {
      assert cells[..i + 1][..i] == cells[..i];
      assert cells[..i + 1][i] == cells[i];
      had := CollectTags(had, cells[i].tags);
      exclude := RecordCell(exclude, i, cells[i]);
    }
    assert cells[..|cells|] == cells;
  }

  /** `for c in cell_tags: had_tag.add(Tags(c))`, skipping the strings
      `Tags` rejects. */
  method CollectTags(had: set<Tag>, cellTags: set<string>) returns (had': set<Tag>)
    ensures had' == had + RecognisedTags(cellTags)
  {
    had' := had;
    var rest := cellTags;
    while rest != {}
      invariant rest <= cellTags
      invariant had' == had + RecognisedTags(cellTags - rest)
      decreases rest
    {
      var c :| c in rest;
      var t := ParseTag(c);
      if t.Some? {
        had' := had' + {t.value};
      }
      rest := rest - {c};
    }
    assert cellTags - rest == cellTags;
  }

  /** `for name, ex_tags in exclude_tags.items(): if cell_tags & ex_tags:
      exclude_cells[name].insert(0, cell_index)` */
  method RecordCell(exclude: map<Variant, seq<nat>>, i: nat, c: Cell) returns (exclude': map<Variant, seq<nat>>)
    requires forall v :: v in exclude
    ensures forall v :: v in exclude' && exclude'[v] == (if Excluded(c, v) then [i] else []) + exclude[v]
  {
    exclude' := exclude;
    for j := 0 to |PolicyOrder|
      invariant forall v :: v in exclude'
      invariant forall v :: exclude'[v] == (if Rank(v) < j && Excluded(c, v) then [i] else []) + exclude[v]
    {
      var name := PolicyOrder[j];
      assert Rank(name) == j;
      if Excluded(c, name) {
        exclude' := exclude'[name := [i] + exclude'[name]];
      }
      assert forall v :: v != name ==> Rank(v) != j;
    }
  }

  // ---------------------------------------------------------------------
  //  Deleting the excluded cells from a copy
  // ---------------------------------------------------------------------

  /** The cells a variant keeps, in their original order: the reference
      definition of the copy-and-delete step. */
  function Kept(cells: seq<Cell>, v: Variant): seq<Cell>
    decreases |cells|
  {
    if |cells| == 0 then []
    else
      Kept(cells[..|cells| - 1], v)
      + (if Excluded(cells[|cells| - 1], v) then [] else [cells[|cells| - 1]])
  }

  /** The cells whose positions are not listed in `d`, in order. */
  function Remaining(cells: seq<Cell>, d: seq<nat>): seq<Cell>
    decreases |cells|
  {
    if |cells| == 0 then []
    else
      Remaining(cells[..|cells| - 1], d)
      + (if |cells| - 1 in d then [] else [cells[|cells| - 1]])
  }

  lemma {:induction false} RemainingUntouched(cells: seq<Cell>, d: seq<nat>)
    requires forall q :: q in d ==> q >= |cells|
    ensures Remaining(cells, d) == cells
    decreases |cells|
  {
    if |cells| > 0 {
      RemainingUntouched(cells[..|cells| - 1], d);
    }
  }

  /** `del copy[p]` after the larger positions `d` were deleted removes
      exactly position `p` of the source. */
  lemma {:induction false} RemainingDeleteOne(cells: seq<Cell>, d: seq<nat>, p: nat)
    requires p < |cells| && p !in d
    requires forall q :: q in d ==> q > p
    ensures |Remaining(cells, d)| > p
    ensures Remaining(cells, d + [p]) == Remaining(cells, d)[..p] + Remaining(cells, d)[p + 1..]
    decreases |cells|
  {
    var n := |cells| - 1;
    var init := cells[..n];
    var e := d + [p];
    assert forall q :: q in e ==> q == p || q in d;
    if n == p {
      RemainingUntouched(init, d);
      RemainingUntouched(init, e);
      assert n in e && n !in d;
      assert Remaining(cells, d) == init + [cells[n]];
      assert Remaining(cells, e) == init;
      assert init + [cells[n]] == cells;
    } else {
      RemainingDeleteOne(init, d, p);
      var rInit := Remaining(init, d);
      var x := if n in d then [] else [cells[n]];
      assert n in e <==> n in d;
      assert Remaining(cells, d) == rInit + x;
      assert Remaining(cells, e) == Remaining(init, e) + x;
      assert (rInit + x)[..p] == rInit[..p];
      assert (rInit + x)[p + 1..] == rInit[p + 1..] + x;
    }
  }

  /** Removing the positions of the dropped cells gives the kept ones. */
  lemma {:induction false} RemainingIsKept(cells: seq<Cell>, d: seq<nat>, v: Variant)
    requires forall k :: 0 <= k < |cells| ==> (k in d <==> Excluded(cells[k], v))
    ensures Remaining(cells, d) == Kept(cells, v)
    decreases |cells|
  {
    if |cells| > 0 {
      var init := cells[..|cells| - 1];
      assert forall k :: 0 <= k < |init| ==> init[k] == cells[k];
      RemainingIsKept(init, d, v);
    }
  }

  /** What a variant keeps: no cell it drops, every cell it does not drop,
      and together with the dropped indexes the whole notebook. */
  lemma {:induction false} KeptMeaning(cells: seq<Cell>, v: Variant)
    ensures forall c :: c in Kept(cells, v) ==> c in cells && !Excluded(c, v)
    ensures forall k :: 0 <= k < |cells| && !Excluded(cells[k], v) ==> cells[k] in Kept(cells, v)
    ensures |Kept(cells, v)| + |ExclusionList(cells, v)| == |cells|
    decreases |cells|
  {
    if |cells| > 0 {
      var init := cells[..|cells| - 1];
      KeptMeaning(init, v);
      assert forall k :: 0 <= k < |init| ==> init[k] == cells[k];
      assert forall c :: c in init ==> c in cells;
    }
  }

  /** Filtering commutes with concatenation: the kept cells keep their
      relative order. */
  lemma {:induction false} KeptAppend(a: seq<Cell>, b: seq<Cell>, v: Variant)
    ensures Kept(a + b, v) == Kept(a, v) + Kept(b, v)
    decreases |b|
  {
    if |b| == 0 {
      assert a + b == a;
    } else {
      var bInit := b[..|b| - 1];
      KeptAppend(a, bInit, v);
      assert (a + b)[..|a + b| - 1] == a + bInit;
      assert (a + b)[|a + b| - 1] == b[|b| - 1];
    }
  }

  /** The loop `for index in exclude_cells[name]: del copy[index]` on a
      fresh copy of the cell list. Deleting from the highest position down
      never shifts a position still to be deleted. */
  method DeleteIndexes(cells: seq<Cell>, idx: seq<nat>) returns (copy: seq<Cell>)
    requires StrictlyDecreasing(idx)
    requires forall j :: 0 <= j < |idx| ==> idx[j] < |cells|
    ensures copy == Remaining(cells, idx)
  {
    copy := cells;
    RemainingUntouched(cells, []);
    var j := 0;
    while j < |idx|
      invariant 0 <= j <= |idx|
      invariant copy == Remaining(cells, idx[..j])
    {
      var index := idx[j];
      RemainingDeleteOne(cells, idx[..j], index);
      copy := copy[..index] + copy[index + 1..];
      assert idx[..j + 1] == idx[..j] + [index];
      j := j + 1;
    }
    assert idx[..|idx|] == idx;
  }

  // ---------------------------------------------------------------------
  //  Paths
  // ---------------------------------------------------------------------

  /** A path as the list of its parts. */
  type Path = seq<string>

  /** `path.name`: the last part, "" for the empty path. */
  function Name(p: Path): string {
    if |p| == 0 then "" else p[|p| - 1]
  }

  /** `path.parent` */
  function Parent(p: Path): Path {
    if |p| == 0 then [] else p[..|p| - 1]
  }

  /** `path.stem`: the name without its last suffix; a leading dot or a
      trailing dot does not start a suffix. */
  function Stem(name: string): string {
    var i := RFind(name, '.');
    if 0 < i < |name| - 1 then name[..i] else name
  }

  /** `nb_path.parent / f"{nb_path.stem}_{name}.ipynb"` */
  function OutputPath(p: Path, v: Variant): Path {
    Parent(p) + [Stem(Name(p)) + "_" + VariantName(v) + ".ipynb"]
  }

  /** Each variant file sits beside the source and is named after the
      source's stem and the variant. */
  lemma OutputPathSibling(p: Path, v: Variant)
    ensures Parent(OutputPath(p, v)) == Parent(p)
    ensures Name(OutputPath(p, v)) == Stem(Name(p)) + "_" + VariantName(v) + ".ipynb"
    ensures EndsWith(Name(OutputPath(p, v)), "_" + VariantName(v) + ".ipynb")
  {
    var o := OutputPath(p, v);
    assert o[..|o| - 1] == Parent(p);
    var nv := Stem(Name(p)) + "_" + VariantName(v) + ".ipynb";
    assert nv[|nv| - |"_" + VariantName(v) + ".ipynb"|..] == "_" + VariantName(v) + ".ipynb";
  }

  /** The variant files of one notebook are pairwise distinct. */
  lemma OutputPathDistinct(p: Path, v: Variant, w: Variant)
    ensures OutputPath(p, v) == OutputPath(p, w) <==> v == w
  {
    if OutputPath(p, v) == OutputPath(p, w) {
      var stem := Stem(Name(p));
      var nv := stem + "_" + VariantName(v) + ".ipynb";
      var nw := stem + "_" + VariantName(w) + ".ipynb";
      assert nv == OutputPath(p, v)[|Parent(p)|];
      assert nw == OutputPath(p, w)[|Parent(p)|];
      assert nv[|stem| + 1..|nv| - 6] == VariantName(v);
      assert nw[|stem| + 1..|nw| - 6] == VariantName(w);
    }
  }

  /** No variant file is the source notebook itself. */
  lemma OutputPathNotSource(p: Path, v: Variant)
    ensures OutputPath(p, v) != p
  {
  }

  /** The parts `pathlib` makes of a relative path string: the pieces
      between slashes, without empty pieces and `.`. */
  function PathParts(pieces: seq<string>): Path {
    if |pieces| == 0 then []
    else (if pieces[0] == "" || pieces[0] == "." then [] else [pieces[0]]) + PathParts(pieces[1..])
  }

  function SplitPath(s: string): Path {
    PathParts(Split(s, '/'))
  }

  /** `src_path / f"src/{filename}.ipynb"` with `filename = file[:-4]`. */
  function TocNotebookPath(srcPath: Path, file: string): Path {
    srcPath + SplitPath("src/" + DropLast(file, 4) + ".ipynb")
  }

  /** A table-of-contents entry `x_doc` names the notebook `src/x.ipynb`
      under the source directory; the last four characters are dropped
      whatever they are. */
  lemma TocNotebookPathFlat(srcPath: Path, file: string)
    requires '/' !in file
    ensures TocNotebookPath(srcPath, file) == srcPath + ["src", DropLast(file, 4) + ".ipynb"]
  {
    var name := DropLast(file, 4) + ".ipynb";
    var s := "src/" + name;
    assert s == "src/" + DropLast(file, 4) + ".ipynb";
    assert '/' !in name by {
      assert forall k :: 0 <= k < |DropLast(file, 4)| ==> DropLast(file, 4)[k] == file[k];
      assert forall k :: 0 <= k < 6 ==> name[|name| - 6 + k] == ".ipynb"[k];
    }
    assert s[3] == '/';
    assert s[..3] == "src";
    var i := IndexOf(s, '/');
    assert i == 3 by {
      assert forall k :: 0 <= k < 3 ==> s[k] != '/';
    }
    assert s[4..] == name;
    assert Split(name, '/') == [name];
    assert Split(s, '/') == ["src", name];
    assert name != "" && name != ".";
    assert PathParts(["src", name]) == ["src"] + PathParts([name]);
    assert PathParts([name]) == [name] + PathParts([]);
  }

  lemma {:induction false} PathPartsAppend(a: seq<string>, b: seq<string>)
    ensures PathParts(a + b) == PathParts(a) + PathParts(b)
    decreases |a|
  {
    if |a| > 0 {
      assert (a + b)[1..] == a[1..] + b;
      PathPartsAppend(a[1..], b);
    } else {
      assert a + b == b;
    }
  }

  /** A path string under `src/` has `src` as its first part. */
  lemma SplitPathUnderSrc(x: string)
    ensures SplitPath("src/" + x) == ["src"] + SplitPath(x)
  {
    assert "src/" + x == "src" + ['/'] + x;
    SplitAfter("src", '/', x);
    PathPartsAppend(["src"], Split(x, '/'));
    assert PathParts(["src"]) == ["src"] + PathParts([]);
  }

  /** Appending `.ipynb` extends the last piece, which then is a part. */
  lemma SplitPathNotebook(stem: string)
    ensures var pieces := Split(stem, '/');
      SplitPath(stem + ".ipynb") == PathParts(pieces[..|pieces| - 1]) + [pieces[|pieces| - 1] + ".ipynb"]
  {
    var pieces := Split(stem, '/');
    var name := pieces[|pieces| - 1] + ".ipynb";
    SplitAppendPlain(stem, '/', ".ipynb");
    PathPartsAppend(pieces[..|pieces| - 1], [name]);
    assert name[|name| - 1] == 'b';
    assert PathParts([name]) == [name] + PathParts([]);
  }

  /** A table-of-contents entry names the notebook under `src/`: the pieces
      of `file[:-4]` between slashes, without empty pieces and `.`, are the
      directories, and the last piece with `.ipynb` is the file name. */
  lemma TocNotebookPathShape(srcPath: Path, file: string)
    ensures var pieces := Split(DropLast(file, 4), '/');
      TocNotebookPath(srcPath, file) ==
        srcPath + ["src"] + PathParts(pieces[..|pieces| - 1]) + [pieces[|pieces| - 1] + ".ipynb"]
  {
    var stem := DropLast(file, 4);
    assert "src/" + stem + ".ipynb" == "src/" + (stem + ".ipynb");
    SplitPathUnderSrc(stem + ".ipynb");
    SplitPathNotebook(stem);
  }

  /** The nested entry `g/nb_doc` names `src/g/nb.ipynb`. */
  lemma TocNotebookPathNested(srcPath: Path)
    ensures TocNotebookPath(srcPath, "g/nb_doc") == srcPath + ["src", "g", "nb.ipynb"]
  {
    TocNotebookPathShape(srcPath, "g/nb_doc");
    var stem := DropLast("g/nb_doc", 4);
    assert stem == "g" + ['/'] + "nb";
    SplitAfter("g", '/', "nb");
    assert Split("nb", '/') == ["nb"];
    var pieces := Split(stem, '/');
    assert pieces == ["g", "nb"] && pieces[..1] == ["g"];
    assert PathParts(["g"]) == ["g"] + PathParts([]);
    assert "nb" + ".ipynb" == "nb.ipynb";
    assert srcPath + ["src"] + ["g"] + ["nb.ipynb"] == srcPath + ["src", "g", "nb.ipynb"];
  }

  // ---------------------------------------------------------------------
  //  Generating the variants of one notebook
  // ---------------------------------------------------------------------

  /** The files `_preprocess` writes for `nb` loaded from `nbPath`: for each
      variant of `VariantList`, the notebook with only the kept cells. */
  function VariantFiles(nbPath: Path, nb: NbFile): seq<(Path, NbFile)> {
    var vs := VariantList(HadTags(nb.cells));
    seq(|vs|, j requires 0 <= j < |vs| => (OutputPath(nbPath, vs[j]), nb.(cells := Kept(nb.cells, vs[j]))))
  }

  /** `_preprocess` on an already loaded notebook: classify the cells, pick
      the variants, and for each one delete its excluded indexes from a copy
      of the cell list. Returns the (path, notebook) pairs it dumps. */
  method PreprocessNotebook(nbPath: Path, nb: NbFile) returns (writes: seq<(Path, NbFile)>)
    ensures writes == VariantFiles(nbPath, nb)
  {
    var had, exclude := ClassifyCells(nb.cells);
    var names := [TestNb, DocNb];
    if IsTutorial(had) {
      names := names + [ExerciseNb, SolutionNb];
    }
    assert names == VariantList(HadTags(nb.cells));
    writes := [];
    for j := 0 to |names|
      invariant |writes| == j
      invariant forall m :: 0 <= m < j ==>
        writes[m] == (OutputPath(nbPath, names[m]), nb.(cells := Kept(nb.cells, names[m])))
    {
      var name := names[j];
      ExclusionListMeaning(nb.cells, name);
      var cellsCopy := DeleteIndexes(nb.cells, exclude[name]);
      RemainingIsKept(nb.cells, exclude[name], name);
      var nbCopy := nb.(cells := cellsCopy);
      writes := writes + [(OutputPath(nbPath, name), nbCopy)];
    }
  }

  /** Each variant file sits beside the source under its own name, keeps
      the notebook's other keys, and holds the source's cells that the
      variant does not drop, and only those. */
  lemma VariantFilesMeaning(nbPath: Path, nb: NbFile)
    ensures |VariantFiles(nbPath, nb)| == |VariantList(HadTags(nb.cells))|
    ensures forall j :: 0 <= j < |VariantFiles(nbPath, nb)| ==>
      var v := VariantList(HadTags(nb.cells))[j];
      var w := VariantFiles(nbPath, nb)[j];
      && w.0 == OutputPath(nbPath, v)
      && w.1.other == nb.other
      && (forall c :: c in w.1.cells ==> c in nb.cells && !Excluded(c, v))
      && (forall k :: 0 <= k < |nb.cells| && !Excluded(nb.cells[k], v) ==> nb.cells[k] in w.1.cells)
  {
    var vs := VariantList(HadTags(nb.cells));
    forall j | 0 <= j < |vs| {
      KeptMeaning(nb.cells, vs[j]);
    }
  }

  // ---------------------------------------------------------------------
  //  Processing every notebook of the table of contents
  // ---------------------------------------------------------------------

  /** The loaded `_toc.yml`: for each part, for each chapter, the `file` of
      each section. */
  datatype Toc = Toc(parts: seq<seq<seq<string>>>)

  /** The section entries in the order the three nested loops visit them. */
  function TocFiles(toc: Toc): seq<string> {
    Flatten(seq(|toc.parts|, i requires 0 <= i < |toc.parts| => Flatten(toc.parts[i])))
  }

  function Flatten(xss: seq<seq<string>>): seq<string> {
    if |xss| == 0 then [] else xss[0] + Flatten(xss[1..])
  }

  /** The notebook files as a map from path to loaded contents; a path
      exists when it is a key. */
  type Files = map<Path, NbFile>

  function WriteAll(fs: Files, writes: seq<(Path, NbFile)>): Files
    decreases |writes|
  {
    if |writes| == 0 then fs
    else WriteAll(fs, writes[..|writes| - 1])[writes[|writes| - 1].0 := writes[|writes| - 1].1]
  }

  /** The notebook count and the files after the loop of `preprocess` has
      handled `entries` in order. A file written for one entry can make a
      later entry's path exist. */
  function PreprocessAll(srcPath: Path, entries: seq<string>, fs: Files): (nat, Files)
    decreases |entries|
  {
    if |entries| == 0 then (0, fs)
    else PreprocessEntry(srcPath, entries[|entries| - 1], PreprocessAll(srcPath, entries[..|entries| - 1], fs))
  }

  /** One entry of the loop: pre-process its notebook if the path exists. */
  function PreprocessEntry(srcPath: Path, entry: string, acc: (nat, Files)): (nat, Files) {
    var path := TocNotebookPath(srcPath, entry);
    if path in acc.1 then (acc.0 + 1, WriteAll(acc.1, VariantFiles(path, acc.1[path]))) else acc
  }

  lemma {:induction false} WriteAllMeaning(fs: Files, writes: seq<(Path, NbFile)>)
    ensures WriteAll(fs, writes).Keys == fs.Keys + set j | 0 <= j < |writes| :: writes[j].0
    decreases |writes|
  {
    if |writes| > 0 {
      var init := writes[..|writes| - 1];
      WriteAllMeaning(fs, init);
      assert (set j | 0 <= j < |writes| :: writes[j].0)
        == (set j | 0 <= j < |init| :: init[j].0) + {writes[|writes| - 1].0} by {
        assert forall j :: 0 <= j < |init| ==> init[j] == writes[j];
      }
    }
  }

  /** With pairwise distinct paths, each written path ends up holding its
      notebook, and every other file keeps its contents. */
  lemma {:induction false} WriteAllContents(fs: Files, writes: seq<(Path, NbFile)>)
    requires forall a, b :: 0 <= a < b < |writes| ==> writes[a].0 != writes[b].0
    ensures forall j :: 0 <= j < |writes| ==> writes[j].0 in WriteAll(fs, writes) && WriteAll(fs, writes)[writes[j].0] == writes[j].1
    ensures forall q :: q in fs && (forall j :: 0 <= j < |writes| ==> writes[j].0 != q) ==>
      q in WriteAll(fs, writes) && WriteAll(fs, writes)[q] == fs[q]
    decreases |writes|
  {
    if |writes| > 0 {
      var init := writes[..|writes| - 1];
      WriteAllContents(fs, init);
      assert forall j :: 0 <= j < |init| ==> init[j] == writes[j];
    }
  }

  /** The variant files of one notebook go to pairwise distinct paths. */
  lemma VariantFilesDistinct(nbPath: Path, nb: NbFile)
    ensures forall a, b :: 0 <= a < b < |VariantFiles(nbPath, nb)| ==>
      VariantFiles(nbPath, nb)[a].0 != VariantFiles(nbPath, nb)[b].0
  {
    var vs := VariantList(HadTags(nb.cells));
    forall a, b | 0 <= a < b < |vs|
      ensures OutputPath(nbPath, vs[a]) != OutputPath(nbPath, vs[b])
    {
      OutputPathDistinct(nbPath, vs[a], vs[b]);
    }
  }

  /** One entry of the loop: when its notebook exists, the count grows by
      one, each variant file holds the kept cells of that notebook, the
      notebook itself and every other file are left as they were; when it
      does not, nothing changes. */
  lemma PreprocessEntryMeaning(srcPath: Path, entry: string, acc: (nat, Files))
    ensures var path := TocNotebookPath(srcPath, entry);
      path !in acc.1 ==> PreprocessEntry(srcPath, entry, acc) == acc
    ensures var path := TocNotebookPath(srcPath, entry);
      var r := PreprocessEntry(srcPath, entry, acc);
      path in acc.1 ==>
        && r.0 == acc.0 + 1
        && (forall v :: v in VariantList(HadTags(acc.1[path].cells)) ==>
              OutputPath(path, v) in r.1 && r.1[OutputPath(path, v)] == acc.1[path].(cells := Kept(acc.1[path].cells, v)))
        && (forall q :: q in acc.1 && (forall v :: v in VariantList(HadTags(acc.1[path].cells)) ==> q != OutputPath(path, v)) ==>
              q in r.1 && r.1[q] == acc.1[q])
        && path in r.1 && r.1[path] == acc.1[path]
  {
    var path := TocNotebookPath(srcPath, entry);
    if path in acc.1 {
      var nb := acc.1[path];
      var vs := VariantList(HadTags(nb.cells));
      var writes := VariantFiles(path, nb);
      VariantFilesDistinct(path, nb);
      WriteAllContents(acc.1, writes);
      forall v | v in vs
        ensures OutputPath(path, v) in WriteAll(acc.1, writes)
        ensures WriteAll(acc.1, writes)[OutputPath(path, v)] == nb.(cells := Kept(nb.cells, v))
      {
        var j :| 0 <= j < |vs| && vs[j] == v;
        assert writes[j].0 == OutputPath(path, v);
      }
      forall q | q in acc.1 && (forall v :: v in vs ==> q != OutputPath(path, v))
        ensures q in WriteAll(acc.1, writes) && WriteAll(acc.1, writes)[q] == acc.1[q]
      {
        assert forall j :: 0 <= j < |writes| ==> writes[j].0 == OutputPath(path, vs[j]);
      }
      forall v | v in vs
        ensures path != OutputPath(path, v)
      {
        OutputPathNotSource(path, v);
      }
    }
  }

  /** The loop counts at most one notebook per entry and never removes a
      file. */
  lemma {:induction false} PreprocessAllMeaning(srcPath: Path, entries: seq<string>, fs: Files)
    ensures PreprocessAll(srcPath, entries, fs).0 <= |entries|
    ensures fs.Keys <= PreprocessAll(srcPath, entries, fs).1.Keys
    decreases |entries|
  {
    if |entries| > 0 {
      var init := entries[..|entries| - 1];
      PreprocessAllMeaning(srcPath, init, fs);
      var fs' := PreprocessAll(srcPath, init, fs).1;
      var path := TocNotebookPath(srcPath, entries[|entries| - 1]);
      if path in fs' {
        WriteAllMeaning(fs', VariantFiles(path, fs'[path]));
      }
    }
  }

  /** `q` is a variant file of the notebook of entry `i`, a notebook that
      existed when the loop reached that entry. */
  ghost predicate WrittenFor(srcPath: Path, entries: seq<string>, fs: Files, q: Path, i: nat, v: Variant) {
    && i < |entries|
    && TocNotebookPath(srcPath, entries[i]) in PreprocessAll(srcPath, entries[..i], fs).1
    && q == OutputPath(TocNotebookPath(srcPath, entries[i]), v)
  }

  /** Every file the loop adds is a variant file of the notebook of some
      entry, a notebook that existed when the loop reached that entry. */
  lemma {:induction false} PreprocessAllAdded(srcPath: Path, entries: seq<string>, fs: Files)
    ensures forall q :: q in PreprocessAll(srcPath, entries, fs).1 && q !in fs ==>
      exists i: nat, v :: WrittenFor(srcPath, entries, fs, q, i, v)
    decreases |entries|
  {
    if |entries| > 0 {
      var last := |entries| - 1;
      var init := entries[..last];
      PreprocessAllAdded(srcPath, init, fs);
      var fs' := PreprocessAll(srcPath, init, fs).1;
      var path := TocNotebookPath(srcPath, entries[last]);
      forall q | q in PreprocessAll(srcPath, entries, fs).1 && q !in fs
        ensures exists i: nat, v :: WrittenFor(srcPath, entries, fs, q, i, v)
      {
        if q in fs' {
          var i: nat, v :| WrittenFor(srcPath, init, fs, q, i, v);
          WrittenForExtends(srcPath, entries, fs, q, i, v, last);
          assert WrittenFor(srcPath, entries, fs, q, i, v);
        } else {
          PreprocessEntryAdded(srcPath, entries[last], PreprocessAll(srcPath, init, fs), q);
          var v :| q == OutputPath(path, v);
          assert entries[..last] == init;
          assert WrittenFor(srcPath, entries, fs, q, last, v);
        }
      }
    }
  }

  /** A file written for an entry of a prefix of the table of contents is
      written for that same entry of the whole of it. */
  lemma WrittenForExtends(srcPath: Path, entries: seq<string>, fs: Files, q: Path, i: nat, v: Variant, m: nat)
    requires m <= |entries| && WrittenFor(srcPath, entries[..m], fs, q, i, v)
    ensures WrittenFor(srcPath, entries, fs, q, i, v)
  {
    assert entries[..m][..i] == entries[..i];
  }

  /** A file that one entry adds is a variant file of that entry's
      notebook, which exists. */
  lemma PreprocessEntryAdded(srcPath: Path, entry: string, acc: (nat, Files), q: Path)
    requires q in PreprocessEntry(srcPath, entry, acc).1 && q !in acc.1
    ensures TocNotebookPath(srcPath, entry) in acc.1
    ensures exists v :: q == OutputPath(TocNotebookPath(srcPath, entry), v)
  {
    var path := TocNotebookPath(srcPath, entry);
    var writes := VariantFiles(path, acc.1[path]);
    WriteAllMeaning(acc.1, writes);
    var j :| 0 <= j < |writes| && writes[j].0 == q;
    assert q == OutputPath(path, VariantList(HadTags(acc.1[path].cells))[j]);
  }

  /** `preprocess`: `FileNotFoundError` naming `src/_toc.yml` when the table
      of contents is missing; otherwise every entry whose notebook exists is
      pre-processed. The `Ok` value is the count `n` of those entries, which
      `preprocess` only logs (line 64 of `build.py`); the function itself
      returns `None`. */
  method Preprocess(srcPath: Path, toc: Option<Toc>, fs: Files) returns (r: Result<nat, Path>, after: Files)
    ensures toc.None? ==> r == Err(srcPath + ["src", "_toc.yml"]) && after == fs
    ensures toc.Some? ==> r.Ok? && (r.value, after) == PreprocessAll(srcPath, TocFiles(toc.value), fs)
  {
    if toc.None? {
      return Err(srcPath + ["src", "_toc.yml"]), fs;
    }
    var entries := TocFiles(toc.value);
    var n := 0;
    after := fs;
    for i := 0 to |entries|
      invariant (n, after) == PreprocessAll(srcPath, entries[..i], fs)
    {
      assert entries[..i + 1][..i] == entries[..i];
      assert entries[..i + 1][i] == entries[i];
      n, after := PreprocessTocEntry(srcPath, entries[i], n, after);
    }
    assert entries[..|entries|] == entries;
    r := Ok(n);
  }

  /** The body of the loop of `preprocess` for one section entry. */
  method PreprocessTocEntry(srcPath: Path, entry: string, n: nat, fs: Files) returns (n': nat, after: Files)
    ensures (n', after) == PreprocessEntry(srcPath, entry, (n, fs))
  {
    var path := TocNotebookPath(srcPath, entry);
    if path in fs {
      var writes := PreprocessNotebook(path, fs[path]);
      after := DumpAll(fs, writes);
      n' := n + 1;
    } else {
      n', after := n, fs;
    }
  }

  /** The `json.dump` of each generated notebook, in order; a later write
      to the same path replaces an earlier one. */
  method DumpAll(fs: Files, writes: seq<(Path, NbFile)>) returns (after: Files)
    ensures after == WriteAll(fs, writes)
  {
    after := fs;
    for k := 0 to |writes|
      invariant after == WriteAll(fs, writes[..k])
    {
      after := after[writes[k].0 := writes[k].1];
      assert writes[..k + 1][..k] == writes[..k];
    }
    assert writes[..|writes|] == writes;
  }

  // ---------------------------------------------------------------------
  //  Command plumbing
  // ---------------------------------------------------------------------

  /** How the command function called by `Commands._run` ended. */
  datatype Raised =
    | Returned            // no exception
    | FileNotFound        // FileNotFoundError
    | OtherException      // any other subclass of Exception
    | BaseExceptionOnly   // KeyboardInterrupt, SystemExit: not caught

  /** What `_run` does: return a value, or let the exception through. */
  datatype RunOutcome = Value(code: Option<int>) | Propagates

  /** `Commands._run`: None on success, -2 for a missing file, -1 for any
      other exception; exceptions outside `Exception` are not caught. */
  function RunCommand(raised: Raised): (r: RunOutcome)
    ensures r == Value(None) <==> raised == Returned
    ensures r == Value(Some(-2)) <==> raised == FileNotFound
    ensures r == Value(Some(-1)) <==> raised == OtherException
    ensures r == Propagates <==> raised == BaseExceptionOnly
  {
    match raised
    case Returned => Value(None)
    case FileNotFound => Value(Some(-2))
    case OtherException => Value(Some(-1))
    case BaseExceptionOnly => Propagates
  }

  /** The levels of the `logging` module and their numeric values. */
  datatype Level = Debug | Info | Warning

  function LevelValue(l: Level): int {
    match l
    case Debug => 10
    case Info => 20
    case Warning => 30
  }

  /** `process_vb`: the log level for a count of `-v` flags. */
  function ProcessVb(vb: int): (l: Level)
    ensures vb >= 2 <==> l == Debug
    ensures vb == 1 <==> l == Info
    ensures vb <= 0 <==> l == Warning
  {
    if vb >= 2 then Debug else if vb == 1 then Info else Warning
  }

  /** More `-v` flags never raise the threshold. */
  lemma ProcessVbMonotone(a: int, b: int)
    requires a <= b
    ensures LevelValue(ProcessVb(b)) <= LevelValue(ProcessVb(a))
  {
  }
}
