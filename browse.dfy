/** The notebook browser of `idaes_examples/browse.py`: a registry of the
    notebooks found under the source root, keyed by section, name and type
    in insertion order; the title and description taken from a notebook's
    first cell; the tabular views the window shows; and the styling of the
    description lines in the side panel. */
module Browse {
  import opened Wrappers
  import opened PyStr
  import Build

  type Path = Build.Path

  /** The exceptions these members can raise. */
  datatype Error =
    | IndexError      // `rows[index]` out of range
    | AttributeError  // `_short_desc` or `_lines` was never set
    | NotUnderRoot    // `path.relative_to(root)` raised `ValueError`
    | FileNotFound    // the notebook file cannot be opened
    | TypeError       // a list put into a set: it is not hashable

  // ---------------------------------------------------------------------
  //  Title and description
  // ---------------------------------------------------------------------

  /** `self._short_desc` (None: never set), `self._long_desc` and
      `self._lines` (None: never set). */
  datatype Description = Description(title: Option<string>, long: string, lines: Option<seq<string>>)

  const NoDescription := "No description"

  predicate IsHeadingLine(line: string) {
    StartsWith(Strip(line), "#")
  }

  /** A heading line is one whose first character that is not white space
      is `#`. */
  lemma HeadingLineMeaning(line: string)
    ensures IsHeadingLine(line) <==>
      exists i :: 0 <= i < |line| && line[i] == '#' && forall k :: 0 <= k < i ==> IsSpace(line[k])
  {
    StripMeaning(line);
    var a, b :| (0 <= a <= b <= |line| && Strip(line) == line[a..b] &&
      (forall k :: 0 <= k < a ==> IsSpace(line[k])) &&
      (forall k :: b <= k < |line| ==> IsSpace(line[k])));
    if IsHeadingLine(line) {
      assert line[a] == Strip(line)[0] == '#';
    }
    if exists i :: 0 <= i < |line| && line[i] == '#' && forall k :: 0 <= k < i ==> IsSpace(line[k]) {
      var i :| 0 <= i < |line| && line[i] == '#' && forall k :: 0 <= k < i ==> IsSpace(line[k]);
      assert !IsSpace('#');
      assert a <= i < b;
      assert Strip(line)[0] == line[a];
      assert a == i;
      assert Strip(line)[..1] == "#";
    }
  }

  /** `line[line.rfind("#") + 1:].strip()` */
  function HeadingTitle(line: string): string {
    Strip(From(line, RFind(line, '#') + 1))
  }

  /** The index of the first heading line, if there is one. */
  function FirstHeading(lines: seq<string>): (r: Option<nat>)
    ensures r.Some? ==> r.value < |lines| && IsHeadingLine(lines[r.value])
    ensures r.Some? ==> forall k :: 0 <= k < r.value ==> !IsHeadingLine(lines[k])
    ensures r.None? <==> forall k :: 0 <= k < |lines| ==> !IsHeadingLine(lines[k])
  {
    if |lines| == 0 then None
    else if IsHeadingLine(lines[0]) then Some(0)
    else
      var rest := FirstHeading(lines[1..]);
      assert forall k :: 1 <= k < |lines| ==> lines[k] == lines[1..][k - 1];
      if rest.None? then None else Some(rest.value + 1)
  }

  /** The first cell is a markdown cell with a present, non-empty source. */
  predicate HasDescription(cells: seq<Build.Cell>) {
    |cells| > 0 && cells[0].cellType == "markdown" && cells[0].source.Some? && |cells[0].source.value| > 0
  }

  /** What `_get_description` leaves behind for a notebook with `cells`. */
  function DescriptionOf(cells: seq<Build.Cell>): (d: Description)
    ensures HasDescription(cells) ==>
      var src := cells[0].source.value;
      && d.long == Join(src, "")
      && d.lines == Some(src)
      && (d.title.None? <==> forall k :: 0 <= k < |src| ==> !IsHeadingLine(src[k]))
      && (d.title.Some? ==>
            exists i :: (0 <= i < |src| && IsHeadingLine(src[i]) &&
              (forall k :: 0 <= k < i ==> !IsHeadingLine(src[k])) && d.title.value == HeadingTitle(src[i])))
    ensures !HasDescription(cells) ==> d == Description(Some(NoDescription), NoDescription, None)
  {
    if HasDescription(cells) then
      var src := cells[0].source.value;
      var h := FirstHeading(src);
      assert h.Some? ==> h.value < |src| && IsHeadingLine(src[h.value]) && forall k :: 0 <= k < h.value ==> !IsHeadingLine(src[k]);
      Description(TitleOf(src), Join(src, ""), Some(src))
    else
      Description(Some(NoDescription), NoDescription, None)
  }

  /** The title of the first heading line of `lines`, if there is one. */
  function TitleOf(lines: seq<string>): Option<string> {
    var h := FirstHeading(lines);
    if h.None? then None else Some(HeadingTitle(lines[h.value]))
  }

  /** `Notebook._get_description` over the notebook's cells, with the loop
      that stops at the first heading line. */
  method GetDescription(cells: seq<Build.Cell>) returns (d: Description)
    ensures d == DescriptionOf(cells)
  {
    if |cells| > 0 {
      var c1 := cells[0];
      if c1.cellType == "markdown" && c1.source.Some? && |c1.source.value| > 0 {
        var lines := c1.source.value;
        var title := FindTitle(lines);
        d := Description(title, Join(lines, ""), Some(lines));
        return;
      }
    }
    d := Description(Some(NoDescription), NoDescription, None);
  }

  /** The loop of `_get_description` that stops at the first heading line
      and takes its title. */
  method FindTitle(lines: seq<string>) returns (title: Option<string>)
    ensures title == TitleOf(lines)
  {
    title := None;
    for i := 0 to |lines|
      invariant title.None?
      invariant forall k :: 0 <= k < i ==> !IsHeadingLine(lines[k])
    {
      var line := lines[i];
      if StartsWith(Strip(line), "#") {
        title := Some(Strip(From(line, RFind(line, '#') + 1)));
        assert FirstHeading(lines) == Some(i);
        break;
      }
    }
  }

  // ---------------------------------------------------------------------
  //  Notebooks and their attributes
  // ---------------------------------------------------------------------

  /** A `Notebook`: name, section parts, path, description and type. */
  datatype Notebook = Notebook(name: string, sectionParts: seq<string>, path: Path, desc: Description, nbtype: string)

  /** The `section` property: the parts joined with ":". */
  function Section(nb: Notebook): string {
    Join(nb.sectionParts, ":")
  }

  /** The section string determines the parts, when there is at least one
      and none holds a ":". */
  lemma SectionParts(nb: Notebook)
    requires |nb.sectionParts| > 0
    requires forall k :: 0 <= k < |nb.sectionParts| ==> ':' !in nb.sectionParts[k]
    ensures Split(Section(nb), ':') == nb.sectionParts
  {
    SplitJoin(nb.sectionParts, ':');
  }

  /** The attribute names `get`, `as_table` and `row_groups` are given. */
  datatype Column = NameCol | SectionCol | TitleCol | DescriptionCol | DescriptionLinesCol | TypeCol | PathCol

  datatype Value = Text(text: string) | Lines(lines: seq<string>) | Location(path: Path)

  /** `getattr(nb, c)` */
  function Attr(nb: Notebook, c: Column): (r: Result<Value, Error>)
    ensures r.Err? <==> (c == TitleCol && nb.desc.title.None?) || (c == DescriptionLinesCol && nb.desc.lines.None?)
    ensures r.Err? ==> r.error == AttributeError
    ensures c == NameCol ==> r == Ok(Text(nb.name))
    ensures c == SectionCol ==> r == Ok(Text(Section(nb)))
    ensures c == TypeCol ==> r == Ok(Text(nb.nbtype))
  {
    match c
    case NameCol => Ok(Text(nb.name))
    case SectionCol => Ok(Text(Section(nb)))
    case TitleCol => if nb.desc.title.Some? then Ok(Text(nb.desc.title.value)) else Err(AttributeError)
    case DescriptionCol => Ok(Text(nb.desc.long))
    case DescriptionLinesCol => if nb.desc.lines.Some? then Ok(Lines(nb.desc.lines.value)) else Err(AttributeError)
    case TypeCol => Ok(Text(nb.nbtype))
    case PathCol => Ok(Location(nb.path))
  }

  // ---------------------------------------------------------------------
  //  The registry dictionary
  // ---------------------------------------------------------------------

  /** `(section, name, type)` */
  type Key = (seq<string>, string, string)

  type Entries = seq<(Key, Notebook)>

  ghost predicate UniqueKeys(entries: Entries) {
    forall i, j :: 0 <= i < j < |entries| ==> entries[i].0 != entries[j].0
  }

  function KeyIndex(entries: Entries, k: Key): (r: Option<nat>)
    ensures r.None? <==> forall i :: 0 <= i < |entries| ==> entries[i].0 != k
    ensures r.Some? ==> r.value < |entries| && entries[r.value].0 == k
  {
    if |entries| == 0 then None
    else if entries[0].0 == k then Some(0)
    else match KeyIndex(entries[1..], k)
      case None => None
      case Some(i) => Some(i + 1)
  }

  /** `d[k]`, or None where Python raises `KeyError`. */
  function Lookup(entries: Entries, k: Key): Option<Notebook> {
    match KeyIndex(entries, k)
    case None => None
    case Some(i) => Some(entries[i].1)
  }

  /** `d[k] = nb`: an existing key keeps its place, a new one goes last. */
  function DictPut(entries: Entries, k: Key, nb: Notebook): Entries {
    match KeyIndex(entries, k)
    case None => entries + [(k, nb)]
    case Some(i) => entries[i := (k, nb)]
  }

  lemma DictPutMeaning(entries: Entries, k: Key, nb: Notebook)
    requires UniqueKeys(entries)
    ensures UniqueKeys(DictPut(entries, k, nb))
    ensures Lookup(DictPut(entries, k, nb), k) == Some(nb)
    ensures forall k' :: k' != k ==> Lookup(DictPut(entries, k, nb), k') == Lookup(entries, k')
    ensures Lookup(entries, k).Some? ==>
      |DictPut(entries, k, nb)| == |entries| && forall i :: 0 <= i < |entries| ==> DictPut(entries, k, nb)[i].0 == entries[i].0
    ensures Lookup(entries, k).None? ==> DictPut(entries, k, nb) == entries + [(k, nb)]
  {
    var r := DictPut(entries, k, nb);
    match KeyIndex(entries, k)
    case None =>
      forall k' | k' != k
        ensures Lookup(r, k') == Lookup(entries, k')
      {
        if KeyIndex(entries, k').Some? {
          assert KeyIndex(r, k') == KeyIndex(entries, k') by {
            UniqueIndex(r, k', KeyIndex(entries, k').value);
          }
        }
      }
      assert KeyIndex(r, k) == Some(|entries|) by {
        UniqueIndex(r, k, |entries|);
      }
    case Some(p) =>
      assert forall i :: 0 <= i < |r| ==> r[i].0 == entries[i].0;
      assert KeyIndex(r, k) == Some(p) by {
        UniqueIndex(r, k, p);
      }
      forall k' | k' != k
        ensures Lookup(r, k') == Lookup(entries, k')
      {
        if KeyIndex(entries, k').Some? {
          var q := KeyIndex(entries, k').value;
          UniqueIndex(r, k', q);
        }
      }
  }

  /** With unique keys, the index of a key is the one position holding it. */
  lemma UniqueIndex(entries: Entries, k: Key, i: nat)
    requires UniqueKeys(entries)
    requires i < |entries| && entries[i].0 == k
    ensures KeyIndex(entries, k) == Some(i)
  {
  }

  // ---------------------------------------------------------------------
  //  Registering a notebook
  // ---------------------------------------------------------------------

  /** The types registered beside the plain one, in order. */
  const SiblingTags: seq<Build.Tag> := [Build.Ex, Build.Sol]

  predicate UnderRoot(root: Path, path: Path) {
    |root| <= |path| && path[..|root|] == root
  }

  /** `path.relative_to(root).parts[:-1]` */
  function SectionOf(root: Path, path: Path): seq<string>
    requires UnderRoot(root, path)
  {
    var rel := path[|root|..];
    if |rel| == 0 then [] else rel[..|rel| - 1]
  }

  /** `path.parent / f"{name}_{tag.value}.ipynb"` */
  function SiblingPath(path: Path, name: string, tag: Build.Tag): Path {
    Build.Parent(path) + [name + "_" + Build.TagValue(tag) + ".ipynb"]
  }

  /** `Notebook(name, section, path, nbtype)`: reads the file at `path`. */
  function MakeNotebook(name: string, section: seq<string>, path: Path, file: Build.NbFile, nbtype: string): Notebook {
    Notebook(name, section, path, DescriptionOf(file.cells), nbtype)
  }

  /** `if tpath.exists(): self._nb[key] = Notebook(name, section, tpath, nbtype=tag.value)`,
      where `fs` holds the files that exist. */
  function SiblingPut(entries: Entries, section: seq<string>, name: string, path: Path,
                      fs: map<Path, Build.NbFile>, tag: Build.Tag): Entries {
    var tpath := SiblingPath(path, name, tag);
    if tpath in fs then
      DictPut(entries, (section, name, Build.TagValue(tag)), MakeNotebook(name, section, tpath, fs[tpath], Build.TagValue(tag)))
    else entries
  }

  /** The sibling registrations for `tags`, in order. */
  function AddSiblings(entries: Entries, section: seq<string>, name: string, path: Path,
                       fs: map<Path, Build.NbFile>, tags: seq<Build.Tag>): Entries
    decreases |tags|
  {
    if |tags| == 0 then entries
    else SiblingPut(AddSiblings(entries, section, name, path, fs, tags[..|tags| - 1]), section, name, path, fs, tags[|tags| - 1])
  }

  /** The registry after `add_notebook(path)`, or the exception it raises. */
  function Register(entries: Entries, root: Path, path: Path, fs: map<Path, Build.NbFile>): Result<Entries, Error> {
    if !UnderRoot(root, path) then Err(NotUnderRoot)
    else if path !in fs then Err(FileNotFound)
    else
      var name := Build.Stem(Build.Name(path));
      var section := SectionOf(root, path);
      var plain := DictPut(entries, (section, name, "plain"), MakeNotebook(name, section, path, fs[path], "plain"));
      Ok(AddSiblings(plain, section, name, path, fs, SiblingTags))
  }

  /** One sibling registration: its key is set exactly when the sibling file
      exists, and every other key keeps its notebook. */
  lemma SiblingPutMeaning(entries: Entries, section: seq<string>, name: string, path: Path,
                          fs: map<Path, Build.NbFile>, tag: Build.Tag)
    requires UniqueKeys(entries)
    ensures UniqueKeys(SiblingPut(entries, section, name, path, fs, tag))
    ensures Lookup(SiblingPut(entries, section, name, path, fs, tag), (section, name, Build.TagValue(tag))) ==
      if SiblingPath(path, name, tag) in fs
      then Some(MakeNotebook(name, section, SiblingPath(path, name, tag), fs[SiblingPath(path, name, tag)], Build.TagValue(tag)))
      else Lookup(entries, (section, name, Build.TagValue(tag)))
    ensures forall k: Key :: k != (section, name, Build.TagValue(tag)) ==>
      Lookup(SiblingPut(entries, section, name, path, fs, tag), k) == Lookup(entries, k)
  {
    var tpath := SiblingPath(path, name, tag);
    if tpath in fs {
      DictPutMeaning(entries, (section, name, Build.TagValue(tag)), MakeNotebook(name, section, tpath, fs[tpath], Build.TagValue(tag)));
    }
  }

  lemma AddSiblingsBoth(entries: Entries, section: seq<string>, name: string, path: Path, fs: map<Path, Build.NbFile>)
    ensures AddSiblings(entries, section, name, path, fs, SiblingTags) ==
      SiblingPut(SiblingPut(entries, section, name, path, fs, Build.Ex), section, name, path, fs, Build.Sol)
  {
  }

  /** `add_notebook`: the plain key is always registered, a tag key exactly
      when its sibling file exists (otherwise it keeps what it had), and no
      other key changes. It raises, changing nothing, for a path outside the
      root or a missing file. */
  lemma RegisterMeaning(entries: Entries, root: Path, path: Path, fs: map<Path, Build.NbFile>)
    requires UniqueKeys(entries)
    ensures Register(entries, root, path, fs).Err? <==> !UnderRoot(root, path) || path !in fs
    ensures !UnderRoot(root, path) ==> Register(entries, root, path, fs) == Err(NotUnderRoot)
    ensures UnderRoot(root, path) && path !in fs ==> Register(entries, root, path, fs) == Err(FileNotFound)
    ensures Register(entries, root, path, fs).Ok? ==>
      var e := Register(entries, root, path, fs).value;
      var name := Build.Stem(Build.Name(path));
      var section := SectionOf(root, path);
      var exPath := SiblingPath(path, name, Build.Ex);
      var solPath := SiblingPath(path, name, Build.Sol);
      && UniqueKeys(e)
      && Lookup(e, (section, name, "plain")) == Some(MakeNotebook(name, section, path, fs[path], "plain"))
      && Lookup(e, (section, name, "exercise")) ==
           (if exPath in fs then Some(MakeNotebook(name, section, exPath, fs[exPath], "exercise"))
            else Lookup(entries, (section, name, "exercise")))
      && Lookup(e, (section, name, "solution")) ==
           (if solPath in fs then Some(MakeNotebook(name, section, solPath, fs[solPath], "solution"))
            else Lookup(entries, (section, name, "solution")))
      && (forall k: Key :: k.0 != section || k.1 != name || (k.2 != "plain" && k.2 != "exercise" && k.2 != "solution") ==>
            Lookup(e, k) == Lookup(entries, k))
  {
    if UnderRoot(root, path) && path in fs {
      var name := Build.Stem(Build.Name(path));
      var section := SectionOf(root, path);
      var plainKey := (section, name, "plain");
      var plain := DictPut(entries, plainKey, MakeNotebook(name, section, path, fs[path], "plain"));
      DictPutMeaning(entries, plainKey, MakeNotebook(name, section, path, fs[path], "plain"));
      var e1 := SiblingPut(plain, section, name, path, fs, Build.Ex);
      SiblingPutMeaning(plain, section, name, path, fs, Build.Ex);
      SiblingPutMeaning(e1, section, name, path, fs, Build.Sol);
      AddSiblingsBoth(plain, section, name, path, fs);
    }
  }

  // ---------------------------------------------------------------------
  //  The registry
  // ---------------------------------------------------------------------

  /** `Notebooks`: the source root and the `_nb` dictionary. */
  class Notebooks {
    var root: Path
    var entries: Entries

    ghost predicate Valid()
      reads this
    {
      UniqueKeys(entries)
    }

    /** The registry before `find_notebooks` has reported anything. */
    constructor (root: Path)
      ensures Valid() && this.root == root && entries == []
    {
      this.root := root;
      entries := [];
    }

    /** `add_notebook(path)`, where `fs` maps the existing notebook files
        to their contents. */
    method AddNotebook(path: Path, fs: map<Path, Build.NbFile>) returns (r: Result<(), Error>)
      requires Valid()
      modifies this
      ensures Valid()
      ensures root == old(root)
      ensures Register(old(entries), root, path, fs).Ok? ==>
        r.Ok? && entries == Register(old(entries), root, path, fs).value
      ensures Register(old(entries), root, path, fs).Err? ==>
        r == Err(Register(old(entries), root, path, fs).error) && entries == old(entries)
    {
      var name := Build.Stem(Build.Name(path));
      if !UnderRoot(root, path) {
        return Err(NotUnderRoot);
      }
      var section := SectionOf(root, path);
      if path !in fs {
        return Err(FileNotFound);
      }
      var d := GetDescription(fs[path].cells);
      var key := (section, name, "plain");
      DictPutMeaning(entries, key, Notebook(name, section, path, d, "plain"));
      entries := DictPut(entries, key, Notebook(name, section, path, d, "plain"));
      ghost var plain := entries;
      for i := 0 to |SiblingTags|
        invariant entries == AddSiblings(plain, section, name, path, fs, SiblingTags[..i])
        invariant Valid() && root == old(root)
      {
        var tag := SiblingTags[i];
        var tpath := Build.Parent(path) + [name + "_" + Build.TagValue(tag) + ".ipynb"];
        assert SiblingTags[..i + 1][..i] == SiblingTags[..i];
        if tpath in fs {
          var td := GetDescription(fs[tpath].cells);
          key := (section, name, Build.TagValue(tag));
          DictPutMeaning(entries, key, Notebook(name, section, tpath, td, Build.TagValue(tag)));
          entries := DictPut(entries, key, Notebook(name, section, tpath, td, Build.TagValue(tag)));
        }
      }
      r := Ok(());
    }

    /** `get(index)`: the registered notebooks in insertion order, indexed
        as a Python list, negative indexes counting from the end. */
    function Get(index: int): (r: Result<Notebook, Error>)
      reads this
      ensures r.Ok? <==> -|entries| <= index < |entries|
      ensures r.Err? ==> r.error == IndexError
      ensures 0 <= index < |entries| ==> r == Ok(entries[index].1)
      ensures -|entries| <= index < 0 ==> r == Ok(entries[|entries| + index].1)
    {
      if 0 <= index < |entries| then Ok(entries[index].1)
      else if -|entries| <= index < 0 then Ok(entries[|entries| + index].1)
      else Err(IndexError)
    }

    /** `get(index, name)` */
    function GetAttr(index: int, c: Column): (r: Result<Value, Error>)
      reads this
      ensures Get(index).Err? ==> r == Err(IndexError)
      ensures Get(index).Ok? ==> r == Attr(Get(index).value, c)
    {
      match Get(index)
      case Err(e) => Err(e)
      case Ok(nb) => Attr(nb, c)
    }

    /** `as_table(*columns)`: one row per notebook in insertion order, one
        value per column in column order; `AttributeError` when any of those
        attributes is unset. */
    method AsTable(columns: seq<Column>) returns (r: Result<seq<seq<Value>>, Error>)
      ensures r.Ok? <==> forall i, j :: 0 <= i < |entries| && 0 <= j < |columns| ==> Attr(entries[i].1, columns[j]).Ok?
      ensures r.Err? ==> r.error == AttributeError
      ensures r.Ok? ==> |r.value| == |entries|
      ensures r.Ok? ==> forall i :: 0 <= i < |entries| ==> |r.value[i]| == |columns|
      ensures r.Ok? ==> forall i, j :: 0 <= i < |entries| && 0 <= j < |columns| ==>
        r.value[i][j] == Attr(entries[i].1, columns[j]).value
    {
      var t: seq<seq<Value>> := [];
      for i := 0 to |entries|
        invariant |t| == i
        invariant forall a, j :: 0 <= a < i && 0 <= j < |columns| ==> Attr(entries[a].1, columns[j]).Ok?
        invariant forall a :: 0 <= a < i ==> |t[a]| == |columns|
        invariant forall a, j :: 0 <= a < i && 0 <= j < |columns| ==> t[a][j] == Attr(entries[a].1, columns[j]).value
      {
        var nb := entries[i].1;
        var row: seq<Value> := [];
        for c := 0 to |columns|
          invariant |row| == c
          invariant forall j :: 0 <= j < c ==> Attr(nb, columns[j]).Ok? && row[j] == Attr(nb, columns[j]).value
        {
          var v := Attr(nb, columns[c]);
          if v.Err? {
            return Err(v.error);
          }
          row := row + [v.value];
        }
        t := t + [row];
      }
      r := Ok(t);
    }

    /** `row_groups(*columns)`: the group number of each notebook, in
        insertion order. */
    method RowGroups(columns: seq<Column>) returns (r: Result<seq<nat>, Error>)
      ensures r.Ok? <==> forall i :: 0 <= i < |entries| ==> RowKey(entries[i].1, columns).Ok?
      ensures r.Err? ==> exists i :: (0 <= i < |entries| && RowKey(entries[i].1, columns) == Err(r.error) &&
        forall a :: 0 <= a < i ==> RowKey(entries[a].1, columns).Ok?)
      ensures r.Ok? ==> |r.value| == |entries|
      ensures r.Ok? && |entries| > 0 ==> r.value[0] == 0
      ensures r.Ok? ==> forall i :: 0 < i < |entries| ==>
        r.value[i] == r.value[i - 1] + (if RowKey(entries[i].1, columns) != RowKey(entries[i - 1].1, columns) then 1 else 0)
      ensures r.Ok? ==> forall i :: 0 <= i < |entries| ==> r.value[i] <= i
    {
      var groups: seq<nat> := [];
      var groupNum: int := -1;
      var prevKey: Option<set<Value>> := None;
      for i := 0 to |entries|
        invariant |groups| == i
        invariant i == 0 ==> groupNum == -1 && prevKey.None?
        invariant 0 < i ==>
          (RowKey(entries[i - 1].1, columns).Ok? && groupNum == groups[i - 1] &&
           prevKey == Some(RowKey(entries[i - 1].1, columns).value))
        invariant forall a :: 0 <= a < i ==> RowKey(entries[a].1, columns).Ok?
        invariant 0 < i ==> groups[0] == 0
        invariant forall a :: 0 < a < i ==>
          groups[a] == groups[a - 1] + (if RowKey(entries[a].1, columns) != RowKey(entries[a - 1].1, columns) then 1 else 0)
        invariant forall a :: 0 <= a < i ==> groups[a] <= a
      {
        var key := RowKey(entries[i].1, columns);
        if key.Err? {
          assert RowKey(entries[i].1, columns) == Err(key.error);
          return Err(key.error);
        }
        if Some(key.value) != prevKey {
          groupNum := groupNum + 1;
          prevKey := Some(key.value);
        }
        groups := groups + [groupNum];
      }
      r := Ok(groups);
    }
  }

  /** A value a Python `set` accepts: the list of `description_lines` is
      not hashable. */
  predicate Hashable(v: Value) {
    !v.Lines?
  }

  /** The exception building `{getattr(nb, c) for c in columns}` raises, if
      any: it comes from the first column whose attribute is unset
      (`AttributeError`) or is a list (`TypeError`). */
  function KeyFailure(nb: Notebook, columns: seq<Column>): (r: Option<Error>)
    ensures r.None? <==> forall j :: 0 <= j < |columns| ==> Attr(nb, columns[j]).Ok? && Hashable(Attr(nb, columns[j]).value)
    ensures r.Some? ==> r.value == AttributeError || r.value == TypeError
    decreases |columns|
  {
    if |columns| == 0 then None
    else
      var rest := KeyFailure(nb, columns[1..]);
      assert forall j :: 1 <= j < |columns| ==> columns[j] == columns[1..][j - 1];
      match Attr(nb, columns[0])
      case Err(e) => Some(e)
      case Ok(v) => if Hashable(v) then rest else Some(TypeError)
  }

  /** Column `c` of `nb` is set and can go into a set. */
  predicate ColumnOk(nb: Notebook, c: Column) {
    Attr(nb, c).Ok? && Hashable(Attr(nb, c).value)
  }

  /** The exception a failing column raises. */
  function ColumnError(nb: Notebook, c: Column): Error {
    if Attr(nb, c).Err? then Attr(nb, c).error else TypeError
  }

  /** The exception comes from the first column that fails: every earlier
      one is set and hashable, and that one is unset (its `AttributeError`)
      or a list (`TypeError`). */
  lemma {:induction false} KeyFailureFirst(nb: Notebook, columns: seq<Column>)
    ensures KeyFailure(nb, columns).Some? ==> exists j :: (0 <= j < |columns| &&
      (forall i :: 0 <= i < j ==> ColumnOk(nb, columns[i])) && !ColumnOk(nb, columns[j]) &&
      KeyFailure(nb, columns).value == ColumnError(nb, columns[j]))
    decreases |columns|
  {
    if |columns| > 0 && KeyFailure(nb, columns).Some? {
      if ColumnOk(nb, columns[0]) {
        var rest := columns[1..];
        KeyFailureFirst(nb, rest);
        assert KeyFailure(nb, columns) == KeyFailure(nb, rest);
        var j :| (0 <= j < |rest| && (forall i :: 0 <= i < j ==> ColumnOk(nb, rest[i])) &&
          !ColumnOk(nb, rest[j]) && KeyFailure(nb, rest).value == ColumnError(nb, rest[j]));
        assert forall i :: 0 < i < j + 1 ==> columns[i] == rest[i - 1];
        assert columns[j + 1] == rest[j];
      } else {
        assert KeyFailure(nb, columns).value == ColumnError(nb, columns[0]);
      }
    }
  }

  /** `{getattr(nb, c) for c in columns}` */
  function RowKey(nb: Notebook, columns: seq<Column>): (r: Result<set<Value>, Error>)
    ensures r.Ok? <==> forall j :: 0 <= j < |columns| ==> Attr(nb, columns[j]).Ok? && Hashable(Attr(nb, columns[j]).value)
    ensures r.Err? ==> r.error == AttributeError || r.error == TypeError
  {
    match KeyFailure(nb, columns)
    case Some(e) => Err(e)
    case None => Ok(set j | 0 <= j < |columns| :: Attr(nb, columns[j]).value)
  }

  /** The key holds exactly the values of the named attributes. */
  lemma RowKeyMembers(nb: Notebook, columns: seq<Column>)
    requires RowKey(nb, columns).Ok?
    ensures forall v :: v in RowKey(nb, columns).value <==> exists j :: 0 <= j < |columns| && Attr(nb, columns[j]) == Ok(v)
  {
  }

  /** A key that can be built from the columns `ds` can be built from any
      columns taken among them. */
  lemma RowKeyOkSubset(nb: Notebook, cs: seq<Column>, ds: seq<Column>)
    requires forall c :: c in cs ==> c in ds
    requires RowKey(nb, ds).Ok?
    ensures RowKey(nb, cs).Ok?
  {
    forall j | 0 <= j < |cs|
      ensures Attr(nb, cs[j]).Ok? && Hashable(Attr(nb, cs[j]).value)
    {
      assert cs[j] in ds;
    }
  }

  /** The key is a set: the order and repetition of the columns do not
      matter to whether it can be built or to what it holds (only to which
      exception is raised first). */
  lemma RowKeyColumnsAsSet(nb: Notebook, cs: seq<Column>, ds: seq<Column>)
    requires forall c :: c in cs <==> c in ds
    ensures RowKey(nb, cs).Ok? <==> RowKey(nb, ds).Ok?
    ensures RowKey(nb, cs).Ok? ==> RowKey(nb, cs) == RowKey(nb, ds)
  {
    if RowKey(nb, ds).Ok? {
      RowKeyOkSubset(nb, cs, ds);
    }
    if RowKey(nb, cs).Ok? {
      RowKeyOkSubset(nb, ds, cs);
      RowKeyMembers(nb, cs);
      RowKeyMembers(nb, ds);
      var a, b := RowKey(nb, cs).value, RowKey(nb, ds).value;
      forall v | v in b
        ensures v in a
      {
        var j :| 0 <= j < |ds| && Attr(nb, ds[j]) == Ok(v);
        assert ds[j] in cs;
        var m :| 0 <= m < |cs| && cs[m] == ds[j];
      }
      forall v | v in a
        ensures v in b
      {
        var j :| 0 <= j < |cs| && Attr(nb, cs[j]) == Ok(v);
        assert cs[j] in ds;
        var m :| 0 <= m < |ds| && ds[m] == cs[j];
      }
      assert a == b;
    }
  }

  // ---------------------------------------------------------------------
  //  The description panel
  // ---------------------------------------------------------------------

  /** One line written into the panel, with its font size, weight and colour. */
  datatype Styled = Styled(text: string, size: int, weight: string, color: string)

  predicate IsImage(line: string) {
    StartsWith(Strip(line), "![")
  }

  /** The lines `_print` writes: it skips empty lines, white-space lines
      until something has been shown (`pre`), and image lines. */
  function Selected(lines: seq<string>, pre: bool): seq<string>
    decreases |lines|
  {
    if |lines| == 0 then []
    else
      var line := lines[0];
      if line == "" || (pre && Strip(line) == "") || IsImage(line) then Selected(lines[1..], pre)
      else [line] + Selected(lines[1..], false)
  }

  /** The number of `#` a string starts with. */
  function LeadingHashes(s: string): (n: nat)
    ensures n <= |s|
    ensures forall k :: 0 <= k < n ==> s[k] == '#'
    ensures n < |s| ==> s[n] != '#'
  {
    if |s| > 0 && s[0] == '#' then 1 + LeadingHashes(s[1..]) else 0
  }

  function Min(a: int, b: int): int {
    if a < b then a else b
  }

  /** How `_print` styles a line it shows. */
  function Style(line: string): (o: Styled)
    ensures IsHeadingLine(line) <==> o.weight == "bold"
    ensures o.weight == "bold" <==> o.color == "#33a"
    ensures !IsHeadingLine(line) ==> o == Styled(line, 11, "", "black")
    ensures IsHeadingLine(line) ==> (o.size == 15 <==> LeadingHashes(Strip(line)) == 1)
    ensures IsHeadingLine(line) ==> (o.size == 13 <==> LeadingHashes(Strip(line)) >= 2)
    ensures o.size == 11 || o.size == 13 || o.size == 15
  {
    var lstr := Strip(line);
    if StartsWith(lstr, "#") then
      var depth := LeadingHashes(lstr) + 1;
      Styled(Strip(From(line, depth)) + "\n", 11 + (4 - Min(depth, 3)) * 2, "bold", "#33a")
    else
      Styled(line, 11, "", "black")
  }

  /** A heading written the usual way, `h` hashes, one space and a title
      with no surrounding white space, shows as the bare title in bold blue,
      in size 15 for `#` and 13 for anything deeper. */
  lemma StyleHeading(h: nat, title: string)
    requires 1 <= h
    requires title != "" && !IsSpace(title[0]) && !IsSpace(title[|title| - 1])
    ensures Style(Hashes(h) + " " + title) == Styled(title + "\n", if h == 1 then 15 else 13, "bold", "#33a")
  {
    var line := Hashes(h) + " " + title;
    assert line[0] == '#' && line[h] == ' ';
    assert line[|line| - 1] == title[|title| - 1];
    assert LStrip(line) == line;
    assert Strip(line) == line;
    assert StartsWith(line, "#");
    assert LeadingHashes(line) == h;
    assert line[h + 1..] == title;
    assert LStrip(title) == title;
  }

  /** What the panel holds after `_print` on `lines`. */
  function Display(lines: seq<string>): seq<Styled> {
    StyleAll(Selected(lines, true))
  }

  function Hashes(n: nat): string {
    seq(n, _ => '#')
  }

  lemma HashesPrefix(s: string, n: nat)
    ensures StartsWith(s, Hashes(n)) <==> n <= LeadingHashes(s)
  {
  }

  /** The `depth` loop: one more than the leading `#` count. */
  method HeadingDepth(lstr: string) returns (depth: nat)
    ensures depth == LeadingHashes(lstr) + 1
  {
    depth := 1;
    HashesPrefix(lstr, depth);
    while StartsWith(lstr, Hashes(depth))
      invariant 1 <= depth <= LeadingHashes(lstr) + 1
      invariant StartsWith(lstr, Hashes(depth)) <==> depth <= LeadingHashes(lstr)
      decreases LeadingHashes(lstr) + 1 - depth
    {
      depth := depth + 1;
      HashesPrefix(lstr, depth);
    }
  }

  /** The styling of one shown line, as `_print` computes it. */
  method StyleLine(line: string) returns (o: Styled)
    ensures o == Style(line)
  {
    var lstr := Strip(line);
    var fontSize, fontWeight, fontColor := 11, "", "black";
    var text := line;
    if StartsWith(lstr, "#") {
      var depth := HeadingDepth(lstr);
      fontSize := fontSize + (4 - Min(depth, 3)) * 2;
      fontWeight := "bold";
      text := Strip(From(line, depth)) + "\n";
      fontColor := "#33a";
    }
    o := Styled(text, fontSize, fontWeight, fontColor);
  }

  /** `_print`: clears the panel, then appends each shown line, styled. */
  method Render(lines: seq<string>) returns (out: seq<Styled>)
    ensures out == Display(lines)
  {
    out := [];
    var pre := true;
    for i := 0 to |lines|
      invariant out + StyleAll(Selected(lines[i..], pre)) == StyleAll(Selected(lines, true))
    {
      var line := lines[i];
      assert lines[i..] == [line] + lines[i + 1..];
      if line == "" {
        continue;
      }
      var lstr := Strip(line);
      if pre && lstr == "" {
        continue;
      }
      if StartsWith(lstr, "![") {
        continue;
      }
      pre := false;
      var o := StyleLine(line);
      StyleAllCons(line, Selected(lines[i + 1..], false));
      out := out + [o];
    }
    assert lines[|lines|..] == [];
  }

  function StyleAll(sel: seq<string>): seq<Styled> {
    seq(|sel|, k requires 0 <= k < |sel| => Style(sel[k]))
  }

  lemma StyleAllCons(line: string, rest: seq<string>)
    ensures StyleAll([line] + rest) == [Style(line)] + StyleAll(rest)
  {
  }

  /** Every shown line is non-empty and not an image, the first one is not
      blank when nothing had been shown before, and no line is invented. */
  lemma {:induction false} SelectedSound(lines: seq<string>, pre: bool)
    ensures forall k :: 0 <= k < |Selected(lines, pre)| ==>
      Selected(lines, pre)[k] != "" && !IsImage(Selected(lines, pre)[k]) && Selected(lines, pre)[k] in lines
    ensures pre && |Selected(lines, pre)| > 0 ==> Strip(Selected(lines, pre)[0]) != ""
    ensures |Selected(lines, pre)| <= |lines|
    decreases |lines|
  {
    if |lines| > 0 {
      SelectedSound(lines[1..], pre);
      SelectedSound(lines[1..], false);
      var line := lines[0];
      if !(line == "" || (pre && Strip(line) == "") || IsImage(line)) {
        assert Selected(lines, pre) == [line] + Selected(lines[1..], false);
      }
    }
  }

  /** Once something has been shown, every non-empty line that is not an
      image is shown, blank ones included. */
  lemma {:induction false} SelectedAfterShown(lines: seq<string>, i: nat)
    requires i < |lines| && lines[i] != "" && !IsImage(lines[i])
    ensures lines[i] in Selected(lines, false)
    decreases |lines|
  {
    if i > 0 {
      SelectedAfterShown(lines[1..], i - 1);
    }
  }

  /** Every line with visible text that is not an image is shown; a line with
      only white space is shown when a line with visible text comes first. */
  lemma {:induction false} SelectedComplete(lines: seq<string>, pre: bool, i: nat)
    requires i < |lines| && lines[i] != "" && !IsImage(lines[i])
    requires Strip(lines[i]) != "" || exists j :: 0 <= j < i && Strip(lines[j]) != "" && !IsImage(lines[j])
    ensures lines[i] in Selected(lines, pre)
    decreases |lines|
  {
    var line := lines[0];
    if i == 0 {
      assert Strip(line) != "";
    } else if line == "" || (pre && Strip(line) == "") || IsImage(line) {
      if Strip(lines[i]) == "" {
        var j :| 0 <= j < i && Strip(lines[j]) != "" && !IsImage(lines[j]);
        assert Strip("") == "";
        assert lines[1..][j - 1] == lines[j];
      }
      SelectedComplete(lines[1..], pre, i - 1);
    } else {
      SelectedAfterShown(lines[1..], i - 1);
    }
  }

  const Prompt := "Select a notebook to view its description"

  /** The side panel: the lines it was given and what it shows. */
  class NotebookDescription {
    var text: seq<string>
    var shown: seq<Styled>

    constructor ()
      ensures text == [Prompt] && shown == Display([Prompt])
    {
      text := [Prompt];
      var out := Render([Prompt]);
      shown := out;
    }

    /** `clicked(row)`: show the description lines of the notebook in that
        row, or raise (`IndexError`, `AttributeError`) and change nothing. */
    method Clicked(nbs: Notebooks, row: int) returns (r: Result<(), Error>)
      modifies this
      ensures nbs.GetAttr(row, DescriptionLinesCol).Ok? ==>
        r.Ok? && text == nbs.GetAttr(row, DescriptionLinesCol).value.lines && shown == Display(text)
      ensures nbs.GetAttr(row, DescriptionLinesCol).Err? ==>
        r == Err(nbs.GetAttr(row, DescriptionLinesCol).error) && text == old(text) && shown == old(shown)
    {
      var v := nbs.GetAttr(row, DescriptionLinesCol);
      if v.Err? {
        return Err(v.error);
      }
      text := v.value.lines;
      shown := Render(text);
      r := Ok(());
    }
  }
}
