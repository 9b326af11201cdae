# IDAES examples: notebook variants, the copy script and the browser

A Dafny model of the three pieces of the IDAES examples repository that do
real work on notebooks and file names:

- **The notebook pre-processor** (`idaes_examples/build.py`, module `Build`).
  Cells carry tag strings. For each source notebook, a static table names
  the tags that drop a cell from each generated variant:
  - `test`, `doc`, and, for tutorials, `exercise` and `solution`.

  The scanning loop collects the recognised tags and the per-variant index
  lists, inserting each new index at the front. Each variant is a fresh copy
  of the cell list with those indexes deleted in turn. The variant files are
  named after the source's stem. The model also covers:
  - the table-of-contents loop of `preprocess`;
  - the exit codes of `Commands._run`;
  - the verbosity mapping `process_vb`.
- **The copy script** (`copy_files.py`, module `CopyFiles`).
  - It walks each mapped source directory with an explicit work list.
  - It skips children named `__pycache__` or `.ipynb_checkpoints`, files
    or directories, and files ending in `-` or `,cover`.
  - It renames notebooks: it strips one of `_solution_testing`, `_testing`
    and `_example`, adds `_src` and lower-cases the path.
  - It never overwrites a target that already exists.
- **The notebook browser** (`idaes_examples/browse.py`, module `Browse`).
  - A registry of notebooks keyed by (section, name, type), in insertion
    order, as a Python dict keeps them.
  - The exercise and solution siblings are registered when their files
    exist.
  - `get`, `as_table` and `row_groups`.
  - The title and description taken from the first markdown cell.
  - The line selection and heading styles of the description panel.

Supporting modules:
- `Wrappers` holds `Option` and `Result`.
- `PyStr` holds the Python `str` operations the scripts use, written out
  over `seq<char>`: `strip`, `endswith`, `lower`, `rfind`, `join`, `split`
  and negative slicing.

Modelling conventions:
- File-system state is a parameter.
  - In `Build` and `Browse`, the existing notebook files are a map from path
    to loaded contents.
  - In `CopyFiles`, the source tree is a `Node` tree, and the target paths
    that exist are a set of strings.
- Each operation returns what it writes.
- An exception becomes an `Err` or a `failed` flag.
- Paths in `Build` and `Browse` are sequences of parts. `CopyFiles` works on
  `/`-joined path strings, because its renaming works on `str(tgt)`.

Deliberate modelling choices:
- `Notebooks` and `NotebookDescription` are classes, because the source
  updates their fields in place.
- The loops of the source are methods with loop invariants.
  - These are proved equal to a specification function, and the properties
    are proved about that function: `ClassifyCells`, `CollectTags`,
    `RecordCell`, `DeleteIndexes`, `PreprocessNotebook`, `Preprocess`,
    `RenameNotebook`, `PushChildren`, `GetDescription`, `FindTitle`,
    `AddNotebook`, `AsTable`, `RowGroups`, `HeadingDepth`, `Render`.
  - The work-list walk `CopySubdir` and the map loop `CopyFiles` have no
    such function, because the order of the walk depends on the stack. They
    are proved against invariant predicates instead:
    - `WalkOk`: every action is a valid one at a real position of the
      source tree, reached through names that are not skipped.
    - `NoOverwrite`: a file is copied exactly when its target does not yet
      exist.
    - `FailureOk`: a failure is a copy from a missing source.
    - `RunOk`: the action counts, or the failure, of one walk.
  - The loop state of these two is kept in small records:
    - a `Walker` holds the fixed inputs of one walk;
    - a `Progress` holds the actions so far and the target paths that then
      exist, and `ProgressOk` combines `WalkOk`, `NoOverwrite` and that set;
    - a `Walked` holds the runs of the map loop so far.
- The rest is functions and lemmas.

The code has none of the following, and neither has the model:
- a `user` notebook variant;
- rewriting of cross-references between notebooks;
- a check whether an output file is older than its source;
- a list of metadata keys to remove;
- a clean operation;
- `.md` output.

Three behaviours of the code are modelled as written:
- `_print` styles a heading with `line[depth:].strip()`, where `depth` is
  the number of leading `#` plus one.
  - This slices the original line, not its stripped form. An indented
    heading such as `  # Title` therefore keeps a `#`.
  - A heading with no space after its hashes loses its first letter:
    `#Title` shows `itle`.
  - `Browse.StyleHeading` states the result for a heading written the usual
    way (hashes, one space, title).
- `row_groups` builds a Python `set` of the column values. It raises
  `TypeError` when one of them is the `description_lines` list. An unset
  title or description raises `AttributeError`. The first failing column
  decides which exception is raised.
- `_get_description` never sets `_short_desc` when the first markdown cell
  has no heading line. Reading `title` then raises `AttributeError`, and a
  notebook without a description never gets `_lines`. `Description` keeps
  both as `Option`s.

## Model

| member | source | states |
|---|---|---|
| Build.ParseTag | idaes_examples/build.py:36-40 | `Tags(s)` yields member `t` exactly when `s` is `t`'s value; any other string is rejected (the `ValueError` of line 92) |
| Build.TagValue | idaes_examples/build.py:36-40 | definition: the string value of each member of `Tags`: `exercise`, `solution`, `tutorial`, `testing` |
| Build.RecognisedTags | idaes_examples/build.py:88-93 | the tags a cell adds to `had_tag` are exactly the `Tags` values among its tag strings |
| Build.ExcludeTags | idaes_examples/build.py:68-73 | every tag string in the exclusion table is the value of a `Tags` member |
| Build.VariantName | idaes_examples/build.py:68-73 | definition: the name of each generated notebook, a key of `exclude_tags`: `test`, `exercise`, `solution`, `doc` |
| Build.PolicyByTag | idaes_examples/build.py:68-73 | `test` drops only `exercise` cells, `solution` only `testing` cells, `exercise` drops `testing` and `solution` cells, `doc` drops `exercise` and `testing` cells |
| Build.UnrecognisedTagsIgnored | idaes_examples/build.py:88-96 | adding unrecognised tag strings to a cell changes neither `had_tag` nor whether any variant drops it |
| Build.HadTags | idaes_examples/build.py:85-93 | definition: the union over the cells, in order, of the recognised tags each one carries |
| Build.ExclusionList | idaes_examples/build.py:86-99 | definition: the indexes of the cells the variant drops, each new index inserted at the front |
| Build.Excluded | idaes_examples/build.py:96 | definition: a cell is left out of a variant when its tag set meets the variant's excluded tags |
| Build.HadTagsMeaning | idaes_examples/build.py:85-93 | a tag is in `had_tag` after the scan exactly when some cell carries its value |
| Build.ExclusionListMeaning | idaes_examples/build.py:86-99 | index `k` is listed for variant `v` exactly when cell `k` exists and `v` drops it; every listed index is in range; the list strictly decreases |
| Build.VariantList | idaes_examples/build.py:102-105 | definition: `[test, doc]`, extended by `[exercise, solution]` when `had_tag` holds `exercise` or `solution` |
| Build.IsTutorial | idaes_examples/build.py:103 | definition: the tags seen include `exercise` or `solution` |
| Build.VariantListOfCells | idaes_examples/build.py:102-105 | the variants are `[test, doc]`, extended by `[exercise, solution]` exactly when some cell is tagged `exercise` or `solution` |
| Build.ClassifyCells | idaes_examples/build.py:85-99 | the scanning loop leaves `had_tag` and, for every variant, the index list defined by `HadTags` and `ExclusionList` |
| Build.CollectTags | idaes_examples/build.py:89-93 | the inner loop adds exactly the recognised tags of the cell to `had_tag`, skipping the rejected strings |
| Build.RecordCell | idaes_examples/build.py:95-99 | for each variant, the cell index is inserted at the front of its list exactly when the variant drops the cell; other lists are unchanged |
| Build.RemainingDeleteOne | idaes_examples/build.py:110-111 | deleting position `p` after the larger listed positions have gone removes exactly source position `p` |
| Build.RemainingUntouched | idaes_examples/build.py:108-109 | deleting no position within the list leaves the copy equal to the source cells |
| Build.RemainingIsKept | idaes_examples/build.py:106-111 | deleting exactly the positions of the dropped cells leaves the kept cells, in their original order |
| Build.KeptMeaning | idaes_examples/build.py:106-111 | a variant holds only source cells it does not drop, holds every one of them, and together with the dropped indexes accounts for every cell |
| Build.KeptAppend | idaes_examples/build.py:106-111 | the filter keeps the relative order of the cells (it distributes over concatenation) |
| Build.DeleteIndexes | idaes_examples/build.py:108-111 | deleting a strictly decreasing in-range index list one by one from a copy of the cells gives the cells at the unlisted positions; the source sequence is a value and is not changed |
| Build.OutputPath | idaes_examples/build.py:113 | definition: `nb_path.parent / f"{stem}_{name}.ipynb"` |
| Build.Name | idaes_examples/build.py:113 | definition: `path.name`, the last part, empty for the empty path |
| Build.Parent | idaes_examples/build.py:113 | definition: `path.parent`, all parts but the last |
| Build.Stem | idaes_examples/build.py:113 | definition: `Path.stem`, the name cut at its last `.` unless that dot is the first or the last character |
| Build.OutputPathSibling | idaes_examples/build.py:113 | each variant file is in the source's directory and is named `<stem>_<variant>.ipynb` |
| Build.OutputPathDistinct | idaes_examples/build.py:113 | two variants of one notebook get the same file exactly when they are the same variant |
| Build.OutputPathNotSource | idaes_examples/build.py:113 | no variant file is the source notebook itself |
| Build.TocNotebookPath | idaes_examples/build.py:57-58 | definition: `src_path / f"src/{file[:-4]}.ipynb"`, split at `/` |
| Build.SplitPath | idaes_examples/build.py:58 | definition: the parts `pathlib` makes of a relative path string: the pieces between `/`, dropping empty pieces and `.` |
| Build.PathParts | idaes_examples/build.py:58 | definition: the pieces of a split path string, without the empty ones and `.` |
| Build.TocNotebookPathFlat | idaes_examples/build.py:57-58 | a table-of-contents entry without `/` names `src/<entry minus its last 4 characters>.ipynb` under the source directory |
| Build.TocNotebookPathShape | idaes_examples/build.py:57-58 | any entry, nested or not: the path is the source directory, `src`, the entry's directories, and its last piece with `.ipynb` |
| Build.TocNotebookPathNested | idaes_examples/build.py:57-58 | the nested entry `g/nb_doc` names `src/g/nb.ipynb` under the source directory |
| Build.SplitPathUnderSrc | idaes_examples/build.py:58 | the `src/` prefix adds one part `src` in front |
| Build.SplitPathNotebook | idaes_examples/build.py:58 | adding `.ipynb` extends only the last part |
| Build.PreprocessNotebook | idaes_examples/build.py:76-116 | `_preprocess` dumps, in variant order, exactly the variant files `VariantFiles` defines |
| Build.VariantFiles | idaes_examples/build.py:102-116 | definition: for each variant of the variant list, in order, its output path and the notebook holding only the cells that variant keeps |
| Build.VariantFilesMeaning | idaes_examples/build.py:102-116 | one file per variant of the variant list, at its output path, with the other keys unchanged and holding exactly the source cells that variant keeps |
| Build.WriteAllMeaning | idaes_examples/build.py:115-116 | the dumps add exactly their paths to the existing files |
| Build.WriteAllContents | idaes_examples/build.py:115-116 | with distinct paths, each dumped path holds its notebook afterwards and every other file is unchanged |
| Build.VariantFilesDistinct | idaes_examples/build.py:107-116 | the variant files of one notebook have distinct paths |
| Build.PreprocessEntry | idaes_examples/build.py:57-61 | definition: when the entry's notebook path exists, the count goes up by one and the variant files are written; otherwise nothing changes |
| Build.TocFiles | idaes_examples/build.py:54-57 | definition: the section entries in the order of the loops over parts, chapters and sections |
| Build.PreprocessAll | idaes_examples/build.py:54-61 | definition: the count and the files after the loop has handled the entries in order, each entry seeing the files written for the earlier ones |
| Build.WriteAll | idaes_examples/build.py:115-116 | definition: the dumps applied in order, a later write to a path replacing an earlier one |
| Build.PreprocessEntryMeaning | idaes_examples/build.py:57-61 | an entry whose path does not exist changes nothing. One whose path exists adds one to the count and writes, for each variant of its list, the source's cells that variant keeps at that variant's output path. The source and every other file are unchanged |
| Build.PreprocessEntryAdded | idaes_examples/build.py:57-61 | a file one entry creates is a variant file of that entry's existing notebook |
| Build.PreprocessAllMeaning | idaes_examples/build.py:54-61 | the count is at most one per entry and no file disappears |
| Build.PreprocessAllAdded | idaes_examples/build.py:54-61 | every file the loop creates is the output file of some entry `i` whose notebook exists when that entry is reached |
| Build.WrittenForExtends | idaes_examples/build.py:54-61 | a variant file written for an entry while the loop was in an earlier part of the table of contents stays a file written for that entry once the loop has gone further |
| Build.Preprocess | idaes_examples/build.py:43-64 | a missing table of contents raises `FileNotFoundError` naming `src/_toc.yml` and changes nothing; otherwise the count that line 64 logs and the files are those of the entry-by-entry definition |
| Build.PreprocessTocEntry | idaes_examples/build.py:57-61 | one entry: its notebook is pre-processed and counted exactly when its path exists |
| Build.DumpAll | idaes_examples/build.py:115-116 | the files after the dumps, a later write to a path replacing an earlier one |
| Build.RunCommand | idaes_examples/build.py:171-184 | `_run` returns None exactly on success, -2 exactly on `FileNotFoundError`, -1 exactly on another `Exception`, and lets other exceptions through |
| Build.ProcessVb | idaes_examples/build.py:202-208 | `vb >= 2` gives DEBUG, `vb == 1` INFO, anything else WARNING (each an if-and-only-if) |
| Build.ProcessVbMonotone | idaes_examples/build.py:202-208 | more `-v` flags never raise the logging threshold |
| CopyFiles.RenameNotebook | copy_files.py:33-39 | the ending loop with `break` computes `NotebookTarget` |
| CopyFiles.StripVariantSuffixAt | copy_files.py:35-38 | breaking at the first matching ending strips exactly that ending |
| CopyFiles.StripVariantSuffixNone | copy_files.py:35-38 | when no ending matches, the name is unchanged |
| CopyFiles.NotebookTargetShape | copy_files.py:39 | every renamed target ends with `_src.ipynb` and contains no upper-case ASCII letter |
| CopyFiles.NotebookTargetSolutionTesting | copy_files.py:35-39 | `b_solution_testing.ipynb` becomes `lower(b_src.ipynb)`: it is stripped whole, not as `_testing` |
| CopyFiles.NotebookTargetTesting | copy_files.py:35-39 | `b_testing.ipynb` (not a `_solution_testing` name) becomes `lower(b_src.ipynb)` |
| CopyFiles.NotebookTargetExample | copy_files.py:35-39 | `b_example.ipynb` becomes `lower(b_src.ipynb)` |
| CopyFiles.NotebookTargetPlain | copy_files.py:33-39 | a notebook with none of the three endings only gains `_src` and is lower-cased |
| CopyFiles.SkippedChild | copy_files.py:27 | definition: the two child names that are never pushed, `__pycache__` and `.ipynb_checkpoints` |
| CopyFiles.SkippedFile | copy_files.py:30-31 | definition: a file whose name ends in `-` or `,cover` is passed over |
| CopyFiles.StripVariantSuffix | copy_files.py:35-38 | definition: the first of `_solution_testing.ipynb`, `_testing.ipynb`, `_example.ipynb` that ends the path is replaced by `.ipynb`; at most one is stripped |
| CopyFiles.NotebookTarget | copy_files.py:39 | definition: the stripped path loses its last six characters, gains `_src.ipynb` and is lower-cased |
| CopyFiles.FileTarget | copy_files.py:33-39 | definition: only a file whose name ends `.ipynb` is renamed; any other keeps its joined target |
| CopyFiles.PathOkMeaning | copy_files.py:26-29 | a valid position is reached through names none of which is `__pycache__` or `.ipynb_checkpoints`, each the name of the node at that depth of the source tree |
| CopyFiles.JoinTarget | copy_files.py:28 | definition: `tgt / rel[0] / rel[1] / ...` as a path string |
| CopyFiles.MakeDirParents | copy_files.py:25 | `mkdir(parents=True)` makes the target directory and every directory above it up to the walk's root target |
| CopyFiles.Made | copy_files.py:25-44 | definition: a `MakeDir` makes its directory and all its parents, a `CopyFile` its one file, a skip nothing |
| CopyFiles.MadeNested | copy_files.py:25 | making `t/a/b` also makes `t/a` and `t`, so a later `exists()` on them holds |
| CopyFiles.Ancestors | copy_files.py:25 | definition: the proper parent directories of a path string, the prefixes that end just before a `/`, which `parents=True` creates |
| CopyFiles.ActionNeedsTreeName | copy_files.py:26-29 | a copy of a name the source directory does not hold is not an action of the walk |
| CopyFiles.AncestorsGrow | copy_files.py:25 | a longer path has at least the parent directories of its prefix |
| CopyFiles.WalkOkMeaning | copy_files.py:19-44 | the walk predicate holds exactly when every action is a valid one |
| CopyFiles.CopySubdir | copy_files.py:19-44 | every action is valid: it sits at a real position of the source tree that no skipped directory leads to, directories are made at their joined target, and files have names that are not skipped and go to their joined target, renamed only if a notebook. A file is copied exactly when its target does not yet exist, and skipped otherwise. The existing targets afterwards are the old ones plus those made, parents included. Without failure there are as many file actions as reachable files and as many directory actions as reachable directories. A failure is a copy from a missing source whose target does not exist, and happens before all files are handled |
| CopyFiles.Step | copy_files.py:21-44 | one turn of the loop: the new work list, the actions it adds and the failure are those of `Turn`, so the last entry is popped. It keeps the walk invariants. The work list shrinks, and the action counts plus the work list's totals stay the same; a failure is a copy from a missing source |
| CopyFiles.FileStep | copy_files.py:30-44 | definition: the non-directory branch's outcome: nothing for a leftover, `SkipExisting` for an existing target, a raised copy for a missing source, otherwise `CopyFile` at the renamed target |
| CopyFiles.Turn | copy_files.py:21-44 | definition: the LAST entry is popped; a directory logs its `MakeDir` and its children that are not skipped are pushed in order, anything else goes through `FileStep` |
| CopyFiles.VisitFile | copy_files.py:30-44 | the non-directory branch does exactly `FileStep`: leftovers are skipped, an existing target is skipped, otherwise the file is copied, and a missing source raises and records nothing |
| CopyFiles.CopyOrSkip | copy_files.py:40-44 | once the target is known: skip it when it exists, raise for a missing source, otherwise copy; the walk invariants are kept |
| CopyFiles.Record | copy_files.py:24-25 | logging one action keeps the walk invariants. The existing targets grow by what it made: the directory and all its parents for a `mkdir(parents=True)`, the target for a copy, nothing for a skip |
| CopyFiles.PushChildren | copy_files.py:26-29 | the push loop appends exactly `ChildJobs`: `(s, tgt/s.name)` for each child not named `__pycache__` or `.ipynb_checkpoints`, in `iterdir` order |
| CopyFiles.ChildJobs | copy_files.py:26-29 | definition: for the first `n` children in order, the entry `(s, tgt/s.name)` of each child not skipped |
| CopyFiles.ChildJobsMeaning | copy_files.py:26-29 | every pushed entry is valid: the child at its position of the source tree, reached by names not skipped, with the parent's target joined with its name |
| CopyFiles.ChildJobsTally | copy_files.py:26-29 | the pushed entries carry exactly the directory's non-skipped files, subdirectories and size |
| CopyFiles.ChildJobOk | copy_files.py:28-29 | a child not skipped makes an entry whose target is the parent's target joined with its name |
| CopyFiles.PushOne | copy_files.py:29 | a pushed entry adds its own files, directories and size to the work list totals |
| CopyFiles.TargetsAppend | copy_files.py:11-16 | the targets made by two runs in sequence are the union of each run's targets |
| CopyFiles.MapEntries | copy_files.py:11-12 | definition: the `k: v` pairs of the `map` list, list order then dictionary order |
| CopyFiles.NoOverwriteAppend | copy_files.py:11-16 | a run that starts from what the previous run left keeps the no-overwrite rule across both |
| CopyFiles.Walk | copy_files.py:16 | one `copy_subdir` call as a run: the tree, the target, valid actions, no overwrite, and either complete counts or a failed copy of a missing source |
| CopyFiles.Planned | copy_files.py:11-14 | the walks the map asks for: `(src/k, tgt/v)`, one per entry, in map order |
| CopyFiles.BaseName | copy_files.py:13 | the last part of a path: a suffix of it that holds no `/` |
| CopyFiles.RunAppend | copy_files.py:11-16 | one more run keeps the no-overwrite rule over all runs so far |
| CopyFiles.CopyFiles | copy_files.py:10-16 | for a lookup that names each tree after its path's last part, and existing paths that include their parents: the `j`-th run walks `src/k` into `tgt/v` for the `j`-th map entry, in order, and satisfies `RunOk`: without failure its action counts equal the tree's file and directory counts. Only the last run can have failed, and `failed` says exactly whether it did; without failure every entry gets a run. No file is overwritten across all runs, and the existing targets afterwards are the old ones plus all those made |
| CopyFiles.WalkNext | copy_files.py:12-16 | one turn of the map loop appends one run for the next planned pair and keeps the earlier runs |
| Browse.HeadingLineMeaning | idaes_examples/browse.py:145 | `line.strip().startswith("#")` exactly when some `#` in the line is preceded only by white space |
| Browse.IsHeadingLine | idaes_examples/browse.py:145 | definition: `line.strip().startswith("#")` |
| Browse.HeadingTitle | idaes_examples/browse.py:146 | definition: what follows the last `#` of the line, stripped |
| Browse.FirstHeading | idaes_examples/browse.py:144-147 | the index of the first line whose stripped form starts with `#`, or None exactly when there is no such line |
| Browse.HasDescription | idaes_examples/browse.py:139-141 | definition: the first cell is a markdown cell with a present, non-empty `source` |
| Browse.TitleOf | idaes_examples/browse.py:144-147 | definition: the title of the first heading line, none when no line is a heading |
| Browse.DescriptionOf | idaes_examples/browse.py:134-150 | with a non-empty markdown first cell, the long description is the lines joined. The lines are kept, and the title is the stripped text after the last `#` of the first heading line, unset exactly when there is none. Otherwise both texts are "No description" and the lines are unset |
| Browse.GetDescription | idaes_examples/browse.py:134-150 | `_get_description` computes `DescriptionOf` |
| Browse.FindTitle | idaes_examples/browse.py:144-147 | the loop with `break` takes the title of the first heading line, and sets none exactly when no line is a heading |
| Browse.Section | idaes_examples/browse.py:111-112 | definition: the section parts joined with `:` |
| Browse.SectionOf | idaes_examples/browse.py:62 | definition: the parts of the path below the root, without the file name |
| Browse.UnderRoot | idaes_examples/browse.py:62 | definition: the root is a prefix of the path, which is when `relative_to` does not raise `ValueError` |
| Browse.SectionParts | idaes_examples/browse.py:111-112 | the `:`-joined section gives back its parts when there is at least one and none holds `:` |
| Browse.Attr | idaes_examples/browse.py:110-132 | `getattr` raises `AttributeError` exactly for an unset title or description lines; name, section and type are the stored values |
| Browse.KeyIndex | idaes_examples/browse.py:64 | the position of a key in the dict, None exactly when it is absent |
| Browse.DictPut | idaes_examples/browse.py:64-69 | definition: `d[k] = nb`: an existing key keeps its place and gets the new value, a new key goes last |
| Browse.DictPutMeaning | idaes_examples/browse.py:64 | `d[k] = nb` keeps keys unique and sets `k`. Other keys are unchanged; an existing key keeps its position, and a new key goes last |
| Browse.SiblingPath | idaes_examples/browse.py:67 | definition: `<name>_<tag>.ipynb` in the directory of the plain notebook |
| Browse.MakeNotebook | idaes_examples/browse.py:103-108 | definition: `Notebook(name, section, path, nbtype)`, whose description is read from the notebook file at `path` |
| Browse.SiblingPut | idaes_examples/browse.py:67-70 | definition: when the sibling file `<name>_<tag>.ipynb` exists, its entry is put under the key `(section, name, tag)`; otherwise nothing changes |
| Browse.AddSiblings | idaes_examples/browse.py:66-70 | definition: `SiblingPut` for each given tag, in order |
| Browse.UniqueIndex | idaes_examples/browse.py:64 | with unique keys, a key's position is the one entry holding it |
| Browse.SiblingPutMeaning | idaes_examples/browse.py:66-70 | a sibling key is set exactly when the sibling file exists; every other key keeps its notebook |
| Browse.AddSiblingsBoth | idaes_examples/browse.py:66 | the siblings are tried as exercise, then solution |
| Browse.Register | idaes_examples/browse.py:60-70 | definition: `add_notebook` on the dict of entries, with its two errors |
| Browse.RegisterMeaning | idaes_examples/browse.py:60-70 | `add_notebook` raises exactly for a path outside the root or a missing file. Otherwise it sets `(section, name, "plain")`, sets the exercise and solution keys exactly when their sibling files exist (else keeps them), and changes no other key |
| Browse.Notebooks.constructor | idaes_examples/browse.py:54-55 | an empty registry with unique keys |
| Browse.Notebooks.AddNotebook | idaes_examples/browse.py:60-70 | `add_notebook` updates the registry as `Register` defines, or raises and leaves it unchanged; keys stay unique |
| Browse.Notebooks.Get | idaes_examples/browse.py:76-79 | `get(i)` is the `i`-th notebook in insertion order, counting from the end for a negative `i`; `IndexError` exactly outside `-n <= i < n` |
| Browse.Notebooks.GetAttr | idaes_examples/browse.py:76-80 | `get(i, name)` is that attribute of `get(i)`, with its `IndexError` first |
| Browse.Notebooks.AsTable | idaes_examples/browse.py:82-90 | one row per notebook in insertion order, `len(columns)` values each, in column order. `AttributeError` exactly when some requested attribute is unset |
| Browse.Notebooks.RowGroups | idaes_examples/browse.py:92-100 | one group number per notebook; the first is 0, and each later one is the previous plus one exactly when its key differs from the previous row's, else the same. On error, the exception is that of the first row whose key cannot be built |
| Browse.KeyFailure | idaes_examples/browse.py:95 | building the key fails exactly when some column is unset or a list; the exception is `AttributeError` or `TypeError` |
| Browse.KeyFailureFirst | idaes_examples/browse.py:95 | the first failing column decides the exception: every earlier column is set and hashable, and it is that column's `AttributeError`, or `TypeError` for a list |
| Browse.RowKey | idaes_examples/browse.py:95 | the key can be built exactly when every column is set and hashable |
| Browse.RowKeyMembers | idaes_examples/browse.py:95 | the key holds exactly the values of the named attributes |
| Browse.RowKeyOkSubset | idaes_examples/browse.py:95 | a key buildable from some columns is buildable from any columns among them |
| Browse.RowKeyColumnsAsSet | idaes_examples/browse.py:95 | column order and repetition change neither whether the key can be built nor its value |
| Browse.LeadingHashes | idaes_examples/browse.py:278-280 | the number of leading `#` characters |
| Browse.IsImage | idaes_examples/browse.py:271 | definition: the stripped line starts with `![` |
| Browse.HashesPrefix | idaes_examples/browse.py:279 | `lstr.startswith("#" * d)` exactly when `d` is at most the leading `#` count |
| Browse.HeadingDepth | idaes_examples/browse.py:278-280 | the `depth` loop ends at the leading `#` count plus one |
| Browse.Style | idaes_examples/browse.py:275-284 | a line is bold exactly when its stripped form starts with `#`, and bold exactly when blue (`#33a`). Any other line is unchanged, size 11, in black. A heading is size 15 exactly for one `#` and 13 exactly for two or more |
| Browse.StyleHeading | idaes_examples/browse.py:277-284 | a heading of `h` hashes, a space and a title without surrounding white space shows as the bare title, bold and blue, in size 15 for `h = 1` and 13 otherwise |
| Browse.StyleLine | idaes_examples/browse.py:275-284 | the styling statements compute `Style` |
| Browse.Render | idaes_examples/browse.py:260-288 | `_print`'s loop with the `pre` flag produces `Display`, the styled selected lines, in order |
| Browse.Display | idaes_examples/browse.py:260-288 | definition: the selected lines, each styled |
| Browse.StyleAllCons | idaes_examples/browse.py:286-288 | appending one shown line appends its style |
| Browse.Selected | idaes_examples/browse.py:263-274 | definition: the lines `_print` shows: non-empty, not an image, and not blank before the first shown line |
| Browse.SelectedSound | idaes_examples/browse.py:263-274 | every shown line is non-empty, not an image and taken from the input. The first one shown is not blank, and at most as many lines are shown as given |
| Browse.SelectedAfterShown | idaes_examples/browse.py:263-274 | once a line has been shown, every non-empty non-image line is shown, white space only included |
| Browse.SelectedComplete | idaes_examples/browse.py:263-274 | every non-empty non-image line with visible text is shown; a white-space line is shown when some visible line precedes it |
| Browse.NotebookDescription.constructor | idaes_examples/browse.py:250-254 | the panel starts with the prompt line, rendered |
| Browse.NotebookDescription.Clicked | idaes_examples/browse.py:256-258 | the panel takes the clicked notebook's description lines and shows them rendered. On `IndexError` or `AttributeError` nothing changes |

## Left out

- Reading and writing files are parameters and results:
  - JSON load and dump of notebooks;
  - YAML loading of `_toc.yml` and the copy map;
  - `Path.exists`, `mkdir`, `shutil.copy`, `open`.

  A notebook's other top-level keys are an abstract map.
- A cell without a `metadata` key, which makes `_preprocess` raise `KeyError`, is not represented. Every cell has a tag set, possibly empty.
- `shutil.copy` failures other than a missing source are not modelled: permissions, a target directory that is a file, a file root whose target's parent directory does not exist. `mkdir` with `parents=True` and `exist_ok=True` is taken to succeed.
- CopyFiles.CopySubdir: the parts of a target path are joined with `/` as strings. Case-insensitive file systems are not modelled, where two targets that differ only in case are one file.
- CopyFiles.CopyFiles: a source path `src/k` is resolved into a tree by a function parameter, which is required to name each tree after the last part of its path. Links, and a tree that changes during the copy, are not modelled.
- CopyFiles.CopySubdir: `lower()` on line 39 of `copy_files.py` lower-cases the whole renamed notebook path, directories included, while line 25 makes the directories in their own case. On a case-sensitive file system, a notebook under a directory with an upper-case letter in its name then gets a target whose parent does not exist, and `shutil.copy` raises `FileNotFoundError`. The model records a `CopyFile` to that target instead.
- CopyFiles.CopySubdir: the actions are proved valid and equal in number to the reachable files and directories. That no position of the tree is handled twice is not proved.
- A cell whose `source` is one string instead of a list of lines is not modelled. `Build.Cell.source` is always a list; on a string, the loop of `_get_description` would go over its characters.
- Build.Preprocess: `preprocess` returns `None`. The count `n` of pre-processed notebooks goes only into the `_log.info` message of line 64, and `Commands._run` ignores any return value. The model returns that count as its `Ok` value so that the message's number is stated.
- Logging and printing are left out: the `print` calls of `copy_files.py`, the `_log` messages, and the timing with `time.time()`.
- `Browse.Notebooks.constructor` starts empty. The calls it makes are not modelled:
  - `get_root`, a resource walk;
  - `read_toc` and `find_notebooks`, which `browse.py` imports from `build.py`; this version of `build.py` does not define them.

  Registration is modelled through `AddNotebook`.
- Browse.Attr: only the seven public attributes of a notebook (the `Column` values) are represented as names for `get`, `as_table` and `row_groups`. Python takes any string there and raises `AttributeError` for an unknown one; every call in `browse.py` passes one of the seven.
- The GUI (`gui`, `Jupyter.open`) and the widget's calls are left out. The panel's contents are a sequence of styled lines.
- The `jupyterbook` and `view_docs` commands are left out. So are the other subcommands of `Commands`, argument parsing and both `main` functions.
- Strings are handled ASCII only:
  - `str.strip` treats as white space only the ASCII spaces and the characters `\x1c` to `\x1f` (no Unicode spaces);
  - `str.lower` folds only `A`-`Z`.
- `Path` normalisation beyond `/`-splitting (`..`, absolute paths) is not modelled in `Build.TocNotebookPath`.
- These files are not part of this model:
  - `idaes_examples/util.py`;
  - `idaes_examples/nb/test_notebooks.py`;
  - `setup.py`;
  - `idaes_examples/nb/surrogates/helmet/H2OSetup.py`.
