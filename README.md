# ExtractUtils vendor-tree generator, modelled in Dafny

`ExtractUtils` (in `android/extract_utlis/extract-utils.py`) turns a blob
manifest (`proprietary-files.txt`) into a LineageOS vendor tree. The tree is
`<lineage_root>/vendor/<vendor>/<device>` and holds four files:

- `<device>-vendor.mk`, the device makefile;
- `Android.bp`, the blueprint;
- `Android.mk`, the guard makefile;
- `BoardConfigVendor.mk`, the board config.

Each manifest line is `src[:dst][|sha1]`. Lines starting with `#` are
excluded, lines starting with `-` are packaged, and all other lines are
copied. The generator:

- reads the lines of one category (`target_list`) and cuts each line down to
  its destination (`target_file`);
- writes a licence header into each of the four files (`write_headers`);
- appends a device guard to `Android.mk` (`write_guards`);
- appends a `PRODUCT_COPY_FILES` block to the device makefile, mapping every
  copied file to its partition (`write_product_copy_files`);
- appends one blueprint module per packaged file, chosen by its suffix, to
  `Android.bp` (`write_product_packages`). A 32-bit shared library whose
  `lib64` sibling is also listed is merged with that sibling into one
  `both` module, and the sibling is removed from the list being walked;
- can move the `<?xml version` declaration of an XML file to its first line
  (`fix_xml`).

The model is organised as follows:

- Modules `Strings`, `Paths` and `Sorting` model the Python string, `pathlib`
  and list operations the code relies on.
- `Manifest` models `target_file` and `target_list`. It includes a method
  that follows the loops of `target_list` and is proved equal to a staged
  specification. That specification is in turn proved equal to a
  line-by-line reference.
- `Partitions` models how a partition is resolved from a path prefix.
- `VendorTree` models the tree's paths, the licence header and the guard.
- `CopyFiles` models the copy block.
- `Packages` models the package walk. `Plan` is the order in which the walk
  treats the entries, including the in-place removal of merged siblings.
  `ModuleStep` is one step of the loop, and `Render` lays a module out as
  lines.
- `XmlFix` models `fix_xml`.
- `Generator` holds the `ExtractUtils` class. Its fields are those that
  `setup_vendor` sets, plus two fields that stand for the file system:
  - `files` maps each path to its lines;
  - `madeDirs` records every directory `mkdir` was asked for.

Python exceptions are `Fail` values:

- `IndexError` comes from `split(...)[1]` on a string without the separator,
  or from `app_list[-1]` on an empty list.
- `ValueError` comes from `list.index`.

An exception stops the writing method at the point where the code stops. In
`extract_files`, a raise in the copy block also stops the package block.

Where the code and its written description disagree, the model follows the
code:

- A manifest with no copy line is described as producing empty output. In
  the code it raises `IndexError` at `app_list[-1]`. Nothing is then appended
  to the device makefile, and `write_product_packages` never runs
  (`CopyFiles.EmptyCopyListFails`, `CopyFiles.CopyFailsWithoutCopyLines`,
  `Generator.ExtractUtils.ExtractFiles`).
- `BoardConfigVendor.mk` is described as untouched by generation. In the code
  `extract_files` rewrites it with the licence header, like the other three
  files (`Generator.ExtractedContents`).
- Newlines are described as being removed before lines are classified. In the
  code they are removed after classification (`Manifest.TargetList`).

## Model

| member | source | states |
|---|---|---|
| Manifest.Destination | android/extract_utlis/extract-utils.py:131-134 | without ':' the destination is the whole spec; with ':' it is the text after the first ':' (a proper suffix preceded by ':' with no ':' before it) |
| Manifest.TargetFile | android/extract_utlis/extract-utils.py:126-139 | the target has no '|', is a prefix of the destination ending at its first '|' or at its end, uses only characters of the spec, and a spec with neither ':' nor '|' is returned unchanged |
| Manifest.DestinationChars | android/extract_utlis/extract-utils.py:131-134 | every character of the destination occurs in the spec |
| Manifest.BeforeFirstBar | android/extract_utlis/extract-utils.py:136-139 | what `split('|')[0]` keeps is a '|'-free prefix, followed by '|' unless it is the whole text |
| Manifest.Select | android/extract_utlis/extract-utils.py:146-158 | the selection by mode, read as a characterisation: "packages" keeps exactly the '-' lines, whole; "copy" keeps exactly the lines starting with neither '-' nor '#'; any other mode keeps exactly the non-'#' lines, without a leading '-'. These iff clauses follow the if-chain closely; `DropDash` and `LineCategory` carry the content beyond it |
| Manifest.DropDash | android/extract_utlis/extract-utils.py:156 | `split('-', 1)[1]` on a line starting with '-' is the line without that '-' |
| Manifest.LineCategory | android/extract_utlis/extract-utils.py:147-152 | every line is excluded, packaged or copied, and no line is both copied and packaged |
| Manifest.IsTarget | android/extract_utlis/extract-utils.py:146-164 | x is the target of some line of the manifest: the set `target_list` returns, before its order is fixed |
| Manifest.LineTarget | android/extract_utlis/extract-utils.py:161-164 | the target a line contributes has no newline |
| Manifest.Targeted | android/extract_utlis/extract-utils.py:146-164 | the line-by-line reference holds exactly the targets of the contributing lines |
| Manifest.IsTargetSplit | android/extract_utlis/extract-utils.py:146-164 | a string is a target of a list of lines exactly when it is a target of the lines before the last or of the last line |
| Manifest.SelectAll | android/extract_utlis/extract-utils.py:146-158 | the append loop: the lines `Select` keeps, changed as it says, in input order |
| Manifest.StripAll | android/extract_utlis/extract-utils.py:161 | the list comprehension that removes every newline from every element |
| Manifest.NonEmpty | android/extract_utlis/extract-utils.py:162 | `filter(None, ...)`: the non-empty elements, in order |
| Manifest.TargetAll | android/extract_utlis/extract-utils.py:163-164 | the `enumerate` loop: every element replaced by its `target_file` |
| Manifest.StagesAreLineByLine | android/extract_utlis/extract-utils.py:146-164 | filtering, newline removal, dropping empty strings and `target_file`, run as stages over the list, give the line-by-line reference |
| Manifest.LastStage | android/extract_utlis/extract-utils.py:146-164 | the stages run on one line give what that line contributes on its own |
| Manifest.TargetListOf | android/extract_utlis/extract-utils.py:141-169 | the result is strictly ascending, has no newline in any element, and contains x exactly when some line has target x |
| Manifest.TargetList | android/extract_utlis/extract-utils.py:141-169 | the loops of `target_list` compute `TargetListOf`: a strictly ascending list that contains x exactly when some line has target x |
| Manifest.SortDedup | android/extract_utlis/extract-utils.py:165-168 | `sort` after `dict.fromkeys` gives a strictly ascending list with exactly the elements of its input |
| Manifest.MultisetPreservesDistinct | android/extract_utlis/extract-utils.py:165-168 | a permutation of a repeat-free list is repeat-free |
| Manifest.DistinctCount | android/extract_utlis/extract-utils.py:165 | a repeat-free list holds each value at most once |
| Manifest.TargetListIgnoresOrder | android/extract_utlis/extract-utils.py:141-169 | two manifests with the same set of lines give the same list, whatever their order or repeats |
| Manifest.EmptyDestinationKept | android/extract_utlis/extract-utils.py:161-164 | a copy line `src:` contributes the empty target, because empty strings are dropped before `target_file` runs |
| Manifest.NoNewlineUnchanged | android/extract_utlis/extract-utils.py:161 | `replace('\n', '')` leaves text without a newline unchanged |
| Manifest.StripAllAppend | android/extract_utlis/extract-utils.py:161 | the newline removal works element by element, so it distributes over concatenation |
| Manifest.NonEmptyAppend | android/extract_utlis/extract-utils.py:162 | `filter(None, ...)` distributes over concatenation |
| Manifest.TargetAllAppend | android/extract_utlis/extract-utils.py:163-164 | rewriting every element with `target_file` distributes over concatenation |
| Manifest.Map | android/extract_utlis/extract-utils.py:163-164 | the mapped list has the input's length and f of each input element at that position |
| Sorting.Dedup | android/extract_utlis/extract-utils.py:165 | `dict.fromkeys` gives a repeat-free list with exactly the elements of its input |
| Sorting.Insert | android/extract_utlis/extract-utils.py:168 | insertion adds exactly one element to the multiset |
| Sorting.InsertSorted | android/extract_utlis/extract-utils.py:168 | inserting into an ascending list keeps it ascending |
| Sorting.Sort | android/extract_utlis/extract-utils.py:168 | `sort` gives an ascending permutation of its input |
| Sorting.NotLessTransitive | android/extract_utlis/extract-utils.py:168 | "not smaller than" is transitive in Python's string order |
| Sorting.DistinctSortedIsStrict | android/extract_utlis/extract-utils.py:165-168 | an ascending repeat-free list is strictly ascending |
| Sorting.StrictlySortedUnique | android/extract_utlis/extract-utils.py:165-168 | two strictly ascending lists with the same elements are equal |
| Strings.FindFrom | android/extract_utlis/extract-utils.py:85 | the search returns the first occurrence at or after the start, or reports that there is none |
| Strings.StartsWith | android/extract_utlis/extract-utils.py:148-155 | `str.startswith`: the text begins with the prefix |
| Strings.Contains | android/extract_utlis/extract-utils.py:282 | `sub in s` for strings: the substring occurs somewhere |
| Strings.SplitOnce | android/extract_utlis/extract-utils.py:132 | `split(sep, 1)` cuts at the first occurrence of sep, and the two parts around it give back the text; without an occurrence there is no second part |
| Strings.SplitOnceChar | android/extract_utlis/extract-utils.py:137 | splitting at a character has a second part exactly when the character occurs, and the first part does not contain it |
| Strings.ReplaceAll | android/extract_utlis/extract-utils.py:161 | `str.replace(sub, rep)` for a non-empty sub: every occurrence replaced, scanning left to right without overlaps |
| Strings.ReplaceCharByNothing | android/extract_utlis/extract-utils.py:161 | removing a character leaves no occurrence of it and keeps every other character |
| Strings.ReplaceTrailingMarker | android/extract_utlis/extract-utils.py:230 | removing " \" from a text that has no other backslash gives back the text without its marker |
| Strings.ReplaceLeadingMarker | android/extract_utlis/extract-utils.py:230 | a leading " \" is removed and the replacement continues after it |
| Strings.ReplaceMarkerAfter | android/extract_utlis/extract-utils.py:230 | a backslash-free prefix passes through the replacement unchanged |
| Strings.LastIndexOf | android/extract_utlis/extract-utils.py:246 | gives the last position of a character, or reports that the character is absent |
| Strings.LastIndexOfAppend | android/extract_utlis/extract-utils.py:246 | appending text without the character keeps its last position |
| Strings.Less | android/extract_utlis/extract-utils.py:168 | Python's `<` on `str`: lexicographic by code point, a proper prefix being smaller |
| Strings.LessIrreflexive | android/extract_utlis/extract-utils.py:168 | Python's string order is irreflexive |
| Strings.LessTransitive | android/extract_utlis/extract-utils.py:168 | Python's string order is transitive |
| Strings.LessTotal | android/extract_utlis/extract-utils.py:168 | any two different strings are ordered one way or the other |
| Strings.LessAsymmetric | android/extract_utlis/extract-utils.py:168 | no two strings are each smaller than the other |
| Strings.LessAtIndex | android/extract_utlis/extract-utils.py:168 | a string is smaller when it is a proper prefix of the other, or when it has the smaller character at the first difference |
| Strings.NatToString | android/extract_utlis/extract-utils.py:183 | `str(year)` is a non-empty string of decimal digits, with a leading '0' only for 0 |
| Strings.DecimalValue | android/extract_utlis/extract-utils.py:183 | the number a string of decimal digits denotes, most significant digit first |
| Strings.NatToStringValue | android/extract_utlis/extract-utils.py:183 | reading `str(year)` back as a decimal numeral gives the year |
| Paths.Name | android/extract_utlis/extract-utils.py:262 | `.name` is the '/'-free tail of the path, preceded by '/' when shorter than the path |
| Paths.SuffixDot | android/extract_utlis/extract-utils.py:263 | the suffix begins at the last '.' of the name, which is neither its first nor its last character |
| Paths.Suffix | android/extract_utlis/extract-utils.py:263 | `.suffix` is empty or a '.' followed by at least one character and no further '.', and has no '/' |
| Paths.Stem | android/extract_utlis/extract-utils.py:262 | `.stem` followed by `.suffix` is `.name`, and a non-empty name has a non-empty stem |
| Paths.Parent | android/extract_utlis/extract-utils.py:246 | `.parent` is "." for a path without '/', and otherwise the parent, '/' and the name give back the path |
| Paths.NameAppend | android/extract_utlis/extract-utils.py:262 | appending '/'-free text extends the name by that text |
| Paths.SuffixOfPath | android/extract_utlis/extract-utils.py:178 | a path that ends in ".mk" after a name character has suffix ".mk" (and likewise for any one-dot extension) |
| Paths.LastDot | android/extract_utlis/extract-utils.py:263 | the extension's dot is the last dot of the name |
| Partitions.CopyPartition | android/extract_utlis/extract-utils.py:218-227 | the if-chain as a characterisation: vendor, product or odm exactly when the entry starts with that bare prefix and with no earlier one, system otherwise. The clauses follow the chain closely; `PrefixOrderIrrelevant` shows the order never matters |
| Partitions.PackagePartition | android/extract_utlis/extract-utils.py:266-273 | the if-chain as a characterisation: vendor, product or odm exactly when the target starts with that prefix plus '/', and with no earlier one. The clauses follow the chain closely; `PrefixOrderIrrelevant` and `PackagePartitionRefinesCopy` carry the content beyond it |
| Partitions.CopyMacro | android/extract_utlis/extract-utils.py:219-226 | the `TARGET_COPY_OUT_*` macro, ending in '/', that a copy line puts in front of an entry of each partition |
| Partitions.SpecificFlag | android/extract_utlis/extract-utils.py:266-273 | the `soc_specific`, `product_specific` or `device_specific` flag of a package partition, and none for the default one |
| Partitions.PrefixOrderIrrelevant | android/extract_utlis/extract-utils.py:218-227 | no path matches two prefixes, so the order of the tests never matters |
| Partitions.PackagePartitionRefinesCopy | android/extract_utlis/extract-utils.py:266-273 | a package target placed on a partition is placed on the same partition as a copy entry of that path |
| Partitions.BarePrefixIsNotADirectory | android/extract_utlis/extract-utils.py:219 | the converse fails: "vendorfoo" is a vendor copy entry but a system package |
| Partitions.OutputsDistinguishPartitions | android/extract_utlis/extract-utils.py:218-227 | different partitions get different macros and different module flags |
| Partitions.PartitionExamples | android/extract_utlis/extract-utils.py:218-227 | worked cases of the prefix rules |
| VendorTree.OutputPath | android/extract_utlis/extract-utils.py:47 | the output path lies under `<lineage_root>/vendor/` |
| VendorTree.OutputPathEnds | android/extract_utlis/extract-utils.py:47 | for a device name without '/', the output path is called after the device and lies in `<lineage_root>/vendor/<vendor>`; for a vendor name without '/', that directory is called after the vendor |
| VendorTree.InDirectory | android/extract_utlis/extract-utils.py:47-52 | `<dir>/<name>` with a '/'-free name has that name and lies in `<dir>` |
| VendorTree.SetupFiles | android/extract_utlis/extract-utils.py:48-53 | there are four setup files, all inside the output path |
| VendorTree.SetupFileNames | android/extract_utlis/extract-utils.py:48-53 | for a device name without '/', every setup file lies directly in the output path, and they are called `<device>-vendor.mk`, `Android.bp`, `Android.mk` and `BoardConfigVendor.mk`, in that order |
| VendorTree.SetupFilesDistinct | android/extract_utlis/extract-utils.py:48-53 | the four setup files are four different paths, whatever the device |
| VendorTree.MakefileName | android/extract_utlis/extract-utils.py:178 | `Path(args).suffix == '.mk'` read off the text: the path ends in ".mk" after a character of the name |
| VendorTree.MakefileNameIsSuffix | android/extract_utlis/extract-utils.py:178-181 | the text test used for the comment marker holds exactly when `Path(args).suffix == '.mk'` |
| VendorTree.CommentMarker | android/extract_utlis/extract-utils.py:178-181 | "# " for a `.mk` file and "// " for any other |
| VendorTree.MarkerOfExtension | android/extract_utlis/extract-utils.py:178-181 | a file ending in ".mk" gets "# " and a file ending in ".bp" gets "// " |
| VendorTree.MarkerAfter | android/extract_utlis/extract-utils.py:178-181 | the marker depends only on the extension after the base name, wherever the file lies |
| VendorTree.SetupFileMarkers | android/extract_utlis/extract-utils.py:178-181 | the three makefiles get "# " and the blueprint gets "// " |
| VendorTree.LicenseLines | android/extract_utlis/extract-utils.py:183-202 | the licence text after `dedent`, one element per line: the copyright line with the year, the Apache notice, and the line naming `device/<vendor>/<device>/setup-makefiles.sh`, between blank lines |
| VendorTree.HeaderLines | android/extract_utlis/extract-utils.py:204-206 | what `write_headers` leaves in the file: every licence line behind the comment marker, blank ones included, then the extra empty line |
| VendorTree.HeaderIsCommentedLicense | android/extract_utlis/extract-utils.py:184-206 | the header has one more line than the licence; that extra line is empty and last; every other line is the comment marker followed by the matching licence line |
| VendorTree.GuardLines | android/extract_utlis/extract-utils.py:361-367 | the three guard lines: `LOCAL_PATH`, the `ifneq` filter on the device, and `endif` |
| VendorTree.GuardNamesDevice | android/extract_utlis/extract-utils.py:361-367 | the guard has three lines, and its middle line names exactly the configured device |
| CopyFiles.AppLine | android/extract_utlis/extract-utils.py:218-227 | one element of `app_list`: the partition macro, the entry and the " \" marker |
| CopyFiles.AppList | android/extract_utlis/extract-utils.py:229-230 | on success `app_list` has one element per entry |
| CopyFiles.AppLines | android/extract_utlis/extract-utils.py:217-227 | the loop gives one element per entry |
| CopyFiles.BuildAppList | android/extract_utlis/extract-utils.py:216-230 | the loop and the last-line rewrite compute `AppList`, with `IndexError` on an empty list |
| CopyFiles.CopyHeader | android/extract_utlis/extract-utils.py:235-238 | the four lines written before the entries: the namespace line, `vendor/<vendor>/<device>`, a blank line and `PRODUCT_COPY_FILES += \` |
| CopyFiles.EntryPrefix | android/extract_utlis/extract-utils.py:242 | what every entry line starts with: the indentation and `vendor/<vendor>/<device>/proprietary/` |
| CopyFiles.EntryLine | android/extract_utlis/extract-utils.py:242 | one entry line: the prefix, the entry, ':' and its `app_list` element |
| CopyFiles.CopyDir | android/extract_utlis/extract-utils.py:245-247 | the directory created for a copy entry: `<output_path>/proprietary/` and the entry's parent |
| CopyFiles.CopyFilesOutput | android/extract_utlis/extract-utils.py:208-247 | the whole effect of `write_product_copy_files`: the `IndexError` and nothing written for an empty list, otherwise the header, the entry lines in list order and one directory per entry |
| CopyFiles.EntryLines | android/extract_utlis/extract-utils.py:240-242 | one entry line per entry, pairing it with its `app_list` element at the same position |
| CopyFiles.EmptyCopyListFails | android/extract_utlis/extract-utils.py:230 | an empty copy list raises `IndexError` and writes and creates nothing |
| CopyFiles.CopyFailsWithoutCopyLines | android/extract_utlis/extract-utils.py:214-230 | the copy block fails exactly when no manifest line contributes a copy target |
| CopyFiles.MacroShape | android/extract_utlis/extract-utils.py:218-227 | every macro ends with '/' and has no backslash |
| CopyFiles.AppListElements | android/extract_utlis/extract-utils.py:227-230 | for a non-empty list every element but the last is macro, entry and marker, and the last has " \" removed |
| CopyFiles.LastAppLine | android/extract_utlis/extract-utils.py:230 | for a last entry without a backslash the marker is dropped and nothing else |
| CopyFiles.CopyBlockShape | android/extract_utlis/extract-utils.py:208-247 | a non-empty list gives the 4 header lines, then one entry line per entry in list order (the marker missing from the last one when its entry has no backslash), and one `proprietary/<parent>` directory per entry |
| CopyFiles.CopyLines | android/extract_utlis/extract-utils.py:233-242 | the `zip` dict keeps list order: after the header, line 4+k is entry k with its `app_list` element |
| CopyFiles.AfterHeader | android/extract_utlis/extract-utils.py:235-242 | the lines written after the four header lines are found at their positions shifted by four |
| CopyFiles.MarkedLine | android/extract_utlis/extract-utils.py:240-242 | an entry line built from an unmodified element ends with the continuation marker |
| CopyFiles.UnmarkedLine | android/extract_utlis/extract-utils.py:230 | the last entry line does not end with the marker when its entry has no backslash |
| CopyFiles.ContinuationMarkers | android/extract_utlis/extract-utils.py:227-242 | every entry line but the last ends with " \"; the last does not, when its entry has no backslash |
| CopyFiles.Markers | android/extract_utlis/extract-utils.py:227-242 | the marker rule holds for any lines laid out as the copy block lays them out |
| CopyFiles.ReplaceInnerMarker | android/extract_utlis/extract-utils.py:230 | `replace(' \\', '')` removes an inner " \" as well as the trailing one |
| CopyFiles.LastLineDropsInnerMarker | android/extract_utlis/extract-utils.py:230 | a last entry that contains " \" is written with it removed from its destination part |
| Packages.RemoveFirst | android/extract_utlis/extract-utils.py:302 | `list.remove` on a list that holds x takes one occurrence of x out of the multiset and shortens the list by one. The only call is guarded by `src64 in work_list`, so the absent case never arises there; on it the model returns the list unchanged, where Python raises `ValueError` |
| Packages.RemoveFirstAfter | android/extract_utlis/extract-utils.py:302 | removal leaves a prefix without x alone |
| Packages.RemoveFirstSorted | android/extract_utlis/extract-utils.py:302 | removal keeps a list strictly ascending |
| Packages.RemoveFirstAt | android/extract_utlis/extract-utils.py:302 | in a strictly ascending list, removing the element at position k cuts out exactly that position |
| Packages.RemoveFirstOnly | android/extract_utlis/extract-utils.py:302 | removing the first occurrence of x cuts out the position where x first appears |
| Packages.RemoveFirstCount | android/extract_utlis/extract-utils.py:302 | removing x from a list that holds it takes exactly one x out |
| Packages.Target | android/extract_utlis/extract-utils.py:261 | `org_target.split('-', 1)[1]`: the text after the first '-', absent where Python raises `IndexError` |
| Packages.TargetOfDash | android/extract_utlis/extract-utils.py:261 | an entry starting with '-' has as target the rest of the entry |
| Packages.LibPath | android/extract_utlis/extract-utils.py:298 | `libpath` is a prefix of the entry |
| Packages.Src32 | android/extract_utlis/extract-utils.py:299 | `src32`: `libpath` followed by `/<name>.so` |
| Packages.Src64 | android/extract_utlis/extract-utils.py:300 | `src64`: `libpath` followed by `64/<name>.so` |
| Packages.Merges | android/extract_utlis/extract-utils.py:296-301 | a `.so` entry is merged exactly when `src32 and src64 in` the list holds |
| Packages.Src32NeverEmpty | android/extract_utlis/extract-utils.py:299-301 | `src32` is never empty, so the merge test is exactly "`src64` is in the list" |
| Packages.SiblingSortsAfter | android/extract_utlis/extract-utils.py:298-300 | an entry sorts before its `lib64` sibling |
| Packages.CutBeforeSlashSortsFirst | android/extract_utlis/extract-utils.py:298-300 | the text cut before a '/' followed by "64/" sorts after the original entry |
| Packages.Plan | android/extract_utlis/extract-utils.py:259-305 | the order in which the loop treats the list: at most one step per entry, the first step treating the first entry; a `.so` entry whose sibling comes later takes it along, and the sibling is dropped from the rest |
| Packages.PlanSiblings | android/extract_utlis/extract-utils.py:296-305 | a step takes a sibling only for a `.so` entry, and the sibling is then that entry's `src64` |
| Packages.LibrarySiblings | android/extract_utlis/extract-utils.py:298-300 | a library `<lib>/<name>.so` with no earlier "/<name>" has `src32` equal to itself and `src64` equal to `<lib>64/<name>.so` |
| Packages.LibraryName | android/extract_utlis/extract-utils.py:262-263 | `<dir>/<name>.so` has stem `<name>` and suffix ".so" |
| Packages.CutAt | android/extract_utlis/extract-utils.py:298 | `split(sep, 1)[0]` of `a + sep + b` is a when sep does not occur earlier |
| Packages.MergeExample | android/extract_utlis/extract-utils.py:296-324 | "-vendor/lib/libfoo.so" and "-vendor/lib64/libfoo.so" are planned as one step, whose module is a `both` library "libfoo" with `proprietary/vendor/lib/libfoo.so` on arm and `proprietary/vendor/lib64/libfoo.so` on arm64, on the vendor partition |
| Packages.PairPlan | android/extract_utlis/extract-utils.py:301-302 | a `.so` entry followed by its sibling is one merged step |
| Packages.PairModule | android/extract_utlis/extract-utils.py:301-324 | the module of a merged step is a `both` library whose two sources are the targets of the entry and of its sibling, under `proprietary/` |
| Packages.PlanCoversEachEntry | android/extract_utlis/extract-utils.py:259-302 | the walk treats every entry, either as its own module or as a merged sibling, as often as it occurs: none is lost and none is treated twice |
| Packages.PlanStep | android/extract_utlis/extract-utils.py:259-302 | one step treats the first entry and goes on with a shorter list that lacks only the sibling it consumed |
| Packages.CoveredStep | android/extract_utlis/extract-utils.py:301-302 | one step accounts for the first entry and, when a merge happens, for the removed sibling |
| Packages.CoveredOnce | android/extract_utlis/extract-utils.py:259-302 | on a repeat-free list every entry is treated exactly once, and a consumed sibling never gets a module of its own |
| Packages.PlanAt | android/extract_utlis/extract-utils.py:259-302 | at position i of an ascending list the walk merges exactly when the entry is a `.so` whose sibling is anywhere in the list; the remaining list keeps positions up to i and stays strictly ascending |
| Packages.SiblingAfterEntry | android/extract_utlis/extract-utils.py:301-302 | in an ascending list, looking for the sibling in the whole list and after the entry give the same answer, and removing it leaves the part up to the entry alone |
| Packages.LaterElement | android/extract_utlis/extract-utils.py:301-302 | an element larger than the entry at position i can only lie after position i |
| Packages.NotUpTo | android/extract_utlis/extract-utils.py:301-302 | an element larger than the entry at position i is not among positions 0 to i |
| Packages.ModuleStep | android/extract_utlis/extract-utils.py:259-347 | one loop step with its in-place `remove` computes the module that `Plan` schedules for position i; the list it continues with keeps positions 0 to i, stays strictly ascending, and continues the plan |
| Packages.KindOf | android/extract_utlis/extract-utils.py:275-296 | the format chosen by the suffix: ".apk", ".jar", ".so", or none |
| Packages.ModuleFor | android/extract_utlis/extract-utils.py:260-347 | the module one loop step writes, or the `IndexError` it raises |
| Packages.Synthesize | android/extract_utlis/extract-utils.py:264-347 | the module of an entry from its stem, format, target and merged sibling: `src` is `proprietary/<target>` and the partition that of the target |
| Packages.MergedLibrary | android/extract_utlis/extract-utils.py:301-324 | the `both` module with the two sources after their '-', or the `IndexError` of `split('-', 1)[1]` at lines 304-305 |
| Packages.KindOfSuffix | android/extract_utlis/extract-utils.py:275-296 | the format is app, dex or library exactly for the suffixes ".apk", ".jar" and ".so" |
| Packages.ModuleErrors | android/extract_utlis/extract-utils.py:261-305 | an entry without '-' raises `IndexError`; any other entry that is not a merged library gives a module |
| Packages.ModuleForUnfold | android/extract_utlis/extract-utils.py:260-264 | an entry with a '-' gets the module that its stem, its suffix and the text after the '-' call for |
| Packages.SynthesizeShape | android/extract_utlis/extract-utils.py:264-347 | the module kind follows the format; name, owner and partition are the stem, the vendor and the target's partition; an app is privileged exactly when its path has `priv-app`; any other format gives the placeholder naming the entry |
| Packages.ModuleKind | android/extract_utlis/extract-utils.py:259-347 | the module of an entry is an app, a dex or a library exactly for ".apk", ".jar" and ".so", with the stem as name, the vendor as owner and the target's partition; any other suffix gives "Missing format" |
| Packages.LibraryModule | android/extract_utlis/extract-utils.py:296-345 | a library is `both` exactly when it took its sibling, and then `android_arm` lists `proprietary/` plus `src32` without its '-' and `android_arm64` lists `proprietary/` plus the sibling without its '-'; otherwise it has the one source of its own target, on arm with "32" exactly when the target has `lib/` |
| Packages.SynthesizeLibrary | android/extract_utlis/extract-utils.py:296-345 | the same law for the library format, whatever the stem and target: the two sources of a `both` module are `src32` and the sibling, each under `proprietary/` without its '-' |
| Packages.ModuleDir | android/extract_utlis/extract-utils.py:349 | the directory created for a module: the output path and the parent of `proprietary/<target>` |
| Packages.Render | android/extract_utlis/extract-utils.py:275-347 | a module as blueprint lines, as the format strings lay it out: its fields, its partition flag if there is one, and the closing brace; the placeholder line for an unknown format |
| Packages.Fields | android/extract_utlis/extract-utils.py:275-345 | the opening line and the fields of each format, up to the partition flag |
| Packages.Opening | android/extract_utlis/extract-utils.py:277-279 | the module type, `name` and `owner` lines every format starts with |
| Packages.RenderFlags | android/extract_utlis/extract-utils.py:275-347 | in the text: an app has `privileged: true,` exactly when it is privileged and always has `dex_preopt` disabled; a partition's flag line appears exactly in a module on that partition, so a system module or a placeholder has none |
| Packages.Emit | android/extract_utlis/extract-utils.py:349-354 | everything the loop appends for a plan: a blank line and the module of each step, and the step's directory, up to the first step that raises |
| Packages.PackagesOutput | android/extract_utlis/extract-utils.py:249-354 | the whole effect of `write_product_packages` on a package list: the namespace block, then what `Emit` of its `Plan` appends |
| Packages.EmitFirst | android/extract_utlis/extract-utils.py:349-354 | the first step of the walk either raises, writing nothing, or appends a blank line, the module and its directory before the rest |
| Packages.EmitStep | android/extract_utlis/extract-utils.py:349-354 | the output of the step `ModuleStep` takes, followed by the output of the rest of the walk, is the output from position i |
| Packages.EmitDone | android/extract_utlis/extract-utils.py:259 | past the end of the list nothing more is written |
| XmlFix.DeclarationLines | android/extract_utlis/extract-utils.py:85 | holds exactly the lines that contain `<?xml version`, and no more lines than the file |
| XmlFix.Join | android/extract_utlis/extract-utils.py:85 | `sep.join(parts)` |
| XmlFix.Header | android/extract_utlis/extract-utils.py:85 | `matter.index` of the joined declaration lines |
| XmlFix.IndexOf | android/extract_utlis/extract-utils.py:85 | `list.index` gives the first position holding x, or raises exactly when x is not a line |
| XmlFix.FixXml | android/extract_utlis/extract-utils.py:78-90 | raises `ValueError` exactly when the joined declaration lines are not a line of the file; otherwise the line found moves to the front and the other lines keep their order (a permutation, unchanged when it is first); a file with one declaration line gets that line in front |
| XmlFix.SingleDeclaration | android/extract_utlis/extract-utils.py:85 | with exactly one declaration line, the line looked up is found where it is |
| XmlFix.DeclarationLinesAppend | android/extract_utlis/extract-utils.py:85 | collecting the declaration lines distributes over concatenation |
| XmlFix.TwoDeclarations | android/extract_utlis/extract-utils.py:85 | declaration lines at two positions make at least two collected lines |
| XmlFix.NoDeclarationFails | android/extract_utlis/extract-utils.py:84-85 | a file read with `readlines` that has no declaration raises `ValueError` |
| XmlFix.NoDeclarationLines | android/extract_utlis/extract-utils.py:85 | with no declaration line nothing is collected |
| XmlFix.SeveralDeclarationsFail | android/extract_utlis/extract-utils.py:84-85 | a file read with `readlines` that has two or more declaration lines raises `ValueError` too |
| XmlFix.JoinStartsWith | android/extract_utlis/extract-utils.py:85 | joining lines whose first is non-empty gives non-empty text at least as long as that line |
| Generator.Appending | android/extract_utlis/extract-utils.py:366-367 | `open(path, 'a')` plus a write extends that file (created empty if missing) and changes no other file |
| Generator.AppendingTwice | android/extract_utlis/extract-utils.py:240-242 | two appends to one file are one append of both texts |
| Generator.Touched | android/extract_utlis/extract-utils.py:57-58 | `open(path, 'a').close()` on each setup file in turn |
| Generator.TouchedFiles | android/extract_utlis/extract-utils.py:57-58 | touching creates exactly the missing files, empty, and changes no existing file |
| Generator.Rewritten | android/extract_utlis/extract-utils.py:375-376 | `open(path, 'w')` and a write, on each file of a list in turn |
| Generator.RewrittenFiles | android/extract_utlis/extract-utils.py:375-376 | after the header loop every file of the list holds its header alone; other files are untouched |
| Generator.RewrittenHead | android/extract_utlis/extract-utils.py:375-376 | the header loop rewrites its files one at a time from the front |
| Generator.Extracted | android/extract_utlis/extract-utils.py:369-381 | the four files after `extract_files`: all rewritten with their headers, the guard appended to the third, and, unless the copy block raised, the copy block appended to the first and the modules to the second |
| Generator.ExtractedSteps | android/extract_utlis/extract-utils.py:374-381 | headers, guards, copy block and packages in that order give the state `Extracted` describes |
| Generator.ExtractedContents | android/extract_utlis/extract-utils.py:369-381 | with four different files: the makefile holds its header and the copy block; the blueprint holds its header and the modules; `Android.mk` holds its header and the guard; the board config holds its header alone. When the copy block raises, the first two keep only their headers. No other file changes |
| Generator.ExtractUtils.constructor | android/extract_utlis/extract-utils.py:32-37 | nothing is configured, and the file system is as given |
| Generator.ExtractUtils.SetupVendor | android/extract_utlis/extract-utils.py:39-58 | device, vendor and root are recorded; output path and setup files are computed from them; the output directory is created; the four files are touched |
| Generator.ExtractUtils.WriteHeaders | android/extract_utlis/extract-utils.py:171-206 | the file is replaced by the licence header for its suffix, and nothing else changes |
| Generator.ExtractUtils.WriteGuards | android/extract_utlis/extract-utils.py:356-367 | the guard lines are appended to `Android.mk`, and nothing else changes |
| Generator.ExtractUtils.WriteProductCopyFiles | android/extract_utlis/extract-utils.py:208-247 | raises exactly as `CopyFilesOutput` of the copy list does, leaving files unchanged; otherwise appends its lines to the device makefile; records its directories |
| Generator.ExtractUtils.CopyFilesOf | android/extract_utlis/extract-utils.py:216-247 | the loops after `target_list` append the header and entry lines and create the directories `CopyFilesOutput` describes |
| Generator.ExtractUtils.WriteProductPackages | android/extract_utlis/extract-utils.py:249-354 | appends the namespace block and the modules of the walk (up to the raising entry) to `Android.bp`, records their directories and reports the raise |
| Generator.ExtractUtils.PackagesOf | android/extract_utlis/extract-utils.py:254-354 | the in-place walk with `remove` writes exactly what `PackagesOutput` of the list, through `Plan`, describes |
| Generator.ExtractUtils.HeadersOf | android/extract_utlis/extract-utils.py:375-376 | the header loop leaves the state `Rewritten` describes |
| Generator.ExtractUtils.ExtractFiles | android/extract_utlis/extract-utils.py:369-381 | the four files end as `Extracted` describes; the error is that of the copy block, or else that of the packages; the directories are those of the copy block, then those of the packages unless the copy block raised |
| Generator.ExtractUtils.ExtractOf | android/extract_utlis/extract-utils.py:374-381 | the same, on the two lists `target_list` returns |
| Generator.ExtractUtils.PreambleOf | android/extract_utlis/extract-utils.py:375-377 | headers in all four files, then the guard appended to `Android.mk` |
| Generator.ExtractUtils.ProductFilesOf | android/extract_utlis/extract-utils.py:380-381 | the copy block, then the packages unless the copy block raised |

## Left out

- `adb_connected`, `init_adb_connection` and `get_hash` (lines 60-76 and 92-124) run `adb` through `subprocess` or hash a file on disk. They are external processes and I/O, and are not part of this model. So is the pull code, which is commented out from line 383 on.
- The file system is two fields: the lines of each file, and the list of directories `mkdir` was asked for. Parent directories, `exist_ok`, permissions and I/O errors are not tracked.
- Text is modelled as lists of lines. Each element is one newline-terminated line, and the `\n` of a write becomes a line break.
- `datetime.now().year` becomes the `year` parameter. `open(prop_file).readlines()` becomes the `matter` parameter.
- Generator.ExtractUtils.ExtractFiles computes the two lists with `target_list` and then runs the bodies of the two writers (`CopyFilesOf`, `PackagesOf`). It does not call `WriteProductCopyFiles` and `WriteProductPackages` themselves. Each of those is proved on its own against the same output functions.
- `content is 'packages'` and `content is 'copy'` compare identity. They are modelled as string equality, which is what they do for the literals the class passes.
- Paths.Parent, Paths.Name, Paths.Suffix and Paths.Stem: modelled for the relative paths a manifest holds, and for the paths the code builds from them, such as `proprietary/` + target. `pathlib`'s collapsing of repeated or trailing '/' and of "." components is not modelled. So a package line "-" has the empty target, and `Path('proprietary/').parent` is ".", but the model's parent is "proprietary", so `Packages.ModuleDir` gives `<out>/proprietary` where the code creates `<out>/.`.
- Sorting.Dedup: the contract does not say that first occurrences keep their order. The list is sorted next, so only the set of elements matters.
- Packages.RemoveFirst: Python's `list.remove` raises `ValueError` when the element is absent; the model returns the list unchanged. The only call, at line 302, is guarded by `src64 in work_list`, so that error cannot happen there.
- Packages.LibPath: the contract states only that `libpath` is a prefix of the entry. When "/<name>" occurs earlier in the path than the file itself, `src32` is not the entry. The model computes this the way the code does but proves nothing about it.
- Packages.Render: the `dedent` and `replace('\n\n', '\n')` layout of the module templates is written out as the resulting lines. The blank lines left by absent optional lines are already removed. The exact field layout is therefore stated only by the function itself; what the templates choose (the `privileged` line, the disabled `dex_preopt`, the partition flag) is proved by `Packages.RenderFlags`.
- XmlFix.FixXml: `seek`, `writelines` and `truncate` become the returned lines. When the declaration is already first, the file is not rewritten, and the returned lines equal the input.
