/**
 * The `ExtractUtils` object: `setup_vendor` fixes the device, the vendor,
 * the source root and the paths of the vendor tree, and the writing methods
 * read them. The file system is modelled by two fields: the lines of every
 * file the object knows of, and the directories it has asked for, in order.
 */
module Generator {
  import opened Wrappers
  import opened Strings
  import opened Sorting
  import opened Manifest
  import opened Partitions
  import opened VendorTree
  import opened CopyFiles
  import opened Packages

  /** `open(path, 'a')` followed by writing `lines`: the file is created empty when missing, then extended. */
  function Appending<K(==,!new), T>(files: map<K, seq<T>>, path: K, lines: seq<T>): (r: map<K, seq<T>>)
    ensures path in r && r[path] == (if path in files then files[path] else []) + lines
    ensures forall f :: f != path ==> (f in r <==> f in files) && (f in files ==> r[f] == files[f])
  {
    files[path := (if path in files then files[path] else []) + lines]
  }

  /** Two appends to one file are one append of both. */
  lemma AppendingTwice<K(!new), T>(files: map<K, seq<T>>, path: K, a: seq<T>, b: seq<T>)
    ensures Appending(Appending(files, path, a), path, b) == Appending(files, path, a + b)
  {
    var l := Appending(Appending(files, path, a), path, b);
    var r := Appending(files, path, a + b);
    assert l.Keys == r.Keys;
    assert forall f :: f in l ==> l[f] == r[f];
  }

  /** A loop that appends `s[k]` at step `k` has appended `s[..k + 1]` after it. */
  lemma ExtendPrefix<T>(before: seq<T>, s: seq<T>, k: nat)
    requires k < |s|
    ensures before + s[..k + 1] == (before + s[..k]) + [s[k]]
  {
    assert s[..k + 1] == s[..k] + [s[k]];
  }

  lemma Associative<T>(a: seq<T>, b: seq<T>, c: seq<T>)
    ensures (a + b) + c == a + (b + c)
  {
  }

  /** Appending two steps of output one after the other. */
  lemma ThenThen(lines: seq<string>, dirs: seq<string>, more: seq<string>, moreDirs: seq<string>, rest: Appended)
    ensures Then(lines, dirs, Then(more, moreDirs, rest)) == Then(lines + more, dirs + moreDirs, rest)
  {
    Associative(lines, more, rest.lines);
    Associative(dirs, moreDirs, rest.dirs);
  }

  /** Output that ends with an empty step is the output before it. */
  lemma Finished(lines: seq<string>, dirs: seq<string>, failure: Option<Failure>, all: Appended)
    requires Then(lines, dirs, Appended([], [], failure)) == all
    ensures all == Appended(lines, dirs, failure)
  {
    assert lines + [] == lines && dirs + [] == dirs;
  }

  lemma NothingThen(a: Appended)
    ensures Then([], [], a) == a
  {
    assert [] + a.lines == a.lines && [] + a.dirs == a.dirs;
  }

  /** Opening every file of `paths` for appending and closing it again: missing files appear empty. */
  function Touched(files: map<string, seq<string>>, paths: seq<string>): map<string, seq<string>> {
    if paths == [] then files
    else Appending(Touched(files, paths[..|paths| - 1]), paths[|paths| - 1], [])
  }

  /** Touching creates exactly the missing files, empty, and changes no existing file. */
  lemma {:induction false} TouchedFiles(files: map<string, seq<string>>, paths: seq<string>)
    ensures forall f :: f in Touched(files, paths) <==> f in files || f in paths
    ensures forall f :: f in files ==> Touched(files, paths)[f] == files[f]
    ensures forall f :: f in paths && f !in files ==> Touched(files, paths)[f] == []
  {
    if paths != [] {
      var init := paths[..|paths| - 1];
      TouchedFiles(files, init);
      assert paths == init + [paths[|paths| - 1]];
    }
  }

  /** `open(path, 'w')` on every file of `paths` in turn, each written with `stamp(path)`. */
  function Rewritten<K(==,!new), V>(files: map<K, V>, paths: seq<K>, stamp: K -> V): map<K, V>
    decreases |paths|
  {
    if paths == [] then files
    else Rewritten(files[paths[0] := stamp(paths[0])], paths[1..], stamp)
  }

  /** After the rewrites each file of `paths` holds its stamp and nothing else; other files are untouched. */
  lemma {:induction false} RewrittenFiles<K(!new), V>(files: map<K, V>, paths: seq<K>, stamp: K -> V)
    ensures var r := Rewritten(files, paths, stamp);
      && (forall f :: f in r <==> f in files || f in paths)
      && (forall f :: f in paths ==> r[f] == stamp(f))
      && (forall f :: f in files && f !in paths ==> r[f] == files[f])
    decreases |paths|
  {
    if paths != [] {
      RewrittenFiles(files[paths[0] := stamp(paths[0])], paths[1..], stamp);
      assert paths == [paths[0]] + paths[1..];
    }
  }

  /** `write_headers` as a function of the path, for one year, vendor and device. */
  function Headers(year: nat, vendor: string, device: string): string -> seq<string> {
    p => HeaderLines(p, year, vendor, device)
  }

  /** The loop of `extract_files` rewrites the files one at a time from the front. */
  lemma RewrittenHead<K(!new), V>(files: map<K, V>, next: map<K, V>, paths: seq<K>, k: nat, stamp: K -> V)
    requires k < |paths| && next == files[paths[k] := stamp(paths[k])]
    ensures Rewritten(files, paths[k..], stamp) == Rewritten(next, paths[k + 1..], stamp)
  {
    assert paths[k..][1..] == paths[k + 1..];
  }

  lemma HeadersAt(year: nat, vendor: string, device: string, path: string)
    ensures Headers(year, vendor, device)(path) == HeaderLines(path, year, vendor, device)
  {
  }

  /**
   * What `extract_files` leaves in the four files of the vendor tree: every
   * one rewritten with its header, the guards appended to the third, and,
   * unless the copy block raised, the copy block appended to the first and
   * the modules to the second.
   */
  function Extracted<K(==,!new), T>(files: map<K, seq<T>>, paths: seq<K>, header: K -> seq<T>, guards: seq<T>,
                               copy: seq<T>, copyFailed: bool, packages: seq<T>): map<K, seq<T>>
    requires |paths| == 4
  {
    var written := Appending(Rewritten(files, paths, header), paths[2], guards);
    if copyFailed then written
    else Appending(Appending(written, paths[0], copy), paths[1], packages)
  }

  /** The four steps of `extract_files` one after the other. */
  lemma ExtractedSteps<K(!new), T>(files: map<K, seq<T>>, paths: seq<K>, header: K -> seq<T>, guards: seq<T>,
                                   copy: seq<T>, copyFailed: bool, packages: seq<T>,
                                   guarded: map<K, seq<T>>, copied: map<K, seq<T>>, done: map<K, seq<T>>)
    requires |paths| == 4
    requires guarded == Appending(Rewritten(files, paths, header), paths[2], guards)
    requires copied == (if copyFailed then guarded else Appending(guarded, paths[0], copy))
    requires done == (if copyFailed then copied else Appending(copied, paths[1], packages))
    ensures done == Extracted(files, paths, header, guards, copy, copyFailed, packages)
  {
  }

  /**
   * With four different files, `extract_files` leaves the makefile with its
   * header and the copy block, the blueprint with its header and the
   * modules, the guard makefile with its header and the guards, and the board
   * config with its header alone; when the copy block raises, the first two
   * keep their headers only. No other file changes.
   */
  lemma ExtractedContents<K(!new), T>(files: map<K, seq<T>>, paths: seq<K>, header: K -> seq<T>, guards: seq<T>,
                                      copy: seq<T>, copyFailed: bool, packages: seq<T>)
    requires |paths| == 4 && forall i, j :: 0 <= i < j < 4 ==> paths[i] != paths[j]
    ensures var r := Extracted(files, paths, header, guards, copy, copyFailed, packages);
      && paths[0] in r && paths[1] in r && paths[2] in r && paths[3] in r
      && r[paths[0]] == header(paths[0]) + (if copyFailed then [] else copy)
      && r[paths[1]] == header(paths[1]) + (if copyFailed then [] else packages)
      && r[paths[2]] == header(paths[2]) + guards
      && r[paths[3]] == header(paths[3])
      && (forall f :: f in r <==> f in files || f in paths)
      && (forall f :: f in files && f !in paths ==> r[f] == files[f])
  {
    RewrittenFiles(files, paths, header);
    assert paths[0] in paths && paths[1] in paths && paths[2] in paths && paths[3] in paths;
  }

  class ExtractUtils {
    /** False until `setup_vendor` has run (the fields start out as None). */
    var configured: bool
    var device: string
    var vendor: string
    var lineageRoot: string
    var outputPath: string
    var setupFiles: seq<string>
    /** The lines of every file, as far as this object is concerned. */
    var files: map<string, seq<string>>
    /** Every directory `mkdir` was asked to create, in order. */
    var madeDirs: seq<string>

    /** The paths `setup_vendor` computed are those of its arguments. */
    ghost predicate Valid()
      reads this`configured, this`device, this`vendor, this`lineageRoot, this`outputPath, this`setupFiles
    {
      configured ==>
        && outputPath == OutputPath(lineageRoot, vendor, device)
        && setupFiles == SetupFiles(outputPath, device)
    }

    /** `__init__`: nothing configured yet; `disk` is what the file system already holds. */
    constructor (disk: map<string, seq<string>>)
      ensures Valid() && !configured
      ensures files == disk && madeDirs == []
    {
      configured := false;
      device, vendor, lineageRoot, outputPath := "", "", "", "";
      setupFiles := [];
      files := disk;
      madeDirs := [];
    }

    /**
     * `setup_vendor`: records the three arguments, computes the output path
     * and the four file paths, creates the output directory and touches the
     * four files (existing ones keep their lines).
     */
    method SetupVendor(device: string, vendor: string, lineageRoot: string)
      modifies this
      ensures Valid() && configured
      ensures this.device == device && this.vendor == vendor && this.lineageRoot == lineageRoot
      ensures outputPath == OutputPath(lineageRoot, vendor, device)
      ensures setupFiles == SetupFiles(outputPath, device)
      ensures madeDirs == old(madeDirs) + [outputPath]
      ensures files == Touched(old(files), setupFiles)
    {
      this.device := device;
      this.vendor := vendor;
      this.lineageRoot := lineageRoot;
      outputPath := OutputPath(lineageRoot, vendor, device);
      setupFiles := SetupFiles(outputPath, device);
      configured := true;

      // Create initial vendor dir & files
      madeDirs := madeDirs + [outputPath];
      var paths := setupFiles;
      for k := 0 to |paths|
        invariant files == Touched(old(files), paths[..k])
        modifies this`files
      {
        assert paths[..k + 1][..k] == paths[..k];
        files := Appending(files, paths[k], []);
      }
      assert paths[..|paths|] == paths;
    }

    /**
     * `write_headers`: the file is rewritten (opened with 'w') with the
     * licence header, commented the way its suffix calls for; `year` stands
     * for the current year.
     */
    method WriteHeaders(path: string, year: nat)
      requires configured
      modifies this`files
      ensures files == old(files)[path := HeaderLines(path, year, vendor, device)]
    {
      files := files[path := HeaderLines(path, year, vendor, device)];
    }

    /** `write_guards`: the guard lines are appended to `Android.mk`. */
    method WriteGuards()
      requires configured && |setupFiles| == 4
      modifies this`files
      ensures files == Appending(old(files), setupFiles[2], GuardLines(device))
    {
      files := Appending(files, setupFiles[2], GuardLines(device));
    }

    /**
     * `write_product_copy_files`: the copy list of the manifest, the
     * partition macro of every entry, the continuation marker removed from
     * the last; then the header and one line per entry appended to the
     * device makefile, and one directory per entry. An empty copy list
     * raises at `app_list[-1]`, before anything is written.
     */
    method WriteProductCopyFiles(propList: seq<string>) returns (failure: Option<Failure>)
      requires Valid() && configured
      modifies this`files, this`madeDirs
      ensures var out := CopyFilesOutput(TargetListOf(propList, "copy"), vendor, device, outputPath);
        && failure == out.failure
        && files == (if failure.Some? then old(files) else Appending(old(files), setupFiles[0], out.lines))
        && madeDirs == old(madeDirs) + out.dirs
    {
      // Filter the given list to remove package targets
      var workList := TargetList(propList, "copy");
      failure := CopyFilesOf(workList);
    }

    /**
     * The body of `write_product_copy_files` after `target_list`, on the
     * ascending copy list `workList` (its entries are distinct, so the dict
     * built by `zip` has one key per entry, in list order).
     */
    method CopyFilesOf(workList: seq<string>) returns (failure: Option<Failure>)
      requires |setupFiles| == 4 && StrictlySorted(workList)
      modifies this`files, this`madeDirs
      ensures var out := CopyFilesOutput(workList, old(vendor), old(device), old(outputPath));
        && failure == out.failure
        && files == (if failure.Some? then old(files) else Appending(old(files), old(setupFiles)[0], out.lines))
        && madeDirs == old(madeDirs) + out.dirs
    {
      var built := BuildAppList(workList);
      if built.Fail? {
        failure := Some(built.failure);
        return;
      }
      var appList := built.value;
      failure := None;

      var vendor, device, makefile := vendor, device, setupFiles[0];
      ghost var entries := EntryLines(vendor, device, workList, appList);
      ghost var before := files;
      files := Appending(files, makefile, CopyHeader(vendor, device));
      assert CopyHeader(vendor, device) + entries[..0] == CopyHeader(vendor, device);
      for k := 0 to |workList|
        invariant files == Appending(before, makefile, CopyHeader(vendor, device) + entries[..k])
        modifies this`files
      {
        var line := EntryLine(vendor, device, workList[k], appList[k]);
        AppendingTwice(before, makefile, CopyHeader(vendor, device) + entries[..k], [line]);
        files := Appending(files, makefile, [line]);
        ExtendPrefix(CopyHeader(vendor, device), entries, k);
      }
      assert entries[..|workList|] == entries;

      // Create dummy directories to copy files into
      var outputPath := outputPath;
      ghost var dirs := seq(|workList|, k requires 0 <= k < |workList| => CopyDir(outputPath, workList[k]));
      assert old(madeDirs) + dirs[..0] == madeDirs;
      for k := 0 to |workList|
        invariant madeDirs == old(madeDirs) + dirs[..k]
        modifies this`madeDirs
      {
        madeDirs := madeDirs + [CopyDir(outputPath, workList[k])];
        ExtendPrefix(old(madeDirs), dirs, k);
      }
      assert dirs[..|workList|] == dirs;
    }

    /**
     * `write_product_packages`: the namespace block, then for every package
     * entry in turn a blank line and its module, and its directory; a `.so`
     * entry whose `lib64` sibling is in the list takes the sibling with it
     * and removes it from the list being walked. An entry whose
     * `split('-', 1)[1]` raises stops the walk.
     */
    method WriteProductPackages(propList: seq<string>) returns (failure: Option<Failure>)
      requires Valid() && configured
      modifies this`files, this`madeDirs
      ensures var out := PackagesOutput(TargetListOf(propList, "packages"), vendor, outputPath);
        && failure == out.failure
        && files == Appending(old(files), setupFiles[1], out.lines)
        && madeDirs == old(madeDirs) + out.dirs
    {
      // Filter the given list to remove copy targets
      var workList := TargetList(propList, "packages");
      failure := PackagesOf(workList);
    }

    /** The body of `write_product_packages` after `target_list`, on the ascending package list `workList`. */
    method PackagesOf(packages: seq<string>) returns (failure: Option<Failure>)
      requires |setupFiles| == 4 && StrictlySorted(packages)
      modifies this`files, this`madeDirs
      ensures var out := PackagesOutput(packages, old(vendor), old(outputPath));
        && failure == out.failure
        && files == Appending(old(files), old(setupFiles)[1], out.lines)
        && madeDirs == old(madeDirs) + out.dirs
    {
      var workList := packages;
      var vendor, outputPath, blueprint := vendor, outputPath, setupFiles[1];
      ghost var all := Emit(Plan(workList), vendor, outputPath);
      ghost var out := PackagesOutput(packages, vendor, outputPath);
      assert out == Appended(["soong_namespace {", "}"] + all.lines, all.dirs, all.failure);

      files := Appending(files, blueprint, ["soong_namespace {", "}"]);
      ghost var before := old(files);
      ghost var done: seq<string> := [];
      ghost var dirs: seq<string> := [];
      NothingThen(all);
      assert ["soong_namespace {", "}"] + done == ["soong_namespace {", "}"];

      var i := 0;
      assert workList[i..] == workList;
      while i < |workList|
        invariant i <= |workList| && StrictlySorted(workList)
        invariant Then(done, dirs, Emit(Plan(workList[i..]), vendor, outputPath)) == all
        invariant madeDirs == old(madeDirs) + dirs
        invariant files == Appending(before, blueprint, ["soong_namespace {", "}"] + done)
        decreases |workList| - i
      {
        var m, next := ModuleStep(workList, i, vendor);
        EmitStep(workList, i, next, m, vendor, outputPath);
        if m.Fail? {
          failure := Some(m.failure);
          Finished(done, dirs, failure, all);
          assert out == Appended(["soong_namespace {", "}"] + done, dirs, failure);
          return;
        }
        var lines := [""] + Render(m.value);
        var dir := ModuleDir(outputPath, Target(workList[i]).value);
        ThenThen(done, dirs, lines, [dir], Emit(Plan(next[i + 1..]), vendor, outputPath));
        Associative(old(madeDirs), dirs, [dir]);
        AppendingTwice(before, blueprint, ["soong_namespace {", "}"] + done, lines);
        Associative(["soong_namespace {", "}"], done, lines);
        files := Appending(files, blueprint, lines);
        madeDirs := madeDirs + [dir];
        done, dirs := done + lines, dirs + [dir];
        workList := next;
        i := i + 1;
      }
      failure := None;
      EmitDone(workList, i, vendor, outputPath);
      Finished(done, dirs, failure, all);
      assert out == Appended(["soong_namespace {", "}"] + done, dirs, failure);

    }

    /** The loop of `extract_files` that rewrites each file of `paths` with its header. */
    method HeadersOf(paths: seq<string>, year: nat)
      requires configured
      modifies this`files
      ensures files == Rewritten(old(files), paths, Headers(year, vendor, device))
    {
      ghost var header := Headers(year, vendor, device);
      ghost var before := files;
      for k := 0 to |paths|
        invariant Rewritten(files, paths[k..], header) == Rewritten(before, paths, header)
      {
        ghost var previous := files;
        WriteHeaders(paths[k], year);
        HeadersAt(year, vendor, device, paths[k]);
        RewrittenHead(previous, files, paths, k, header);
      }
    }

    /**
     * `extract_files` on the lines of the manifest (`matter`, what
     * `readlines` gives): headers in the four files, the guards, the copy
     * block, then the packages; an `IndexError` from the copy block ends the
     * run before the packages. `year` stands for the current year.
     */
    method ExtractFiles(matter: seq<string>, year: nat) returns (failure: Option<Failure>)
      requires Valid() && configured
      modifies this`files, this`madeDirs
      ensures var copy := CopyFilesOutput(TargetListOf(matter, "copy"), vendor, device, outputPath);
        var packages := PackagesOutput(TargetListOf(matter, "packages"), vendor, outputPath);
        && failure == (if copy.failure.Some? then copy.failure else packages.failure)
        && files == Extracted(old(files), setupFiles, Headers(year, vendor, device), GuardLines(device),
                              copy.lines, copy.failure.Some?, packages.lines)
        && madeDirs == old(madeDirs) + copy.dirs + (if copy.failure.Some? then [] else packages.dirs)
    {
      var copyList := TargetList(matter, "copy");
      var packageList := TargetList(matter, "packages");
      failure := ExtractOf(copyList, packageList, year);
    }

    /**
     * The body of `extract_files` on the ascending copy and package lists,
     * with what `setup_vendor` computed taken as it was on entry.
     */
    method ExtractOf(copyList: seq<string>, packageList: seq<string>, year: nat) returns (failure: Option<Failure>)
      requires configured && |setupFiles| == 4 && StrictlySorted(copyList) && StrictlySorted(packageList)
      modifies this`files, this`madeDirs
      ensures var copy := CopyFilesOutput(copyList, old(vendor), old(device), old(outputPath));
        var packages := PackagesOutput(packageList, old(vendor), old(outputPath));
        && failure == (if copy.failure.Some? then copy.failure else packages.failure)
        && files == Extracted(old(files), old(setupFiles), Headers(year, old(vendor), old(device)), GuardLines(old(device)),
                              copy.lines, copy.failure.Some?, packages.lines)
        && madeDirs == old(madeDirs) + copy.dirs + (if copy.failure.Some? then [] else packages.dirs)
    {
      // Write required contents into the file
      PreambleOf(year);
      ghost var guarded := files;
      failure := ProductFilesOf(copyList, packageList);
      ghost var copy := CopyFilesOutput(copyList, old(vendor), old(device), old(outputPath));
      ghost var packages := PackagesOutput(packageList, old(vendor), old(outputPath));
      ghost var failed := copy.failure.Some?;
      ghost var copied := if failed then guarded else Appending(guarded, old(setupFiles)[0], copy.lines);
      ExtractedSteps(old(files), old(setupFiles), Headers(year, old(vendor), old(device)), GuardLines(old(device)),
                     copy.lines, failed, packages.lines, guarded, copied, files);
    }

    /** The first two steps of `extract_files`: a header in each of the four files, then the guards. */
    method PreambleOf(year: nat)
      requires configured && |setupFiles| == 4
      modifies this`files
      ensures files == Appending(Rewritten(old(files), old(setupFiles), Headers(year, old(vendor), old(device))),
                                 old(setupFiles)[2], GuardLines(old(device)))
    {
      HeadersOf(setupFiles, year);
      WriteGuards();
    }

    /**
     * The last two steps of `extract_files`: the copy block, then, unless it
     * raised, the packages.
     */
    method ProductFilesOf(copyList: seq<string>, packageList: seq<string>) returns (failure: Option<Failure>)
      requires |setupFiles| == 4 && StrictlySorted(copyList) && StrictlySorted(packageList)
      modifies this`files, this`madeDirs
      ensures var copy := CopyFilesOutput(copyList, old(vendor), old(device), old(outputPath));
        var packages := PackagesOutput(packageList, old(vendor), old(outputPath));
        && failure == (if copy.failure.Some? then copy.failure else packages.failure)
        && files == (if copy.failure.Some? then old(files)
                     else Appending(Appending(old(files), old(setupFiles)[0], copy.lines), old(setupFiles)[1], packages.lines))
        && madeDirs == old(madeDirs) + copy.dirs + (if copy.failure.Some? then [] else packages.dirs)
    {
      failure := CopyFilesOf(copyList);
      if failure.Some? {
        assert madeDirs + [] == madeDirs;
        return;
      }
      failure := PackagesOf(packageList);
    }
  }
}
