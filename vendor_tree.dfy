/**
 * The vendor tree the generator writes into: its path and its four files
 * (`setup_vendor`), the licence header each file starts with
 * (`write_headers`) and the build guard of `Android.mk` (`write_guards`).
 * Files are modelled as sequences of lines, each line one newline-terminated
 * piece of text.
 */
module VendorTree {
  import opened Wrappers
  import opened Strings
  import opened Paths

  /**
   * What one generating method leaves behind: the lines it appended to its
   * file, the directories it created, and the exception that stopped it,
   * if any (lines appended before the exception stay appended).
   */
  datatype Appended = Appended(lines: seq<string>, dirs: seq<string>, failure: Option<Failure>)

  /** `output_path`: `<lineage_root>/vendor/<vendor>/<device>`. */
  function OutputPath(lineageRoot: string, vendor: string, device: string): (r: string)
    ensures StartsWith(r, lineageRoot + "/vendor/")
  {
    var r := lineageRoot + "/vendor/" + vendor + "/" + device;
    assert r[..|lineageRoot + "/vendor/"|] == lineageRoot + "/vendor/";
    r
  }

  /** `setup_files`: the makefile, the blueprint, the guard makefile and the board config, in that order. */
  function SetupFiles(outputPath: string, device: string): (r: seq<string>)
    ensures |r| == 4
    ensures forall i :: 0 <= i < 4 ==> StartsWith(r[i], outputPath + "/")
  {
    var r := [outputPath + "/" + device + "-vendor.mk",
              outputPath + "/Android.bp",
              outputPath + "/Android.mk",
              outputPath + "/BoardConfigVendor.mk"];
    assert forall i :: 0 <= i < 4 ==> r[i][..|outputPath + "/"|] == outputPath + "/";
    r
  }

  /**
   * With a device name free of '/', the output path is the directory
   * `<lineage_root>/vendor/<vendor>` holding an entry named after the
   * device; with a vendor name free of '/' too, that directory is named
   * after the vendor.
   */
  lemma OutputPathEnds(lineageRoot: string, vendor: string, device: string)
    requires '/' !in device
    ensures var out := OutputPath(lineageRoot, vendor, device);
      && Name(out) == device
      && Parent(out) == lineageRoot + "/vendor/" + vendor
      && ('/' !in vendor ==> Name(Parent(out)) == vendor)
  {
    var dir := lineageRoot + "/vendor/" + vendor;
    InDirectory(dir, device);
    if '/' !in vendor {
      assert dir == lineageRoot + "/vendor" + "/" + vendor;
      InDirectory(lineageRoot + "/vendor", vendor);
    }
  }

  /** `<dir>/<name>` with a non-empty `dir` and a '/'-free `name` lies in `dir` and is called `name`. */
  lemma InDirectory(dir: string, name: string)
    requires dir != [] && '/' !in name
    ensures Name(dir + "/" + name) == name && Parent(dir + "/" + name) == dir
  {
    var d := dir + "/";
    assert LastIndexOf(d, '/') == Some(|dir|);
    LastIndexOfAppend(d, name, '/');
    NameAppend(d, name);
    assert d[|dir| + 1..] == [];
    var p := d + name;
    assert p[..|dir|] == dir;
  }

  /**
   * With a device name free of '/', each setup file lies directly in the
   * output path and is called `<device>-vendor.mk`, `Android.bp`,
   * `Android.mk` and `BoardConfigVendor.mk`, in that order.
   */
  lemma SetupFileNames(outputPath: string, device: string)
    requires outputPath != [] && '/' !in device
    ensures var f := SetupFiles(outputPath, device);
      && (forall i :: 0 <= i < 4 ==> Parent(f[i]) == outputPath)
      && Name(f[0]) == device + "-vendor.mk"
      && Name(f[1]) == "Android.bp"
      && Name(f[2]) == "Android.mk"
      && Name(f[3]) == "BoardConfigVendor.mk"
  {
    var f := SetupFiles(outputPath, device);
    var names := [device + "-vendor.mk", "Android.bp", "Android.mk", "BoardConfigVendor.mk"];
    forall i | 0 <= i < 4
      ensures f[i] == outputPath + "/" + names[i]
    {
    }
    forall i | 0 <= i < 4
      ensures Parent(f[i]) == outputPath && Name(f[i]) == names[i]
    {
      InDirectory(outputPath, names[i]);
    }
  }

  /** The four files are four different files, so no method's output lands in another's file. */
  lemma SetupFilesDistinct(outputPath: string, device: string)
    ensures forall i, j :: 0 <= i < j < 4 ==> SetupFiles(outputPath, device)[i] != SetupFiles(outputPath, device)[j]
  {
    var f := SetupFiles(outputPath, device);
    var o := outputPath + "/";
    assert f[0] == (o + device) + "-vendor.mk";
    assert f[1] == o + "Android.bp";
    assert f[2] == o + "Android.mk";
    assert f[3] == o + "BoardConfigVendor.mk";
    // Compare the tenth character from the end: '-', 'A', 'A', 'g'; and the last: 'k', 'p'.
    assert f[0][|f[0]| - 10] == '-';
    assert f[1][|f[1]| - 1] == 'p';
    assert f[0][|f[0]| - 1] == 'k' && f[2][|f[2]| - 1] == 'k' && f[3][|f[3]| - 1] == 'k';
    assert f[2][|f[2]| - 10] == 'A';
    assert f[3][|f[3]| - 10] == 'g';
    assert |f[2]| != |f[3]|;
  }

  /**
   * `Path(path).suffix == '.mk'` read off the text: the path ends in ".mk"
   * after a character that is part of the name.
   */
  predicate MakefileName(path: string) {
    |path| >= 4 && path[|path| - 3..] == ".mk" && path[|path| - 4] != '/'
  }

  /** The text test agrees with `.suffix` in both directions. */
  lemma MakefileNameIsSuffix(path: string)
    ensures MakefileName(path) <==> Suffix(path) == ".mk"
  {
    if MakefileName(path) {
      var p := path[..|path| - 3];
      assert path == p + ".mk";
      SuffixOfPath(p, ".mk");
    }
    if Suffix(path) == ".mk" {
      var name := Name(path);
      var i := SuffixDot(name).value;
      assert name[i..] == ".mk" && name[i - 1] != '/';
      assert path[|path| - |name|..] == name;
      assert path[|path| - 3..] == name[i..];
      assert path[|path| - 4] == name[i - 1];
    }
  }

  /** `write_headers` marks comments with "# " in a `.mk` file and with "// " otherwise. */
  function CommentMarker(path: string): string {
    if MakefileName(path) then "# " else "// "
  }

  /** A file whose name ends in `ext` after a character other than '/' is marked by `ext` alone. */
  lemma MarkerOfExtension(p: string, ext: string)
    requires p != [] && p[|p| - 1] != '/'
    requires ext == ".mk" || ext == ".bp"
    ensures CommentMarker(p + ext) == if ext == ".mk" then "# " else "// "
  {
    var q := p + ext;
    assert q[|q| - 4] == p[|p| - 1];
    assert q[|q| - 3..] == ext;
  }

  /** `p` followed by `ext` is marked by `ext` alone, wherever `p` is. */
  lemma MarkerAfter(o: string, base: string, ext: string)
    requires base != [] && base[|base| - 1] != '/'
    requires ext == ".mk" || ext == ".bp"
    ensures CommentMarker(o + base + ext) == if ext == ".mk" then "# " else "// "
  {
    var p := o + base;
    assert p[|p| - 1] == base[|base| - 1];
    MarkerOfExtension(p, ext);
  }

  /** The makefiles get "# " and the blueprint gets "// ". */
  lemma SetupFileMarkers(outputPath: string, device: string)
    ensures forall i :: 0 <= i < 4 ==>
      CommentMarker(SetupFiles(outputPath, device)[i]) == if i == 1 then "// " else "# "
  {
    var f := SetupFiles(outputPath, device);
    var o := outputPath + "/";
    forall i | 0 <= i < 4 ensures CommentMarker(f[i]) == if i == 1 then "// " else "# " {
      if i == 0 {
        assert f[0] == (o + device) + "-vendor" + ".mk";
        MarkerAfter(o + device, "-vendor", ".mk");
      } else if i == 1 {
        assert f[1] == o + "Android" + ".bp";
        MarkerAfter(o, "Android", ".bp");
      } else if i == 2 {
        assert f[2] == o + "Android" + ".mk";
        MarkerAfter(o, "Android", ".mk");
      } else {
        assert f[3] == o + "BoardConfigVendor" + ".mk";
        MarkerAfter(o, "BoardConfigVendor", ".mk");
      }
    }
  }

  /** The Apache licence notice in the middle of the header. */
  const ApacheNotice: seq<string> := [
    "Licensed under the Apache License, Version 2.0 (the \"License\");",
    "you may not use this file except in compliance with the License.",
    "You may obtain a copy of the License at",
    "",
    "http://www.apache.org/licenses/LICENSE-2.0",
    "",
    "Unless required by applicable law or agreed to in writing, software",
    "distributed under the License is distributed on an \"AS IS\" BASIS,",
    "WITHOUT WARRANTIES OR CONDITIONS OF ANY KIND, either express or implied.",
    "See the License for the specific language governing permissions and",
    "limitations under the License."]

  /** The licence text of `write_headers` after `dedent`, one element per line. */
  function LicenseLines(year: nat, vendor: string, device: string): seq<string> {
    ["", "Copyright (C) 2019-" + NatToString(year) + " The LineageOS Project", ""]
    + ApacheNotice
    + ["", "This file is generated by device/" + vendor + "/" + device + "/setup-makefiles.sh", ""]
  }

  /**
   * The new content of a file after `write_headers` (opened with 'w'): every
   * licence line behind the comment marker (`indent` with a predicate that
   * accepts every line, blank ones included), then the extra empty line.
   */
  function HeaderLines(path: string, year: nat, vendor: string, device: string): seq<string> {
    var text := LicenseLines(year, vendor, device);
    var marker := CommentMarker(path);
    seq(|text|, i requires 0 <= i < |text| => marker + text[i]) + [""]
  }

  /**
   * Every line of the header but the final empty one is a comment, and
   * removing the marker gives back the licence text line for line.
   */
  lemma HeaderIsCommentedLicense(path: string, year: nat, vendor: string, device: string)
    ensures var h := HeaderLines(path, year, vendor, device);
      var text := LicenseLines(year, vendor, device);
      var m := CommentMarker(path);
      && |h| == |text| + 1 && h[|h| - 1] == ""
      && (forall i :: 0 <= i < |h| - 1 ==> StartsWith(h[i], m) && h[i][|m|..] == text[i])
  {
    var h := HeaderLines(path, year, vendor, device);
    var m := CommentMarker(path);
    forall i | 0 <= i < |h| - 1 ensures StartsWith(h[i], m) && h[i][|m|..] == LicenseLines(year, vendor, device)[i] {
      assert h[i] == m + LicenseLines(year, vendor, device)[i];
    }
  }

  const GuardOpen: string := "ifneq ($(filter "
  const GuardClose: string := ",$(TARGET_DEVICE)),)"

  /** `write_guards`: the three lines appended to `Android.mk`. */
  function GuardLines(device: string): seq<string> {
    ["LOCAL_PATH := $(call my-dir)", GuardOpen + device + GuardClose, "endif"]
  }

  /** The device a guard line is keyed on, read back from the line. */
  function GuardedDevice(line: string): Option<string> {
    if |line| >= |GuardOpen| + |GuardClose| && StartsWith(line, GuardOpen) && line[|line| - |GuardClose|..] == GuardClose
    then Some(line[|GuardOpen|..|line| - |GuardClose|])
    else None
  }

  /** The guard is keyed on exactly the configured device. */
  lemma GuardNamesDevice(device: string)
    ensures |GuardLines(device)| == 3
    ensures GuardedDevice(GuardLines(device)[1]) == Some(device)
  {
    var line := GuardOpen + device + GuardClose;
    assert line[..|GuardOpen|] == GuardOpen;
    assert line[|line| - |GuardClose|..] == GuardClose;
    assert line[|GuardOpen|..|line| - |GuardClose|] == device;
  }
}
