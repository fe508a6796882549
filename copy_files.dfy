/**
 * The `PRODUCT_COPY_FILES` block `write_product_copy_files` appends to the
 * device makefile: one line per copy entry, each mapping the file under
 * `proprietary/` to its partition, with a continuation marker on every line
 * but the last; and the directories it creates for them.
 */
module CopyFiles {
  import opened Wrappers
  import opened Strings
  import opened Paths
  import opened Manifest
  import opened Partitions
  import opened VendorTree

  /** One element of `app_list` as the loop builds it: macro, entry, continuation marker. */
  function AppLine(item: string): string {
    CopyMacro(CopyPartition(item)) + item + " \\"
  }

  /**
   * `app_list` after `app_list[-1] = app_list[-1].replace(' \\', '')`: the
   * access raises `IndexError` on an empty list, and `replace` drops every
   * " \" of the last element, not only the trailing one.
   */
  function AppList(work: seq<string>): (r: Result<seq<string>>)
    ensures r.Success? ==> |r.value| == |work|
  {
    if work == [] then Fail(IndexError(""))
    else
      var app := AppLines(work);
      Success(app[|app| - 1 := ReplaceAll(app[|app| - 1], " \\", "")])
  }

  /** `app_list` as the loop leaves it, before the last element is rewritten. */
  function AppLines(work: seq<string>): (r: seq<string>)
    ensures |r| == |work|
  {
    seq(|work|, k requires 0 <= k < |work| => AppLine(work[k]))
  }

  /**
   * The loop that builds `app_list`, then `app_list[-1] = ...replace(' \\', '')`,
   * which raises on an empty list.
   */
  method BuildAppList(workList: seq<string>) returns (r: Result<seq<string>>)
    ensures r == AppList(workList)
  {
    // Append proper partition suffixes to copy the target into
    var appList: seq<string> := [];
    ghost var all := AppLines(workList);
    for k := 0 to |workList|
      invariant appList == all[..k]
    {
      var suffix := CopyMacro(CopyPartition(workList[k]));
      appList := appList + [suffix + workList[k] + " \\"];
      assert all[..k + 1] == all[..k] + [all[k]];
    }
    assert appList == all;

    // Remove backslash from the last line
    if appList == [] {
      return Fail(IndexError(""));
    }
    appList := appList[|appList| - 1 := ReplaceAll(appList[|appList| - 1], " \\", "")];
    r := Success(appList);
  }

  /** The four lines written before the entries. */
  function CopyHeader(vendor: string, device: string): seq<string> {
    ["PRODUCT_SOONG_NAMESPACES += \\",
     "    vendor/" + vendor + "/" + device,
     "",
     "PRODUCT_COPY_FILES += \\"]
  }

  /** What every entry line starts with. */
  function EntryPrefix(vendor: string, device: string): string {
    "    vendor/" + vendor + "/" + device + "/proprietary/"
  }

  /** One entry line: the file under `proprietary/`, a ':', its `app_list` element. */
  function EntryLine(vendor: string, device: string, key: string, value: string): string {
    EntryPrefix(vendor, device) + key + ":" + value
  }

  /** The directory created for a copy entry. */
  function CopyDir(outputPath: string, item: string): string {
    outputPath + "/proprietary/" + Parent(item)
  }

  /**
   * The whole effect of `write_product_copy_files` on a sorted, repeat-free
   * copy list: nothing written when `app_list[-1]` raises; otherwise the
   * header, the entries in list order (the dict built by `zip` keeps that
   * order, its keys being distinct), and one directory per entry.
   */
  function CopyFilesOutput(work: seq<string>, vendor: string, device: string, outputPath: string): Appended {
    match AppList(work)
    case Fail(f) => Appended([], [], Some(f))
    case Success(app) =>
      Appended(
        CopyHeader(vendor, device) + EntryLines(vendor, device, work, app),
        seq(|work|, k requires 0 <= k < |work| => CopyDir(outputPath, work[k])),
        None)
  }

  /** The entry lines, pairing every entry with its `app_list` element. */
  function EntryLines(vendor: string, device: string, work: seq<string>, app: seq<string>): (r: seq<string>)
    requires |app| == |work|
    ensures |r| == |work| && forall k :: 0 <= k < |work| ==> r[k] == EntryLine(vendor, device, work[k], app[k])
  {
    seq(|work|, k requires 0 <= k < |work| => EntryLine(vendor, device, work[k], app[k]))
  }

  predicate EndsWithMarker(line: string) {
    |line| >= 2 && line[|line| - 2..] == " \\"
  }

  /** An empty copy list raises at `app_list[-1]` before anything is written. */
  lemma EmptyCopyListFails(vendor: string, device: string, outputPath: string)
    ensures CopyFilesOutput([], vendor, device, outputPath) == Appended([], [], Some(IndexError("")))
  {
  }

  /** The copy block fails exactly when the manifest has no copy line. */
  lemma CopyFailsWithoutCopyLines(propList: seq<string>, vendor: string, device: string, outputPath: string)
    ensures CopyFilesOutput(TargetListOf(propList, "copy"), vendor, device, outputPath).failure.Some?
        <==> forall i :: 0 <= i < |propList| ==> LineTarget(propList[i], "copy").None?
  {
    var work := TargetListOf(propList, "copy");
    if work != [] {
      assert IsTarget(work[0], propList, "copy");
    } else {
      forall i | 0 <= i < |propList| ensures LineTarget(propList[i], "copy").None? {
        if LineTarget(propList[i], "copy").Some? {
          assert IsTarget(LineTarget(propList[i], "copy").value, propList, "copy");
        }
      }
    }
  }

  /** No macro contains a backslash, and every macro ends with '/'. */
  lemma MacroShape(p: Partition)
    ensures '\\' !in CopyMacro(p) && CopyMacro(p) != [] && CopyMacro(p)[|CopyMacro(p)| - 1] == '/'
  {
  }

  /** The elements of a non-empty `app_list`, the last one after `replace`. */
  lemma AppListElements(work: seq<string>)
    requires work != []
    ensures AppList(work).Success? && |AppList(work).value| == |work|
    ensures forall k :: 0 <= k < |work| - 1 ==> AppList(work).value[k] == AppLine(work[k])
    ensures AppList(work).value[|work| - 1] == ReplaceAll(AppLine(work[|work| - 1]), " \\", "")
  {
  }

  /** The last element of `app_list` for an entry without a backslash: the marker is gone and nothing else. */
  lemma LastAppLine(w: string)
    requires '\\' !in w
    ensures ReplaceAll(AppLine(w), " \\", "") == CopyMacro(CopyPartition(w)) + w
  {
    var m := CopyMacro(CopyPartition(w));
    MacroShape(CopyPartition(w));
    assert '\\' !in m + w;
    ReplaceTrailingMarker(m + w);
  }

  /**
   * A non-empty copy list gives the header and one line per entry, in list
   * order; every line but the last is the entry, its macro, the entry again
   * and the continuation marker; the last has no marker when its entry has
   * no backslash; and one directory per entry.
   */
  lemma CopyBlockShape(work: seq<string>, vendor: string, device: string, outputPath: string)
    requires work != []
    ensures var out := CopyFilesOutput(work, vendor, device, outputPath);
      && out.failure.None?
      && |out.lines| == 4 + |work|
      && out.lines[..4] == CopyHeader(vendor, device)
      && (forall k :: 0 <= k < |work| - 1 ==> out.lines[4 + k] == EntryLine(vendor, device, work[k], AppLine(work[k])))
      && ('\\' !in work[|work| - 1] ==>
            out.lines[3 + |work|] == EntryLine(vendor, device, work[|work| - 1], CopyMacro(CopyPartition(work[|work| - 1])) + work[|work| - 1]))
      && |out.dirs| == |work|
      && (forall k :: 0 <= k < |work| ==> out.dirs[k] == CopyDir(outputPath, work[k]))
  {
    AppListElements(work);
    var app := AppList(work).value;
    CopyLines(work, app, vendor, device, outputPath);
    var w := work[|work| - 1];
    if '\\' !in w {
      LastAppLine(w);
    }
  }

  /** The lines of a successful copy block: the header, then the entry of every position with its `app_list` element. */
  lemma CopyLines(work: seq<string>, app: seq<string>, vendor: string, device: string, outputPath: string)
    requires AppList(work) == Success(app)
    ensures var out := CopyFilesOutput(work, vendor, device, outputPath);
      && out.failure.None?
      && |out.lines| == 4 + |work|
      && out.lines[..4] == CopyHeader(vendor, device)
      && (forall k :: 0 <= k < |work| ==> out.lines[4 + k] == EntryLine(vendor, device, work[k], app[k]))
  {
    var out := CopyFilesOutput(work, vendor, device, outputPath);
    var e := EntryLines(vendor, device, work, app);
    assert out.lines == CopyHeader(vendor, device) + e;
    AfterHeader(CopyHeader(vendor, device), e);
  }

  /** Positions of a concatenation after a four-element header. */
  lemma AfterHeader<T>(h: seq<T>, e: seq<T>)
    requires |h| == 4
    ensures |h + e| == 4 + |e| && (h + e)[..4] == h
    ensures forall k :: 0 <= k < |e| ==> (h + e)[4 + k] == e[k]
  {
    assert (h + e)[..4] == h;
  }

  /** An entry line built from an unmodified `app_list` element ends with the marker. */
  lemma MarkedLine(vendor: string, device: string, x: string)
    ensures EndsWithMarker(EntryLine(vendor, device, x, AppLine(x)))
  {
    var line := EntryLine(vendor, device, x, AppLine(x));
    assert line == (EntryPrefix(vendor, device) + x + ":" + CopyMacro(CopyPartition(x)) + x) + " \\";
    assert line[|line| - 2..] == " \\";
  }

  /** The last entry line, for an entry without a backslash, ends with that entry or the macro's '/'. */
  lemma UnmarkedLine(vendor: string, device: string, w: string)
    requires '\\' !in w
    ensures !EndsWithMarker(EntryLine(vendor, device, w, CopyMacro(CopyPartition(w)) + w))
  {
    var m := CopyMacro(CopyPartition(w));
    MacroShape(CopyPartition(w));
    var last := EntryLine(vendor, device, w, m + w);
    assert last == (EntryPrefix(vendor, device) + w + ":") + (m + w);
    if w == [] {
      assert last[|last| - 1] == m[|m| - 1];
    } else {
      assert last[|last| - 1] == w[|w| - 1];
      assert w[|w| - 1] in w;
    }
  }

  /** Every entry line but the last carries the continuation marker; the last does not when its entry has no backslash. */
  lemma ContinuationMarkers(work: seq<string>, vendor: string, device: string, outputPath: string)
    requires work != []
    ensures var lines := CopyFilesOutput(work, vendor, device, outputPath).lines;
      && (forall k :: 4 <= k < |lines| - 1 ==> EndsWithMarker(lines[k]))
      && ('\\' !in work[|work| - 1] ==> !EndsWithMarker(lines[|lines| - 1]))
  {
    CopyBlockShape(work, vendor, device, outputPath);
    Markers(work, CopyFilesOutput(work, vendor, device, outputPath).lines, vendor, device);
  }

  /** The marker law for any lines laid out as `CopyBlockShape` describes. */
  lemma Markers(work: seq<string>, lines: seq<string>, vendor: string, device: string)
    requires work != [] && |lines| == 4 + |work|
    requires forall k :: 0 <= k < |work| - 1 ==> lines[4 + k] == EntryLine(vendor, device, work[k], AppLine(work[k]))
    requires '\\' !in work[|work| - 1] ==>
      lines[3 + |work|] == EntryLine(vendor, device, work[|work| - 1], CopyMacro(CopyPartition(work[|work| - 1])) + work[|work| - 1])
    ensures forall k :: 4 <= k < |lines| - 1 ==> EndsWithMarker(lines[k])
    ensures '\\' !in work[|work| - 1] ==> !EndsWithMarker(lines[|lines| - 1])
  {
    forall k | 4 <= k < |lines| - 1 ensures EndsWithMarker(lines[k]) {
      assert lines[4 + (k - 4)] == EntryLine(vendor, device, work[k - 4], AppLine(work[k - 4]));
      MarkedLine(vendor, device, work[k - 4]);
    }
    if '\\' !in work[|work| - 1] {
      UnmarkedLine(vendor, device, work[|work| - 1]);
    }
  }

  /** `replace` on a macro and an entry that has one inner " \\" and the trailing one. */
  lemma ReplaceInnerMarker(m: string, p: string, q: string)
    requires '\\' !in m && '\\' !in p && '\\' !in q
    ensures ReplaceAll(m + (p + " \\" + q) + " \\", " \\", "") == m + p + q
  {
    var t := " \\" + (q + " \\");
    assert m + (p + " \\" + q) + " \\" == (m + p) + t;
    ReplaceMarkerAfter(m + p, t);
    ReplaceLeadingMarker(q + " \\");
    ReplaceTrailingMarker(q);
  }

  /**
   * `replace` removes every " \\" of the last element, so a last entry that
   * itself contains " \\" is written without it.
   */
  lemma LastLineDropsInnerMarker(work: seq<string>, p: string, q: string, vendor: string, device: string, outputPath: string)
    requires work != [] && work[|work| - 1] == p + " \\" + q
    requires '\\' !in p && '\\' !in q
    ensures var lines := CopyFilesOutput(work, vendor, device, outputPath).lines;
      lines[|lines| - 1] == EntryLine(vendor, device, p + " \\" + q, CopyMacro(CopyPartition(p + " \\" + q)) + p + q)
  {
    AppListElements(work);
    var w := work[|work| - 1];
    MacroShape(CopyPartition(w));
    ReplaceInnerMarker(CopyMacro(CopyPartition(w)), p, q);
  }
}
