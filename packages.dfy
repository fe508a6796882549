/**
 * The blueprint modules `write_product_packages` appends to `Android.bp`:
 * one module per package entry, its kind chosen by the file suffix, with a
 * 32-bit shared library and its `lib64` sibling merged into one module.
 */
module Packages {
  import opened Wrappers
  import opened Strings
  import opened Sorting
  import opened Paths
  import opened Manifest
  import opened Partitions
  import opened VendorTree

  datatype Multilib = Lib32 | Lib64 | Both

  /** The four module formats, as values; `Render` lays them out as blueprint text. */
  datatype Module =
    | AppImport(name: string, owner: string, apk: string, privileged: bool, partition: Partition)
    | DexImport(name: string, owner: string, jar: string, partition: Partition)
    | SharedLibrary(name: string, owner: string, arm: Option<string>, arm64: Option<string>,
                    multilib: Multilib, partition: Partition)
    | MissingFormat(entry: string)

  /** `list.remove(x)`: drop the first element equal to `x`, if there is one. */
  function RemoveFirst<T(==)>(s: seq<T>, x: T): (r: seq<T>)
    ensures multiset(r) == multiset(s) - multiset{x}
    ensures |r| == if x in s then |s| - 1 else |s|
  {
    if s == [] then []
    else if s[0] == x then
      assert s == [s[0]] + s[1..];
      s[1..]
    else
      assert s == [s[0]] + s[1..];
      [s[0]] + RemoveFirst(s[1..], x)
  }

  /** Removing an element that is not in the front part leaves the front part alone. */
  lemma {:induction false} RemoveFirstAfter<T>(a: seq<T>, b: seq<T>, x: T)
    requires x !in a
    ensures RemoveFirst(a + b, x) == a + RemoveFirst(b, x)
    decreases |a|
  {
    if a == [] {
      assert a + b == b;
    } else {
      assert a[0] in a;
      RemoveFirstPast(a, b, x);
      RemoveFirstAfter(a[1..], b, x);
      ConsAppend(a, RemoveFirst(b, x));
    }
  }

  /** Removal passes over a head that is not the element removed. */
  lemma RemoveFirstPast<T>(a: seq<T>, b: seq<T>, x: T)
    requires a != [] && a[0] != x
    ensures RemoveFirst(a + b, x) == [a[0]] + RemoveFirst(a[1..] + b, x)
  {
    assert (a + b)[0] == a[0] && (a + b)[1..] == a[1..] + b;
  }

  lemma ConsAppend<T>(a: seq<T>, r: seq<T>)
    requires a != []
    ensures [a[0]] + (a[1..] + r) == a + r
  {
    assert a == [a[0]] + a[1..];
  }

  /** Removing an element keeps a strictly ascending list strictly ascending. */
  lemma RemoveFirstSorted(s: seq<string>, x: string)
    requires StrictlySorted(s)
    ensures StrictlySorted(RemoveFirst(s, x))
  {
    if x !in s {
      RemoveFirstAfter(s, [], x);
      assert s + [] == s;
    } else {
      var k :| 0 <= k < |s| && s[k] == x;
      RemoveFirstAt(s, k);
      var r := s[..k] + s[k + 1..];
      forall i, j | 0 <= i < j < |r| ensures Less(r[i], r[j]) {
        var i' := if i < k then i else i + 1;
        var j' := if j < k then j else j + 1;
        assert r[i] == s[i'] && r[j] == s[j'];
      }
    }
  }

  /** In a strictly ascending list, removing the element at `k` takes out exactly position `k`. */
  lemma RemoveFirstAt(s: seq<string>, k: nat)
    requires StrictlySorted(s) && k < |s|
    ensures RemoveFirst(s, s[k]) == s[..k] + s[k + 1..]
  {
    assert s[k] !in s[..k] by {
      LessIrreflexive(s[k]);
      forall m | 0 <= m < k ensures s[..k][m] != s[k] {
        assert Less(s[m], s[k]);
      }
    }
    RemoveFirstOnly(s, k);
  }

  /** Removing an element whose first occurrence is at `k` takes out position `k`. */
  lemma RemoveFirstOnly<T>(s: seq<T>, k: nat)
    requires k < |s| && s[k] !in s[..k]
    ensures RemoveFirst(s, s[k]) == s[..k] + s[k + 1..]
  {
    var x := s[k];
    var front, back := s[..k], s[k..];
    assert s == front + back;
    RemoveFirstAfter(front, back, x);
    assert back[0] == x && back[1..] == s[k + 1..];
  }

  /** `target = org_target.split('-', 1)[1]`, with None where `[1]` would raise. */
  function Target(item: string): Option<string> {
    SplitOnce(item, "-").1
  }

  /** `libpath`: the entry up to the first "/<name>". */
  function LibPath(item: string): (r: string)
    ensures StartsWith(item, r)
  {
    var r := SplitOnce(item, "/" + Stem(item)).0;
    assert item[..|r|] == r;
    r
  }

  /** `src32`: where the 32-bit library of an entry is. */
  function Src32(item: string): string {
    LibPath(item) + "/" + Stem(item) + ".so"
  }

  /** `src64`: where its 64-bit sibling would be, `lib` becoming `lib64`. */
  function Src64(item: string): string {
    LibPath(item) + "64/" + Stem(item) + ".so"
  }

  /** The test of the `if` that merges a library with its sibling: `src32 and (src64 in work_list)`. */
  predicate MergeTest(item: string, work: seq<string>) {
    Src32(item) != "" && Src64(item) in work
  }

  /** `src32` is never empty, so the merge test only asks whether the sibling is in the list. */
  lemma Src32NeverEmpty(item: string, work: seq<string>)
    ensures Src32(item) != ""
    ensures MergeTest(item, work) <==> Src64(item) in work
  {
  }

  /**
   * An entry sorts strictly before its sibling: both begin with `libpath`,
   * and then the entry has '/' (or ends) where the sibling has '6'.
   */
  lemma SiblingSortsAfter(item: string)
    ensures Less(item, Src64(item))
  {
    var name := Stem(item);
    var tail := name + ".so";
    assert Src64(item) == LibPath(item) + "64/" + tail;
    CutBeforeSlashSortsFirst(item, "/" + name, tail);
  }

  /**
   * The text before the first `sep` (a separator starting with '/') followed
   * by "64/" sorts after the whole text: the two agree up to the cut, where
   * the text has '/' or ends and the other has '6'.
   */
  lemma CutBeforeSlashSortsFirst(item: string, sep: string, tail: string)
    requires sep != [] && sep[0] == '/'
    ensures Less(item, SplitOnce(item, sep).0 + "64/" + tail)
  {
    var parts := SplitOnce(item, sep);
    var lib := parts.0;
    var s64 := lib + "64/" + tail;
    assert s64[..|lib|] == lib && s64[|lib|] == '6';
    if parts.1.Some? {
      assert item == lib + sep + parts.1.value;
      assert item[..|lib|] == lib;
      assert item[|lib|] == '/';
      LessAtIndex(item, s64, |lib|);
    } else {
      assert lib == item;
      LessAtIndex(item, s64, |item|);
    }
  }

  /** One step of the loop: the entry processed, and the sibling it consumed. */
  datatype Entry = Entry(item: string, sibling: Option<string>)

  /** A `.so` entry is merged with its sibling when the sibling is among `rest`. */
  predicate Merges(x: string, rest: seq<string>) {
    Suffix(x) == ".so" && MergeTest(x, rest)
  }

  /**
   * The order in which the loop treats a list: each entry in turn; a `.so`
   * entry whose sibling comes later in the list takes the sibling with it,
   * and the sibling is dropped from what remains.
   */
  function Plan(items: seq<string>): (r: seq<Entry>)
    ensures |r| <= |items|
    ensures items != [] ==> r != [] && r[0].item == items[0]
    decreases |items|
  {
    if items == [] then []
    else
      var x := items[0];
      var rest := items[1..];
      if Merges(x, rest) then
        [Entry(x, Some(Src64(x)))] + Plan(RemoveFirst(rest, Src64(x)))
      else
        [Entry(x, None)] + Plan(rest)
  }

  /** A step takes a sibling only for a `.so` entry, and then the sibling is the entry's `src64`. */
  lemma {:induction false} PlanSiblings(items: seq<string>)
    ensures var plan := Plan(items);
      forall k :: 0 <= k < |plan| && plan[k].sibling.Some? ==>
        Suffix(plan[k].item) == ".so" && plan[k].sibling.value == Src64(plan[k].item)
    decreases |items|
  {
    if items != [] {
      var e, tail := PlanStep(items);
      PlanSiblings(tail);
      var plan := Plan(items);
      forall k | 0 <= k < |plan| && plan[k].sibling.Some?
        ensures Suffix(plan[k].item) == ".so" && plan[k].sibling.value == Src64(plan[k].item)
      {
        if k > 0 {
          assert plan[k] == Plan(tail)[k - 1];
        }
      }
    }
  }

  /**
   * A library `<lib>/<name>.so` whose directory holds no "/<name>" before
   * the file itself has `libpath` `<lib>`: its `src32` is the entry itself
   * and its `src64` is `<lib>64/<name>.so`.
   */
  lemma LibrarySiblings(lib: string, name: string)
    requires name != [] && '/' !in name
    requires forall j :: 0 <= j < |lib| ==> !OccursAt(lib + "/" + name + ".so", "/" + name, j)
    ensures var item := lib + "/" + name + ".so";
      && Stem(item) == name && Suffix(item) == ".so"
      && Src32(item) == item && Src64(item) == lib + "64/" + name + ".so"
  {
    var item := lib + "/" + name + ".so";
    LibraryName(lib, name);
    Regroup(lib, "/", name, ".so");
    CutAt(item, lib, "/" + name, ".so");
    SiblingsOf(item, lib, name);
  }

  /** `src32` and `src64` of an entry, once its stem and its `libpath` are known. */
  lemma SiblingsOf(item: string, lib: string, name: string)
    requires Stem(item) == name && SplitOnce(item, "/" + name).0 == lib
    ensures Src32(item) == lib + "/" + name + ".so" && Src64(item) == lib + "64/" + name + ".so"
  {
  }

  /** Regrouping four concatenated strings. */
  lemma Regroup(a: string, b: string, c: string, d: string)
    ensures a + b + c + d == a + (b + c) + d
  {
  }

  /** `split(sep, 1)[0]` of `a + sep + b` is `a` when `sep` does not occur earlier. */
  lemma CutAt(s: string, a: string, sep: string, b: string)
    requires s == a + sep + b
    requires forall j :: 0 <= j < |a| ==> !OccursAt(s, sep, j)
    ensures SplitOnce(s, sep).0 == a
  {
    assert OccursAt(s, sep, |a|) by {
      assert s[|a|..|a| + |sep|] == sep;
    }
    var parts := SplitOnce(s, sep);
    assert parts.0 == s[..|a|];
  }

  /** The file `<name>.so` in any directory has stem `<name>` and suffix ".so". */
  lemma LibraryName(lib: string, name: string)
    requires name != [] && '/' !in name
    ensures Stem(lib + "/" + name + ".so") == name && Suffix(lib + "/" + name + ".so") == ".so"
  {
    var dir, file := lib + "/", name + ".so";
    Regroup(lib, "/", name, ".so");
    assert lib + "/" + name + ".so" == dir + file;
    assert Name(dir) == [] by {
      assert LastIndexOf(dir, '/') == Some(|lib|);
      assert dir[|lib| + 1..] == [];
    }
    assert Name(dir + file) == file by {
      NameAppend(dir, file);
    }
    LastDot(name, ".so");
    StemOfName(dir + file, name, ".so");
  }

  /** A path whose name is `<name><ext>`, the '.' of `ext` starting its suffix. */
  lemma StemOfName(p: string, name: string, ext: string)
    requires Name(p) == name + ext && SuffixDot(name + ext) == Some(|name|)
    ensures Stem(p) == name && Suffix(p) == ext
  {
    assert (name + ext)[..|name|] == name && (name + ext)[|name|..] == ext;
  }

  /** An entry starting with '-' has as target the rest of the entry. */
  lemma TargetOfDash(item: string)
    requires item != [] && item[0] == '-'
    ensures Target(item) == Some(item[1..])
  {
    assert OccursAt(item, "-", 0);
  }

  /**
   * The case the merge exists for: "-vendor/lib/libfoo.so" followed by
   * "-vendor/lib64/libfoo.so" (built from `lib` and `name`) is one step, whose module is a `both` library
   * with the 32-bit file on `android_arm` and the 64-bit one on
   * `android_arm64`, under `proprietary/` and on the vendor partition.
   */
  lemma MergeExample(lib: string, name: string, vendor: string)
    requires lib == "-vendor/lib" && name == "libfoo"
    ensures var s32, s64 := lib + "/" + name + ".so", lib + "64/" + name + ".so";
      && Plan([s32, s64]) == [Entry(s32, Some(s64))]
      && ModuleFor(Entry(s32, Some(s64)), vendor) ==
           Success(SharedLibrary(name, vendor, Some("proprietary/" + s32[1..]), Some("proprietary/" + s64[1..]),
                                 Both, Vendor))
  {
    var s32, s64 := lib + "/" + name + ".so", lib + "64/" + name + ".so";
    ExampleCut(lib, name);
    LibrarySiblings(lib, name);
    assert Plan([s32, s64]) == [Entry(s32, Some(s64))] by {
      PairPlan(s32, s64);
    }
    TargetOfDash(s32);
    TargetOfDash(s64);
    PairModule(s32, s64, vendor);
    ExamplePartition(s32, lib, name);
  }

  /** The example's target lies under "vendor/". */
  lemma ExamplePartition(s32: string, lib: string, name: string)
    requires lib == "-vendor/lib" && s32 == lib + "/" + name + ".so"
    ensures PackagePartition(s32[1..]) == Vendor
  {
    assert s32[1..][..7] == lib[1..8] == "vendor/";
  }

  /** The first "/libfoo" of the example entry is that of the file, not the "/lib" of its directory. */
  lemma ExampleCut(lib: string, name: string)
    requires lib == "-vendor/lib" && name == "libfoo"
    ensures forall j :: 0 <= j < |lib| ==> !OccursAt(lib + "/" + name + ".so", "/" + name, j)
  {
    var item, sep := lib + "/" + name + ".so", "/" + name;
    forall j | 0 <= j < |lib| ensures !OccursAt(item, sep, j) {
      if j == 7 {
        assert item[j + 4] != sep[4];
      } else {
        assert item[j] == lib[j] != '/';
      }
    }
  }

  /** A `.so` entry followed by its sibling is planned as one merged step. */
  lemma PairPlan(a: string, b: string)
    requires Suffix(a) == ".so" && Src64(a) == b
    ensures Plan([a, b]) == [Entry(a, Some(b))]
  {
    PlanHead([a, b]);
    assert [a, b][1..] == [b];
    assert RemoveFirst([b], b) == [];
  }

  /** The module of a merged step whose entries both have a '-'. */
  lemma PairModule(a: string, b: string, vendor: string)
    requires Suffix(a) == ".so" && Src32(a) == a && Target(a).Some? && Target(b).Some?
    ensures ModuleFor(Entry(a, Some(b)), vendor) ==
      Success(SharedLibrary(Stem(a), vendor, Some("proprietary/" + Target(a).value),
                            Some("proprietary/" + Target(b).value), Both, PackagePartition(Target(a).value)))
  {
    var t := Target(a).value;
    assert ModuleFor(Entry(a, Some(b)), vendor) == Synthesize(a, Stem(a), Library, t, Some(b), vendor);
    SynthesizeMerged(a, Stem(a), t, b, vendor);
  }

  /** A library step with a sibling yields the merged module of its `src32` and the sibling. */
  lemma SynthesizeMerged(item: string, name: string, target: string, s64: string, vendor: string)
    ensures Synthesize(item, name, Library, target, Some(s64), vendor)
         == MergedLibrary(Src32(item), s64, name, vendor, PackagePartition(target))
  {
  }

  /** The entries a plan accounts for: each processed entry and the sibling it consumed. */
  function Covered(plan: seq<Entry>): seq<string> {
    if plan == [] then []
    else
      var e := plan[0];
      [e.item] + (match e.sibling case Some(s) => [s] case None => []) + Covered(plan[1..])
  }

  /** Every entry is accounted for as often as it occurs: no entry is lost and none is treated twice. */
  lemma {:induction false} PlanCoversEachEntry(items: seq<string>)
    ensures multiset(Covered(Plan(items))) == multiset(items)
    decreases |items|
  {
    if items != [] {
      var e, tail := PlanStep(items);
      PlanCoversEachEntry(tail);
      CoveredStep(items, e, tail, Plan(tail));
    }
  }

  /** The first step of a plan: the entry it treats and the list that remains. */
  lemma PlanStep(items: seq<string>) returns (e: Entry, tail: seq<string>)
    requires items != []
    ensures Plan(items) == [e] + Plan(tail) && e.item == items[0] && |tail| < |items|
    ensures multiset(items[1..]) == multiset(tail) + match e.sibling case Some(s) => multiset{s} case None => multiset{}
    ensures e.sibling.Some? ==> Suffix(e.item) == ".so" && e.sibling.value == Src64(e.item)
  {
    var x := items[0];
    var rest := items[1..];
    PlanHead(items);
    if Merges(x, rest) {
      var s := Src64(x);
      assert s in rest;
      RemoveFirstCount(rest, s);
      e, tail := Entry(x, Some(s)), RemoveFirst(rest, s);
    } else {
      e, tail := Entry(x, None), rest;
    }
  }

  /** `list.remove(x)` on a list holding `x` takes out one `x` and nothing else. */
  lemma RemoveFirstCount<T>(s: seq<T>, x: T)
    requires x in s
    ensures multiset(s) == multiset(RemoveFirst(s, x)) + multiset{x}
  {
  }

  /** One step of the plan accounts for the first entry and, when merged, for the sibling it removed. */
  lemma CoveredStep(items: seq<string>, e: Entry, tail: seq<string>, plan: seq<Entry>)
    requires items != [] && e.item == items[0]
    requires multiset(items[1..]) == multiset(tail) + match e.sibling case Some(s) => multiset{s} case None => multiset{}
    requires multiset(Covered(plan)) == multiset(tail)
    ensures multiset(Covered([e] + plan)) == multiset(items)
  {
    assert ([e] + plan)[0] == e && ([e] + plan)[1..] == plan;
    assert items == [items[0]] + items[1..];
  }

  /**
   * On a list without repeats (as `target_list` returns), every entry is
   * accounted for exactly once: in particular a consumed sibling never gets
   * a module of its own.
   */
  lemma CoveredOnce(items: seq<string>)
    requires Distinct(items)
    ensures Distinct(Covered(Plan(items)))
    ensures forall x :: x in items <==> x in Covered(Plan(items))
  {
    PlanCoversEachEntry(items);
    MultisetPreservesDistinct(items, Covered(Plan(items)));
    forall x ensures x in items <==> x in Covered(Plan(items)) {
      assert x in items <==> x in multiset(items);
    }
  }

  /** The module formats `write_product_packages` knows, by file suffix. */
  datatype Kind = App | Dex | Library | Unsupported

  /** `.apk`, `.jar` and `.so` select a format; every other suffix selects none. */
  function KindOf(suffix: string): Kind {
    if suffix == ".apk" then App
    else if suffix == ".jar" then Dex
    else if suffix == ".so" then Library
    else Unsupported
  }

  /** The module a loop step produces, or the error it raises. */
  function ModuleFor(e: Entry, vendor: string): Result<Module> {
    match Target(e.item)
    case None => Fail(IndexError(e.item))
    case Some(target) => Synthesize(e.item, Stem(e.item), KindOf(Suffix(e.item)), target, e.sibling, vendor)
  }

  /**
   * The module of an entry with the given stem, kind and target; `sibling`
   * is the 64-bit library merged into a 32-bit one.
   */
  function Synthesize(item: string, name: string, kind: Kind, target: string, sibling: Option<string>,
                      vendor: string): Result<Module>
  {
    var src := "proprietary/" + target;
    var part := PackagePartition(target);
    match kind
    case App => Success(AppImport(name, vendor, src, Contains(src, "priv-app"), part))
    case Dex => Success(DexImport(name, vendor, src, part))
    case Library =>
      (match sibling
       case Some(s64) => MergedLibrary(Src32(item), s64, name, vendor, part)
       case None =>
         if Contains(target, "lib/") then Success(SharedLibrary(name, vendor, Some(src), None, Lib32, part))
         else Success(SharedLibrary(name, vendor, None, Some(src), Lib64, part)))
    case Unsupported => Success(MissingFormat(item))
  }

  /** The `both` module of a library and its sibling; `split('-', 1)[1]` raises on a path without '-'. */
  function MergedLibrary(s32: string, s64: string, name: string, vendor: string, part: Partition): Result<Module> {
    match (Target(s32), Target(s64))
    case (None, _) => Fail(IndexError(s32))
    case (_, None) => Fail(IndexError(s64))
    case (Some(t32), Some(t64)) =>
      Success(SharedLibrary(name, vendor, Some("proprietary/" + t32), Some("proprietary/" + t64), Both, part))
  }

  /** A shared library has exactly the sources its `compile_multilib` value names. */
  predicate WellFormed(m: Module) {
    m.SharedLibrary? ==>
      && (m.multilib == Both <==> m.arm.Some? && m.arm64.Some?)
      && (m.multilib == Lib32 <==> m.arm.Some? && m.arm64.None?)
      && (m.multilib == Lib64 <==> m.arm.None? && m.arm64.Some?)
  }

  /** The format follows the suffix exactly. */
  lemma KindOfSuffix(suffix: string)
    ensures KindOf(suffix) == App <==> suffix == ".apk"
    ensures KindOf(suffix) == Dex <==> suffix == ".jar"
    ensures KindOf(suffix) == Library <==> suffix == ".so"
  {
    assert ".apk"[1] != ".jar"[1] && ".apk" != ".so" && ".jar" != ".so";
  }

  /**
   * Only the '-' split can raise: an entry without '-' raises, and so can a
   * merged library whose paths lack it; every other entry gives a module.
   */
  lemma ModuleErrors(e: Entry, vendor: string)
    ensures Target(e.item).None? ==> ModuleFor(e, vendor) == Fail(IndexError(e.item))
    ensures Target(e.item).Some? && (Suffix(e.item) != ".so" || e.sibling.None?) ==> ModuleFor(e, vendor).Success?
  {
    if Target(e.item).Some? {
      ModuleForUnfold(e, vendor);
      if Suffix(e.item) != ".so" || e.sibling.None? {
        KindOfSuffix(Suffix(e.item));
        SynthesizeUnmerged(e.item, Stem(e.item), KindOf(Suffix(e.item)), Target(e.item).value, e.sibling, vendor);
      }
    }
  }

  /** Without a sibling to merge, every format gives a module. */
  lemma SynthesizeUnmerged(item: string, name: string, kind: Kind, target: string, sibling: Option<string>, vendor: string)
    requires kind != Library || sibling.None?
    ensures Synthesize(item, name, kind, target, sibling, vendor).Success?
  {
  }

  /** An entry with a '-' gets the module its stem, suffix and target call for. */
  lemma ModuleForUnfold(e: Entry, vendor: string)
    requires Target(e.item).Some?
    ensures ModuleFor(e, vendor) ==
      Synthesize(e.item, Stem(e.item), KindOf(Suffix(e.item)), Target(e.item).value, e.sibling, vendor)
  {
  }

  /** What each format gives, whatever the stem and target. */
  lemma SynthesizeShape(item: string, name: string, kind: Kind, target: string, sibling: Option<string>, vendor: string)
    requires Synthesize(item, name, kind, target, sibling, vendor).Success?
    ensures var m := Synthesize(item, name, kind, target, sibling, vendor).value;
      && (m.AppImport? <==> kind == App)
      && (m.DexImport? <==> kind == Dex)
      && (m.SharedLibrary? <==> kind == Library)
      && (m.MissingFormat? <==> m == MissingFormat(item))
      && (!m.MissingFormat? ==> m.name == name && m.owner == vendor && m.partition == PackagePartition(target))
      && (m.AppImport? ==> m.apk == "proprietary/" + target && (m.privileged <==> Contains(m.apk, "priv-app")))
      && (m.DexImport? ==> m.jar == "proprietary/" + target)
  {
  }

  /**
   * The module kind follows the suffix, and the name is the stem, the owner
   * the vendor and the partition that of the target; any other suffix gives
   * the placeholder naming the entry. An app is privileged exactly when its
   * path has `priv-app`; a jar lists its one source.
   */
  lemma ModuleKind(e: Entry, vendor: string)
    requires ModuleFor(e, vendor).Success?
    ensures var m := ModuleFor(e, vendor).value;
      var target := Target(e.item).value;
      && (m.AppImport? <==> Suffix(e.item) == ".apk")
      && (m.DexImport? <==> Suffix(e.item) == ".jar")
      && (m.SharedLibrary? <==> Suffix(e.item) == ".so")
      && (m.MissingFormat? <==> m == MissingFormat(e.item))
      && (!m.MissingFormat? ==> m.name == Stem(e.item) && m.owner == vendor && m.partition == PackagePartition(target))
      && (m.AppImport? ==> m.apk == "proprietary/" + target && (m.privileged <==> Contains(m.apk, "priv-app")))
      && (m.DexImport? ==> m.jar == "proprietary/" + target)
  {
    ModuleForUnfold(e, vendor);
    KindOfSuffix(Suffix(e.item));
    SynthesizeShape(e.item, Stem(e.item), KindOf(Suffix(e.item)), Target(e.item).value, e.sibling, vendor);
  }

  /**
   * A library is `both` exactly when it took a sibling, and then its sources
   * are the entry's `src32` on `android_arm` and the sibling on
   * `android_arm64`, each under `proprietary/` without its leading '-';
   * otherwise it has the one source of its own target, on `android_arm` and
   * with multilib `32` exactly when the target has `lib/`.
   */
  lemma LibraryModule(e: Entry, vendor: string)
    requires ModuleFor(e, vendor).Success? && ModuleFor(e, vendor).value.SharedLibrary?
    ensures var m := ModuleFor(e, vendor).value;
      var target := Target(e.item).value;
      && WellFormed(m)
      && (m.multilib == Both <==> e.sibling.Some?)
      && (e.sibling.Some? ==>
            m.arm == Some("proprietary/" + Target(Src32(e.item)).value)
            && m.arm64 == Some("proprietary/" + Target(e.sibling.value).value))
      && (e.sibling.None? ==>
            (m.multilib == Lib32 <==> Contains(target, "lib/"))
            && (m.arm.Some? ==> m.arm.value == "proprietary/" + target)
            && (m.arm64.Some? ==> m.arm64.value == "proprietary/" + target))
  {
    ModuleForUnfold(e, vendor);
    var kind := KindOf(Suffix(e.item));
    SynthesizeShape(e.item, Stem(e.item), kind, Target(e.item).value, e.sibling, vendor);
    SynthesizeLibrary(e.item, Stem(e.item), Target(e.item).value, e.sibling, vendor);
  }

  lemma SynthesizeLibrary(item: string, name: string, target: string, sibling: Option<string>, vendor: string)
    requires Synthesize(item, name, Library, target, sibling, vendor).Success?
    ensures var m := Synthesize(item, name, Library, target, sibling, vendor).value;
      && WellFormed(m)
      && (m.multilib == Both <==> sibling.Some?)
      && (sibling.Some? ==>
            m.arm == Some("proprietary/" + Target(Src32(item)).value)
            && m.arm64 == Some("proprietary/" + Target(sibling.value).value))
      && (sibling.None? ==>
            (m.multilib == Lib32 <==> Contains(target, "lib/"))
            && (m.arm.Some? ==> m.arm.value == "proprietary/" + target)
            && (m.arm64.Some? ==> m.arm64.value == "proprietary/" + target))
  {
  }

  /** `str(Path(src).parent)` under the output path: the directory created for an entry. */
  function ModuleDir(outputPath: string, target: string): string {
    outputPath + "/" + Parent("proprietary/" + target)
  }

  const Indent: string := "        "

  function FlagLines(p: Partition): seq<string> {
    match SpecificFlag(p)
    case Some(f) => [Indent + f]
    case None => []
  }

  function MultilibName(k: Multilib): string {
    match k
    case Lib32 => "32"
    case Lib64 => "64"
    case Both => "both"
  }

  function ArchBlock(arch: string, src: Option<string>): seq<string> {
    match src
    case Some(s) => [Indent + Indent + arch + ": {", Indent + Indent + Indent + "srcs: [\"" + s + "\"],", Indent + Indent + "},"]
    case None => []
  }

  /**
   * A module as blueprint lines, as the format strings lay it out after
   * `dedent` and the removal of the blank lines an absent optional line
   * leaves: its fields, the partition flag if there is one, and the closing
   * brace.
   */
  function Render(m: Module): seq<string> {
    match m
    case MissingFormat(entry) => ["Missing format for \"" + entry + "\""]
    case _ => Fields(m) + FlagLines(m.partition) + ["}"]
  }

  /** The opening line and the fields of a module, up to its partition flag. */
  function Fields(m: Module): seq<string>
    requires !m.MissingFormat?
  {
    match m
    case AppImport(name, owner, apk, privileged, _) =>
      Opening("android_app_import", name, owner)
      + [Indent + "apk: \"" + apk + "\",",
         Indent + "certificate: \"platform\","]
      + (if privileged then [PrivilegedLine] else [])
      + DexPreoptOff
    case DexImport(name, owner, jar, _) =>
      Opening("dex_import", name, owner)
      + [Indent + "jars: [\"" + jar + "\"],"]
    case SharedLibrary(name, owner, arm, arm64, multilib, _) =>
      Opening("cc_prebuilt_library_shared", name, owner)
      + StripNone
      + [Indent + "target: {"]
      + ArchBlock("android_arm", arm)
      + ArchBlock("android_arm64", arm64)
      + [Indent + "},",
         Indent + "compile_multilib: \"" + MultilibName(multilib) + "\",",
         Indent + "prefer: true,"]
  }

  /** The module type, its name and its owner. */
  function Opening(moduleType: string, name: string, owner: string): seq<string> {
    [moduleType + " {",
     Indent + "name: \"" + name + "\",",
     Indent + "owner: \"" + owner + "\","]
  }

  const PrivilegedLine: string := Indent + "privileged: true,"

  /** The block that turns `dex_preopt` off in every app module. */
  const DexPreoptOff: seq<string> := [Indent + "dex_preopt: {", Indent + Indent + "enabled: false,", Indent + "},"]

  /** The block that keeps a prebuilt library unstripped. */
  const StripNone: seq<string> := [Indent + "strip: {", Indent + Indent + "none: true,", Indent + "},"]

  /**
   * The first and third characters after the indentation of a line of at
   * least eleven characters, which tell the fields apart.
   */
  function Key(l: string): (char, char) {
    if |l| >= 11 then (l[8], l[10]) else (' ', ' ')
  }

  /** The keys of the partition flags ("soc", "pro", "dev") and of the `privileged` line ("pri"). */
  predicate Reserved(k: (char, char)) {
    k == ('s', 'c') || k == ('p', 'o') || k == ('d', 'v') || k == ('p', 'i')
  }

  /** Lines none of which is keyed like a partition flag or the `privileged` line. */
  predicate Plain(ls: seq<string>) {
    forall l :: l in ls ==> !Reserved(Key(l))
  }

  lemma PlainAppend(a: seq<string>, b: seq<string>)
    requires Plain(a) && Plain(b)
    ensures Plain(a + b)
  {
  }

  /** A line made of the indentation and a field of at least three characters is keyed by the field's start. */
  lemma KeyOf(field: string, rest: string)
    requires |field| >= 3
    ensures Key(Indent + field + rest) == (field[0], field[2])
  {
    var l := Indent + field + rest;
    assert l == Indent + (field + rest);
    assert l[8] == field[0] && l[10] == field[2];
  }

  lemma KeyOfWhole(field: string)
    requires |field| >= 3
    ensures Key(Indent + field) == (field[0], field[2])
  {
    KeyOf(field, "");
    assert Indent + field + "" == Indent + field;
  }

  /** Each partition flag line is keyed by its own reserved key. */
  lemma FlagKey(p: Partition)
    requires p != System
    ensures Reserved(Key(Indent + SpecificFlag(p).value)) && Key(Indent + SpecificFlag(p).value) != ('p', 'i')
  {
    KeyOfWhole(SpecificFlag(p).value);
  }

  lemma PrivilegedKey()
    ensures Key(PrivilegedLine) == ('p', 'i')
  {
    KeyOfWhole("privileged: true,");
  }

  lemma OpeningPlain(moduleType: string, name: string, owner: string)
    requires !Reserved(Key(moduleType + " {"))
    ensures Plain(Opening(moduleType, name, owner))
  {
    KeyOf("name: \"", name + "\",");
    assert Indent + "name: \"" + name + "\"," == Indent + "name: \"" + (name + "\",");
    KeyOf("owner: \"", owner + "\",");
    assert Indent + "owner: \"" + owner + "\"," == Indent + "owner: \"" + (owner + "\",");
  }

  /** Blocks opened and closed at the first indentation with their content indented twice. */
  lemma BlocksPlain()
    ensures Plain(DexPreoptOff) && Plain(StripNone)
  {
    KeyOfWhole("dex_preopt: {");
    KeyOfWhole("strip: {");
    assert Key(Indent + "},") == (' ', ' ');
    KeyOfWhole(Indent + "enabled: false,");
    assert Indent + Indent + "enabled: false," == Indent + (Indent + "enabled: false,");
    KeyOfWhole(Indent + "none: true,");
    assert Indent + Indent + "none: true," == Indent + (Indent + "none: true,");
  }

  /** An arch block is indented twice, so none of its lines is keyed. */
  lemma ArchBlockPlain(arch: string, src: Option<string>)
    ensures Plain(ArchBlock(arch, src))
  {
    if src.Some? {
      var s := src.value;
      KeyOf(Indent + arch, ": {");
      KeyOf(Indent + Indent + "srcs: [\"", s + "\"],");
      assert Indent + Indent + Indent + "srcs: [\"" + s + "\"]," == Indent + (Indent + Indent + "srcs: [\"") + (s + "\"],");
      KeyOfWhole(Indent + "},");
      assert Indent + Indent + "}," == Indent + (Indent + "},");
    }
  }

  lemma AppFieldsPlain(name: string, owner: string, apk: string)
    ensures Plain(Opening("android_app_import", name, owner)
                  + [Indent + "apk: \"" + apk + "\",", Indent + "certificate: \"platform\","])
  {
    assert Key("android_app_import {") == ('a', 'p');
    OpeningPlain("android_app_import", name, owner);
    KeyOf("apk: \"", apk + "\",");
    assert Indent + "apk: \"" + apk + "\"," == Indent + "apk: \"" + (apk + "\",");
    KeyOfWhole("certificate: \"platform\",");
  }

  lemma DexFieldsPlain(name: string, owner: string, jar: string)
    ensures Plain(Fields(DexImport(name, owner, jar, System)))
  {
    assert Key("dex_import {") == ('r', ' ');
    OpeningPlain("dex_import", name, owner);
    KeyOf("jars: [\"", jar + "\"],");
    assert Indent + "jars: [\"" + jar + "\"]," == Indent + "jars: [\"" + (jar + "\"],");
  }

  lemma LibraryFieldsPlain(name: string, owner: string, arm: Option<string>, arm64: Option<string>, multilib: Multilib)
    ensures Plain(Fields(SharedLibrary(name, owner, arm, arm64, multilib, System)))
  {
    var opening := Opening("cc_prebuilt_library_shared", name, owner);
    var target := [Indent + "target: {"];
    var a32, a64 := ArchBlock("android_arm", arm), ArchBlock("android_arm64", arm64);
    var tail := [Indent + "},", Indent + "compile_multilib: \"" + MultilibName(multilib) + "\",", Indent + "prefer: true,"];
    assert Fields(SharedLibrary(name, owner, arm, arm64, multilib, System)) == opening + StripNone + target + a32 + a64 + tail;
    assert Plain(opening) by {
      assert Key("cc_prebuilt_library_shared {") == ('i', 't');
      OpeningPlain("cc_prebuilt_library_shared", name, owner);
    }
    BlocksPlain();
    assert Plain(target) by { KeyOfWhole("target: {"); }
    ArchBlockPlain("android_arm", arm);
    ArchBlockPlain("android_arm64", arm64);
    assert Plain(tail) by { LibraryTailPlain(multilib); }
    PlainAppend(opening, StripNone);
    PlainAppend(opening + StripNone, target);
    PlainAppend(opening + StripNone + target, a32);
    PlainAppend(opening + StripNone + target + a32, a64);
    PlainAppend(opening + StripNone + target + a32 + a64, tail);
  }

  /** The closing lines of a library's fields. */
  lemma LibraryTailPlain(multilib: Multilib)
    ensures Plain([Indent + "},", Indent + "compile_multilib: \"" + MultilibName(multilib) + "\",", Indent + "prefer: true,"])
  {
    assert Key(Indent + "},") == (' ', ' ');
    var c := "compile_multilib: \"";
    KeyOf(c, MultilibName(multilib) + "\",");
    assert Indent + c + MultilibName(multilib) + "\"," == Indent + c + (MultilibName(multilib) + "\",");
    KeyOfWhole("prefer: true,");
  }

  /**
   * The fields of a module other than the `privileged` line of a privileged
   * app are keyed neither like a partition flag nor like that line.
   */
  lemma FieldsPlain(m: Module)
    requires !m.MissingFormat?
    ensures m.AppImport? ==>
      Fields(m) == Fields(m.(privileged := false))[..5] + (if m.privileged then [PrivilegedLine] else []) + DexPreoptOff
    ensures m.AppImport? ==> Plain(Fields(m.(privileged := false))[..5]) && Plain(DexPreoptOff)
    ensures !m.AppImport? ==> Plain(Fields(m))
  {
    match m
    case AppImport(name, owner, apk, privileged, _) =>
      AppFieldsPlain(name, owner, apk);
      BlocksPlain();
    case DexImport(name, owner, jar, part) =>
      DexFieldsPlain(name, owner, jar);
      assert Fields(m) == Fields(DexImport(name, owner, jar, System));
    case SharedLibrary(name, owner, arm, arm64, multilib, part) =>
      LibraryFieldsPlain(name, owner, arm, arm64, multilib);
      assert Fields(m) == Fields(SharedLibrary(name, owner, arm, arm64, multilib, System));
  }

  /**
   * What the rendered text of a module promises: an app is marked
   * `privileged: true,` exactly when it is privileged and always has
   * `dex_preopt` turned off; the flag line of a partition appears exactly
   * in a module placed on that partition, so a module on the default
   * partition, and a "Missing format" placeholder, has none.
   */
  lemma RenderFlags(m: Module)
    ensures m.AppImport? ==> (PrivilegedLine in Render(m) <==> m.privileged)
    ensures m.AppImport? ==>
      var k := if m.privileged then 6 else 5;
      k + 3 < |Render(m)| && Render(m)[k..k + 3] == DexPreoptOff
    ensures forall p :: p != System ==>
      (Indent + SpecificFlag(p).value in Render(m) <==> !m.MissingFormat? && m.partition == p)
  {
    PrivilegedKey();
    if m.MissingFormat? {
      var l := "Missing format for \"" + m.entry + "\"";
      assert l[8] == 'f' && l[10] == 'r';
      forall p | p != System ensures Indent + SpecificFlag(p).value != l {
        FlagKey(p);
      }
    } else {
      FieldsPlain(m);
      var flags := FlagLines(m.partition);
      assert Render(m) == Fields(m) + flags + ["}"];
      assert Key("}") == (' ', ' ');
      forall p | p != System
        ensures Indent + SpecificFlag(p).value in Render(m) <==> m.partition == p
      {
        FlagKey(p);
        var fl := Indent + SpecificFlag(p).value;
        if fl in Render(m) {
          assert fl !in Fields(m);
          assert fl in flags;
          if m.partition != p {
            OutputsDistinguishPartitions(p, m.partition);
          }
        }
      }
      if m.AppImport? {
        var a := Fields(m.(privileged := false))[..5];
        var priv := if m.privileged then [PrivilegedLine] else [];
        assert Render(m) == a + priv + DexPreoptOff + (flags + ["}"]);
        if PrivilegedLine in Render(m) && !m.privileged {
          assert PrivilegedLine !in a && PrivilegedLine !in DexPreoptOff;
          assert PrivilegedLine in flags;
          FlagKey(m.partition);
        }
      }
    }
  }

  /**
   * Everything the loop appends for a plan: a blank line and the module of
   * each step, and the step's directory, up to the first step that raises.
   */
  function Emit(plan: seq<Entry>, vendor: string, outputPath: string): Appended {
    if plan == [] then Appended([], [], None)
    else
      match ModuleFor(plan[0], vendor)
      case Fail(f) => Appended([], [], Some(f))
      case Success(m) =>
        var rest := Emit(plan[1..], vendor, outputPath);
        Appended([""] + Render(m) + rest.lines,
                 [ModuleDir(outputPath, Target(plan[0].item).value)] + rest.dirs,
                 rest.failure)
  }

  /** The whole effect of `write_product_packages` on a package list: the namespace block, then the modules. */
  function PackagesOutput(work: seq<string>, vendor: string, outputPath: string): Appended {
    var e := Emit(Plan(work), vendor, outputPath);
    Appended(["soong_namespace {", "}"] + e.lines, e.dirs, e.failure)
  }

  /**
   * In a strictly ascending list the sibling of an entry, when present,
   * comes after it: looking for it in the whole list (as the loop does) and
   * in the part after the entry (as `Plan` does) give the same answer, and
   * removing it leaves the part up to the entry alone.
   */
  lemma SiblingAfterEntry(w: seq<string>, i: nat)
    requires StrictlySorted(w) && i < |w|
    ensures Src64(w[i]) in w <==> Src64(w[i]) in w[i + 1..]
    ensures RemoveFirst(w, Src64(w[i])) == w[..i + 1] + RemoveFirst(w[i + 1..], Src64(w[i]))
  {
    SiblingSortsAfter(w[i]);
    LaterElement(w, i, Src64(w[i]));
  }

  /** An element greater than the one at `i` of a strictly ascending list can only be after `i`. */
  lemma LaterElement(w: seq<string>, i: nat, s: string)
    requires StrictlySorted(w) && i < |w| && Less(w[i], s)
    ensures s in w <==> s in w[i + 1..]
    ensures RemoveFirst(w, s) == w[..i + 1] + RemoveFirst(w[i + 1..], s)
  {
    NotUpTo(w, i, s);
    assert w == w[..i + 1] + w[i + 1..];
    RemoveFirstAfter(w[..i + 1], w[i + 1..], s);
  }

  lemma NotUpTo(w: seq<string>, i: nat, s: string)
    requires StrictlySorted(w) && i < |w| && Less(w[i], s)
    ensures s !in w[..i + 1]
  {
    forall j | 0 <= j <= i ensures w[j] != s {
      if j < i {
        LessTransitive(w[j], w[i], s);
      }
      LessIrreflexive(s);
    }
  }

  /**
   * The list handling of one pass of the loop body of
   * `write_product_packages` at position `i` of the current list: a `.so`
   * entry whose sibling is in the list takes the sibling with it, and the
   * sibling is removed from the list (`work_list.remove(src64)`); then the
   * module of the entry. The module is the one `Plan` schedules for that
   * position, and the rest of the list is what `Plan` goes on with.
   */
  method ModuleStep(workList: seq<string>, i: nat, vendor: string) returns (m: Result<Module>, next: seq<string>)
    requires StrictlySorted(workList) && i < |workList|
    ensures Plan(workList[i..]) != [] && Plan(workList[i..])[0].item == workList[i]
    ensures m == ModuleFor(Plan(workList[i..])[0], vendor)
    ensures i < |next| <= |workList| && next[..i + 1] == workList[..i + 1] && StrictlySorted(next)
    ensures Plan(workList[i..])[1..] == Plan(next[i + 1..])
  {
    PlanAt(workList, i);
    var item := workList[i];
    next := workList;
    var sibling: Option<string> := None;
    if Suffix(item) == ".so" {
      var src32 := Src32(item);
      var src64 := Src64(item);
      if src32 != "" && src64 in workList {
        next := RemoveFirst(workList, src64);
        sibling := Some(src64);
      }
    }
    m := ModuleFor(Entry(item, sibling), vendor);
  }

  /**
   * The step `Plan` takes at position `i` of a strictly ascending list: the
   * entry there, merged when it is a `.so` whose sibling is anywhere in the
   * list, and the list without that sibling to go on with.
   */
  lemma PlanAt(w: seq<string>, i: nat)
    requires StrictlySorted(w) && i < |w|
    ensures var x := w[i];
      var merged := Suffix(x) == ".so" && Src32(x) != "" && Src64(x) in w;
      var next := if merged then RemoveFirst(w, Src64(x)) else w;
      && i < |next| <= |w| && next[..i + 1] == w[..i + 1] && StrictlySorted(next)
      && (merged <==> next != w)
      && Plan(w[i..]) == [Entry(x, if merged then Some(Src64(x)) else None)] + Plan(next[i + 1..])
  {
    var x, s := w[i], Src64(w[i]);
    var rest := w[i + 1..];
    assert w[i..][0] == x && w[i..][1..] == rest;
    PlanHead(w[i..]);
    SiblingAfterEntry(w, i);
    assert Merges(x, rest) <==> Suffix(x) == ".so" && Src32(x) != "" && s in w;
    if Merges(x, rest) {
      var next := RemoveFirst(w, s);
      RemoveFirstSorted(w, s);
      assert |next| == |w| - 1;
      assert next[i + 1..] == RemoveFirst(rest, s);
    }
  }

  /** `Plan` of a non-empty list, one step unfolded. */
  lemma PlanHead(items: seq<string>)
    requires items != []
    ensures var x, rest := items[0], items[1..];
      Plan(items) == if Merges(x, rest) then [Entry(x, Some(Src64(x)))] + Plan(RemoveFirst(rest, Src64(x)))
                     else [Entry(x, None)] + Plan(rest)
  {
  }

  /** Glueing what the loop has appended so far to what the rest of the plan appends. */
  function Then(lines: seq<string>, dirs: seq<string>, a: Appended): Appended {
    Appended(lines + a.lines, dirs + a.dirs, a.failure)
  }

  /** The first step of a plan, as the loop performs it: a raised error, or a module and a directory. */
  lemma EmitFirst(plan: seq<Entry>, vendor: string, outputPath: string)
    requires plan != []
    ensures ModuleFor(plan[0], vendor).Fail? ==>
      Emit(plan, vendor, outputPath) == Appended([], [], Some(ModuleFor(plan[0], vendor).failure))
    ensures ModuleFor(plan[0], vendor).Success? ==>
      Target(plan[0].item).Some? &&
      Emit(plan, vendor, outputPath) ==
        Then([""] + Render(ModuleFor(plan[0], vendor).value), [ModuleDir(outputPath, Target(plan[0].item).value)],
             Emit(plan[1..], vendor, outputPath))
  {
    if ModuleFor(plan[0], vendor).Success? {
      var rest := Emit(plan[1..], vendor, outputPath);
      assert ([""] + Render(ModuleFor(plan[0], vendor).value)) + rest.lines ==
        [""] + Render(ModuleFor(plan[0], vendor).value) + rest.lines;
    }
  }

  /** The output of the step `ModuleStep` takes at position `i`, followed by the output of the rest of the walk. */
  lemma EmitStep(w: seq<string>, i: nat, next: seq<string>, m: Result<Module>, vendor: string, outputPath: string)
    requires i < |w| && i + 1 <= |next|
    requires Plan(w[i..]) != [] && Plan(w[i..])[0].item == w[i]
    requires m == ModuleFor(Plan(w[i..])[0], vendor) && Plan(w[i..])[1..] == Plan(next[i + 1..])
    ensures m.Fail? ==> Emit(Plan(w[i..]), vendor, outputPath) == Appended([], [], Some(m.failure))
    ensures m.Success? ==> Target(w[i]).Some?
    ensures m.Success? ==>
      Emit(Plan(w[i..]), vendor, outputPath) == Then([""] + Render(m.value), [ModuleDir(outputPath, Target(w[i]).value)], Emit(Plan(next[i + 1..]), vendor, outputPath))
  {
    EmitFirst(Plan(w[i..]), vendor, outputPath);
  }

  /** Once the walk has passed the end of the list, nothing is left to write. */
  lemma EmitDone(w: seq<string>, i: nat, vendor: string, outputPath: string)
    requires i == |w|
    ensures Emit(Plan(w[i..]), vendor, outputPath) == Appended([], [], None)
  {
    assert w[i..] == [];
  }
}
