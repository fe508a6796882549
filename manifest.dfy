/**
 * Reading the blob manifest: `target_file` (the destination named by one
 * `src[:dst][|sha1]` line) and `target_list` (the lines of one category,
 * cleaned, deduplicated and sorted).
 */
module Manifest {
  import opened Wrappers
  import opened Strings
  import opened Sorting

  /** The text after the first ':' when there is one, else the whole spec. */
  function Destination(spec: string): (r: string)
    ensures ':' !in spec ==> r == spec
    ensures ':' in spec ==> |r| < |spec| && spec[|spec| - |r|..] == r && spec[|spec| - |r| - 1] == ':'
    ensures ':' in spec ==> ':' !in spec[..|spec| - |r| - 1]
  {
    SplitOnceChar(spec, ':');
    var parts := SplitOnce(spec, ":");
    if ':' in spec then
      assert spec == parts.0 + ":" + parts.1.value;
      assert spec[..|spec| - |parts.1.value| - 1] == parts.0;
      parts.1.value
    else spec
  }

  /**
   * `target_file`: the destination of a manifest line, cut before the first
   * '|' (the optional sha1 pin). The result is the longest '|'-free prefix of
   * the destination and uses only characters of the spec.
   */
  function TargetFile(spec: string): (r: string)
    ensures '|' !in r
    ensures ':' !in spec && '|' !in spec ==> r == spec
    ensures StartsWith(Destination(spec), r)
    ensures |r| == |Destination(spec)| || Destination(spec)[|r|] == '|'
    ensures forall ch :: ch in r ==> ch in spec
  {
    var dst := Destination(spec);
    DestinationChars(spec);
    BeforeFirstBar(dst);
    if '|' in dst then SplitOnce(dst, "|").0 else dst
  }

  /** The destination is made of characters of the spec. */
  lemma DestinationChars(spec: string)
    ensures forall ch :: ch in Destination(spec) ==> ch in spec
  {
    var dst := Destination(spec);
    if ':' in spec {
      forall ch | ch in dst ensures ch in spec {
        var i :| 0 <= i < |dst| && dst[i] == ch;
        assert spec[|spec| - |dst| + i] == ch;
      }
    }
  }

  /** What `split('|')[0]` keeps of a text: a '|'-free prefix, followed by '|' unless it is the whole text. */
  lemma BeforeFirstBar(dst: string)
    ensures var p := if '|' in dst then SplitOnce(dst, "|").0 else dst;
      && (|p| == |dst| || dst[|p|] == '|')
      && '|' !in p && StartsWith(dst, p) && (forall ch :: ch in p ==> ch in dst)
  {
    SplitOnceChar(dst, '|');
    if '|' in dst {
      var parts := SplitOnce(dst, "|");
      assert dst == parts.0 + "|" + parts.1.value;
      assert dst[..|parts.0|] == parts.0;
      assert dst[|parts.0|] == '|';
      forall ch | ch in parts.0 ensures ch in dst {
        var i :| 0 <= i < |parts.0| && parts.0[i] == ch;
        assert dst[i] == ch;
      }
    } else {
      assert dst[..|dst|] == dst;
    }
  }

  /**
   * Which lines `target_list` keeps in one mode, and what it keeps of them:
   * "packages" keeps the '-' lines whole, "copy" keeps the lines starting with
   * neither '-' nor '#', any other mode drops the '#' lines and strips the
   * leading '-' (through `split('-', 1)[1]`).
   */
  function Select(item: string, content: string): (r: Option<string>)
    ensures content == "packages" ==> (r.Some? <==> StartsWith(item, "-")) && (r.Some? ==> r.value == item)
    ensures content == "copy" ==> (r.Some? <==> !StartsWith(item, "-") && !StartsWith(item, "#"))
    ensures content == "copy" && r.Some? ==> r.value == item
    ensures content != "packages" && content != "copy" ==> (r.Some? <==> !StartsWith(item, "#"))
    ensures content != "packages" && content != "copy" && r.Some? ==>
      r.value == if StartsWith(item, "-") then item[1..] else item
  {
    if content == "packages" then
      if StartsWith(item, "-") then Some(item) else None
    else if content == "copy" then
      if !StartsWith(item, "-") && !StartsWith(item, "#") then Some(item) else None
    else if StartsWith(item, "#") then None
    else if StartsWith(item, "-") then Some(DropDash(item))
    else Some(item)
  }

  /** `item.split('-', 1)[1]` for a line that starts with '-': the line without that '-'. */
  function DropDash(item: string): (r: string)
    requires StartsWith(item, "-")
    ensures r == item[1..]
  {
    SplitOnceChar(item, '-');
    assert OccursAt(item, "-", 0);
    var parts := SplitOnce(item, "-");
    assert parts.0 == [];
    parts.1.value
  }

  /** A manifest line is excluded ('#'), packaged ('-') or copied: exactly one of the three. */
  lemma LineCategory(item: string)
    ensures StartsWith(item, "#") ==> Select(item, "copy").None? && Select(item, "packages").None?
    ensures Select(item, "copy").Some? ==> Select(item, "packages").None?
    ensures StartsWith(item, "#") || Select(item, "copy").Some? || Select(item, "packages").Some?
  {
    assert StartsWith(item, "#") ==> item[..1] == "#";
    assert StartsWith(item, "-") ==> item[..1] == "-";
  }

  /** What one manifest line contributes to `target_list`: selected, newlines removed, non-empty, `target_file`. */
  function LineTarget(line: string, content: string): (r: Option<string>)
    ensures r.Some? ==> '\n' !in r.value
  {
    match Select(line, content)
    case None => None
    case Some(v) =>
      var c := ReplaceAll(v, "\n", "");
      ReplaceCharByNothing(v, '\n');
      if c == "" then None else Some(TargetFile(c))
  }

  /** `x` is the target of some line of `lines`. */
  predicate IsTarget(x: string, lines: seq<string>, content: string) {
    exists i :: 0 <= i < |lines| && LineTarget(lines[i], content) == Some(x)
  }

  // The stages of `target_list`, in the order it runs them.

  /** The append loop: the kept lines, in input order. */
  function SelectAll(lines: seq<string>, content: string): seq<string> {
    if lines == [] then []
    else
      var last := lines[|lines| - 1];
      SelectAll(lines[..|lines| - 1], content) + match Select(last, content) case Some(v) => [v] case None => []
  }

  /** `[i.replace('\n', '') for i in work_list]`. */
  function StripAll(w: seq<string>): seq<string> {
    seq(|w|, i requires 0 <= i < |w| => ReplaceAll(w[i], "\n", ""))
  }

  /** `list(filter(None, work_list))`: the non-empty strings, in order. */
  function NonEmpty(w: seq<string>): seq<string> {
    if w == [] then []
    else NonEmpty(w[..|w| - 1]) + if w[|w| - 1] == "" then [] else [w[|w| - 1]]
  }

  /** `work_list[n] = self.target_file(i)` for every `n`. */
  function TargetAll(w: seq<string>): seq<string> {
    Map(w, TargetFile)
  }

  /** `[f(x) for x in w]`. */
  function Map<A, B>(w: seq<A>, f: A -> B): (r: seq<B>)
    ensures |r| == |w| && forall i :: 0 <= i < |w| ==> r[i] == f(w[i])
  {
    seq(|w|, i requires 0 <= i < |w| => f(w[i]))
  }

  /** The line-by-line reference: the target of every contributing line, in input order. */
  function Targeted(lines: seq<string>, content: string): (r: seq<string>)
    ensures forall x :: x in r <==> IsTarget(x, lines, content)
  {
    if lines == [] then []
    else
      var init := lines[..|lines| - 1];
      var last := lines[|lines| - 1];
      var r := Targeted(init, content) + match LineTarget(last, content) case Some(t) => [t] case None => [];
      IsTargetSplit(lines, content);
      r
  }

  /** A line contributes a target exactly when an earlier line or the last one does. */
  lemma IsTargetSplit(lines: seq<string>, content: string)
    requires lines != []
    ensures forall x :: IsTarget(x, lines, content) <==>
      IsTarget(x, lines[..|lines| - 1], content) || LineTarget(lines[|lines| - 1], content) == Some(x)
  {
    var init := lines[..|lines| - 1];
    forall x ensures IsTarget(x, lines, content) ==> IsTarget(x, init, content) || LineTarget(lines[|lines| - 1], content) == Some(x) {
      if IsTarget(x, lines, content) {
        var i :| 0 <= i < |lines| && LineTarget(lines[i], content) == Some(x);
        if i < |lines| - 1 { assert init[i] == lines[i]; }
      }
    }
    forall x ensures IsTarget(x, init, content) ==> IsTarget(x, lines, content) {
      if IsTarget(x, init, content) {
        var i :| 0 <= i < |init| && LineTarget(init[i], content) == Some(x);
        assert lines[i] == init[i];
      }
    }
  }

  /** `target_list` as a function of its inputs: the stages above, then `dict.fromkeys` and `sort`. */
  function TargetListOf(lines: seq<string>, content: string): (r: seq<string>)
    ensures StrictlySorted(r)
    ensures forall x :: x in r <==> IsTarget(x, lines, content)
    ensures forall i :: 0 <= i < |r| ==> '\n' !in r[i]
  {
    var w := TargetAll(NonEmpty(StripAll(SelectAll(lines, content))));
    StagesAreLineByLine(lines, content);
    var r := Sort(Dedup(w));
    SortDedup(w);
    NoNewlineInTargets(r, lines, content);
    r
  }

  lemma NoNewlineInTargets(r: seq<string>, lines: seq<string>, content: string)
    requires forall x :: x in r ==> IsTarget(x, lines, content)
    ensures forall i :: 0 <= i < |r| ==> '\n' !in r[i]
  {
    forall i | 0 <= i < |r| ensures '\n' !in r[i] {
      assert IsTarget(r[i], lines, content);
    }
  }

  /** `sort` after `dict.fromkeys` gives a strictly ascending list of the same elements. */
  lemma SortDedup(w: seq<string>)
    ensures StrictlySorted(Sort(Dedup(w)))
    ensures forall x :: x in Sort(Dedup(w)) <==> x in w
  {
    var d := Dedup(w);
    var r := Sort(d);
    MultisetPreservesDistinct(d, r);
    DistinctSortedIsStrict(r);
    forall x ensures x in r <==> x in d {
      assert x in r <==> x in multiset(r);
      assert x in d <==> x in multiset(d);
    }
  }

  lemma StripAllAppend(a: seq<string>, b: seq<string>)
    ensures StripAll(a + b) == StripAll(a) + StripAll(b)
  {
    var l, r := StripAll(a + b), StripAll(a) + StripAll(b);
    forall i | 0 <= i < |l| ensures l[i] == r[i] {
      if i < |a| { assert (a + b)[i] == a[i]; } else { assert (a + b)[i] == b[i - |a|]; }
    }
  }

  lemma TargetAllAppend(a: seq<string>, b: seq<string>)
    ensures TargetAll(a + b) == TargetAll(a) + TargetAll(b)
  {
    MapAppend(a, b, TargetFile);
  }

  /** Applying `f` to every element distributes over concatenation. */
  lemma MapAppend<A, B>(a: seq<A>, b: seq<A>, f: A -> B)
    ensures Map(a + b, f) == Map(a, f) + Map(b, f)
  {
    var l, r := Map(a + b, f), Map(a, f) + Map(b, f);
    forall i | 0 <= i < |l| ensures l[i] == r[i] {
      if i < |a| { assert (a + b)[i] == a[i]; } else { assert (a + b)[i] == b[i - |a|]; }
    }
  }

  lemma {:induction false} NonEmptyAppend(a: seq<string>, b: seq<string>)
    ensures NonEmpty(a + b) == NonEmpty(a) + NonEmpty(b)
    decreases |b|
  {
    if b == [] {
      assert a + b == a;
    } else {
      var init := b[..|b| - 1];
      assert (a + b)[..|a + b| - 1] == a + init;
      NonEmptyAppend(a, init);
    }
  }

  /** The staged computation of `target_list` agrees with the line-by-line reference. */
  lemma {:induction false} StagesAreLineByLine(lines: seq<string>, content: string)
    ensures TargetAll(NonEmpty(StripAll(SelectAll(lines, content)))) == Targeted(lines, content)
    decreases |lines|
  {
    if lines != [] {
      var init := lines[..|lines| - 1];
      var last := lines[|lines| - 1];
      var tail := match Select(last, content) case Some(v) => [v] case None => [];
      StagesAreLineByLine(init, content);
      StripAllAppend(SelectAll(init, content), tail);
      NonEmptyAppend(StripAll(SelectAll(init, content)), StripAll(tail));
      TargetAllAppend(NonEmpty(StripAll(SelectAll(init, content))), NonEmpty(StripAll(tail)));
      LastStage(last, content);
    }
  }

  /** The stages on one line give what the line contributes by itself. */
  lemma LastStage(last: string, content: string)
    ensures var tail := match Select(last, content) case Some(v) => [v] case None => [];
      TargetAll(NonEmpty(StripAll(tail))) == match LineTarget(last, content) case Some(t) => [t] case None => []
  {
    match Select(last, content)
    case None =>
    case Some(v) =>
      assert NonEmpty(StripAll([v])) == NonEmpty([] + StripAll([v]));
  }

  lemma {:induction false} DistinctCount(a: seq<string>, x: string)
    requires Distinct(a)
    ensures multiset(a)[x] <= 1
    decreases |a|
  {
    if a != [] {
      var init := a[..|a| - 1];
      assert a == init + [a[|a| - 1]];
      DistinctCount(init, x);
      if a[|a| - 1] == x {
        assert x !in init;
        assert multiset(init)[x] == 0;
      }
    }
  }

  lemma MultisetPreservesDistinct(a: seq<string>, b: seq<string>)
    requires Distinct(a) && multiset(a) == multiset(b)
    ensures Distinct(b)
  {
    forall i, j | 0 <= i < j < |b| ensures b[i] != b[j] {
      if b[i] == b[j] {
        var x := b[i];
        assert b == b[..j] + [b[j]] + b[j + 1..];
        assert x in b[..j];
        assert multiset(b[..j])[x] >= 1;
        assert multiset(b)[x] >= 2;
        DistinctCount(a, x);
        assert false;
      }
    }
  }

  /**
   * `target_list` in its own form: the append loop, the two list
   * comprehensions, the in-place `enumerate` rewrite, `dict.fromkeys` and
   * `sort`. Its result is strictly ascending, has no newline in any element,
   * and holds exactly the targets of the contributing lines.
   */
  method TargetList(propList: seq<string>, content: string) returns (workList: seq<string>)
    ensures workList == TargetListOf(propList, content)
    ensures StrictlySorted(workList)
    ensures forall x :: x in workList <==> IsTarget(x, propList, content)
  {
    workList := [];
    var k := 0;
    while k < |propList|
      invariant 0 <= k <= |propList|
      invariant workList == SelectAll(propList[..k], content)
    {
      var item := propList[k];
      if content == "packages" {
        if StartsWith(item, "-") {
          workList := workList + [item];
        }
      } else if content == "copy" {
        if !StartsWith(item, "-") && !StartsWith(item, "#") {
          workList := workList + [item];
        }
      } else {
        if !StartsWith(item, "#") {
          if StartsWith(item, "-") {
            workList := workList + [DropDash(item)];
          } else {
            workList := workList + [item];
          }
        }
      }
      assert propList[..k + 1][..k] == propList[..k];
      k := k + 1;
    }
    assert propList[..k] == propList;

    // Cleanup the list
    workList := StripAll(workList);
    workList := NonEmpty(workList);
    ghost var cleaned := workList;
    var n := 0;
    while n < |workList|
      invariant 0 <= n <= |workList| == |cleaned|
      invariant forall j :: 0 <= j < n ==> workList[j] == TargetFile(cleaned[j])
      invariant forall j :: n <= j < |workList| ==> workList[j] == cleaned[j]
    {
      workList := workList[n := TargetFile(workList[n])];
      n := n + 1;
    }
    assert workList == TargetAll(cleaned);
    workList := Dedup(workList);

    // Sort and return it
    workList := Sort(workList);
  }

  /** Reordering or repeating manifest lines does not change `target_list`. */
  lemma TargetListIgnoresOrder(l1: seq<string>, l2: seq<string>, content: string)
    requires forall line :: line in l1 <==> line in l2
    ensures TargetListOf(l1, content) == TargetListOf(l2, content)
  {
    var r1, r2 := TargetListOf(l1, content), TargetListOf(l2, content);
    forall x ensures x in r1 <==> x in r2 {
      if IsTarget(x, l1, content) {
        var i :| 0 <= i < |l1| && LineTarget(l1[i], content) == Some(x);
        assert l1[i] in l2;
        var j :| 0 <= j < |l2| && l2[j] == l1[i];
      }
      if IsTarget(x, l2, content) {
        var i :| 0 <= i < |l2| && LineTarget(l2[i], content) == Some(x);
        assert l2[i] in l1;
        var j :| 0 <= j < |l1| && l1[j] == l2[i];
      }
    }
    StrictlySortedUnique(r1, r2);
  }

  /**
   * Empty lines are dropped before `target_file` runs, so a copy line whose
   * destination is empty (`src:`) still contributes the empty target.
   */
  lemma EmptyDestinationKept(src: string)
    requires src != [] && src[0] != '-' && src[0] != '#' && '\n' !in src && ':' !in src
    ensures "" in TargetListOf([src + ":"], "copy")
  {
    var line := src + ":";
    assert line[..1] == [src[0]];
    assert !StartsWith(line, "-") && !StartsWith(line, "#");
    assert Select(line, "copy") == Some(line);
    ReplaceCharByNothing(line, '\n');
    assert ReplaceAll(line, "\n", "") == line by { NoNewlineUnchanged(line); }
    assert Destination(line) == "";
    assert LineTarget(line, "copy") == Some("");
    assert IsTarget("", [line], "copy") by { assert [line][0] == line; }
  }

  /** Text without a newline is left alone by `replace('\n', '')`. */
  lemma {:induction false} NoNewlineUnchanged(s: string)
    requires '\n' !in s
    ensures ReplaceAll(s, "\n", "") == s
    decreases |s|
  {
    if |s| >= 1 {
      assert s[0] in s;
      assert s[..1] == [s[0]];
      NoNewlineUnchanged(s[1..]);
      assert s == [s[0]] + s[1..];
    }
  }
}
