/**
 * The few Python `str` operations the generator relies on, written out on
 * `seq<char>`: `startswith`, `in`, `split(sep, 1)`, `replace`, `rfind`, the
 * lexicographic `<` of `sorted`/`list.sort`, and `str()` of a natural number.
 */
module Strings {
  import opened Wrappers

  /** Python `s.startswith(p)`. */
  predicate StartsWith(s: string, p: string) {
    |p| <= |s| && s[..|p|] == p
  }

  /** `sub` occurs in `s` at index `i`. */
  predicate OccursAt(s: string, sub: string, i: nat) {
    i + |sub| <= |s| && s[i..i + |sub|] == sub
  }

  /** The first index at or after `i` where `sub` occurs in `s`. */
  function FindFrom(s: string, sub: string, i: nat): (r: Option<nat>)
    requires i <= |s|
    decreases |s| - i
    ensures r.Some? ==> i <= r.value && OccursAt(s, sub, r.value)
    ensures r.Some? ==> forall j :: i <= j < r.value ==> !OccursAt(s, sub, j)
    ensures r.None? ==> forall j :: i <= j <= |s| ==> !OccursAt(s, sub, j)
  {
    if OccursAt(s, sub, i) then Some(i)
    else if i == |s| then None
    else FindFrom(s, sub, i + 1)
  }

  /** Python `s.find(sub)`, with None for -1. */
  function Find(s: string, sub: string): Option<nat> {
    FindFrom(s, sub, 0)
  }

  /** Python `sub in s` for a substring. */
  predicate Contains(s: string, sub: string) {
    Find(s, sub).Some?
  }

  /**
   * Python `s.split(sep, 1)`: the text before the first `sep` and, when `sep`
   * occurs, the text after it (`split(sep, 1)[1]` exists exactly then).
   */
  function SplitOnce(s: string, sep: string): (r: (string, Option<string>))
    ensures r.1.None? ==> r.0 == s && forall j :: 0 <= j <= |s| ==> !OccursAt(s, sep, j)
    ensures r.1.Some? ==> s == r.0 + sep + r.1.value
    ensures r.1.Some? ==> OccursAt(s, sep, |r.0|) && forall j :: 0 <= j < |r.0| ==> !OccursAt(s, sep, j)
  {
    match Find(s, sep)
    case None => (s, None)
    case Some(k) =>
      assert s == s[..k] + sep + s[k + |sep|..];
      (s[..k], Some(s[k + |sep|..]))
  }

  /** For a one-character separator, `split` finds the first occurrence of that character. */
  lemma SplitOnceChar(s: string, c: char)
    ensures SplitOnce(s, [c]).1.None? <==> c !in s
    ensures c !in SplitOnce(s, [c]).0
  {
    var r := SplitOnce(s, [c]);
    if c in s {
      var k :| 0 <= k < |s| && s[k] == c;
      assert OccursAt(s, [c], k);
    }
    forall j | 0 <= j < |r.0|
      ensures r.0[j] != c
    {
      assert s[j] == r.0[j];
      assert !OccursAt(s, [c], j);
      assert s[j..j + 1] == [s[j]];
    }
  }

  /** Python `s.replace(sub, rep)` for a non-empty `sub`: left to right, non-overlapping. */
  function ReplaceAll(s: string, sub: string, rep: string): string
    requires sub != []
    decreases |s|
  {
    if |s| < |sub| then s
    else if s[..|sub|] == sub then rep + ReplaceAll(s[|sub|..], sub, rep)
    else [s[0]] + ReplaceAll(s[1..], sub, rep)
  }

  /** Replacing a one-character string by "" removes exactly that character. */
  lemma {:induction false} ReplaceCharByNothing(s: string, c: char)
    ensures c !in ReplaceAll(s, [c], "")
    ensures forall d :: d != c ==> (d in ReplaceAll(s, [c], "") <==> d in s)
    decreases |s|
  {
    if |s| >= 1 {
      ReplaceCharByNothing(s[1..], c);
      assert s == [s[0]] + s[1..];
    }
  }

  /** Removing a trailing " \" marker from text that has no backslash gives that text back. */
  lemma {:induction false} ReplaceTrailingMarker(p: string)
    requires '\\' !in p
    ensures ReplaceAll(p + " \\", " \\", "") == p
    decreases |p|
  {
    var s := p + " \\";
    if p == [] {
      assert s == " \\";
      assert s[2..] == [];
    } else {
      assert s[1] != '\\' by {
        if |p| >= 2 { assert s[1] == p[1]; } else { assert s[1] == ' '; }
      }
      assert s[..2] != " \\";
      assert s[1..] == p[1..] + " \\";
      ReplaceTrailingMarker(p[1..]);
      assert [p[0]] + p[1..] == p;
    }
  }

  /** A leading " \\" is dropped and the scan goes on after it. */
  lemma ReplaceLeadingMarker(q: string)
    ensures ReplaceAll(" \\" + q, " \\", "") == ReplaceAll(q, " \\", "")
  {
    var t := " \\" + q;
    assert t[..2] == " \\" && t[2..] == q;
  }

  /** Text without a backslash, followed by text that does not start with one, is left as it is. */
  lemma {:induction false} ReplaceMarkerAfter(p: string, t: string)
    requires '\\' !in p
    requires t == [] || t[0] != '\\'
    ensures ReplaceAll(p + t, " \\", "") == p + ReplaceAll(t, " \\", "")
    decreases |p|
  {
    var s := p + t;
    if p == [] {
      assert s == t;
    } else if |s| < 2 {
      assert t == [] && s == p;
    } else {
      assert s[1] != '\\' by {
        if |p| >= 2 { assert s[1] == p[1]; } else { assert s[1] == t[0]; }
      }
      assert s[..2] != " \\";
      assert s[0] == p[0] && s[1..] == p[1..] + t;
      ReplaceMarkerAfter(p[1..], t);
      var rest := ReplaceAll(t, " \\", "");
      calc {
        ReplaceAll(s, " \\", "");
        [p[0]] + ReplaceAll(p[1..] + t, " \\", "");
        [p[0]] + (p[1..] + rest);
        { assert [p[0]] + p[1..] == p; }
        p + rest;
      }
    }
  }

  /** Python `s.rfind(c)`, with None for -1. */
  function LastIndexOf(s: string, c: char): (r: Option<nat>)
    ensures r.Some? ==> r.value < |s| && s[r.value] == c && c !in s[r.value + 1..]
    ensures r.None? ==> c !in s
  {
    if s == [] then None
    else if s[|s| - 1] == c then Some(|s| - 1)
    else
      var r := LastIndexOf(s[..|s| - 1], c);
      assert s == s[..|s| - 1] + [s[|s| - 1]];
      r
  }

  /** The last occurrence of `c` is not moved by appending text that lacks `c`. */
  lemma {:induction false} LastIndexOfAppend(s: string, t: string, c: char)
    requires c !in t
    ensures LastIndexOf(s + t, c) == LastIndexOf(s, c)
    decreases |t|
  {
    if t != [] {
      var u := t[..|t| - 1];
      assert (s + t)[..|s + t| - 1] == s + u;
      LastIndexOfAppend(s, u, c);
    } else {
      assert s + t == s;
    }
  }

  /**
   * Python's `<` on `str`: lexicographic by code point, a proper prefix
   * being smaller.
   */
  predicate Less(a: string, b: string) {
    if a == [] then b != []
    else if b == [] then false
    else if a[0] != b[0] then a[0] < b[0]
    else Less(a[1..], b[1..])
  }

  lemma {:induction false} LessIrreflexive(a: string)
    ensures !Less(a, a)
  {
    if a != [] { LessIrreflexive(a[1..]); }
  }

  lemma {:induction false} LessTransitive(a: string, b: string, c: string)
    requires Less(a, b) && Less(b, c)
    ensures Less(a, c)
  {
    if a != [] && b != [] && c != [] && a[0] == b[0] == c[0] {
      LessTransitive(a[1..], b[1..], c[1..]);
    }
  }

  lemma {:induction false} LessTotal(a: string, b: string)
    ensures a == b || Less(a, b) || Less(b, a)
  {
    if a != [] && b != [] && a[0] == b[0] {
      LessTotal(a[1..], b[1..]);
      if a[1..] == b[1..] {
        assert a == [a[0]] + a[1..] && b == [b[0]] + b[1..];
      }
    }
  }

  lemma LessAsymmetric(a: string, b: string)
    requires Less(a, b)
    ensures !Less(b, a)
  {
    if Less(b, a) {
      LessTransitive(a, b, a);
      LessIrreflexive(a);
    }
  }

  /**
   * Two strings that agree up to index `k` and have a smaller character at
   * `k` in the first, or end at `k` in the first only, compare as `Less`.
   */
  lemma {:induction false} LessAtIndex(a: string, b: string, k: nat)
    requires k <= |a| && k < |b| && a[..k] == b[..k]
    requires k == |a| || a[k] < b[k]
    ensures Less(a, b)
    decreases k
  {
    if k > 0 {
      assert a[0] == a[..k][0] == b[..k][0] == b[0];
      assert a[1..][..k - 1] == a[..k][1..] && b[1..][..k - 1] == b[..k][1..];
      LessAtIndex(a[1..], b[1..], k - 1);
    }
  }

  function DigitChar(d: nat): (c: char)
    requires d < 10
    ensures '0' <= c <= '9' && c as int - '0' as int == d
  {
    "0123456789"[d]
  }

  /** Python `str(n)` for a natural number: decimal digits, no leading zero. */
  function NatToString(n: nat): (r: string)
    ensures r != []
    ensures forall i :: 0 <= i < |r| ==> '0' <= r[i] <= '9'
    ensures r[0] == '0' <==> n == 0
  {
    if n < 10 then [DigitChar(n)] else NatToString(n / 10) + [DigitChar(n % 10)]
  }

  /** The number a string of decimal digits denotes, most significant digit first. */
  function DecimalValue(s: string): nat
    requires forall i :: 0 <= i < |s| ==> '0' <= s[i] <= '9'
  {
    if s == [] then 0
    else DecimalValue(s[..|s| - 1]) * 10 + (s[|s| - 1] as int - '0' as int)
  }

  /** `str(n)` is the decimal numeral of `n`: reading it back gives `n`. */
  lemma {:induction false} NatToStringValue(n: nat)
    ensures DecimalValue(NatToString(n)) == n
  {
    var r := NatToString(n);
    if n >= 10 {
      NatToStringValue(n / 10);
      assert r[..|r| - 1] == NatToString(n / 10);
    }
  }
}
