/**
 * The parts of `pathlib.PurePath` the generator uses, written as plain
 * string functions on the last '/' and the last '.': `.name`, `.suffix`,
 * `.stem` and `.parent`.
 */
module Paths {
  import opened Wrappers
  import opened Strings

  /** `.name`: the longest tail of `p` without a '/'. */
  function Name(p: string): (r: string)
    ensures '/' !in r
    ensures |r| <= |p| && p[|p| - |r|..] == r
    ensures |r| < |p| ==> p[|p| - |r| - 1] == '/'
  {
    match LastIndexOf(p, '/')
    case None => p
    case Some(k) => p[k + 1..]
  }

  /**
   * Index of the '.' that starts the suffix of a name: the last '.', provided
   * it is neither the first nor the last character.
   */
  function SuffixDot(name: string): (r: Option<nat>)
    ensures r.Some? ==> 0 < r.value < |name| - 1 && name[r.value] == '.' && '.' !in name[r.value + 1..]
  {
    match LastIndexOf(name, '.')
    case Some(i) => if 0 < i < |name| - 1 then Some(i) else None
    case None => None
  }

  /** `.suffix`: "" or a '.' followed by at least one character that are the end of the name. */
  function Suffix(p: string): (r: string)
    ensures r == [] || (|r| >= 2 && r[0] == '.' && '.' !in r[1..])
    ensures '/' !in r
  {
    var name := Name(p);
    match SuffixDot(name)
    case Some(i) => name[i..]
    case None => ""
  }

  /** `.stem`: the name without its suffix. */
  function Stem(p: string): (r: string)
    ensures r + Suffix(p) == Name(p)
    ensures Name(p) != [] ==> r != []
  {
    var name := Name(p);
    match SuffixDot(name)
    case Some(i) => SplitAt(name, i); name[..i]
    case None => SplitAt(name, |name|); name
  }

  lemma SplitAt<T>(s: seq<T>, i: nat)
    requires i <= |s|
    ensures s[..i] + s[i..] == s && s[|s|..] == []
  {
  }

  /** `str(.parent)`: the text before the last '/', "/" for a root entry, "." when there is none. */
  function Parent(p: string): (r: string)
    ensures LastIndexOf(p, '/').None? ==> r == "."
    ensures LastIndexOf(p, '/').Some? && LastIndexOf(p, '/').value > 0 ==> r + "/" + Name(p) == p
  {
    match LastIndexOf(p, '/')
    case None => "."
    case Some(k) =>
      if k == 0 then "/"
      else
        assert p == p[..k] + "/" + p[k + 1..];
        p[..k]
  }

  /** Appending text without a '/' extends the name. */
  lemma NameAppend(p: string, t: string)
    requires '/' !in t
    ensures Name(p + t) == Name(p) + t
  {
    LastIndexOfAppend(p, t, '/');
    if LastIndexOf(p, '/').Some? {
      TailAppend(p, t, LastIndexOf(p, '/').value + 1);
    }
  }

  lemma TailAppend<T>(p: seq<T>, t: seq<T>, k: nat)
    requires k <= |p|
    ensures (p + t)[k..] == p[k..] + t
  {
  }

  /**
   * A file name that ends in `ext` (a '.' and at least one character, with no
   * further '.' or '/') after a character other than '/' has suffix `ext`,
   * whatever directories come before it.
   */
  lemma SuffixOfPath(p: string, ext: string)
    requires p != [] && p[|p| - 1] != '/'
    requires |ext| >= 2 && ext[0] == '.' && '.' !in ext[1..] && '/' !in ext
    ensures Suffix(p + ext) == ext
  {
    NameAppend(p, ext);
    var q := Name(p);
    assert q != [];
    LastDot(q, ext);
  }

  lemma LastDot(q: string, ext: string)
    requires q != [] && |ext| >= 2 && ext[0] == '.' && '.' !in ext[1..]
    ensures SuffixDot(q + ext) == Some(|q|) && (q + ext)[|q|..] == ext
  {
    assert q + ext == (q + ".") + ext[1..];
    LastIndexOfAppend(q + ".", ext[1..], '.');
    assert LastIndexOf(q + ".", '.') == Some(|q|);
  }
}
