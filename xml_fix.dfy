/**
 * `fix_xml`: moving the `<?xml version ...?>` declaration of an XML file to
 * its first line. The file is read with `readlines`, the declaration line
 * is looked up, and when it is not already first it is popped from its
 * place and inserted at the front before the file is rewritten.
 */
module XmlFix {
  import opened Wrappers
  import opened Strings

  const Declaration: string := "<?xml version"

  predicate IsDeclaration(line: string) {
    Contains(line, Declaration)
  }

  /** The generator `(s for s in matter if '<?xml version' in s)`: the declaration lines, in order. */
  function DeclarationLines(matter: seq<string>): (r: seq<string>)
    ensures forall x :: x in r <==> x in matter && IsDeclaration(x)
    ensures |r| <= |matter|
  {
    if matter == [] then []
    else
      var init := matter[..|matter| - 1];
      var last := matter[|matter| - 1];
      assert matter == init + [last];
      DeclarationLines(init) + if IsDeclaration(last) then [last] else []
  }

  /** `sep.join(parts)`. */
  function Join(sep: string, parts: seq<string>): string {
    if parts == [] then ""
    else if |parts| == 1 then parts[0]
    else parts[0] + sep + Join(sep, parts[1..])
  }

  /** `matter.index(x)`: the first position holding `x`, None where Python raises `ValueError`. */
  function IndexOf(matter: seq<string>, x: string): (r: Option<nat>)
    ensures r.Some? ==> r.value < |matter| && matter[r.value] == x && x !in matter[..r.value]
    ensures r.None? ==> x !in matter
  {
    if matter == [] then None
    else if matter[0] == x then Some(0)
    else
      match IndexOf(matter[1..], x)
      case None => None
      case Some(i) =>
        assert matter[..i + 1] == [matter[0]] + matter[1..][..i];
        Some(i + 1)
  }

  /** The line `fix_xml` looks for: every declaration line joined with newlines. */
  function Header(matter: seq<string>): Option<nat> {
    IndexOf(matter, Join("\n", DeclarationLines(matter)))
  }

  /**
   * `fix_xml` on the lines of a file: `ValueError` when the joined
   * declaration lines are not a line of the file; otherwise the line found
   * moves to the front (`insert(0, pop(header))`) and the others keep their
   * order, and a file whose declaration is already first is left as it is.
   * When the file has exactly one declaration line, that is the line moved.
   */
  method FixXml(matter: seq<string>) returns (r: Result<seq<string>>)
    ensures r.Fail? <==> Header(matter).None?
    ensures r.Fail? ==> r.failure == ValueError
    ensures r.Success? ==> var h := Header(matter).value;
      r.value == [matter[h]] + matter[..h] + matter[h + 1..]
    ensures r.Success? ==> multiset(r.value) == multiset(matter)
    ensures r.Success? && Header(matter).value == 0 ==> r.value == matter
    ensures |DeclarationLines(matter)| == 1 ==> r.Success? && r.value[0] == DeclarationLines(matter)[0]
    ensures forall h :: 0 <= h < |matter| && IsDeclaration(matter[h]) && |DeclarationLines(matter)| == 1 ==>
      r == Success([matter[h]] + matter[..h] + matter[h + 1..])
  {
    var header := IndexOf(matter, Join("\n", DeclarationLines(matter)));
    if header.None? {
      r := Fail(ValueError);
      return;
    }
    var h := header.value;
    var lines := matter;
    if h != 0 {
      var line := lines[h];
      lines := lines[..h] + lines[h + 1..];
      lines := [line] + lines;
    }
    assert matter == matter[..h] + [matter[h]] + matter[h + 1..];
    assert h == 0 ==> lines == [matter[h]] + matter[..h] + matter[h + 1..];
    r := Success(lines);
    SingleDeclaration(matter);
  }

  /** With exactly one declaration line, the line looked up is that line and it is found where it is. */
  lemma SingleDeclaration(matter: seq<string>)
    ensures forall h :: 0 <= h < |matter| && IsDeclaration(matter[h]) && |DeclarationLines(matter)| == 1 ==>
      Header(matter) == Some(h)
  {
    forall h | 0 <= h < |matter| && IsDeclaration(matter[h]) && |DeclarationLines(matter)| == 1
      ensures Header(matter) == Some(h)
    {
      var d := DeclarationLines(matter);
      assert matter[h] in d;
      var i := IndexOf(matter, matter[h]);
      if i.value < h {
        TwoDeclarations(matter, i.value, h);
      }
    }
  }

  lemma DeclarationLinesAppend(a: seq<string>, b: seq<string>)
    ensures DeclarationLines(a + b) == DeclarationLines(a) + DeclarationLines(b)
    decreases |b|
  {
    if b == [] {
      assert a + b == a;
    } else {
      assert (a + b)[..|a + b| - 1] == a + b[..|b| - 1];
      DeclarationLinesAppend(a, b[..|b| - 1]);
    }
  }

  /** Two declaration lines at two positions are two elements of `DeclarationLines`. */
  lemma TwoDeclarations(matter: seq<string>, i: nat, h: nat)
    requires i < h < |matter| && IsDeclaration(matter[i]) && IsDeclaration(matter[h])
    ensures |DeclarationLines(matter)| >= 2
  {
    var a, b := matter[..h], matter[h..];
    assert matter == a + b;
    DeclarationLinesAppend(a, b);
    assert matter[i] == a[i];
    assert matter[h] == b[0];
    assert |DeclarationLines(a)| >= 1 by { assert a[i] in DeclarationLines(a); }
    assert |DeclarationLines(b)| >= 1 by { assert b[0] in DeclarationLines(b); }
  }

  /** A line as `readlines` gives it: a newline at most at its end, and not empty. */
  predicate ReadLine(line: string) {
    line != [] && forall k :: 0 <= k < |line| - 1 ==> line[k] != '\n'
  }

  /**
   * A file without a declaration line (read with `readlines`, so no line is
   * empty) raises `ValueError`: the joined text is "" and "" is no line.
   */
  lemma NoDeclarationFails(matter: seq<string>)
    requires forall i :: 0 <= i < |matter| ==> ReadLine(matter[i]) && !IsDeclaration(matter[i])
    ensures Header(matter).None?
  {
    NoDeclarationLines(matter);
    forall i | 0 <= i < |matter| ensures matter[i] != "" {
      assert ReadLine(matter[i]);
    }
  }

  lemma {:induction false} NoDeclarationLines(matter: seq<string>)
    requires forall i :: 0 <= i < |matter| ==> !IsDeclaration(matter[i])
    ensures DeclarationLines(matter) == []
    decreases |matter|
  {
    if matter != [] {
      NoDeclarationLines(matter[..|matter| - 1]);
    }
  }

  /**
   * Two or more declaration lines (read with `readlines`, so every line but
   * the last ends with a newline) also raise `ValueError`: the joined text
   * has a newline before its end, which no line has.
   */
  lemma SeveralDeclarationsFail(matter: seq<string>)
    requires forall i :: 0 <= i < |matter| ==> ReadLine(matter[i])
    requires |DeclarationLines(matter)| >= 2
    ensures Header(matter).None?
  {
    var d := DeclarationLines(matter);
    var j := Join("\n", d);
    assert j == d[0] + "\n" + Join("\n", d[1..]);
    assert d[1] in d;
    assert d[1] != [] by {
      assert d[1] in matter;
      var i :| 0 <= i < |matter| && matter[i] == d[1];
      assert ReadLine(matter[i]);
    }
    JoinStartsWith(d[1..]);
    assert j[|d[0]|] == '\n';
    forall i | 0 <= i < |matter| ensures matter[i] != j {
      assert ReadLine(matter[i]);
      if |matter[i]| == |j| {
        assert matter[i][|d[0]|] != '\n';
      }
    }
  }

  /** Joining lines whose first is not empty gives a text that is longer than nothing. */
  lemma JoinStartsWith(parts: seq<string>)
    requires parts != [] && parts[0] != []
    ensures |Join("\n", parts)| >= |parts[0]|
    ensures Join("\n", parts) != []
  {
  }
}
