/** The output-name rule of remove_citations_from_folder: pathlib's
    `stem` and `suffix` of a file name, the skip test
    `"_cleaned" in file_path.stem`, and the derived name
    f"{file_path.stem}_cleaned{file_path.suffix}". */
module PathNames {

  /** The marker the script inserts into, and looks for in, file names. */
  const Marker: string := "_cleaned"

  /** No '.' in name after position r. */
  predicate NoDotAfter(name: string, r: int) {
    forall j :: 0 <= j < |name| && r < j ==> name[j] != '.'
  }

  /** str.rfind('.'): the index of the last '.', or -1 when there is none. */
  function LastDot(name: string): (r: int)
    ensures -1 <= r < |name|
    ensures 0 <= r ==> name[r] == '.'
    ensures NoDotAfter(name, r)
  {
    if |name| == 0 then -1
    else if name[|name| - 1] == '.' then |name| - 1
    else LastDot(name[..|name| - 1])
  }

  /** pathlib's rule: the last '.' starts a suffix only when it is neither
      the first nor the last character of the name. */
  predicate HasSuffix(name: string) {
    0 < LastDot(name) < |name| - 1
  }

  /** PurePath.suffix */
  function Suffix(name: string): string {
    if HasSuffix(name) then name[LastDot(name)..] else ""
  }

  /** PurePath.stem */
  function Stem(name: string): string {
    if HasSuffix(name) then name[..LastDot(name)] else name
  }

  /** Python's `t in s` on strings. */
  predicate Contains(s: string, t: string) {
    exists i :: 0 <= i <= |s| - |t| && OccursAt(s, t, i)
  }

  predicate OccursAt(s: string, t: string, i: nat)
    requires i + |t| <= |s|
  {
    s[i..i + |t|] == t
  }

  /** The script skips a file whose stem already carries the marker. */
  predicate IsSkipped(name: string) {
    Contains(Stem(name), Marker)
  }

  /** The name of the cleaned copy: the marker goes between stem and suffix. */
  function CleanedName(name: string): (r: string)
    ensures |r| == |name| + |Marker|
  {
    StemSuffixSplit(name);
    Stem(name) + Marker + Suffix(name)
  }

  // ---------------------------------------------------------------------
  // Stem and suffix

  /** LastDot is determined by its contract. */
  lemma LastDotUnique(name: string, r: int)
    requires -1 <= r < |name|
    requires 0 <= r ==> name[r] == '.'
    requires NoDotAfter(name, r)
    ensures LastDot(name) == r
  {
  }

  /** The name is its stem followed by its suffix, and a non-empty suffix is
      a '.' followed by at least one character and no further '.', after a
      non-empty stem. */
  lemma StemSuffixSplit(name: string)
    ensures Stem(name) + Suffix(name) == name
    ensures Suffix(name) != [] ==>
      && |Suffix(name)| >= 2 && Suffix(name)[0] == '.' && NoDotAfter(Suffix(name), 0)
      && Stem(name) != []
  {
    if HasSuffix(name) {
      var i := LastDot(name);
      assert name[..i] + name[i..] == name;
    }
  }

  /** Text without a '.' after the name does not move its last '.'. */
  lemma LastDotAppendNoDot(a: string, b: string)
    requires NoDotAfter(b, -1)
    ensures LastDot(a + b) == LastDot(a)
  {
    LastDotUnique(a + b, LastDot(a));
  }

  /** After a name followed by a suffix, the last '.' is the suffix's. */
  lemma LastDotAppendSuffix(a: string, sf: string)
    requires |sf| >= 1 && sf[0] == '.' && NoDotAfter(sf, 0)
    ensures LastDot(a + sf) == |a|
  {
    LastDotUnique(a + sf, |a|);
  }

  // ---------------------------------------------------------------------
  // Substrings

  lemma ContainsSuffixOf(a: string, t: string)
    ensures Contains(a + t, t)
  {
    assert OccursAt(a + t, t, |a|);
  }

  lemma ContainsPrefix(a: string, b: string, t: string)
    requires Contains(a, t)
    ensures Contains(a + b, t)
  {
    var i :| 0 <= i <= |a| - |t| && OccursAt(a, t, i);
    assert (a + b)[i..i + |t|] == a[i..i + |t|];
    assert OccursAt(a + b, t, i);
  }

  // ---------------------------------------------------------------------
  // The derived name

  /** With a suffix, the marker goes in front of it: the derived name has the
      same suffix and its stem is the old stem followed by the marker. */
  lemma CleanedNameKeepsSuffix(name: string)
    requires Suffix(name) != []
    ensures Suffix(CleanedName(name)) == Suffix(name)
    ensures Stem(CleanedName(name)) == Stem(name) + Marker
  {
    var st, sf := Stem(name), Suffix(name);
    StemSuffixSplit(name);
    assert CleanedName(name) == (st + Marker) + sf;
    LastDotAppendSuffix(st + Marker, sf);
    var d := CleanedName(name);
    assert d[..|st + Marker|] == st + Marker;
    assert d[|st + Marker|..] == sf;
  }

  /** A second run over the folder skips a derived name exactly when the
      original name does not end in a '.' after at least one other
      character: "foo." becomes "foo._cleaned", whose stem is "foo". */
  lemma {:induction false} SecondRunSkips(name: string)
    requires !IsSkipped(name)
    ensures IsSkipped(CleanedName(name)) <==>
      !(|name| >= 2 && name[|name| - 1] == '.')
  {
    var d := CleanedName(name);
    if Suffix(name) != [] {
      CleanedNameKeepsSuffix(name);
      ContainsSuffixOf(Stem(name), Marker);
      StemSuffixSplit(name);
      assert name[|name| - 1] == Suffix(name)[|Suffix(name)| - 1];
    } else {
      assert d == name + Marker;
      LastDotAppendNoDot(name, Marker);
      var i := LastDot(name);
      if 0 < i {
        // the name ends in its only suffix-less '.'
        assert i == |name| - 1;
        assert Stem(d) == name[..i];
        assert name == name[..i] + [name[i]];
        if Contains(name[..i], Marker) {
          ContainsPrefix(name[..i], [name[i]], Marker);
        }
      } else {
        assert Stem(d) == d;
        ContainsSuffixOf(name, Marker);
        assert !(|name| >= 2 && name[|name| - 1] == '.');
      }
    }
  }

  /** A name with a suffix and a name without one, neither skipped, never
      derive the same name: either the second derived name has no suffix,
      or its stem lacks the marker that the first derived stem carries. */
  lemma MixedSuffixesDiffer(a: string, b: string)
    requires Suffix(a) != [] && Suffix(b) == []
    requires !IsSkipped(b)
    ensures CleanedName(a) != CleanedName(b)
  {
    CleanedNameKeepsSuffix(a);
    ContainsSuffixOf(Stem(a), Marker);
    var db := CleanedName(b);
    assert db == b + Marker;
    LastDotAppendNoDot(b, Marker);
    var i := LastDot(b);
    if HasSuffix(db) {
      assert Stem(db) == b[..i];
      assert b[..i] + b[i..] == b;
      if Contains(b[..i], Marker) {
        ContainsPrefix(b[..i], b[i..], Marker);
      }
      assert !Contains(Stem(db), Marker);
    } else {
      assert Suffix(db) == [];
    }
  }

  /** Distinct names that are not skipped derive distinct names, so two
      files of one folder never share an output. */
  lemma CleanedNameInjective(a: string, b: string)
    requires !IsSkipped(a) && !IsSkipped(b)
    requires a != b
    ensures CleanedName(a) != CleanedName(b)
  {
    StemSuffixSplit(a);
    StemSuffixSplit(b);
    if Suffix(a) != [] && Suffix(b) != [] {
      CleanedNameKeepsSuffix(a);
      CleanedNameKeepsSuffix(b);
      if Suffix(a) == Suffix(b) {
        assert Stem(a) != Stem(b);
        var sa, sb := Stem(a) + Marker, Stem(b) + Marker;
        assert Stem(a) == sa[..|sa| - |Marker|];
        assert Stem(b) == sb[..|sb| - |Marker|];
      }
    } else if Suffix(a) == [] && Suffix(b) == [] {
      var da, db := CleanedName(a), CleanedName(b);
      assert da == a + Marker && db == b + Marker;
      assert a == da[..|a|];
      assert b == db[..|b|];
    } else if Suffix(a) != [] {
      MixedSuffixesDiffer(a, b);
    } else {
      MixedSuffixesDiffer(b, a);
    }
  }

  lemma ExampleTrailingDot()
    ensures CleanedName("foo.") == "foo._cleaned"
    ensures !IsSkipped("foo.") && !IsSkipped("foo._cleaned")
  {
    assert LastDot("foo.") == 3;
    SecondRunSkips("foo.");
  }
}
