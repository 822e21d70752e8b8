/** The citation stripper of remove_citations.py: the substitution
    re.sub(r'(?<![\d])(?<=\.)1(?=\s)', '', content).

    A match of the pattern is always exactly the one character '1', and every
    lookaround reads the original text, so the substitution deletes each
    position whose surroundings satisfy the pattern, independently of the
    others. */
module Citations {

  /** Python's `\s` on a str pattern: the characters for which str.isspace()
      holds (ASCII whitespace, the four information separators and the
      Unicode space separators). */
  predicate IsSpace(c: char) {
    || c == ' '
    || ('\t' <= c <= '\r')
    || ('\U{1C}' <= c <= '\U{1F}')
    || c == '\U{85}' || c == '\U{A0}' || c == '\U{1680}'
    || ('\U{2000}' <= c <= '\U{200A}')
    || c == '\U{2028}' || c == '\U{2029}' || c == '\U{202F}'
    || c == '\U{205F}' || c == '\U{3000}'
  }

  /** Python's `\d`, restricted to the ASCII digits. */
  predicate IsDigit(c: char) {
    '0' <= c <= '9'
  }

  /** The two patterns compared here: the one the script uses and the same
      pattern without its negative lookbehind. */
  datatype Pattern =
    | AsWritten          // (?<![\d])(?<=\.)1(?=\s)
    | WithoutLookbehind  // (?<=\.)1(?=\s)

  /** `(?<![\d])` tried at position i: no digit just before i. */
  predicate NoDigitBefore(s: string, i: nat)
    requires i <= |s|
  {
    !(i > 0 && IsDigit(s[i - 1]))
  }

  /** `(?<=\.)` tried at position i: a '.' just before i. */
  predicate DotBefore(s: string, i: nat)
    requires i <= |s|
  {
    i > 0 && s[i - 1] == '.'
  }

  /** `(?=\s)` tried at position j: a whitespace character at j. */
  predicate SpaceAt(s: string, j: nat) {
    j < |s| && IsSpace(s[j])
  }

  /** The pattern matches at position i (and then the match is s[i..i+1]). */
  predicate MatchAt(p: Pattern, s: string, i: nat)
    requires i < |s|
  {
    && (p == AsWritten ==> NoDigitBefore(s, i))
    && DotBefore(s, i)
    && s[i] == '1'
    && SpaceAt(s, i + 1)
  }

  /** A citation position: where the script's own pattern matches. */
  predicate CitationAt(s: string, i: nat)
    requires i < |s|
  {
    MatchAt(AsWritten, s, i)
  }

  /** re.sub(p, '', s[i..]) with the lookarounds still seeing all of s: the
      scan from position i that drops every match and copies every other
      character. */
  function SubFrom(p: Pattern, s: string, i: nat): string
    requires i <= |s|
    decreases |s| - i
  {
    if i == |s| then []
    else (if MatchAt(p, s, i) then [] else [s[i]]) + SubFrom(p, s, i + 1)
  }

  function Sub(p: Pattern, s: string): string {
    SubFrom(p, s, 0)
  }

  /** The cleaned content written by remove_citations_from_file. */
  function Strip(s: string): string {
    Sub(AsWritten, s)
  }

  /** Sorted without repetition. */
  predicate Increasing(xs: seq<nat>) {
    forall a, b :: 0 <= a < b < |xs| ==> xs[a] < xs[b]
  }

  /** The positions at or after i that hold no citation, in order. */
  function KeptFrom(s: string, i: nat): (ks: seq<nat>)
    requires i <= |s|
    ensures Increasing(ks)
    ensures forall k :: 0 <= k < |ks| ==> i <= ks[k] < |s|
    ensures forall j :: i <= j < |s| ==> (j in ks <==> !CitationAt(s, j))
    decreases |s| - i
  {
    if i == |s| then []
    else if CitationAt(s, i) then KeptFrom(s, i + 1)
    else [i] + KeptFrom(s, i + 1)
  }

  /** The citation positions at or after i, in order. */
  function CitationsFrom(s: string, i: nat): (cs: seq<nat>)
    requires i <= |s|
    ensures Increasing(cs)
    ensures forall k :: 0 <= k < |cs| ==> i <= cs[k] < |s|
    ensures forall j :: i <= j < |s| ==> (j in cs <==> CitationAt(s, j))
    decreases |s| - i
  {
    if i == |s| then []
    else if CitationAt(s, i) then [i] + CitationsFrom(s, i + 1)
    else CitationsFrom(s, i + 1)
  }

  function KeptPositions(s: string): seq<nat> {
    KeptFrom(s, 0)
  }

  function CitationPositions(s: string): seq<nat> {
    CitationsFrom(s, 0)
  }

  /** No position of s holds a citation. */
  predicate NoCitations(s: string) {
    forall i :: 0 <= i < |s| ==> !CitationAt(s, i)
  }

  // ---------------------------------------------------------------------
  // What a citation is

  /** A citation is a '1' with a '.' just before it and whitespace just
      after it; nothing else is. In particular a '1' at the start, a '1' at
      the end and a '1' followed by anything but whitespace are kept. */
  lemma CitationAtMeans(s: string, i: nat)
    requires i < |s|
    ensures CitationAt(s, i) <==>
      s[i] == '1' && 0 < i && s[i - 1] == '.' && i + 1 < |s| && IsSpace(s[i + 1])
  {
  }

  /** The negative lookbehind `(?<![\d])` inspects the same character as
      `(?<=\.)`, the one just before the '1', and a '.' is never a digit: it
      never rejects a position the dot lookbehind accepts. */
  lemma {:induction false} LookbehindRedundantFrom(s: string, i: nat)
    requires i <= |s|
    ensures SubFrom(AsWritten, s, i) == SubFrom(WithoutLookbehind, s, i)
    decreases |s| - i
  {
    if i < |s| {
      assert MatchAt(AsWritten, s, i) == MatchAt(WithoutLookbehind, s, i);
      LookbehindRedundantFrom(s, i + 1);
    }
  }

  lemma LookbehindRedundant(s: string)
    ensures Strip(s) == Sub(WithoutLookbehind, s)
  {
    LookbehindRedundantFrom(s, 0);
  }

  // ---------------------------------------------------------------------
  // The result of the substitution, position by position

  lemma {:induction false} SubFromKept(s: string, i: nat)
    requires i <= |s|
    ensures |SubFrom(AsWritten, s, i)| == |KeptFrom(s, i)|
    ensures forall k :: 0 <= k < |KeptFrom(s, i)| ==>
      SubFrom(AsWritten, s, i)[k] == s[KeptFrom(s, i)[k]]
    decreases |s| - i
  {
    if i < |s| {
      SubFromKept(s, i + 1);
    }
  }

  /** Strip(s) is exactly the characters of s at the non-citation positions,
      in their original order. */
  lemma StripIsKept(s: string)
    ensures |Strip(s)| == |KeptPositions(s)|
    ensures forall k :: 0 <= k < |KeptPositions(s)| ==> Strip(s)[k] == s[KeptPositions(s)[k]]
    ensures Increasing(KeptPositions(s))
    ensures forall j :: 0 <= j < |s| ==> (j in KeptPositions(s) <==> !CitationAt(s, j))
  {
    SubFromKept(s, 0);
  }

  lemma {:induction false} KeptCitationsPartition(s: string, i: nat)
    requires i <= |s|
    ensures |KeptFrom(s, i)| + |CitationsFrom(s, i)| == |s| - i
    decreases |s| - i
  {
    if i < |s| {
      KeptCitationsPartition(s, i + 1);
    }
  }

  /** Every deleted character is a '1' between a '.' and whitespace, and the
      output is shorter than the input by exactly the number of those. */
  lemma StripRemovesCitations(s: string)
    ensures |Strip(s)| == |s| - |CitationPositions(s)|
    ensures forall k :: 0 <= k < |CitationPositions(s)| ==>
      var j := CitationPositions(s)[k];
      0 < j && j + 1 < |s| && s[j - 1] == '.' && s[j] == '1' && IsSpace(s[j + 1])
  {
    StripIsKept(s);
    KeptCitationsPartition(s, 0);
    forall k | 0 <= k < |CitationPositions(s)|
      ensures CitationAt(s, CitationPositions(s)[k])
    {
      assert CitationPositions(s)[k] in CitationPositions(s);
    }
  }

  // ---------------------------------------------------------------------
  // Idempotence

  /** The scan copies every character of a stretch without citations. */
  lemma {:induction false} SubFromCopies(s: string, i: nat, m: nat)
    requires i <= m <= |s|
    requires forall j :: i <= j < m ==> !CitationAt(s, j)
    ensures SubFrom(AsWritten, s, i) == s[i..m] + SubFrom(AsWritten, s, m)
    decreases m - i
  {
    if i < m {
      assert !CitationAt(s, i);
      SubFromCopies(s, i + 1, m);
      assert s[i..m] == [s[i]] + s[i + 1..m];
    }
  }

  /** A text without citation positions is returned unchanged. */
  lemma NoCitationsUnchanged(t: string)
    requires NoCitations(t)
    ensures Strip(t) == t
  {
    SubFromCopies(t, 0, |t|);
  }

  /** A text that contains no '1' is returned unchanged. */
  lemma NoOneUnchanged(t: string)
    requires '1' !in t
    ensures Strip(t) == t
  {
    assert NoCitations(t) by {
      forall i | 0 <= i < |t| ensures !CitationAt(t, i) {
        assert t[i] in t;
      }
    }
    NoCitationsUnchanged(t);
  }

  /** A '1' that survives keeps its two neighbours: the characters just
      before and after it cannot be citations, since a citation needs a '1'
      neither before its '.' nor after its whitespace. */
  lemma KeptNeighbours(s: string, k: nat)
    requires 0 < k < |KeptPositions(s)| - 1
    requires s[KeptPositions(s)[k]] == '1'
    ensures KeptPositions(s)[k - 1] == KeptPositions(s)[k] - 1
    ensures KeptPositions(s)[k + 1] == KeptPositions(s)[k] + 1
  {
    var ks := KeptPositions(s);
    var i := ks[k];
    assert Increasing(ks);
    assert ks[k - 1] < i < ks[k + 1];
    assert !CitationAt(s, i - 1) by {
      assert !IsSpace(s[i]);
    }
    assert i - 1 in ks;
    var q :| 0 <= q < |ks| && ks[q] == i - 1;
    assert q == k - 1;
    assert !CitationAt(s, i + 1);
    assert i + 1 in ks;
    var r :| 0 <= r < |ks| && ks[r] == i + 1;
    assert r == k + 1;
  }

  /** Deleting a '1' that sits between '.' and whitespace never brings a new
      '.', '1', whitespace triple together. */
  lemma StripLeavesNoCitations(s: string)
    ensures NoCitations(Strip(s))
  {
    var t, ks := Strip(s), KeptPositions(s);
    StripIsKept(s);
    forall k | 0 <= k < |t| ensures !CitationAt(t, k) {
      var i := ks[k];
      assert !CitationAt(s, i) by {
        assert i in ks;
      }
      if t[k] == '1' && 0 < k < |t| - 1 {
        KeptNeighbours(s, k);
        assert t[k - 1] == s[i - 1] && t[k + 1] == s[i + 1];
      }
    }
  }

  /** Running the stripper on its own output changes nothing. */
  lemma StripIdempotent(s: string)
    ensures Strip(Strip(s)) == Strip(s)
  {
    StripLeavesNoCitations(s);
    NoCitationsUnchanged(Strip(s));
  }

  // ---------------------------------------------------------------------
  // Examples

  /** The period and the whitespace stay; only the digit goes. */
  lemma ExampleCitation()
    ensures Strip("See note.1 here") == "See note. here"
  {
    var s := "See note.1 here";
    SubFromCopies(s, 0, 9);
    assert CitationAt(s, 9);
    SubFromCopies(s, 10, |s|);
  }

  /** A version number followed by a period keeps both of its digits. */
  lemma ExampleVersion()
    ensures Strip("Version 1.1. released") == "Version 1.1. released"
  {
    NoCitationsUnchanged("Version 1.1. released");
  }

  /** Against the comment on the lookbehind, a version number followed by
      whitespace loses its last digit. */
  lemma ExampleVersionBeforeSpace()
    ensures Strip("1.1 ") == "1. "
  {
    assert CitationAt("1.1 ", 2);
  }
}
