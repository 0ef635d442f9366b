/**
 * The local hash collector of ohc-uploader.py (`read_hashes_from_files`).
 *
 * Every `*.hc22000` file of the working directory is read line by line, in
 * sorted file-name order; each line is stripped of surrounding whitespace,
 * blank lines and `#` comment lines are dropped, and the hashes of all files
 * are concatenated and then de-duplicated, keeping the first occurrence of each.
 *
 * The directory listing and reading are not modelled: a run sees the files as
 * `seq<seq<string>>`, the lines of each file in the already-sorted file order.
 */
module Collector {
  import opened Sequences

  /** Python's `str.isspace()` for one character: the characters `str.strip()` removes. */
  predicate IsSpace(c: char) {
    || '\t' <= c <= '\r'
    || '\U{1C}' <= c <= '\U{1F}'
    || c == ' '
    || c == '\U{85}'
    || c == '\U{A0}'
    || c == '\U{1680}'
    || '\U{2000}' <= c <= '\U{200A}'
    || c == '\U{2028}'
    || c == '\U{2029}'
    || c == '\U{202F}'
    || c == '\U{205F}'
    || c == '\U{3000}'
  }

  /** The number of whitespace characters at the start of `s`. */
  function LeadingSpaces(s: string): (n: nat)
    ensures n <= |s|
    ensures forall k :: 0 <= k < n ==> IsSpace(s[k])
    ensures n < |s| ==> !IsSpace(s[n])
  {
    if s != [] && IsSpace(s[0]) then 1 + LeadingSpaces(s[1..]) else 0
  }

  /** The number of whitespace characters at the end of `s`. */
  function TrailingSpaces(s: string): (n: nat)
    ensures n <= |s|
    ensures forall k :: |s| - n <= k < |s| ==> IsSpace(s[k])
    ensures n < |s| ==> !IsSpace(s[|s| - n - 1])
  {
    if s != [] && IsSpace(s[|s| - 1]) then 1 + TrailingSpaces(s[..|s| - 1]) else 0
  }

  /**
   * Python's `str.strip()`: the slice of `s` that remains once the whitespace
   * at both ends is removed. The result neither starts nor ends with
   * whitespace, and everything cut off on either side is whitespace.
   */
  function Strip(s: string): (r: string)
    ensures r == [] || (!IsSpace(r[0]) && !IsSpace(r[|r| - 1]))
    ensures LeadingSpaces(s) + |r| <= |s|
    ensures r == s[LeadingSpaces(s)..LeadingSpaces(s) + |r|]
    ensures forall k :: LeadingSpaces(s) + |r| <= k < |s| ==> IsSpace(s[k])
  {
    var a := LeadingSpaces(s);
    var t := s[a..];
    t[..|t| - TrailingSpaces(t)]
  }

  /** A line the collector keeps: not blank once stripped, and not a `#` comment. */
  predicate IsHashLine(line: string) {
    var h := Strip(line);
    h != [] && h[0] != '#'
  }

  /** A line as Python's line iteration yields it: a newline can only be its last character. */
  predicate IsFileLine(line: string) {
    forall k :: 0 <= k < |line| - 1 ==> line[k] != '\n'
  }

  /** The stripped hash lines of one file, in line order. */
  function HashesInFile(lines: seq<string>): seq<string> {
    if lines == [] then []
    else
      var line := lines[|lines| - 1];
      HashesInFile(lines[..|lines| - 1]) + (if IsHashLine(line) then [Strip(line)] else [])
  }

  /** The stripped hash lines of all files, concatenated in file order (`all_hashes`). */
  function AllHashes(files: seq<seq<string>>): seq<string> {
    if files == [] then []
    else AllHashes(files[..|files| - 1]) + HashesInFile(files[|files| - 1])
  }

  /** Order-preserving de-duplication: each value is kept at its first occurrence only. */
  function Dedup(s: seq<string>): seq<string> {
    if s == [] then []
    else
      var d := Dedup(s[..|s| - 1]);
      if s[|s| - 1] in d then d else d + [s[|s| - 1]]
  }

  /** What `read_hashes_from_files` returns for the given files. */
  function CollectedHashes(files: seq<seq<string>>): seq<string> {
    Dedup(AllHashes(files))
  }

  /** `read_hashes_from_files`: concatenate the hash lines of all files, then de-duplicate. */
  method ReadHashes(files: seq<seq<string>>) returns (hashes: seq<string>)
    ensures hashes == CollectedHashes(files)
  {
    if |files| == 0 {
      return [];
    }
    var allHashes: seq<string> := [];
    for f := 0 to |files|
      invariant allHashes == AllHashes(files[..f])
    {
      var lines := files[f];
      for l := 0 to |lines|
        invariant allHashes == AllHashes(files[..f]) + HashesInFile(lines[..l])
      {
        var h := Strip(lines[l]);
        HashesInFileStep(lines, l);
        if h != [] && h[0] != '#' {
          allHashes := allHashes + [h];
        }
      }
      assert lines[..|lines|] == lines;
      AllHashesStep(files, f);
    }
    assert files[..|files|] == files;

    var seen: set<string> := {};
    var deduped: seq<string> := [];
    for k := 0 to |allHashes|
      invariant deduped == Dedup(allHashes[..k])
      invariant forall x :: x in seen <==> x in deduped
    {
      var h := allHashes[k];
      DedupStep(allHashes, k);
      if h !in seen {
        seen := seen + {h};
        deduped := deduped + [h];
      }
    }
    assert allHashes[..|allHashes|] == allHashes;
    hashes := deduped;
  }

  lemma HashesInFileStep(lines: seq<string>, l: int)
    requires 0 <= l < |lines|
    ensures HashesInFile(lines[..l + 1]) ==
            HashesInFile(lines[..l]) + (if IsHashLine(lines[l]) then [Strip(lines[l])] else [])
  {
    assert lines[..l + 1][..l] == lines[..l];
  }

  lemma AllHashesStep(files: seq<seq<string>>, f: int)
    requires 0 <= f < |files|
    ensures AllHashes(files[..f + 1]) == AllHashes(files[..f]) + HashesInFile(files[f])
  {
    assert files[..f + 1][..f] == files[..f];
  }

  lemma DedupStep(s: seq<string>, k: int)
    requires 0 <= k < |s|
    ensures Dedup(s[..k + 1]) ==
            if s[k] in Dedup(s[..k]) then Dedup(s[..k]) else Dedup(s[..k]) + [s[k]]
  {
    assert s[..k + 1][..k] == s[..k];
  }

  // ---------------------------------------------------------------------------
  // Properties of the line filter

  /** Line `l` of `lines` is a hash line whose stripped form is `x`. */
  predicate HashLineAt(lines: seq<string>, l: int, x: string) {
    0 <= l < |lines| && IsHashLine(lines[l]) && Strip(lines[l]) == x
  }

  /** Line `l` of file `f` is a hash line whose stripped form is `x`. */
  predicate HashAt(files: seq<seq<string>>, f: int, l: int, x: string) {
    0 <= f < |files| && HashLineAt(files[f], l, x)
  }

  /** The stripped form of a hash line of a file is one of the file's hashes. */
  lemma {:induction false} HashLineInFile(lines: seq<string>, l: int, x: string)
    requires HashLineAt(lines, l, x)
    ensures x in HashesInFile(lines)
  {
    var init := lines[..|lines| - 1];
    if l < |init| {
      assert HashLineAt(init, l, x);
      HashLineInFile(init, l, x);
    }
  }

  /** A value is a hash of a file exactly when it is the stripped form of one of its hash lines. */
  lemma {:induction false} HashesInFileMembers(lines: seq<string>, x: string)
    ensures x in HashesInFile(lines) <==> exists l :: HashLineAt(lines, l, x)
  {
    if lines != [] {
      var init := lines[..|lines| - 1];
      HashesInFileMembers(init, x);
      if x in HashesInFile(init) {
        var l :| HashLineAt(init, l, x);
        assert HashLineAt(lines, l, x);
      } else if x in HashesInFile(lines) {
        assert HashLineAt(lines, |lines| - 1, x);
      }
    }
    if l :| HashLineAt(lines, l, x) {
      HashLineInFile(lines, l, x);
    }
  }

  /** The stripped form of a hash line of any file is collected. */
  lemma {:induction false} HashLineCollected(files: seq<seq<string>>, f: int, l: int, x: string)
    requires HashAt(files, f, l, x)
    ensures x in AllHashes(files)
  {
    var init, last := files[..|files| - 1], files[|files| - 1];
    if f < |init| {
      assert HashAt(init, f, l, x);
      HashLineCollected(init, f, l, x);
    } else {
      HashLineInFile(last, l, x);
    }
  }

  /** A value is collected exactly when it is the stripped form of a hash line of some file. */
  lemma {:induction false} AllHashesMembers(files: seq<seq<string>>, x: string)
    ensures x in AllHashes(files) <==> exists f, l :: HashAt(files, f, l, x)
  {
    if files != [] {
      var init, last := files[..|files| - 1], files[|files| - 1];
      AllHashesMembers(init, x);
      HashesInFileMembers(last, x);
      if x in AllHashes(init) {
        var f, l :| HashAt(init, f, l, x);
        assert HashAt(files, f, l, x);
      } else if x in HashesInFile(last) {
        var l :| HashLineAt(last, l, x);
        assert HashAt(files, |files| - 1, l, x);
      }
    }
    if f, l :| HashAt(files, f, l, x) {
      HashLineCollected(files, f, l, x);
    }
  }

  /** Stripping a file line leaves no newline anywhere in it. */
  lemma StripFileLineHasNoNewline(line: string)
    requires IsFileLine(line)
    ensures '\n' !in Strip(line)
  {
    var h := Strip(line);
    var a := LeadingSpaces(line);
    forall k | 0 <= k < |h| ensures h[k] != '\n' {
      assert h[k] == line[a + k];
      if a + k == |line| - 1 {
        assert k == |h| - 1;
      }
    }
  }

  /** If every line is a file line, no collected hash contains a newline. */
  lemma AllHashesHaveNoNewline(files: seq<seq<string>>)
    requires forall f, l :: 0 <= f < |files| && 0 <= l < |files[f]| ==> IsFileLine(files[f][l])
    ensures forall h :: h in AllHashes(files) ==> '\n' !in h
  {
    forall h | h in AllHashes(files) ensures '\n' !in h {
      AllHashesMembers(files, h);
      var f, l :| HashAt(files, f, l, h);
      StripFileLineHasNoNewline(files[f][l]);
    }
  }

  // ---------------------------------------------------------------------------
  // Properties of the de-duplication

  lemma {:induction false} DedupElements(s: seq<string>, x: string)
    ensures x in Dedup(s) <==> x in s
  {
    if s != [] {
      DedupElements(s[..|s| - 1], x);
      assert s == s[..|s| - 1] + [s[|s| - 1]];
    }
  }

  lemma {:induction false} DedupNoDuplicates(s: seq<string>)
    ensures NoDuplicates(Dedup(s))
  {
    if s != [] {
      DedupNoDuplicates(s[..|s| - 1]);
    }
  }

  lemma {:induction false} DedupSubsequence(s: seq<string>)
    ensures IsSubsequence(Dedup(s), s)
  {
    if s != [] {
      var init, y := s[..|s| - 1], s[|s| - 1];
      DedupSubsequence(init);
      assert s == init + [y];
      if y in Dedup(init) {
        SubsequenceExtend(Dedup(init), init, y);
      }
    }
  }

  /** The first occurrence of `x` in `s` is its first occurrence in any longer sequence. */
  lemma FirstIndexExtend(s: seq<string>, y: string, x: string)
    requires x in s
    ensures FirstIndex(s + [y], x) == FirstIndex(s, x)
  {
    var i, j := FirstIndex(s + [y], x), FirstIndex(s, x);
    assert (s + [y])[j] == x;
    assert (s + [y])[..i] == s[..i];
  }

  /**
   * De-duplication keeps first-occurrence order: of two hashes in the result,
   * the earlier one first occurs earlier in the input.
   */
  lemma {:induction false} DedupFirstOccurrenceOrder(s: seq<string>)
    ensures forall x :: x in Dedup(s) ==> x in s
    ensures forall i, j :: 0 <= i < j < |Dedup(s)| ==>
                   FirstIndex(s, Dedup(s)[i]) < FirstIndex(s, Dedup(s)[j])
  {
    forall x | x in Dedup(s) ensures x in s {
      DedupElements(s, x);
    }
    if s != [] {
      var init, y := s[..|s| - 1], s[|s| - 1];
      assert s == init + [y];
      var d := Dedup(init);
      DedupFirstOccurrenceOrder(init);
      forall x | x in d ensures FirstIndex(s, x) == FirstIndex(init, x) {
        FirstIndexExtend(init, y, x);
      }
      if y !in d {
        DedupElements(init, y);
        assert FirstIndex(s, y) == |s| - 1 by {
          assert y !in s[..|s| - 1];
        }
        assert Dedup(s) == d + [y];
        forall i, j | 0 <= i < j < |Dedup(s)|
          ensures FirstIndex(s, Dedup(s)[i]) < FirstIndex(s, Dedup(s)[j])
        {
          assert Dedup(s)[i] == d[i] && d[i] in d;
          if j < |d| {
            assert Dedup(s)[j] == d[j] && d[j] in d;
          }
        }
      }
    }
  }

  /** First indices into `init` are unchanged by appending to it. */
  lemma FirstIndicesExtend(init: seq<string>, y: string)
    ensures forall x :: x in init ==> FirstIndex(init + [y], x) == FirstIndex(init, x)
  {
    forall x | x in init ensures FirstIndex(init + [y], x) == FirstIndex(init, x) {
      FirstIndexExtend(init, y, x);
    }
  }

  /** When the last input value occurred before, the characterisation carries over to the shorter input. */
  lemma UniqueOldLast(init: seq<string>, y: string, r: seq<string>)
    requires y in init
    requires forall x :: x in r <==> x in init + [y]
    requires forall i, j :: 0 <= i < j < |r| ==> FirstIndex(init + [y], r[i]) < FirstIndex(init + [y], r[j])
    ensures forall x :: x in r <==> x in init
    ensures forall i, j :: 0 <= i < j < |r| ==> FirstIndex(init, r[i]) < FirstIndex(init, r[j])
  {
    FirstIndicesExtend(init, y);
    forall x ensures x in r <==> x in init {
      assert x in init + [y] <==> x in init || x == y;
    }
  }

  /** A value first occurring at the very end of the input comes last in `r`. */
  lemma NewValueIsLast(init: seq<string>, y: string, r: seq<string>)
    requires y !in init
    requires forall x :: x in r <==> x in init + [y]
    requires forall i, j :: 0 <= i < j < |r| ==> FirstIndex(init + [y], r[i]) < FirstIndex(init + [y], r[j])
    ensures r != [] && r[|r| - 1] == y
  {
    var s := init + [y];
    assert y in s;
    var p :| 0 <= p < |r| && r[p] == y;
    assert FirstIndex(s, y) == |s| - 1 by {
      assert s[..|s| - 1] == init;
    }
    if p < |r| - 1 {
      ElementAt(r, |r| - 1);
      assert false;
    }
  }

  /**
   * When the last input value is new, it is the last value of `r`, and the
   * rest of `r` satisfies the characterisation for the shorter input.
   */
  lemma UniqueNewLast(init: seq<string>, y: string, r: seq<string>)
    requires y !in init
    requires NoDuplicates(r)
    requires forall x :: x in r <==> x in init + [y]
    requires forall i, j :: 0 <= i < j < |r| ==> FirstIndex(init + [y], r[i]) < FirstIndex(init + [y], r[j])
    ensures r != [] && r[|r| - 1] == y
    ensures NoDuplicates(r[..|r| - 1])
    ensures forall x :: x in r[..|r| - 1] <==> x in init
    ensures forall i, j :: 0 <= i < j < |r| - 1 ==> FirstIndex(init, r[i]) < FirstIndex(init, r[j])
  {
    NewValueIsLast(init, y, r);
    FirstIndicesExtend(init, y);
    var r' := r[..|r| - 1];
    assert r == r' + [y];
    forall x ensures x in r' <==> x in init {
      assert x in r <==> x in r' || x == y;
      assert x in init + [y] <==> x in init || x == y;
    }
    forall i, j | 0 <= i < j < |r'| ensures FirstIndex(init, r[i]) < FirstIndex(init, r[j]) {
      ElementAt(r', i);
      ElementAt(r', j);
    }
  }

  /**
   * The three properties above determine the result: any duplicate-free
   * sequence with the same elements as `s`, ordered by first occurrence in
   * `s`, is `Dedup(s)`.
   */
  lemma {:induction false} DedupUnique(s: seq<string>, r: seq<string>)
    requires NoDuplicates(r)
    requires forall x :: x in r <==> x in s
    requires forall i, j :: 0 <= i < j < |r| ==> FirstIndex(s, r[i]) < FirstIndex(s, r[j])
    ensures r == Dedup(s)
  {
    if s == [] {
      if r != [] {
        ElementAt(r, 0);
        assert false;
      }
    } else {
      var init, y := s[..|s| - 1], s[|s| - 1];
      assert s == init + [y];
      DedupElements(init, y);
      if y in init {
        UniqueOldLast(init, y, r);
        DedupUnique(init, r);
      } else {
        UniqueNewLast(init, y, r);
        var r' := r[..|r| - 1];
        DedupUnique(init, r');
        assert r == r' + [y];
      }
    }
  }

  /** De-duplicating a duplicate-free sequence changes nothing. */
  lemma {:induction false} DedupOfDistinct(s: seq<string>)
    requires NoDuplicates(s)
    ensures Dedup(s) == s
  {
    if s != [] {
      var init := s[..|s| - 1];
      DedupOfDistinct(init);
      assert s[|s| - 1] !in init;
      assert s == init + [s[|s| - 1]];
    }
  }

  // ---------------------------------------------------------------------------
  // What the collector returns

  /**
   * The collected hashes are duplicate-free, are exactly the stripped hash
   * lines of the files, appear in first-occurrence order of the concatenation
   * of the files, and form a subsequence of that concatenation.
   */
  lemma CollectedHashesSpec(files: seq<seq<string>>)
    ensures NoDuplicates(CollectedHashes(files))
    ensures forall x :: x in CollectedHashes(files) ==> x in AllHashes(files)
    ensures IsSubsequence(CollectedHashes(files), AllHashes(files))
    ensures forall x :: x in CollectedHashes(files) <==> exists f, l :: HashAt(files, f, l, x)
    ensures forall i :: 0 <= i < |CollectedHashes(files)| ==>
              CollectedHashes(files)[i] != [] && CollectedHashes(files)[i][0] != '#'
    ensures forall i, j :: 0 <= i < j < |CollectedHashes(files)| ==>
              FirstIndex(AllHashes(files), CollectedHashes(files)[i]) <
              FirstIndex(AllHashes(files), CollectedHashes(files)[j])
  {
    var all := AllHashes(files);
    DedupNoDuplicates(all);
    DedupSubsequence(all);
    DedupFirstOccurrenceOrder(all);
    forall x ensures x in CollectedHashes(files) <==> exists f, l :: HashAt(files, f, l, x) {
      DedupElements(all, x);
      AllHashesMembers(files, x);
    }
    forall i | 0 <= i < |CollectedHashes(files)|
      ensures CollectedHashes(files)[i] != [] && CollectedHashes(files)[i][0] != '#'
    {
      var h := CollectedHashes(files)[i];
      DedupElements(all, h);
      AllHashesMembers(files, h);
      var f, l :| HashAt(files, f, l, h);
    }
  }

  /**
   * The collector returns nothing exactly when no file has a hash line: there
   * are no files, or every line is blank or a comment.
   */
  lemma CollectedEmptyIff(files: seq<seq<string>>)
    ensures CollectedHashes(files) == [] <==>
            forall f, l :: 0 <= f < |files| && 0 <= l < |files[f]| ==> !IsHashLine(files[f][l])
  {
    var all := AllHashes(files);
    if all != [] {
      DedupElements(all, all[0]);
      AllHashesMembers(files, all[0]);
    } else {
      forall f, l | 0 <= f < |files| && 0 <= l < |files[f]| ensures !IsHashLine(files[f][l]) {
        AllHashesMembers(files, Strip(files[f][l]));
        assert !HashAt(files, f, l, Strip(files[f][l]));
      }
    }
  }

  /** Stripping a stripped line changes nothing. */
  lemma StripIsIdempotent(s: string)
    ensures Strip(Strip(s)) == Strip(s)
  {
    var h := Strip(s);
    assert LeadingSpaces(h) == 0;
    assert h[0..] == h;
    assert TrailingSpaces(h) == 0;
  }

  /** `x` is a hash line that is already its own stripped form. */
  predicate StrippedHashLine(x: string) {
    IsHashLine(x) && Strip(x) == x
  }

  /** A file whose lines are already stripped hash lines yields exactly those lines. */
  lemma {:induction false} HashesInFileOfStripped(lines: seq<string>)
    requires forall i :: 0 <= i < |lines| ==> StrippedHashLine(lines[i])
    ensures HashesInFile(lines) == lines
  {
    if lines != [] {
      var n := |lines| - 1;
      var init, x := lines[..n], lines[n];
      assert StrippedHashLine(x);
      assert forall i :: 0 <= i < |init| ==> StrippedHashLine(init[i]) by {
        forall i | 0 <= i < |init| ensures StrippedHashLine(init[i]) {
          assert init[i] == lines[i];
        }
      }
      HashesInFileOfStripped(init);
      assert HashesInFile(lines) == HashesInFile(init) + [x];
      assert init + [x] == lines;
    }
  }

  /**
   * Collecting again from the collected hashes, given as the lines of one
   * file, gives the same list: every collected hash is already stripped and a
   * hash line, and no hash occurs twice.
   */
  lemma CollectIsIdempotent(files: seq<seq<string>>)
    ensures CollectedHashes([CollectedHashes(files)]) == CollectedHashes(files)
  {
    var c := CollectedHashes(files);
    forall i | 0 <= i < |c| ensures StrippedHashLine(c[i]) {
      var h := c[i];
      ElementAt(c, i);
      DedupElements(AllHashes(files), h);
      AllHashesMembers(files, h);
      var f, l :| HashAt(files, f, l, h);
      StripIsIdempotent(files[f][l]);
    }
    HashesInFileOfStripped(c);
    assert [c][..0] == [];
    assert AllHashes([c]) == c;
    DedupNoDuplicates(AllHashes(files));
    DedupOfDistinct(c);
  }
}
