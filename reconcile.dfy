/**
 * Reconciliation and the submission gate of `main` in ohc-uploader.py: the
 * local hashes not yet on the account, the one-request cap, and the text of
 * the overflow file written when the cap is exceeded.
 */
module Reconcile {
  import opened Sequences

  /** `MAX_HASHES_PER_REQUEST`: the most hashes one upload request may carry. */
  const MaxHashesPerRequest: nat := 50

  /** `new_hashes`: the local hashes that are not in the existing set, in their local order. */
  function NewHashes(hashes: seq<string>, existing: set<string>): (r: seq<string>)
    ensures IsSubsequence(r, hashes)
    ensures forall h :: h in r <==> h in hashes && h !in existing
  {
    if hashes == [] then []
    else
      var init, h := hashes[..|hashes| - 1], hashes[|hashes| - 1];
      var rest := NewHashes(init, existing);
      assert hashes == init + [h];
      if h in existing then
        SubsequenceExtend(rest, init, h);
        rest
      else
        rest + [h]
  }

  /** Filtering never adds hashes: there are at most as many new hashes as local ones. */
  lemma NewHashesLength(hashes: seq<string>, existing: set<string>)
    ensures |NewHashes(hashes, existing)| <= |hashes|
  {
    SubsequenceLength(NewHashes(hashes, existing), hashes);
  }

  /** Filtering keeps a duplicate-free list duplicate-free, so no hash is uploaded twice. */
  lemma {:induction false} NewHashesNoDuplicates(hashes: seq<string>, existing: set<string>)
    requires NoDuplicates(hashes)
    ensures NoDuplicates(NewHashes(hashes, existing))
  {
    if hashes != [] {
      var init, h := hashes[..|hashes| - 1], hashes[|hashes| - 1];
      NewHashesNoDuplicates(init, existing);
      assert h !in init;
    }
  }

  /**
   * `skipped = len(hashes) - len(new_hashes)` is the number of distinct local
   * hashes that are already on the account.
   */
  lemma {:induction false} SkippedCount(hashes: seq<string>, existing: set<string>)
    requires NoDuplicates(hashes)
    ensures |hashes| - |NewHashes(hashes, existing)| == |(set h | h in hashes) * existing|
  {
    if hashes != [] {
      var init, h := hashes[..|hashes| - 1], hashes[|hashes| - 1];
      SkippedCount(init, existing);
      assert hashes == init + [h];
      assert h !in init;
      var before := (set x | x in init) * existing;
      var after := (set x | x in hashes) * existing;
      if h in existing {
        assert after == before + {h};
      } else {
        assert after == before;
      }
    }
  }

  /** The decision of the submission gate. */
  datatype Gate =
    | SubmitAll(batch: seq<string>)      // one request carries every new hash
    | Withhold(overflow: seq<string>)    // no request; these hashes go to the overflow file

  /**
   * The one-request rule: at most `MaxHashesPerRequest` new hashes are
   * submitted together; above that nothing is submitted and everything after
   * the first `MaxHashesPerRequest` is set aside as overflow.
   */
  function SubmissionGate(newHashes: seq<string>): (g: Gate)
    ensures g.SubmitAll? <==> |newHashes| <= MaxHashesPerRequest
    ensures g.SubmitAll? ==> g.batch == newHashes
    ensures g.Withhold? ==>
              && |g.overflow| == |newHashes| - MaxHashesPerRequest > 0
              && newHashes[..MaxHashesPerRequest] + g.overflow == newHashes
  {
    if |newHashes| > MaxHashesPerRequest then
      Withhold(newHashes[MaxHashesPerRequest..])
    else
      SubmitAll(newHashes)
  }

  /** With exactly the cap, everything goes out in one request. */
  lemma GateAtCap(newHashes: seq<string>)
    requires |newHashes| == MaxHashesPerRequest
    ensures SubmissionGate(newHashes) == SubmitAll(newHashes)
  {
  }

  /** One over the cap: nothing is submitted and only the last hash overflows. */
  lemma GateOneOverCap(newHashes: seq<string>)
    requires |newHashes| == MaxHashesPerRequest + 1
    ensures SubmissionGate(newHashes) == Withhold([newHashes[MaxHashesPerRequest]])
  {
  }

  // ---------------------------------------------------------------------------
  // The overflow file

  /** Python's `"\n".join(xs)`. */
  function JoinLines(xs: seq<string>): string {
    if xs == [] then []
    else if |xs| == 1 then xs[0]
    else xs[0] + "\n" + JoinLines(xs[1..])
  }

  /** The text written to the overflow file: `"\n".join(overflow) + "\n"`. */
  function OverflowText(overflow: seq<string>): string {
    JoinLines(overflow) + "\n"
  }

  /**
   * Python's `s.split("\n")`: the pieces between newlines, read one character
   * at a time; there is always one more piece than there are newlines.
   */
  function SplitLines(s: string): (r: seq<string>)
    ensures |r| >= 1
  {
    if s == [] then [""]
    else
      var rest := SplitLines(s[1..]);
      if s[0] == '\n' then [""] + rest else [[s[0]] + rest[0]] + rest[1..]
  }

  /** Reading an overflow file back: its pieces, without the empty piece after the final newline. */
  function ParseOverflow(text: string): seq<string> {
    var pieces := SplitLines(text);
    if pieces[|pieces| - 1] == [] then pieces[..|pieces| - 1] else pieces
  }

  /** No element contains a newline. */
  predicate NewlineFree(xs: seq<string>) {
    forall i :: 0 <= i < |xs| ==> '\n' !in xs[i]
  }

  /** Splitting at a first newline yields the piece before it, then the split of the rest. */
  lemma {:induction false} SplitAtNewline(a: string, b: string)
    requires '\n' !in a
    ensures SplitLines(a + "\n" + b) == [a] + SplitLines(b)
  {
    var s := a + "\n" + b;
    if a == [] {
      assert s[1..] == b;
    } else {
      assert s[0] == a[0];
      assert s[1..] == a[1..] + "\n" + b;
      SplitAtNewline(a[1..], b);
      assert [a[0]] + a[1..] == a;
    }
  }

  /** Joining a non-empty tail after a first piece puts one newline between them. */
  lemma JoinCons(a: string, ps: seq<string>)
    requires ps != []
    ensures JoinLines([a] + ps) == a + "\n" + JoinLines(ps)
  {
    assert ([a] + ps)[1..] == ps;
  }

  lemma {:induction false} SplitJoin(xs: seq<string>)
    requires xs != [] && NewlineFree(xs)
    ensures SplitLines(JoinLines(xs) + "\n") == xs + [""]
  {
    assert '\n' !in xs[0];
    if |xs| == 1 {
      assert JoinLines(xs) + "\n" == xs[0] + "\n" + "";
      SplitAtNewline(xs[0], "");
      assert xs + [""] == [xs[0]] + [""];
    } else {
      var tail := xs[1..];
      assert NewlineFree(tail) by {
        forall i | 0 <= i < |tail| ensures '\n' !in tail[i] {
          assert tail[i] == xs[i + 1];
        }
      }
      SplitJoin(tail);
      var t := JoinLines(tail) + "\n";
      assert JoinLines(xs) + "\n" == xs[0] + "\n" + t;
      SplitAtNewline(xs[0], t);
      assert xs + [""] == [xs[0]] + (tail + [""]);
    }
  }

  /**
   * Reading the overflow file back gives exactly the overflow hashes, given
   * that the list is not empty (the gate never writes an empty one) and no hash
   * contains a newline (stripped lines never do).
   */
  lemma OverflowRoundTrip(xs: seq<string>)
    requires xs != [] && NewlineFree(xs)
    ensures ParseOverflow(OverflowText(xs)) == xs
  {
    SplitJoin(xs);
    assert (xs + [""])[..|xs|] == xs;
  }

  lemma {:induction false} JoinSplit(s: string)
    ensures JoinLines(SplitLines(s)) == s
  {
    if s != [] {
      var rest := SplitLines(s[1..]);
      JoinSplit(s[1..]);
      if s[0] == '\n' {
        JoinCons("", rest);
      } else if |rest| == 1 {
        assert SplitLines(s) == [[s[0]] + rest[0]];
      } else {
        JoinCons(rest[0], rest[1..]);
        assert [rest[0]] + rest[1..] == rest;
        JoinCons([s[0]] + rest[0], rest[1..]);
      }
    }
  }

  lemma {:induction false} SplitEndsWithNewline(s: string)
    requires s != [] && s[|s| - 1] == '\n'
    ensures |SplitLines(s)| >= 2 && SplitLines(s)[|SplitLines(s)| - 1] == []
  {
    var rest := s[1..];
    if rest == [] {
      assert SplitLines(s) == [""] + [""];
    } else {
      assert rest[|rest| - 1] == '\n';
      SplitEndsWithNewline(rest);
    }
  }

  lemma {:induction false} JoinAppend(xs: seq<string>, y: string)
    requires xs != []
    ensures JoinLines(xs + [y]) == JoinLines(xs) + "\n" + y
  {
    if |xs| > 1 {
      JoinAppend(xs[1..], y);
      assert (xs + [y])[1..] == xs[1..] + [y];
    }
  }

  /** Conversely, any newline-terminated text is the overflow text of what is read back from it. */
  lemma OverflowTextOfParse(text: string)
    requires text != [] && text[|text| - 1] == '\n'
    ensures OverflowText(ParseOverflow(text)) == text
  {
    var pieces := SplitLines(text);
    SplitEndsWithNewline(text);
    JoinSplit(text);
    var init := pieces[..|pieces| - 1];
    assert pieces == init + [""];
    JoinAppend(init, "");
  }
}
