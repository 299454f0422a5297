/**
 * The edit buffer the rewriters use (the `magic-string` library): a string in
 * which ranges of the ORIGINAL text are overwritten. The model records each
 * `overwrite(start, end, text)` and renders the result from the original.
 */
module Edits {

  datatype Edit = Edit(start: int, end: int, text: string)

  /**
   * The rendered text from position `from` on: each edit that starts at or
   * after the end of the previous one and covers a non-empty range inside the
   * string replaces that range; an edit that does not (which magic-string
   * would reject with an exception) is dropped.
   */
  function RenderFrom(s: string, from: nat, edits: seq<Edit>): string
    requires from <= |s|
    decreases |edits|
  {
    if edits == [] then s[from..]
    else
      var e := edits[0];
      if from <= e.start < e.end <= |s| then s[from..e.start] + e.text + RenderFrom(s, e.end, edits[1..])
      else RenderFrom(s, from, edits[1..])
  }

  /** `ms.toString()`. */
  function Render(s: string, edits: seq<Edit>): string {
    RenderFrom(s, 0, edits)
  }

  /** Every edit covers a non-empty range of `s` at or after `from`, in increasing, non-overlapping order. */
  predicate WellFormedFrom(s: string, from: int, edits: seq<Edit>) {
    (forall i :: 0 <= i < |edits| ==> from <= edits[i].start < edits[i].end <= |s|) &&
    (forall i, j :: 0 <= i < j < |edits| ==> edits[i].end <= edits[j].start)
  }

  predicate WellFormed(s: string, edits: seq<Edit>) {
    WellFormedFrom(s, 0, edits)
  }

  /** The length change of a well-formed edit sequence. */
  function Growth(edits: seq<Edit>): int {
    if edits == [] then 0 else |edits[0].text| - (edits[0].end - edits[0].start) + Growth(edits[1..])
  }

  lemma RenderNoEdits(s: string)
    ensures Render(s, []) == s
  {
  }

  /** The rendered length is the original length plus each edit's growth. */
  lemma {:induction false} RenderLength(s: string, from: nat, edits: seq<Edit>)
    requires from <= |s| && WellFormedFrom(s, from, edits)
    ensures |RenderFrom(s, from, edits)| == |s| - from + Growth(edits)
    decreases |edits|
  {
    if edits != [] {
      RenderLength(s, edits[0].end, edits[1..]);
    }
  }

  /** Edits that write back the text they replace leave the string unchanged. */
  lemma {:induction false} RenderIdentity(s: string, from: nat, edits: seq<Edit>)
    requires from <= |s| && WellFormedFrom(s, from, edits)
    requires forall i :: 0 <= i < |edits| ==> edits[i].text == s[edits[i].start..edits[i].end]
    ensures RenderFrom(s, from, edits) == s[from..]
    decreases |edits|
  {
    if edits != [] {
      var e := edits[0];
      RenderIdentity(s, e.end, edits[1..]);
      assert s[from..] == s[from..e.start] + s[e.start..e.end] + s[e.end..];
    }
  }

  /** The text before the first edit is kept. */
  lemma {:induction false} RenderKeepsPrefix(s: string, from: nat, edits: seq<Edit>)
    requires from <= |s| && WellFormedFrom(s, from, edits) && edits != []
    ensures |RenderFrom(s, from, edits)| >= edits[0].start - from
    ensures RenderFrom(s, from, edits)[..edits[0].start - from] == s[from..edits[0].start]
  {
  }

  /** Keeping any subsequence of a well-formed edit list keeps it well-formed. */
  lemma WellFormedSubsequence(s: string, from: int, edits: seq<Edit>, keep: seq<Edit>, idx: seq<nat>)
    requires WellFormedFrom(s, from, edits)
    requires |idx| == |keep|
    requires forall k :: 0 <= k < |idx| ==> idx[k] < |edits| && keep[k] == edits[idx[k]]
    requires forall k, l :: 0 <= k < l < |idx| ==> idx[k] < idx[l]
    ensures WellFormedFrom(s, from, keep)
  {
  }

  /** `new MagicString(contents)`: the original string and the overwrites made so far. */
  class MagicString {
    const original: string
    var edits: seq<Edit>

    constructor (s: string)
      ensures original == s && edits == []
    {
      original := s;
      edits := [];
    }

    /** `ms.overwrite(start, end, text)`. */
    method Overwrite(start: int, end: int, text: string)
      modifies this
      ensures edits == old(edits) + [Edit(start, end, text)]
    {
      edits := edits + [Edit(start, end, text)];
    }

    /** `ms.toString()`. */
    function ToString(): string
      reads this
    {
      Render(original, edits)
    }
  }
}
