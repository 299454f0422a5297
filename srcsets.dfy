/**
 * `parseSrcSets` of infrastructure/plugins/parseSrcSets.ts: the URLs of an
 * HTML `srcset` attribute with their positions in the document. The
 * attribute is split at commas; each candidate is trimmed and its URL is
 * the text before the first whitespace. A URL's position is where it first
 * occurs in the whole attribute, shifted by the attribute's own offset.
 */
module SrcSets {
  import opened Text
  import opened Registry

  datatype UrlPosition = UrlPosition(url: string, position: Position)

  /** The first whitespace-separated token of a trimmed candidate, trimmed once more. */
  function CandidateUrl(part: string): (url: string)
    ensures url == FirstToken(Trim(part))
  {
    var token := FirstToken(Trim(part));
    Trim(token)
  }

  /** The entry of one candidate. */
  function ParseCandidate(srcSet: string, start: int, part: string): UrlPosition
  {
    var url := FirstToken(Trim(part));
    var urlStart := IndexOf(srcSet, url);
    var urlEnd := urlStart + |url|;
    UrlPosition(CandidateUrl(part), Position(start + urlStart, start + urlEnd))
  }

  /**
   * Positions count scalar values: the URL after an emoji, which is two
   * UTF-16 code units, starts at 3 here and not at 4.
   */
  lemma ScalarValuePositions()
    ensures ParseCandidate("x\U{1F600},a.png 1x", 0, "a.png 1x") == UrlPosition("a.png", Position(3, 8))
  {
    PlainCandidateTrim();
    PlainCandidateToken();
    PlainUrlTrim();
    UrlAfterEmoji();
  }

  lemma PlainCandidateTrim()
    ensures Trim("a.png 1x") == "a.png 1x"
  {
    assert TrimStart("a.png 1x") == "a.png 1x";
    assert TrimEnd("a.png 1x") == "a.png 1x";
  }

  lemma PlainCandidateToken()
    ensures FirstToken("a.png 1x") == "a.png"
  {
    var part := "a.png 1x";
    assert FirstToken(part[5..]) == [];
    assert FirstToken(part[4..]) == "g";
    assert FirstToken(part[3..]) == "ng";
    assert FirstToken(part[2..]) == "png";
    assert FirstToken(part[1..]) == ".png";
  }

  lemma PlainUrlTrim()
    ensures Trim("a.png") == "a.png"
  {
    assert TrimStart("a.png") == "a.png";
    assert TrimEnd("a.png") == "a.png";
  }

  lemma UrlAfterEmoji()
    ensures IndexOf("x\U{1F600},a.png 1x", "a.png") == 3
  {
    var srcSet := "x\U{1F600},a.png 1x";
    assert srcSet[3..8] == "a.png";
    assert IndexOfFrom(srcSet, "a.png", 3) == 3;
    assert srcSet[2] != 'a' && srcSet[1] != 'a' && srcSet[0] != 'a';
    assert IndexOfFrom(srcSet, "a.png", 2) == 3;
    assert IndexOfFrom(srcSet, "a.png", 1) == 3;
  }

  /** `parseSrcSets(srcSet, start)`: one entry per comma-separated candidate, in order. */
  function ParseSrcSets(srcSet: string, start: int): (r: seq<UrlPosition>)
    ensures |r| == |Split(srcSet, ',')|
    ensures forall i :: 0 <= i < |r| ==> r[i] == ParseCandidate(srcSet, start, Split(srcSet, ',')[i])
  {
    var parts := Split(srcSet, ',');
    seq(|parts|, (i: int) requires 0 <= i < |parts| => ParseCandidate(srcSet, start, parts[i]))
  }

  /** Occurrence in a suffix is occurrence further on in the whole. */
  lemma OccursShift(s: string, m: nat, t: string, j: int)
    requires m <= |s| && OccursAt(s[m..], t, j)
    ensures OccursAt(s, t, j + m)
  {
    assert s[m..][j..j + |t|] == s[j + m..j + m + |t|];
  }

  /** What occurs in something that occurs in `s` occurs in `s`. */
  lemma OccursTrans(a: string, b: string, c: string, j: int, l: int)
    requires OccursAt(a, b, j) && OccursAt(b, c, l)
    ensures OccursAt(a, c, j + l)
  {
    forall k | 0 <= k < |c|
      ensures a[j + l + k] == c[k]
    {
      assert c[k] == b[l + k];
      assert b[l + k] == a[j..j + |b|][l + k];
    }
    assert a[j + l..j + l + |c|] == c;
  }

  /** Every part of a split occurs in the string split. */
  lemma {:induction false} SplitPartsOccur(s: string, c: char, i: nat)
    requires i < |Split(s, c)|
    ensures exists j :: OccursAt(s, Split(s, c)[i], j)
    decreases |s|
  {
    if c !in s {
      assert Split(s, c)[i] == s;
      assert OccursAt(s, s, 0);
    } else {
      var k := IndexOfChar(s, c);
      assert Split(s, c) == [s[..k]] + Split(s[k + 1..], c);
      if i == 0 {
        assert Split(s, c)[i] == s[..k];
        assert OccursAt(s, s[..k], 0);
      } else {
        SplitPartsOccur(s[k + 1..], c, i - 1);
        var j :| OccursAt(s[k + 1..], Split(s[k + 1..], c)[i - 1], j);
        OccursShift(s, k + 1, Split(s[k + 1..], c)[i - 1], j);
        assert Split(s, c)[i] == Split(s[k + 1..], c)[i - 1];
      }
    }
  }

  /** A trimmed string occurs in the string, and so does its first token. */
  lemma {:induction false} TokenOccurs(part: string)
    ensures OccursAt(part, FirstToken(Trim(part)), |part| - |TrimStart(part)|)
  {
    var t := TrimStart(part);
    PrefixOfSuffix(part, t, TrimEnd(t));
    PrefixOfSliceOccurs(part, |part| - |t|, |TrimEnd(t)|, FirstToken(TrimEnd(t)));
  }

  /** A prefix of a slice occurs where the slice starts. */
  lemma PrefixOfSliceOccurs(s: string, offset: int, n: nat, prefix: string)
    requires 0 <= offset && offset + n <= |s| && StartsWith(s[offset..offset + n], prefix)
    ensures OccursAt(s, prefix, offset)
  {
    assert s[offset..offset + |prefix|] == s[offset..offset + n][..|prefix|];
  }

  /** The URL of every candidate occurs in the attribute. */
  lemma UrlOccurs(srcSet: string, i: nat)
    requires i < |Split(srcSet, ',')|
    ensures IndexOf(srcSet, FirstToken(Trim(Split(srcSet, ',')[i]))) >= 0
  {
    var part := Split(srcSet, ',')[i];
    SplitPartsOccur(srcSet, ',', i);
    var j :| OccursAt(srcSet, part, j);
    TokenOccurs(part);
    OccursTrans(srcSet, part, FirstToken(Trim(part)), j, |part| - |TrimStart(part)|);
  }

  /** The URL of a candidate without commas has neither whitespace nor commas. */
  lemma UrlCharacters(part: string)
    requires ',' !in part
    ensures forall k :: 0 <= k < |FirstToken(Trim(part))| ==>
      !IsWhitespace(FirstToken(Trim(part))[k]) && FirstToken(Trim(part))[k] != ','
  {
    var url := FirstToken(Trim(part));
    var m := |part| - |TrimStart(part)|;
    TokenOccurs(part);
    forall k | 0 <= k < |url|
      ensures url[k] != ','
    {
      assert url[k] == part[m..m + |url|][k] == part[m + k];
    }
  }

  /**
   * Each URL is a run without whitespace or commas, and its position is the
   * first place it occurs in the attribute, offset by `start`, with a span
   * as long as the URL.
   */
  lemma ParseSrcSetsPositions(srcSet: string, start: int, i: nat)
    requires i < |ParseSrcSets(srcSet, start)|
    ensures var e := ParseSrcSets(srcSet, start)[i];
      (forall k :: 0 <= k < |e.url| ==> !IsWhitespace(e.url[k]) && e.url[k] != ',') &&
      e.position.start >= start &&
      OccursAt(srcSet, e.url, e.position.start - start) &&
      (forall j :: 0 <= j < e.position.start - start ==> !OccursAt(srcSet, e.url, j)) &&
      e.position.end - e.position.start == |e.url|
  {
    var part := Split(srcSet, ',')[i];
    UrlOccurs(srcSet, i);
    UrlCharacters(part);
  }

  /** Two candidates with the same URL get the same position: the first occurrence of that URL. */
  lemma RepeatedUrlSharesPosition(srcSet: string, start: int, i: nat, j: nat)
    requires i < |ParseSrcSets(srcSet, start)| && j < |ParseSrcSets(srcSet, start)|
    requires ParseSrcSets(srcSet, start)[i].url == ParseSrcSets(srcSet, start)[j].url
    ensures ParseSrcSets(srcSet, start)[i].position == ParseSrcSets(srcSet, start)[j].position
  {
  }
}
