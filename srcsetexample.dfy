/**
 * The worked example of `parseSrcSets`: a `srcset` of four candidates
 * written across lines, each a URL and a width descriptor, at offset 100
 * of its document. The URLs differ only in one digit; each one's position
 * is where it first occurs, which the lemmas establish by ruling out every
 * earlier start.
 */
module SrcSetExample {
  import opened Text
  import opened Registry
  import opened SrcSets

  const Prefix := "/wp-content/uploads/flamingo"
  const U4 := Prefix + "4x.jpg"
  const U3 := Prefix + "3x.jpg"
  const U2 := Prefix + "2x.jpg"
  const U1 := Prefix + "1x.jpg"
  const C4 := U4 + " 4025w"
  const C3 := U3 + " 3019w"
  const C2 := U2 + " 2013w"
  const C1 := U1 + " 1006w"
  /** What follows each comma: a line break and two spaces. */
  const Indent := "\n  "

  /** Four candidates, one per line after the first, as the attribute is written across lines. */
  function Attr(c4: string, c3: string, c2: string, c1: string): string {
    c4 + "," + (Indent + c3 + "," + (Indent + c2 + "," + (Indent + c1)))
  }

  const S := Attr(C4, C3, C2, C1)

  /** Splitting at the first separator. */
  lemma SplitFirst(a: string, c: char, b: string)
    requires c !in a
    ensures Split(a + [c] + b, c) == [a] + Split(b, c)
  {
    var s := a + [c] + b;
    assert s[|a|] == c;
    assert s[..|a|] == a;
    assert s[|a| + 1..] == b;
  }

  /** Splitting off a candidate without commas, with what precedes it. */
  lemma SplitCandidate(pre: string, c: string, rest: string)
    requires ',' !in pre && ',' !in c
    ensures Split(pre + c + "," + rest, ',') == [pre + c] + Split(rest, ',')
  {
    assert pre + c + "," + rest == (pre + c) + [','] + rest;
    SplitFirst(pre + c, ',', rest);
  }

  /** The last candidate is not split further. */
  lemma SplitLast(c: string)
    requires ',' !in c
    ensures Split(Indent + c, ',') == [Indent + c]
  {
    var last := Indent + c;
    assert ',' !in last by {
      assert forall k :: 0 <= k < |last| ==> last[k] == if k < 3 then Indent[k] else c[k - 3];
    }
  }

  /** The commas of the attribute separate exactly its four candidates. */
  lemma AttrSplit(c4: string, c3: string, c2: string, c1: string)
    requires ',' !in c4 && ',' !in c3 && ',' !in c2 && ',' !in c1
    ensures Split(Attr(c4, c3, c2, c1), ',') == [c4, Indent + c3, Indent + c2, Indent + c1]
  {
    var r1 := Indent + c1;
    var r2 := Indent + c2 + "," + r1;
    var r3 := Indent + c3 + "," + r2;
    SplitLast(c1);
    SplitCandidate(Indent, c2, r1);
    assert Split(r2, ',') == [Indent + c2, r1];
    SplitCandidate(Indent, c3, r2);
    assert Split(r3, ',') == [Indent + c3, Indent + c2, r1];
    assert Attr(c4, c3, c2, c1) == c4 + [','] + r3;
    SplitFour(c4, r3, Indent + c3, Indent + c2, r1);
  }

  /** A first candidate before three others. */
  lemma SplitFour(a: string, rest: string, b: string, c: string, d: string)
    requires ',' !in a && Split(rest, ',') == [b, c, d]
    ensures Split(a + [','] + rest, ',') == [a, b, c, d]
  {
    SplitFirst(a, ',', rest);
  }

  /** The attribute regrouped as candidate, comma and line break, three times, then the last candidate. */
  lemma AttrBlocks(c4: string, c3: string, c2: string, c1: string)
    ensures Attr(c4, c3, c2, c1) == (c4 + "," + Indent) + (c3 + "," + Indent) + (c2 + "," + Indent) + c1
  {
  }

  /** Leading whitespace is trimmed away. */
  lemma {:induction false} TrimStartSkips(w: string, x: string)
    requires forall i :: 0 <= i < |w| ==> IsWhitespace(w[i])
    ensures TrimStart(w + x) == TrimStart(x)
  {
    if w != [] {
      assert (w + x)[0] == w[0] && IsWhitespace(w[0]);
      assert TrimStart(w + x) == TrimStart((w + x)[1..]);
      assert (w + x)[1..] == w[1..] + x;
      assert forall i :: 0 <= i < |w[1..]| ==> w[1..][i] == w[i + 1];
      TrimStartSkips(w[1..], x);
    } else {
      assert w + x == x;
    }
  }

  /** The first token ends at the first whitespace. */
  lemma {:induction false} FirstTokenStops(u: string, r: string)
    requires forall i :: 0 <= i < |u| ==> !IsWhitespace(u[i])
    requires r != [] && IsWhitespace(r[0])
    ensures FirstToken(u + r) == u
  {
    if u != [] {
      assert (u + r)[0] == u[0];
      assert (u + r)[1..] == u[1..] + r;
      assert forall i :: 0 <= i < |u[1..]| ==> u[1..][i] == u[i + 1];
      FirstTokenStops(u[1..], r);
    }
  }

  /** A candidate `pre + u + w`: leading whitespace, a URL without whitespace, then a descriptor after whitespace. */
  lemma CandidateToken(pre: string, u: string, w: string)
    requires forall i :: 0 <= i < |pre| ==> IsWhitespace(pre[i])
    requires u != [] && forall i :: 0 <= i < |u| ==> !IsWhitespace(u[i])
    requires w != [] && IsWhitespace(w[0]) && !IsWhitespace(w[|w| - 1])
    ensures FirstToken(Trim(pre + (u + w))) == u
  {
    TrimStartSkips(pre, u + w);
    assert (u + w)[0] == u[0];
    assert (u + w)[|u + w| - 1] == w[|w| - 1];
    FirstTokenStops(u, w);
  }

  /** The example's URLs have no whitespace. */
  lemma NoWhitespace(d: char)
    requires d in "1234"
    ensures forall i :: 0 <= i < |Prefix + [d] + "x.jpg"| ==> !IsWhitespace((Prefix + [d] + "x.jpg")[i])
  {
  }

  /** The URL each candidate yields. */
  lemma Url4() ensures FirstToken(Trim(C4)) == U4 {
    NoWhitespace('4');
    CandidateToken("", U4, " 4025w");
    assert "" + (U4 + " 4025w") == C4;
  }
  lemma Url3() ensures FirstToken(Trim(Indent + C3)) == U3 {
    NoWhitespace('3');
    CandidateToken(Indent, U3, " 3019w");
  }
  lemma Url2() ensures FirstToken(Trim(Indent + C2)) == U2 {
    NoWhitespace('2');
    CandidateToken(Indent, U2, " 2013w");
  }
  lemma Url1() ensures FirstToken(Trim(Indent + C1)) == U1 {
    NoWhitespace('1');
    CandidateToken(Indent, U1, " 1006w");
  }

  /** A mismatching character rules an occurrence out. */
  lemma Mismatch(s: string, t: string, j: nat, m: nat)
    requires m < |t| && j + m < |s| && s[j + m] != t[m]
    ensures !OccursAt(s, t, j)
  {
    if j + |t| <= |s| {
      assert s[j..j + |t|][m] == s[j + m];
    }
  }

  /** No occurrence starts where the first character is missing. */
  lemma NoStart(s: string, t: string, lo: nat, hi: nat)
    requires lo <= hi <= |s| && t != [] && t[0] !in s[lo..hi]
    ensures forall j :: lo <= j < hi ==> !OccursAt(s, t, j)
  {
    forall j | lo <= j < hi
      ensures !OccursAt(s, t, j)
    {
      assert s[j] == s[lo..hi][j - lo];
      Mismatch(s, t, j, 0);
    }
  }

  /** Where a block's slashes are. */
  lemma BlockShape(d: char, tail: string)
    requires |tail| == 10 && '/' !in tail && d in "1234"
    ensures var blk := Prefix + [d] + "x.jpg" + tail;
      |blk| == 44 && blk[28] == d && blk[12] == 'u' && blk[20] == 'f' &&
      '/' !in blk[1..11] && '/' !in blk[12..19] && '/' !in blk[20..44]
  {
    var blk := Prefix + [d] + "x.jpg" + tail;
    assert blk[..28] == Prefix;
    assert blk[1..11] == Prefix[1..11];
    assert blk[12..19] == Prefix[12..19];
    assert blk[20..44] == Prefix[20..] + [d] + "x.jpg" + tail;
  }

  /**
   * A 44-character block holding a URL of one digit and a descriptor holds
   * no occurrence of the URL of another digit.
   */
  lemma BlockFree(s: string, b: nat, d: char, e: char, tail: string)
    requires b + 44 <= |s| && |tail| == 10 && '/' !in tail
    requires d in "1234" && e in "1234" && d != e
    requires s[b..b + 44] == Prefix + [d] + "x.jpg" + tail
    ensures forall j :: b <= j < b + 44 ==> !OccursAt(s, Prefix + [e] + "x.jpg", j)
  {
    var t := Prefix + [e] + "x.jpg";
    var blk := s[b..b + 44];
    BlockShape(d, tail);
    assert t[0] == '/' && t[1] == 'w' && t[28] == e;
    assert forall o :: 0 <= o < 44 ==> s[b + o] == blk[o];
    Mismatch(s, t, b, 28);
    Mismatch(s, t, b + 11, 1);
    Mismatch(s, t, b + 19, 1);
    assert s[b + 1..b + 11] == blk[1..11];
    NoStart(s, t, b + 1, b + 11);
    assert s[b + 12..b + 19] == blk[12..19];
    NoStart(s, t, b + 12, b + 19);
    assert s[b + 20..b + 44] == blk[20..44];
    NoStart(s, t, b + 20, b + 44);
  }

  /** The descriptor, comma and line break after each of the first three URLs. */
  const T4 := " 4025w," + Indent
  const T3 := " 3019w," + Indent
  const T2 := " 2013w," + Indent

  /** The middle of a concatenation. */
  lemma Mid(a: string, b: string, c: string)
    ensures (a + b + c)[|a|..|a| + |b|] == b
  {
  }

  /** The attribute as URL and tail, three times, then the last candidate. */
  lemma Blocks()
    ensures S == (U4 + T4) + (U3 + T3) + (U2 + T2) + C1
  {
    AttrBlocks(C4, C3, C2, C1);
    assert C4 + "," + Indent == U4 + T4;
    assert C3 + "," + Indent == U3 + T3;
    assert C2 + "," + Indent == U2 + T2;
  }

  /** Each URL is the shared prefix, its digit and the extension. */
  lemma Digits()
    ensures U4 == Prefix + ['4'] + "x.jpg" && U3 == Prefix + ['3'] + "x.jpg"
    ensures U2 == Prefix + ['2'] + "x.jpg" && U1 == Prefix + ['1'] + "x.jpg"
  {
  }

  /** The attribute as three 44-character blocks and the last candidate. */
  lemma Layout()
    ensures |S| == 172
    ensures S[0..44] == U4 + T4
    ensures S[44..88] == U3 + T3
    ensures S[88..132] == U2 + T2
    ensures S[132..] == C1
  {
    Blocks();
    Mid([], U4 + T4, (U3 + T3) + (U2 + T2) + C1);
    Mid(U4 + T4, U3 + T3, (U2 + T2) + C1);
    Mid((U4 + T4) + (U3 + T3), U2 + T2, C1);
  }

  /** Each URL occurs at the start of its block. */
  lemma Occurrences()
    ensures OccursAt(S, U4, 0) && OccursAt(S, U3, 44) && OccursAt(S, U2, 88) && OccursAt(S, U1, 132)
  {
    Layout();
    assert S[0..34] == S[0..44][..34];
    assert S[44..78] == S[44..88][..34];
    assert S[88..122] == S[88..132][..34];
    assert S[132..166] == S[132..][..34];
  }

  /** Each URL first occurs at the start of its own block. */
  lemma Index4() ensures IndexOf(S, U4) == 0 {
    Occurrences();
  }

  lemma Index3() ensures IndexOf(S, U3) == 44 {
    Occurrences();
    Layout();
    Digits();
    BlockFree(S, 0, '4', '3', T4);
  }

  lemma Index2() ensures IndexOf(S, U2) == 88 {
    Occurrences();
    Layout();
    Digits();
    BlockFree(S, 0, '4', '2', T4);
    BlockFree(S, 44, '3', '2', T3);
  }

  lemma Index1() ensures IndexOf(S, U1) == 132 {
    Occurrences();
    Layout();
    Digits();
    BlockFree(S, 0, '4', '1', T4);
    BlockFree(S, 44, '3', '1', T3);
    BlockFree(S, 88, '2', '1', T2);
  }

  /** The attribute's four candidates. */
  lemma Parts()
    ensures Split(S, ',') == [C4, Indent + C3, Indent + C2, Indent + C1]
  {
    assert ',' !in C4 && ',' !in C3 && ',' !in C2 && ',' !in C1;
    AttrSplit(C4, C3, C2, C1);
  }

  /** The entry of each candidate. */
  lemma Entry4() ensures ParseCandidate(S, 100, C4) == UrlPosition(U4, Position(100, 134)) {
    Url4(); Index4();
  }
  lemma Entry3() ensures ParseCandidate(S, 100, Indent + C3) == UrlPosition(U3, Position(144, 178)) {
    Url3(); Index3();
  }
  lemma Entry2() ensures ParseCandidate(S, 100, Indent + C2) == UrlPosition(U2, Position(188, 222)) {
    Url2(); Index2();
  }
  lemma Entry1() ensures ParseCandidate(S, 100, Indent + C1) == UrlPosition(U1, Position(232, 266)) {
    Url1(); Index1();
  }

  /** The entries, one at a time. */
  lemma Example0()
    ensures |ParseSrcSets(S, 100)| == 4 && ParseSrcSets(S, 100)[0] == UrlPosition(U4, Position(100, 134))
  {
    assert |Split(S, ',')| == 4 && Split(S, ',')[0] == C4 by {
      Parts();
    }
    Entry4();
  }

  lemma Example1()
    ensures |ParseSrcSets(S, 100)| == 4 && ParseSrcSets(S, 100)[1] == UrlPosition(U3, Position(144, 178))
  {
    assert |Split(S, ',')| == 4 && Split(S, ',')[1] == Indent + C3 by {
      Parts();
    }
    Entry3();
  }

  lemma Example2()
    ensures |ParseSrcSets(S, 100)| == 4 && ParseSrcSets(S, 100)[2] == UrlPosition(U2, Position(188, 222))
  {
    assert |Split(S, ',')| == 4 && Split(S, ',')[2] == Indent + C2 by {
      Parts();
    }
    Entry2();
  }

  lemma Example3()
    ensures |ParseSrcSets(S, 100)| == 4 && ParseSrcSets(S, 100)[3] == UrlPosition(U1, Position(232, 266))
  {
    assert |Split(S, ',')| == 4 && Split(S, ',')[3] == Indent + C1 by {
      Parts();
    }
    Entry1();
  }

  /** A sequence of four given elements. */
  lemma FourElements<T>(r: seq<T>, a: T, b: T, c: T, d: T)
    requires |r| == 4 && r[0] == a && r[1] == b && r[2] == c && r[3] == d
    ensures r == [a, b, c, d]
  {
  }

  /** The four-candidate attribute of the example at offset 100: each URL with its span. */
  lemma SrcSetExample()
    ensures ParseSrcSets(S, 100) == [
      UrlPosition(U4, Position(100, 134)),
      UrlPosition(U3, Position(144, 178)),
      UrlPosition(U2, Position(188, 222)),
      UrlPosition(U1, Position(232, 266))]
  {
    Example0();
    Example1();
    Example2();
    Example3();
    FourElements(ParseSrcSets(S, 100), UrlPosition(U4, Position(100, 134)), UrlPosition(U3, Position(144, 178)),
                 UrlPosition(U2, Position(188, 222)), UrlPosition(U1, Position(232, 266)));
  }
}
