/** What the blocks of the PEM splitter look like and how they cover the input. */
module PemSplitterProperties {
  import opened Wrappers
  import opened PemSplitter

  /** The text of the blocks, one after the other. */
  function Concat(blocks: seq<PemBlock>): string
  {
    if |blocks| == 0 then "" else blocks[0].fullData + Concat(blocks[1..])
  }

  predicate EndsWith(s: string, suffix: string)
  {
    |suffix| <= |s| && s[|s| - |suffix|..] == suffix
  }

  /**
   * What every reported block looks like: it ends in its own footer
   * `-----END <name>-----`, something precedes that footer, the name is
   * not empty and holds no `-----` after its first character, and no
   * earlier `-----END ` starts inside the block after its first character.
   */
  predicate WellFormedBlock(b: PemBlock)
  {
    var footer := EndMarker + b.name + Dashes;
    && 0 < |b.name|
    && |footer| < |b.fullData|
    && EndsWith(b.fullData, footer)
    && (forall k :: 0 < k < |b.name| ==> !OccursAt(b.name + Dashes, Dashes, k))
    && (forall k :: 0 < k < |b.fullData| - |footer| ==> !OccursAt(b.fullData, EndMarker, k))
  }

  lemma OccursInSlice(s: string, pat: string, lo: int, hi: int, k: int)
    requires 0 <= lo <= hi <= |s| && 0 <= k && k + |pat| <= hi - lo
    ensures OccursAt(s[lo..hi], pat, k) <==> OccursAt(s, pat, lo + k)
  {
    var inner := s[lo..hi][k..k + |pat|];
    forall i | 0 <= i < |pat| ensures inner[i] == s[lo + k + i] {
      assert inner[i] == s[lo..hi][k + i];
    }
    assert inner == s[lo + k..lo + k + |pat|];
  }

  /** The footer of the regular expression is the one the scan reaches. */
  lemma FooterIsTheScanResult(s: string, p: nat, f: Footer)
    requires IsFooter(s, p, f)
    ensures FooterFrom(s, p) == Some(f)
  {
    FooterIsLeastMatch(s, p, f.marker, f.close);
    FooterFromIsFooter(s, p);
  }

  /** No block is reported exactly when the pattern cannot match anywhere. */
  lemma NoFooterNoBlocks(s: string)
    ensures Blocks(s) == [] <==> NoMatchFrom(s, 0)
  {
    NoFooterIffNoMatch(s, 0);
    if FooterFrom(s, 0).Some? {
      SplitFromStep(s, 0, FooterFrom(s, 0).value);
    }
  }

  /** The data of a block ends in `-----END `, its name and `-----`. */
  lemma BlockEndsInFooter(s: string, p: nat, f: Footer)
    requires MatchesFrom(s, p, f.marker, f.close)
    ensures var b := BlockAt(s, p, f);
            EndsWith(b.fullData, EndMarker + b.name + Dashes)
  {
    var b := BlockAt(s, p, f);
    var q := f.close + |Dashes|;
    var footer := EndMarker + b.name + Dashes;
    assert s[f.marker..q] == s[f.marker..f.marker + |EndMarker|] + s[f.marker + |EndMarker|..f.close] + s[f.close..q];
    assert b.fullData[|b.fullData| - |footer|..] == s[f.marker..q];
  }

  /** Group 2 stops at the first `-----` after its first character. */
  lemma NameHasNoEarlyDashes(s: string, p: nat, f: Footer)
    requires IsFooter(s, p, f)
    ensures var b := BlockAt(s, p, f);
            forall k :: 0 < k < |b.name| ==> !OccursAt(b.name + Dashes, Dashes, k)
  {
    var b := BlockAt(s, p, f);
    var q := f.close + |Dashes|;
    assert s[f.marker + |EndMarker|..q] == s[f.marker + |EndMarker|..f.close] + s[f.close..q];
    assert b.name + Dashes == s[f.marker + |EndMarker|..q];
    forall k | 0 < k < |b.name|
      ensures !OccursAt(b.name + Dashes, Dashes, k)
    {
      OccursInSlice(s, Dashes, f.marker + |EndMarker|, q, k);
    }
  }

  /** Group 1 stops at the first `-----END ` after its first character. */
  lemma DataHasNoEarlyMarker(s: string, p: nat, f: Footer)
    requires IsFooter(s, p, f)
    ensures var b := BlockAt(s, p, f);
            forall k :: 0 < k < f.marker - p ==> !OccursAt(b.fullData, EndMarker, k)
  {
    var b := BlockAt(s, p, f);
    var q := f.close + |Dashes|;
    forall k | 0 < k < f.marker - p
      ensures !OccursAt(b.fullData, EndMarker, k)
    {
      OccursInSlice(s, EndMarker, p, q, k);
    }
  }

  lemma BlockAtWellFormed(s: string, p: nat, f: Footer)
    requires IsFooter(s, p, f)
    ensures WellFormedBlock(BlockAt(s, p, f))
  {
    BlockEndsInFooter(s, p, f);
    NameHasNoEarlyDashes(s, p, f);
    DataHasNoEarlyMarker(s, p, f);
  }

  lemma {:induction false} SplitFromWellFormed(s: string, p: nat)
    requires p <= |s|
    ensures forall i :: 0 <= i < |SplitFrom(s, p)| ==> WellFormedBlock(SplitFrom(s, p)[i])
    decreases |s| - p
  {
    match FooterFrom(s, p)
    case None =>
    case Some(f) =>
      SplitFromStep(s, p, f);
      FooterFromIsFooter(s, p);
      BlockAtWellFormed(s, p, f);
      SplitFromWellFormed(s, f.close + |Dashes|);
      var blocks := SplitFrom(s, p);
      forall i | 0 < i < |blocks| ensures WellFormedBlock(blocks[i]) {
        assert blocks[i] == blocks[1..][i - 1];
      }
  }

  /** Every block `split` returns ends in a proper footer. */
  lemma BlocksAreWellFormed(input: string)
    ensures forall i :: 0 <= i < |Blocks(input)| ==> WellFormedBlock(Blocks(input)[i])
  {
    SplitFromWellFormed(input, 0);
  }

  /**
   * A scan that finds nothing from `a` finds nothing from any later start:
   * this is why the scan may stop at the first failed `find`.
   */
  lemma NoMatchFromLaterStart(s: string, a: int, b: int)
    requires a <= b && NoMatchFrom(s, a)
    ensures NoMatchFrom(s, b)
  {
    forall m, c ensures !MatchesFrom(s, b, m, c) {
      assert !MatchesFrom(s, a, m, c);
    }
  }

  /** Where the scan stops: the end of the last block, or `p` when there is none. */
  ghost function ScanEnd(s: string, p: nat): nat
    decreases |s| - p
  {
    match FooterFrom(s, p)
    case None => p
    case Some(f) => ScanEnd(s, f.close + |Dashes|)
  }

  /** Where the scan stops, the pattern cannot match again. */
  lemma {:induction false} ScanEndHasNoMatch(s: string, p: nat)
    ensures NoMatchFrom(s, ScanEnd(s, p))
    decreases |s| - p
  {
    match FooterFrom(s, p)
    case None =>
      NoFooterIffNoMatch(s, p);
    case Some(f) =>
      ScanEndHasNoMatch(s, f.close + |Dashes|);
  }

  /** A block that is the slice `s[p..q]`, followed by blocks that are the slice `s[q..e]`. */
  lemma TileStep(s: string, p: nat, q: nat, e: nat, b: PemBlock, rest: seq<PemBlock>, blocks: seq<PemBlock>)
    requires p <= q <= e <= |s|
    requires blocks == [b] + rest && b.fullData == s[p..q] && Concat(rest) == s[q..e]
    ensures Concat(blocks) == s[p..e]
  {
    assert blocks[1..] == rest;
    assert s[p..q] + s[q..e] == s[p..e];
  }

  /** The blocks from `p` on are exactly the text from `p` to where the scan stops. */
  lemma {:induction false} SplitFromTiles(s: string, p: nat)
    requires p <= |s|
    ensures p <= ScanEnd(s, p) <= |s|
    ensures Concat(SplitFrom(s, p)) == s[p..ScanEnd(s, p)]
    decreases |s| - p
  {
    match FooterFrom(s, p)
    case None =>
      assert SplitFrom(s, p) == [];
    case Some(f) =>
      SplitFromStep(s, p, f);
      var q := f.close + |Dashes|;
      SplitFromTiles(s, q);
      TileStep(s, p, q, ScanEnd(s, q), BlockAt(s, p, f), SplitFrom(s, q), SplitFrom(s, p));
  }

  /**
   * The blocks cover a prefix of the input without gap or overlap: text
   * before a footer belongs to the block of that footer, and what follows
   * the last block holds no further match and is dropped.
   */
  lemma BlocksTileInput(input: string)
    ensures |Concat(Blocks(input))| <= |input|
    ensures input == Concat(Blocks(input)) + input[|Concat(Blocks(input))|..]
    ensures NoMatchFrom(input, |Concat(Blocks(input))|)
  {
    SplitFromTiles(input, 0);
    ScanEndHasNoMatch(input, 0);
    assert input == input[..ScanEnd(input, 0)] + input[ScanEnd(input, 0)..];
  }

  /* Examples */

  /** A footer at the very start has no text before it for group 1: nothing is reported. */
  lemma LoneFooterIsDropped()
    ensures Blocks("-----END X-----") == []
  {
  }

  /** One character before a footer is enough: the block needs no BEGIN line. */
  lemma FooterWithoutBeginIsABlock()
    ensures Blocks("x-----END X-----") == [PemBlock("X", "x-----END X-----")]
  {
    var s := "x-----END X-----";
    assert s[1..10] == EndMarker;
    HasPrefixAtIsOccurs(s, EndMarker, 1);
    assert s[11..16] == Dashes;
    HasPrefixAtIsOccurs(s, Dashes, 11);
    assert FooterFrom(s, 0) == Some(Footer(1, 11));
    SplitFromStep(s, 0, Footer(1, 11));
    assert FooterFrom(s, 16).None?;
    assert s[10..11] == "X" && s[0..16] == s;
  }
}
