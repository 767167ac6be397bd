/**
 * The PEM splitter: cuts text into blocks that each end in a footer line
 * `-----END <TYPE>-----`, the way the pattern `(.+?)-----END (.+?)-----`
 * compiled with DOTALL is found again and again by `Matcher.find`.
 * A block is recognised by its footer only; no `-----BEGIN` line is needed.
 */
module PemSplitter {
  import opened Wrappers

  /** One matched block: the text of group 2 and the whole match. */
  datatype PemBlock = PemBlock(name: string, fullData: string)

  const EndMarker: string := "-----END "
  const Dashes: string := "-----"

  predicate OccursAt(s: string, pat: string, i: int)
  {
    0 <= i && i + |pat| <= |s| && s[i..i + |pat|] == pat
  }

  /* What the pattern means */

  /**
   * A way for the pattern to match from `p`: group 1 is `s[p..marker]`,
   * the literal `-----END ` stands at `marker`, group 2 is
   * `s[marker + 9..close]` and the closing `-----` stands at `close`.
   * Both groups hold at least one character (`.+?`), and DOTALL lets them
   * hold any character, line breaks included.
   */
  predicate MatchesFrom(s: string, p: int, marker: int, close: int)
  {
    && p < marker
    && marker + |EndMarker| < close
    && OccursAt(s, EndMarker, marker)
    && OccursAt(s, Dashes, close)
  }

  datatype Footer = Footer(marker: nat, close: nat)

  /**
   * The match `find` settles on from `p`: both groups are reluctant, so
   * group 1 stops at the first `-----END ` after `p`, and group 2 at the
   * first `-----` after at least one character of it.
   */
  ghost predicate IsFooter(s: string, p: int, f: Footer)
  {
    && MatchesFrom(s, p, f.marker, f.close)
    && (forall m :: p < m < f.marker ==> !OccursAt(s, EndMarker, m))
    && (forall c :: f.marker + |EndMarker| < c < f.close ==> !OccursAt(s, Dashes, c))
  }

  ghost predicate NoMatchFrom(s: string, p: int)
  {
    forall m, c :: !MatchesFrom(s, p, m, c)
  }

  /* The scan */

  /** Whether `pat` occurs at `i`, compared one character at a time. */
  predicate HasPrefixAt(s: string, pat: string, i: nat)
  {
    AgreesFrom(s, pat, i, 0)
  }

  /** The characters of `pat` from index `k` on stand in `s` from `i + k` on. */
  predicate AgreesFrom(s: string, pat: string, i: nat, k: nat)
    decreases |pat| - k
  {
    k >= |pat| || (i + k < |s| && s[i + k] == pat[k] && AgreesFrom(s, pat, i, k + 1))
  }

  /** The first index from `i` on where `pat` occurs, or `i` when it occurs nowhere there. */
  ghost function NextOccurrence(s: string, pat: string, i: nat): (r: nat)
    ensures i <= r
    decreases |s| - i
  {
    if |s| < i + |pat| then i
    else if HasPrefixAt(s, pat, i) then i
    else NextOccurrence(s, pat, i + 1)
  }

  /** The footer `find` reaches from `p`, if the pattern matches there at all. */
  ghost function FooterFrom(s: string, p: nat): (r: Option<Footer>)
    ensures r.Some? ==> FitsFrom(s, p, r.value)
  {
    var m := NextOccurrence(s, EndMarker, p + 1);
    if |s| < m + |EndMarker| then None
    else
      var c := NextOccurrence(s, Dashes, m + |EndMarker| + 1);
      if |s| < c + |Dashes| then None else Some(Footer(m, c))
  }

  /** The positions of a footer are in order and inside `s`. */
  predicate FitsFrom(s: string, p: int, f: Footer)
  {
    p < f.marker && f.marker + |EndMarker| < f.close && f.close + |Dashes| <= |s|
  }

  /** The block a footer closes: group 2 is the name, the whole match the data. */
  function BlockAt(s: string, p: nat, f: Footer): PemBlock
    requires FitsFrom(s, p, f)
  {
    PemBlock(s[f.marker + |EndMarker|..f.close], s[p..f.close + |Dashes|])
  }

  /** The blocks `find` reports once the scan is at `p`; each match resumes where the last ended. */
  ghost function SplitFrom(s: string, p: nat): seq<PemBlock>
    requires p <= |s|
    decreases |s| - p
  {
    match FooterFrom(s, p)
    case None => []
    case Some(f) => [BlockAt(s, p, f)] + SplitFrom(s, f.close + |Dashes|)
  }

  /** What `split` returns for `input`. */
  ghost function Blocks(input: string): seq<PemBlock>
  {
    SplitFrom(input, 0)
  }

  /* The scan finds what the pattern means */

  lemma {:induction false} AgreesFromIsPointwise(s: string, pat: string, i: nat, k: nat)
    requires i + |pat| <= |s|
    ensures AgreesFrom(s, pat, i, k) <==> forall j :: k <= j < |pat| ==> s[i + j] == pat[j]
    decreases |pat| - k
  {
    if k < |pat| {
      AgreesFromIsPointwise(s, pat, i, k + 1);
    }
  }

  lemma HasPrefixAtIsOccurs(s: string, pat: string, i: nat)
    requires i + |pat| <= |s|
    ensures HasPrefixAt(s, pat, i) <==> OccursAt(s, pat, i)
  {
    AgreesFromIsPointwise(s, pat, i, 0);
    if forall j :: 0 <= j < |pat| ==> s[i + j] == pat[j] {
      assert s[i..i + |pat|] == pat;
    }
  }

  lemma {:induction false} NextOccurrenceIsFirst(s: string, pat: string, i: nat)
    ensures var r := NextOccurrence(s, pat, i);
            && (r + |pat| <= |s| ==> OccursAt(s, pat, r))
            && (forall j :: i <= j < r ==> !OccursAt(s, pat, j))
            && (|s| < r + |pat| ==> forall j :: i <= j ==> !OccursAt(s, pat, j))
    decreases |s| - i
  {
    if i + |pat| <= |s| {
      HasPrefixAtIsOccurs(s, pat, i);
      if !HasPrefixAt(s, pat, i) {
        NextOccurrenceIsFirst(s, pat, i + 1);
      }
    }
  }

  /** No `-----END ` after `p`: the pattern cannot match. */
  lemma NoMarkerNoMatch(s: string, p: nat)
    requires |s| < NextOccurrence(s, EndMarker, p + 1) + |EndMarker|
    ensures NoMatchFrom(s, p)
  {
    NextOccurrenceIsFirst(s, EndMarker, p + 1);
    forall m, c ensures !MatchesFrom(s, p, m, c) {
      if p < m {
        assert !OccursAt(s, EndMarker, m);
      }
    }
  }

  /** No `-----` after the first `-----END `: the pattern cannot match either. */
  lemma NoCloseNoMatch(s: string, p: nat, m: nat)
    requires m == NextOccurrence(s, EndMarker, p + 1)
    requires |s| < NextOccurrence(s, Dashes, m + |EndMarker| + 1) + |Dashes|
    ensures NoMatchFrom(s, p)
  {
    NextOccurrenceIsFirst(s, EndMarker, p + 1);
    NextOccurrenceIsFirst(s, Dashes, m + |EndMarker| + 1);
    forall m', c' ensures !MatchesFrom(s, p, m', c') {
      if p < m' && OccursAt(s, EndMarker, m') && m' + |EndMarker| < c' {
        assert m <= m';
        assert !OccursAt(s, Dashes, c');
      }
    }
  }

  /** The first `-----END ` after `p` and the first `-----` after it form the footer. */
  lemma FirstMarkerAndCloseAreFooter(s: string, p: nat, m: nat, c: nat)
    requires m == NextOccurrence(s, EndMarker, p + 1) && m + |EndMarker| <= |s|
    requires c == NextOccurrence(s, Dashes, m + |EndMarker| + 1) && c + |Dashes| <= |s|
    ensures IsFooter(s, p, Footer(m, c))
  {
    NextOccurrenceIsFirst(s, EndMarker, p + 1);
    NextOccurrenceIsFirst(s, Dashes, m + |EndMarker| + 1);
  }

  /** The scan reaches no footer exactly when the pattern cannot match from `p`. */
  lemma NoFooterIffNoMatch(s: string, p: nat)
    ensures FooterFrom(s, p).None? <==> NoMatchFrom(s, p)
  {
    var m := NextOccurrence(s, EndMarker, p + 1);
    if |s| < m + |EndMarker| {
      NoMarkerNoMatch(s, p);
    } else {
      var c := NextOccurrence(s, Dashes, m + |EndMarker| + 1);
      if |s| < c + |Dashes| {
        NoCloseNoMatch(s, p, m);
      } else {
        FirstMarkerAndCloseAreFooter(s, p, m, c);
        assert MatchesFrom(s, p, m, c);
      }
    }
  }

  /** The footer the scan reaches is the match of the reluctant pattern. */
  lemma FooterFromIsFooter(s: string, p: nat)
    requires FooterFrom(s, p).Some?
    ensures IsFooter(s, p, FooterFrom(s, p).value)
  {
    var m := NextOccurrence(s, EndMarker, p + 1);
    var c := NextOccurrence(s, Dashes, m + |EndMarker| + 1);
    FirstMarkerAndCloseAreFooter(s, p, m, c);
  }

  /**
   * Any match from `p` ends no earlier than the footer the scan reaches:
   * both groups are as short as they can be.
   */
  lemma FooterIsLeastMatch(s: string, p: nat, marker: int, close: int)
    requires MatchesFrom(s, p, marker, close)
    ensures FooterFrom(s, p).Some?
    ensures FooterFrom(s, p).value.marker <= marker
    ensures FooterFrom(s, p).value.close <= close
  {
    NoFooterIffNoMatch(s, p);
    FooterFromIsFooter(s, p);
  }

  /** One step of the scan: the block at `p`, then the blocks after it. */
  lemma SplitFromStep(s: string, p: nat, f: Footer)
    requires FooterFrom(s, p) == Some(f)
    ensures p < f.close + |Dashes| <= |s|
    ensures SplitFrom(s, p) == [BlockAt(s, p, f)] + SplitFrom(s, f.close + |Dashes|)
  {
  }

  /**
   * One attempt of `find` from `p`: the scan for `-----END ` and then for
   * the closing `-----`.
   */
  method FindFooter(s: string, p: nat) returns (r: Option<Footer>)
    ensures r == FooterFrom(s, p)
  {
    var m := p + 1;
    while m + |EndMarker| <= |s| && !HasPrefixAt(s, EndMarker, m)
      invariant p < m
      invariant NextOccurrence(s, EndMarker, m) == NextOccurrence(s, EndMarker, p + 1)
      decreases |s| - m
    {
      m := m + 1;
    }
    if |s| < m + |EndMarker| {
      return None;
    }
    var c := m + |EndMarker| + 1;
    while c + |Dashes| <= |s| && !HasPrefixAt(s, Dashes, c)
      invariant m + |EndMarker| < c
      invariant NextOccurrence(s, Dashes, c) == NextOccurrence(s, Dashes, m + |EndMarker| + 1)
      decreases |s| - c
    {
      c := c + 1;
    }
    if |s| < c + |Dashes| {
      return None;
    }
    r := Some(Footer(m, c));
  }

  /** `PemSplitter.split`: one `find` per iteration, resuming where the last match ended. */
  method Split(input: string) returns (blocks: seq<PemBlock>)
    ensures blocks == Blocks(input)
  {
    blocks := [];
    var p := 0;
    while true
      invariant p <= |input|
      invariant blocks + SplitFrom(input, p) == Blocks(input)
      decreases |input| - p
    {
      var found := FindFooter(input, p);
      match found
      case None =>
        return;
      case Some(f) =>
        SplitFromStep(input, p, f);
        AppendOne(blocks, BlockAt(input, p, f), SplitFrom(input, f.close + |Dashes|));
        blocks := blocks + [BlockAt(input, p, f)];
        p := f.close + |Dashes|;
    }
  }
}
