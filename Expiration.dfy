/**
 * The expiration report: every certificate falls into one of six buckets,
 * compared in order against now, now + 7 days, + 30, + 90 and + 180 days with
 * a strict `isBefore`; and the time left (or passed) is split into days,
 * minutes and seconds.
 */
module Expiration {
  import opened Certificates
  import opened CertificateOrdering

  datatype Bucket =
    | Expired
    | Within7Days
    | Within30Days
    | Within90Days
    | Within180Days
    | NotExpiringSoon

  /** The place of a bucket in the report, sooner first. */
  function Rank(b: Bucket): nat
  {
    match b
    case Expired => 0
    case Within7Days => 1
    case Within30Days => 2
    case Within90Days => 3
    case Within180Days => 4
    case NotExpiringSoon => 5
  }

  /**
   * The bucket the report puts a certificate in: the first of the strict
   * tests `notAfter.isBefore(...)` that holds decides. Each bucket is a
   * half-open interval of the time line, closed at its start.
   */
  function Classify(notAfter: Instant, now: Instant): (b: Bucket)
    ensures b == Expired <==> notAfter < now
    ensures b == Within7Days <==> now <= notAfter < PlusDays(now, 7)
    ensures b == Within30Days <==> PlusDays(now, 7) <= notAfter < PlusDays(now, 30)
    ensures b == Within90Days <==> PlusDays(now, 30) <= notAfter < PlusDays(now, 90)
    ensures b == Within180Days <==> PlusDays(now, 90) <= notAfter < PlusDays(now, 180)
    ensures b == NotExpiringSoon <==> PlusDays(now, 180) <= notAfter
  {
    if notAfter < now then Expired
    else if notAfter < PlusDays(now, 7) then Within7Days
    else if notAfter < PlusDays(now, 30) then Within30Days
    else if notAfter < PlusDays(now, 90) then Within90Days
    else if notAfter < PlusDays(now, 180) then Within180Days
    else NotExpiringSoon
  }

  /** A later expiry never lands in an earlier bucket. */
  lemma ClassifyIsMonotone(a: Instant, b: Instant, now: Instant)
    requires a <= b
    ensures Rank(Classify(a, now)) <= Rank(Classify(b, now))
  {
  }

  /** The thresholds are exclusive: a certificate expiring this instant is not yet expired. */
  lemma BoundariesBelongToTheLaterBucket(now: Instant)
    ensures Classify(now, now) == Within7Days
    ensures Classify(PlusDays(now, 7), now) == Within30Days
    ensures Classify(PlusDays(now, 30), now) == Within90Days
    ensures Classify(PlusDays(now, 90), now) == Within180Days
    ensures Classify(PlusDays(now, 180), now) == NotExpiringSoon
  {
  }

  /** The order in which the report prints the buckets. */
  const ReportOrder: seq<Bucket> := [Expired, Within7Days, Within30Days, Within90Days, Within180Days, NotExpiringSoon]

  lemma ReportOrderFollowsRank(k: nat)
    requires k < |ReportOrder|
    ensures Rank(ReportOrder[k]) == k
  {
  }

  /** The six lists the report fills, in the order it prints them. */
  datatype Report = Report(
    expired: seq<Certificate>,
    within7Days: seq<Certificate>,
    within30Days: seq<Certificate>,
    within90Days: seq<Certificate>,
    within180Days: seq<Certificate>,
    notExpiringSoon: seq<Certificate>)
  {
    function Get(b: Bucket): seq<Certificate>
    {
      match b
      case Expired => expired
      case Within7Days => within7Days
      case Within30Days => within30Days
      case Within90Days => within90Days
      case Within180Days => within180Days
      case NotExpiringSoon => notExpiringSoon
    }

    /** The report with `c` appended to the list of bucket `b`. */
    function Add(b: Bucket, c: Certificate): Report
    {
      match b
      case Expired => this.(expired := expired + [c])
      case Within7Days => this.(within7Days := within7Days + [c])
      case Within30Days => this.(within30Days := within30Days + [c])
      case Within90Days => this.(within90Days := within90Days + [c])
      case Within180Days => this.(within180Days := within180Days + [c])
      case NotExpiringSoon => this.(notExpiringSoon := notExpiringSoon + [c])
    }

    /** All six lists, one after the other. */
    function Concat(): seq<Certificate>
    {
      expired + within7Days + within30Days + within90Days + within180Days + notExpiringSoon
    }

    function Size(): nat
    {
      |expired| + |within7Days| + |within30Days| + |within90Days| + |within180Days| + |notExpiringSoon|
    }
  }

  /** The lists of `r` from the `k`-th bucket of `ReportOrder` on, one after the other, as the report prints them. */
  function Printed(r: Report, k: nat): seq<Certificate>
    requires k <= |ReportOrder|
    decreases |ReportOrder| - k
  {
    if k == |ReportOrder| then [] else r.Get(ReportOrder[k]) + Printed(r, k + 1)
  }

  /** The six lists joined in field order are the lists in the order the report prints them. */
  lemma ConcatFollowsReportOrder(r: Report)
    ensures r.Concat() == Printed(r, 0)
  {
    assert Printed(r, 5) == r.notExpiringSoon;
    assert Printed(r, 4) == r.within180Days + r.notExpiringSoon;
    assert Printed(r, 3) == r.within90Days + r.within180Days + r.notExpiringSoon;
    assert Printed(r, 2) == r.within30Days + r.within90Days + r.within180Days + r.notExpiringSoon;
    assert Printed(r, 1) == r.within7Days + r.within30Days + r.within90Days + r.within180Days + r.notExpiringSoon;
  }

  /** The certificates of `certs` that fall into bucket `b`, in list order. */
  function InBucket(certs: seq<Certificate>, now: Instant, b: Bucket): seq<Certificate>
  {
    if certs == [] then []
    else
      InBucket(certs[..|certs| - 1], now, b)
      + (if Classify(certs[|certs| - 1].notAfter, now) == b then [certs[|certs| - 1]] else [])
  }

  /** The indices of `certs` whose certificate falls into bucket `b`, in increasing order. */
  function Positions(certs: seq<Certificate>, now: Instant, b: Bucket): seq<nat>
  {
    if certs == [] then []
    else
      Positions(certs[..|certs| - 1], now, b)
      + (if Classify(certs[|certs| - 1].notAfter, now) == b then [|certs| - 1] else [])
  }

  /** What the loop of the report leaves in its six lists. */
  function ReportOf(certs: seq<Certificate>, now: Instant): Report
  {
    Report(
      InBucket(certs, now, Expired),
      InBucket(certs, now, Within7Days),
      InBucket(certs, now, Within30Days),
      InBucket(certs, now, Within90Days),
      InBucket(certs, now, Within180Days),
      InBucket(certs, now, NotExpiringSoon))
  }

  lemma ReportOfGet(certs: seq<Certificate>, now: Instant, b: Bucket)
    ensures ReportOf(certs, now).Get(b) == InBucket(certs, now, b)
  {
  }

  /** One more certificate: it goes to the end of its own bucket and nowhere else. */
  lemma ReportOfSnoc(certs: seq<Certificate>, c: Certificate, now: Instant)
    ensures ReportOf(certs + [c], now) == ReportOf(certs, now).Add(Classify(c.notAfter, now), c)
  {
    assert (certs + [c])[..|certs|] == certs;
  }

  /** The certificates of all six lists, counted with multiplicity. */
  function Bag(r: Report): multiset<Certificate>
  {
    multiset(r.expired) + multiset(r.within7Days) + multiset(r.within30Days)
    + multiset(r.within90Days) + multiset(r.within180Days) + multiset(r.notExpiringSoon)
  }

  lemma ConcatIsBag(r: Report)
    ensures multiset(r.Concat()) == Bag(r)
  {
  }

  /** Appending to one list adds that certificate once to the report. */
  lemma AddCountsOnce(r: Report, b: Bucket, c: Certificate)
    ensures multiset(r.Add(b, c).Concat()) == multiset(r.Concat()) + multiset{c}
    ensures r.Add(b, c).Size() == r.Size() + 1
  {
    ConcatIsBag(r);
    ConcatIsBag(r.Add(b, c));
    AddToBag(r, b, c);
  }

  lemma AddToBag(r: Report, b: Bucket, c: Certificate)
    ensures Bag(r.Add(b, c)) == Bag(r) + multiset{c}
  {
    var e, s7, s30, s90, s180, n := multiset(r.expired), multiset(r.within7Days), multiset(r.within30Days),
      multiset(r.within90Days), multiset(r.within180Days), multiset(r.notExpiringSoon);
    assert Bag(r) == e + s7 + s30 + s90 + s180 + n;
    match b
    case Expired =>
      assert Bag(r.Add(b, c)) == (e + multiset{c}) + s7 + s30 + s90 + s180 + n;
    case Within7Days =>
      assert Bag(r.Add(b, c)) == e + (s7 + multiset{c}) + s30 + s90 + s180 + n;
    case Within30Days =>
      assert Bag(r.Add(b, c)) == e + s7 + (s30 + multiset{c}) + s90 + s180 + n;
    case Within90Days =>
      assert Bag(r.Add(b, c)) == e + s7 + s30 + (s90 + multiset{c}) + s180 + n;
    case Within180Days =>
      assert Bag(r.Add(b, c)) == e + s7 + s30 + s90 + (s180 + multiset{c}) + n;
    case NotExpiringSoon =>
      assert Bag(r.Add(b, c)) == e + s7 + s30 + s90 + s180 + (n + multiset{c});
  }

  /** Appending to the last list that holds anything appends to the report as a whole. */
  lemma AddToLastBucket(r: Report, b: Bucket, c: Certificate)
    requires forall b' :: Rank(b) < Rank(b') ==> r.Get(b') == []
    ensures r.Add(b, c).Concat() == r.Concat() + [c]
  {
    assert Rank(b) < Rank(NotExpiringSoon) ==> r.notExpiringSoon == [];
    assert Rank(b) < Rank(Within180Days) ==> r.within180Days == [];
    assert Rank(b) < Rank(Within90Days) ==> r.within90Days == [];
    assert Rank(b) < Rank(Within30Days) ==> r.within30Days == [];
    assert Rank(b) < Rank(Within7Days) ==> r.within7Days == [];
  }

  /** A certificate is in a bucket exactly when it is in the list and classifies there. */
  lemma {:induction false} InBucketMember(certs: seq<Certificate>, now: Instant, b: Bucket, c: Certificate)
    ensures c in InBucket(certs, now, b) <==> c in certs && Classify(c.notAfter, now) == b
  {
    if certs != [] {
      var init := certs[..|certs| - 1];
      InBucketMember(init, now, b, c);
      assert certs == init + [certs[|certs| - 1]];
    }
  }

  /**
   * Every certificate lands in exactly one bucket: the six lists together
   * hold each certificate of the list as many times as the list does.
   */
  lemma {:induction false} ReportPartitions(certs: seq<Certificate>, now: Instant)
    ensures multiset(ReportOf(certs, now).Concat()) == multiset(certs)
    ensures ReportOf(certs, now).Size() == |certs|
  {
    if certs != [] {
      var init := certs[..|certs| - 1];
      var c := certs[|certs| - 1];
      ReportPartitions(init, now);
      ReportOfLast(certs, now);
      MultisetOfLast(certs);
      AddCountsOnce(ReportOf(init, now), Classify(c.notAfter, now), c);
    }
  }

  lemma ReportOfLast(certs: seq<Certificate>, now: Instant)
    requires certs != []
    ensures ReportOf(certs, now)
            == ReportOf(certs[..|certs| - 1], now).Add(Classify(certs[|certs| - 1].notAfter, now), certs[|certs| - 1])
  {
    ReportOfSnoc(certs[..|certs| - 1], certs[|certs| - 1], now);
    assert certs == certs[..|certs| - 1] + [certs[|certs| - 1]];
  }

  lemma MultisetOfLast(s: seq<Certificate>)
    requires s != []
    ensures multiset(s) == multiset(s[..|s| - 1]) + multiset{s[|s| - 1]}
  {
    assert s == s[..|s| - 1] + [s[|s| - 1]];
  }

  /**
   * Each bucket keeps list order: its i-th certificate is the one at the
   * i-th of the increasing `Positions`, and every index of the list whose
   * certificate classifies there is among them.
   */
  lemma {:induction false} InBucketKeepsOrder(certs: seq<Certificate>, now: Instant, b: Bucket)
    ensures |Positions(certs, now, b)| == |InBucket(certs, now, b)|
    ensures forall i :: 0 <= i < |Positions(certs, now, b)| ==>
              Positions(certs, now, b)[i] < |certs| && InBucket(certs, now, b)[i] == certs[Positions(certs, now, b)[i]]
    ensures forall i, j :: 0 <= i < j < |Positions(certs, now, b)| ==> Positions(certs, now, b)[i] < Positions(certs, now, b)[j]
    ensures forall k :: 0 <= k < |certs| && Classify(certs[k].notAfter, now) == b ==> k in Positions(certs, now, b)
  {
    if certs != [] {
      var init := certs[..|certs| - 1];
      InBucketKeepsOrder(init, now, b);
      forall k | 0 <= k < |init| ensures certs[k] == init[k] {
      }
    }
  }

  /** Buckets after the one of the latest expiry are empty. */
  lemma {:induction false} LaterBucketsEmpty(certs: seq<Certificate>, now: Instant, last: Instant, b: Bucket)
    requires forall i :: 0 <= i < |certs| ==> certs[i].notAfter <= last
    requires Rank(Classify(last, now)) < Rank(b)
    ensures InBucket(certs, now, b) == []
  {
    if certs != [] {
      var init := certs[..|certs| - 1];
      LaterBucketsEmpty(init, now, last, b);
      ClassifyIsMonotone(certs[|certs| - 1].notAfter, last, now);
    }
  }

  /**
   * After `sortCertificatesByNotAfterDateAscending`, printing the six
   * buckets one after the other lists the certificates in list order.
   */
  lemma {:induction false} SortedReportIsInListOrder(certs: seq<Certificate>, now: Instant)
    requires SortedByNotAfter(certs)
    ensures ReportOf(certs, now).Concat() == certs
    ensures Printed(ReportOf(certs, now), 0) == certs
  {
    ConcatFollowsReportOrder(ReportOf(certs, now));
    SortedConcatIsList(certs, now);
  }

  lemma {:induction false} SortedConcatIsList(certs: seq<Certificate>, now: Instant)
    requires SortedByNotAfter(certs)
    ensures ReportOf(certs, now).Concat() == certs
  {
    if certs != [] {
      var init := certs[..|certs| - 1];
      var c := certs[|certs| - 1];
      SortedConcatIsList(init, now);
      assert certs == init + [c];
      ReportOfSnoc(init, c, now);
      var b := Classify(c.notAfter, now);
      var r := ReportOf(init, now);
      forall b' | Rank(b) < Rank(b') ensures r.Get(b') == [] {
        ReportOfGet(init, now, b');
        LaterBucketsEmpty(init, now, c.notAfter, b');
      }
      AddToLastBucket(r, b, c);
    }
  }

  /* The duration split */

  /**
   * One line of the details: the pronoun and the days, minutes and seconds
   * parts of the absolute duration between now and the expiry.
   */
  datatype Detail = Detail(pronoun: string, days: int, minutes: int, seconds: int)

  function Abs(x: int): nat
  {
    if x < 0 then -x else x
  }

  /** The whole seconds of `Duration.between(now, notAfter).abs()`. */
  function WholeSeconds(notAfter: Instant, now: Instant): nat
  {
    Abs(notAfter - now) / NanosPerSecond
  }

  /**
   * `toDaysPart`, `toMinutesPart` and `toSecondsPart` of the absolute
   * duration, with "since" for a negative duration and "in" otherwise.
   */
  function DetailOf(notAfter: Instant, now: Instant): (d: Detail)
    ensures d.pronoun == "since" <==> notAfter < now
    ensures d.pronoun == "in" <==> now <= notAfter
    ensures 0 <= d.days && 0 <= d.minutes < 60 && 0 <= d.seconds < 60
    ensures d.days * SecondsPerDay <= WholeSeconds(notAfter, now) < (d.days + 1) * SecondsPerDay
  {
    var total := WholeSeconds(notAfter, now);
    Detail(
      if notAfter - now < 0 then "since" else "in",
      total / SecondsPerDay,
      total / SecondsPerMinute % 60,
      total % SecondsPerMinute)
  }

  /** The hours part the text leaves out. */
  function HoursPart(notAfter: Instant, now: Instant): (h: nat)
    ensures h < 24
  {
    WholeSeconds(notAfter, now) / SecondsPerHour % 24
  }

  /** Adding back the dropped hours gives the whole seconds of the duration exactly. */
  lemma DetailIsExact(notAfter: Instant, now: Instant)
    ensures WholeSeconds(notAfter, now) ==
              DetailOf(notAfter, now).days * SecondsPerDay + HoursPart(notAfter, now) * SecondsPerHour
              + DetailOf(notAfter, now).minutes * SecondsPerMinute + DetailOf(notAfter, now).seconds
  {
    var t := WholeSeconds(notAfter, now);
    var m := t / 60;
    var h := m / 60;
    assert t == m * 60 + t % 60;
    assert m == h * 60 + m % 60;
    assert h == (h / 24) * 24 + h % 24;
    assert t / 3600 == h;
    assert t / 86400 == h / 24;
  }

  /** A duration and its negation differ only in the pronoun. */
  lemma DetailIsSymmetric(now: Instant, delta: int)
    requires 0 < delta
    ensures DetailOf(now - delta, now).pronoun == "since"
    ensures DetailOf(now + delta, now).pronoun == "in"
    ensures DetailOf(now - delta, now).(pronoun := "in") == DetailOf(now + delta, now)
  {
    assert WholeSeconds(now - delta, now) == WholeSeconds(now + delta, now);
  }

  /** One printed line of the details: the expiry, the duration text and the subject name. */
  datatype DetailLine = DetailLine(notAfter: Instant, detail: Detail, subject: string)

  function DetailLineOf(c: Certificate, now: Instant): DetailLine
  {
    DetailLine(c.notAfter, DetailOf(c.notAfter, now), c.subject)
  }

  /** The detail lines of a list of certificates, in list order. */
  function DetailLines(certs: seq<Certificate>, now: Instant): seq<DetailLine>
  {
    if certs == [] then []
    else DetailLines(certs[..|certs| - 1], now) + [DetailLineOf(certs[|certs| - 1], now)]
  }

  /** One line per certificate, the i-th about the i-th certificate. */
  lemma {:induction false} DetailLinesAt(certs: seq<Certificate>, now: Instant)
    ensures |DetailLines(certs, now)| == |certs|
    ensures forall i :: 0 <= i < |certs| ==> DetailLines(certs, now)[i] == DetailLineOf(certs[i], now)
  {
    if certs != [] {
      DetailLinesAt(certs[..|certs| - 1], now);
    }
  }

  /** One printed section of the report: its bucket, the count and the detail lines. */
  datatype Section = Section(bucket: Bucket, count: nat, lines: seq<DetailLine>)
}
