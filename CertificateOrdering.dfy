/**
 * The order of `sortCertificatesByNotAfterDateAscending`: a comparator on
 * the notAfter instant handed to `List.sort`, which is stable, so
 * certificates expiring at the same instant keep their relative order.
 */
module CertificateOrdering {
  import opened Certificates

  /** The comparator: -1 when `c1` expires first, 1 when it expires later, 0 on a tie. */
  function CompareByNotAfter(c1: Certificate, c2: Certificate): (r: int)
    ensures r == -1 <==> c1.notAfter < c2.notAfter
    ensures r == 0 <==> c1.notAfter == c2.notAfter
    ensures r == 1 <==> c2.notAfter < c1.notAfter
  {
    if c1.notAfter < c2.notAfter then -1
    else if c1.notAfter > c2.notAfter then 1
    else 0
  }

  /** The comparator is antisymmetric and transitive: it is a total preorder, as `List.sort` requires. */
  lemma CompareIsTotalPreorder(a: Certificate, b: Certificate, c: Certificate)
    ensures CompareByNotAfter(a, b) == -CompareByNotAfter(b, a)
    ensures CompareByNotAfter(a, b) <= 0 && CompareByNotAfter(b, c) <= 0 ==> CompareByNotAfter(a, c) <= 0
  {
  }

  predicate SortedByNotAfter(certs: seq<Certificate>)
  {
    forall i, j :: 0 <= i < j < |certs| ==> certs[i].notAfter <= certs[j].notAfter
  }

  /** Sorted means the comparator never puts a later pair out of order. */
  lemma SortedAgreesWithComparator(certs: seq<Certificate>)
    ensures SortedByNotAfter(certs) <==>
              forall i, j :: 0 <= i < j < |certs| ==> CompareByNotAfter(certs[i], certs[j]) <= 0
  {
  }

  /** The certificates of `certs` that expire at `t`, in list order. */
  function WithNotAfter(certs: seq<Certificate>, t: Instant): seq<Certificate>
  {
    if certs == [] then []
    else (if certs[0].notAfter == t then [certs[0]] else []) + WithNotAfter(certs[1..], t)
  }

  /** A list is stably sorted from another when it is sorted and every tie group keeps its order. */
  ghost predicate IsStableSortOf(sorted: seq<Certificate>, certs: seq<Certificate>)
  {
    && SortedByNotAfter(sorted)
    && forall t :: WithNotAfter(sorted, t) == WithNotAfter(certs, t)
  }

  /** `c` placed before the first certificate that does not expire earlier. */
  function Insert(c: Certificate, sorted: seq<Certificate>): seq<Certificate>
  {
    if sorted == [] || c.notAfter <= sorted[0].notAfter then [c] + sorted
    else [sorted[0]] + Insert(c, sorted[1..])
  }

  /** A stable sort by notAfter: what `List.sort` leaves for this comparator. */
  function StableSort(certs: seq<Certificate>): seq<Certificate>
  {
    if certs == [] then [] else Insert(certs[0], StableSort(certs[1..]))
  }

  lemma {:induction false} WithNotAfterMember(certs: seq<Certificate>, t: Instant, c: Certificate)
    ensures c in WithNotAfter(certs, t) <==> c in certs && c.notAfter == t
  {
    if certs != [] {
      WithNotAfterMember(certs[1..], t, c);
      assert certs == [certs[0]] + certs[1..];
    }
  }

  lemma WithNotAfterCons(x: Certificate, s: seq<Certificate>, t: Instant)
    ensures WithNotAfter([x] + s, t) == (if x.notAfter == t then [x] else []) + WithNotAfter(s, t)
  {
    assert ([x] + s)[1..] == s;
  }

  lemma {:induction false} InsertKeepsTies(c: Certificate, sorted: seq<Certificate>, t: Instant)
    ensures WithNotAfter(Insert(c, sorted), t) == (if c.notAfter == t then [c] else []) + WithNotAfter(sorted, t)
  {
    if sorted == [] || c.notAfter <= sorted[0].notAfter {
      WithNotAfterCons(c, sorted, t);
    } else {
      var x, rest := sorted[0], sorted[1..];
      InsertKeepsTies(c, rest, t);
      WithNotAfterCons(x, Insert(c, rest), t);
      WithNotAfterCons(x, rest, t);
      assert sorted == [x] + rest;
      if x.notAfter == t {
        assert c.notAfter != t;
      } else if c.notAfter == t {
        assert WithNotAfter(Insert(c, sorted), t) == [c] + WithNotAfter(rest, t);
      }
    }
  }

  lemma {:induction false} InsertMember(c: Certificate, sorted: seq<Certificate>, x: Certificate)
    ensures x in Insert(c, sorted) <==> x == c || x in sorted
  {
    if sorted != [] && sorted[0].notAfter < c.notAfter {
      InsertMember(c, sorted[1..], x);
      assert sorted == [sorted[0]] + sorted[1..];
    }
  }

  lemma {:induction false} InsertAddsOne(c: Certificate, sorted: seq<Certificate>)
    ensures multiset(Insert(c, sorted)) == multiset(sorted) + multiset{c}
  {
    if sorted != [] && sorted[0].notAfter < c.notAfter {
      InsertAddsOne(c, sorted[1..]);
      assert sorted == [sorted[0]] + sorted[1..];
    }
  }

  lemma {:induction false} InsertKeepsSorted(c: Certificate, sorted: seq<Certificate>)
    requires SortedByNotAfter(sorted)
    ensures SortedByNotAfter(Insert(c, sorted))
  {
    if sorted != [] && sorted[0].notAfter < c.notAfter {
      var rest := sorted[1..];
      SortedTail(sorted);
      InsertKeepsSorted(c, rest);
      var ins := Insert(c, rest);
      var all := [sorted[0]] + ins;
      forall i, j | 0 <= i < j < |all| ensures all[i].notAfter <= all[j].notAfter {
        if i == 0 {
          InsertMember(c, rest, ins[j - 1]);
          assert ins[j - 1] in ins;
        } else {
          assert all[i] == ins[i - 1] && all[j] == ins[j - 1];
        }
      }
    }
  }

  /** The sort is sorted and a permutation of its input. */
  lemma {:induction false} StableSortIsSortedPermutation(certs: seq<Certificate>)
    ensures SortedByNotAfter(StableSort(certs))
    ensures multiset(StableSort(certs)) == multiset(certs)
  {
    if certs != [] {
      StableSortIsSortedPermutation(certs[1..]);
      InsertKeepsSorted(certs[0], StableSort(certs[1..]));
      InsertAddsOne(certs[0], StableSort(certs[1..]));
      assert certs == [certs[0]] + certs[1..];
    }
  }

  /** Certificates expiring at the same instant keep their prior relative order. */
  lemma {:induction false} StableSortKeepsTies(certs: seq<Certificate>, t: Instant)
    ensures WithNotAfter(StableSort(certs), t) == WithNotAfter(certs, t)
  {
    if certs != [] {
      StableSortKeepsTies(certs[1..], t);
      InsertKeepsTies(certs[0], StableSort(certs[1..]), t);
    }
  }

  lemma StableSortIsStable(certs: seq<Certificate>)
    ensures IsStableSortOf(StableSort(certs), certs)
  {
    StableSortIsSortedPermutation(certs);
    forall t ensures WithNotAfter(StableSort(certs), t) == WithNotAfter(certs, t) {
      StableSortKeepsTies(certs, t);
    }
  }

  /** Two sorted lists with the same tie groups are the same list. */
  lemma {:induction false} SortedIsDeterminedByTies(a: seq<Certificate>, b: seq<Certificate>)
    requires SortedByNotAfter(a) && SortedByNotAfter(b)
    requires forall t :: WithNotAfter(a, t) == WithNotAfter(b, t)
    ensures a == b
    decreases |a| + |b|
  {
    if a == [] || b == [] {
      if a != [] {
        FirstHasTieGroup(a);
        assert false;
      } else if b != [] {
        FirstHasTieGroup(b);
        assert false;
      }
    } else {
      var ta, tb := a[0].notAfter, b[0].notAfter;
      FirstIsEarliest(a, b, ta);
      FirstIsEarliest(b, a, tb);
      assert ta == tb;
      forall t ensures WithNotAfter(a[1..], t) == WithNotAfter(b[1..], t) {
        assert WithNotAfter(a, t) == WithNotAfter(b, t);
        if t == ta {
          assert WithNotAfter(a, t) == [a[0]] + WithNotAfter(a[1..], t);
          assert WithNotAfter(b, t) == [b[0]] + WithNotAfter(b[1..], t);
          assert WithNotAfter(a, t)[1..] == WithNotAfter(a[1..], t);
          assert WithNotAfter(b, t)[1..] == WithNotAfter(b[1..], t);
        } else {
          assert WithNotAfter(a, t) == WithNotAfter(a[1..], t);
          assert WithNotAfter(b, t) == WithNotAfter(b[1..], t);
        }
      }
      assert a[0] == WithNotAfter(a, ta)[0] == WithNotAfter(b, ta)[0] == b[0];
      SortedTail(a);
      SortedTail(b);
      SortedIsDeterminedByTies(a[1..], b[1..]);
      assert a == [a[0]] + a[1..] && b == [b[0]] + b[1..];
    }
  }

  /** A list that holds a certificate holds a tie group for its expiry. */
  lemma FirstHasTieGroup(s: seq<Certificate>)
    requires s != []
    ensures WithNotAfter(s, s[0].notAfter) != []
  {
  }

  /** The first of a sorted list `b` expires no later than anything in a list with the same tie groups. */
  lemma FirstIsEarliest(a: seq<Certificate>, b: seq<Certificate>, t: Instant)
    requires SortedByNotAfter(b) && b != []
    requires a != [] && t == a[0].notAfter
    requires forall t :: WithNotAfter(a, t) == WithNotAfter(b, t)
    ensures b[0].notAfter <= t
  {
    WithNotAfterMember(a, t, a[0]);
    WithNotAfterMember(b, t, a[0]);
    var k :| 0 <= k < |b| && b[k] == a[0];
    assert k == 0 || b[0].notAfter <= b[k].notAfter;
  }

  lemma SortedTail(s: seq<Certificate>)
    requires SortedByNotAfter(s) && s != []
    ensures SortedByNotAfter(s[1..])
  {
    forall i, j | 0 <= i < j < |s[1..]| ensures s[1..][i].notAfter <= s[1..][j].notAfter {
      assert s[1..][i] == s[i + 1] && s[1..][j] == s[j + 1];
    }
  }

  /** A stable sort has exactly one possible result. */
  lemma StableSortIsUnique(certs: seq<Certificate>, sorted: seq<Certificate>)
    requires IsStableSortOf(sorted, certs)
    ensures sorted == StableSort(certs)
  {
    StableSortIsStable(certs);
    SortedIsDeterminedByTies(sorted, StableSort(certs));
  }

  /** Sorting a sorted list changes nothing; in particular sorting twice equals sorting once. */
  lemma SortingSortedIsIdentity(certs: seq<Certificate>)
    requires SortedByNotAfter(certs)
    ensures StableSort(certs) == certs
  {
    StableSortIsUnique(certs, certs);
  }

  lemma StableSortIsIdempotent(certs: seq<Certificate>)
    ensures StableSort(StableSort(certs)) == StableSort(certs)
  {
    StableSortIsSortedPermutation(certs);
    SortingSortedIsIdentity(StableSort(certs));
  }
}
