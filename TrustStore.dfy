/**
 * The trust store `saveCertsToFile` writes: a fresh key store in which each
 * loaded certificate, in list order, is set as a certificate entry under
 * its subject name. The key store lower-cases aliases, so a later
 * certificate whose subject differs only in letter case replaces the
 * earlier one.
 */
module TrustStore {
  import opened Certificates

  /** The key store image `store` writes: its certificate entries and the password protecting it. */
  datatype TrustStoreFile = TrustStoreFile(entries: map<string, Certificate>, password: string)

  /** `Character.toLowerCase` on an ASCII letter; every other character is left alone. */
  function LowerAsciiChar(c: char): char
  {
    if 'A' <= c <= 'Z' then (c as int + 32) as char else c
  }

  /**
   * The alias a JKS or PKCS12 key store files an entry under: the name
   * given to `setCertificateEntry`, lower-cased in the English locale, so
   * names that differ only in case share one entry.
   */
  function AliasKey(name: string): (r: string)
    ensures |r| == |name|
    ensures forall i :: 0 <= i < |r| ==> !('A' <= r[i] <= 'Z')
    ensures forall i :: 0 <= i < |r| ==> r[i] == LowerAsciiChar(name[i])
  {
    if name == [] then [] else [LowerAsciiChar(name[0])] + AliasKey(name[1..])
  }

  /** Lower-casing an alias twice changes nothing more. */
  lemma {:induction false} AliasKeyIsIdempotent(name: string)
    ensures AliasKey(AliasKey(name)) == AliasKey(name)
  {
    if name != [] {
      AliasKeyIsIdempotent(name[1..]);
      assert AliasKey(name)[1..] == AliasKey(name[1..]);
    }
  }

  /** A name with no upper-case ASCII letter is its own alias. */
  lemma {:induction false} AliasKeyKeepsLowerCase(name: string)
    requires forall i :: 0 <= i < |name| ==> !('A' <= name[i] <= 'Z')
    ensures AliasKey(name) == name
  {
    if name != [] {
      AliasKeyKeepsLowerCase(name[1..]);
      assert name == [name[0]] + name[1..];
    }
  }

  /** Two names that differ only in the case of ASCII letters get the same alias. */
  lemma {:induction false} CaseVariantsShareAnAlias(a: string, b: string)
    requires |a| == |b|
    requires forall i :: 0 <= i < |a| ==> LowerAsciiChar(a[i]) == LowerAsciiChar(b[i])
    ensures AliasKey(a) == AliasKey(b)
  {
    if a != [] {
      CaseVariantsShareAnAlias(a[1..], b[1..]);
    }
  }

  /** The entries after the `setCertificateEntry` calls for `certs`, in list order. */
  function Aliases(certs: seq<Certificate>): map<string, Certificate>
  {
    if certs == [] then map[]
    else Aliases(certs[..|certs| - 1])[AliasKey(certs[|certs| - 1].subject) := certs[|certs| - 1]]
  }

  /** The aliases of the subject names that occur in `certs`. */
  ghost function AliasKeys(certs: seq<Certificate>): set<string>
  {
    set c | c in certs :: AliasKey(c.subject)
  }

  /** One entry per distinct alias, and every entry is a certificate of the list filed under its own subject's alias. */
  lemma AliasesAreSubjects(certs: seq<Certificate>)
    ensures Aliases(certs).Keys == AliasKeys(certs)
    ensures |Aliases(certs)| == |AliasKeys(certs)|
    ensures forall n :: n in Aliases(certs) ==> Aliases(certs)[n] in certs && AliasKey(Aliases(certs)[n].subject) == n
  {
    AliasesKeys(certs);
    AliasesListed(certs);
  }

  lemma {:induction false} AliasesKeys(certs: seq<Certificate>)
    ensures Aliases(certs).Keys == AliasKeys(certs)
  {
    if certs != [] {
      var init, last := certs[..|certs| - 1], certs[|certs| - 1];
      AliasesKeys(init);
      AliasKeysOfLast(certs);
      KeysAfterUpdate(Aliases(init), AliasKey(last.subject), last);
    }
  }

  lemma {:induction false} AliasesListed(certs: seq<Certificate>)
    ensures forall n :: n in Aliases(certs) ==> Aliases(certs)[n] in certs && AliasKey(Aliases(certs)[n].subject) == n
  {
    if certs != [] {
      var init, last := certs[..|certs| - 1], certs[|certs| - 1];
      AliasesListed(init);
      assert certs == init + [last];
      EntriesStayListed(init, last, certs, Aliases(init), Aliases(certs));
    }
  }

  lemma KeysAfterUpdate(before: map<string, Certificate>, k: string, v: Certificate)
    ensures before[k := v].Keys == before.Keys + {k}
  {
  }

  lemma AliasKeysOfLast(certs: seq<Certificate>)
    requires certs != []
    ensures AliasKeys(certs) == AliasKeys(certs[..|certs| - 1]) + {AliasKey(certs[|certs| - 1].subject)}
  {
    assert certs == certs[..|certs| - 1] + [certs[|certs| - 1]];
  }

  lemma EntriesStayListed(init: seq<Certificate>, last: Certificate, certs: seq<Certificate>,
                          before: map<string, Certificate>, after: map<string, Certificate>)
    requires certs == init + [last] && after == before[AliasKey(last.subject) := last]
    requires forall n :: n in before ==> before[n] in init && AliasKey(before[n].subject) == n
    ensures forall n :: n in after ==> after[n] in certs && AliasKey(after[n].subject) == n
  {
  }

  /** The entry for an alias is the last certificate in the list whose subject has that alias. */
  lemma {:induction false} LastWins(certs: seq<Certificate>, i: nat)
    requires i < |certs|
    requires forall j :: i < j < |certs| ==> AliasKey(certs[j].subject) != AliasKey(certs[i].subject)
    ensures AliasKey(certs[i].subject) in Aliases(certs)
    ensures Aliases(certs)[AliasKey(certs[i].subject)] == certs[i]
  {
    var init := certs[..|certs| - 1];
    if i < |certs| - 1 {
      assert AliasKey(certs[|certs| - 1].subject) != AliasKey(certs[i].subject);
      LastWins(init, i);
    }
  }

  /** Certificates whose subjects have pairwise distinct aliases are all kept, each under its own alias. */
  lemma DistinctSubjectsAreAllKept(certs: seq<Certificate>)
    requires forall i, j :: 0 <= i < j < |certs| ==> AliasKey(certs[i].subject) != AliasKey(certs[j].subject)
    ensures |Aliases(certs)| == |certs|
    ensures forall i :: 0 <= i < |certs| ==> AliasKey(certs[i].subject) in Aliases(certs) && Aliases(certs)[AliasKey(certs[i].subject)] == certs[i]
  {
    forall i | 0 <= i < |certs|
      ensures AliasKey(certs[i].subject) in Aliases(certs) && Aliases(certs)[AliasKey(certs[i].subject)] == certs[i]
    {
      LastWins(certs, i);
    }
    DistinctSubjectsCount(certs);
    AliasesAreSubjects(certs);
  }

  lemma {:induction false} DistinctSubjectsCount(certs: seq<Certificate>)
    requires forall i, j :: 0 <= i < j < |certs| ==> AliasKey(certs[i].subject) != AliasKey(certs[j].subject)
    ensures |AliasKeys(certs)| == |certs|
  {
    if certs != [] {
      var init, last := certs[..|certs| - 1], certs[|certs| - 1];
      DistinctSubjectsCount(init);
      assert certs == init + [last];
      assert AliasKeys(certs) == AliasKeys(init) + {AliasKey(last.subject)};
      assert AliasKey(last.subject) !in AliasKeys(init);
    }
  }

  /** There are never more entries than certificates. */
  lemma {:induction false} SubjectsAtMostCertificates(certs: seq<Certificate>)
    ensures |AliasKeys(certs)| <= |certs|
  {
    if certs != [] {
      var init, last := certs[..|certs| - 1], certs[|certs| - 1];
      SubjectsAtMostCertificates(init);
      assert certs == init + [last];
      assert AliasKeys(certs) == AliasKeys(init) + {AliasKey(last.subject)};
    }
  }

  /** Two certificates whose subjects have the same alias leave fewer entries than certificates. */
  lemma {:induction false} SharedSubjectLosesAnEntry(certs: seq<Certificate>, i: nat, j: nat)
    requires i < j < |certs| && AliasKey(certs[i].subject) == AliasKey(certs[j].subject)
    ensures |Aliases(certs)| < |certs|
  {
    AliasesAreSubjects(certs);
    SharedSubjectShrinks(certs, i, j);
  }

  lemma {:induction false} SharedSubjectShrinks(certs: seq<Certificate>, i: nat, j: nat)
    requires i < j < |certs| && AliasKey(certs[i].subject) == AliasKey(certs[j].subject)
    ensures |AliasKeys(certs)| < |certs|
  {
    var init, last := certs[..|certs| - 1], certs[|certs| - 1];
    assert certs == init + [last];
    assert AliasKeys(certs) == AliasKeys(init) + {AliasKey(last.subject)};
    if j < |certs| - 1 {
      SharedSubjectShrinks(init, i, j);
    } else {
      SubjectsAtMostCertificates(init);
      assert init[i] in init;
      assert AliasKey(last.subject) in AliasKeys(init);
    }
  }

  /** Subjects that differ only in letter case share one entry: the later certificate replaces the earlier. */
  lemma CaseVariantSubjectsShareAnEntry(notAfter1: Instant, notAfter2: Instant)
    ensures Aliases([Certificate("CN=Example", notAfter1), Certificate("CN=example", notAfter2)])
            == map["cn=example" := Certificate("CN=example", notAfter2)]
  {
    var first, second := Certificate("CN=Example", notAfter1), Certificate("CN=example", notAfter2);
    ExampleAliases();
    SameAliasKeepsLater(first, second);
  }

  lemma ExampleAliases()
    ensures AliasKey("CN=Example") == "cn=example" && AliasKey("CN=example") == "cn=example"
  {
    LowerExample();
    UpperExample();
    MixedExample();
  }

  lemma LowerExample()
    ensures AliasKey("cn=example") == "cn=example"
  {
    var lower := "cn=example";
    assert forall i :: 0 <= i < |lower| ==> !('A' <= lower[i] <= 'Z');
    AliasKeyKeepsLowerCase(lower);
  }

  lemma UpperExample()
    ensures AliasKey("CN=Example") == AliasKey("cn=example")
  {
    var upper, lower := "CN=Example", "cn=example";
    assert forall i :: 0 <= i < |upper| ==> LowerAsciiChar(upper[i]) == LowerAsciiChar(lower[i]);
    CaseVariantsShareAnAlias(upper, lower);
  }

  lemma MixedExample()
    ensures AliasKey("CN=example") == AliasKey("cn=example")
  {
    var mixed, lower := "CN=example", "cn=example";
    assert forall i :: 0 <= i < |mixed| ==> LowerAsciiChar(mixed[i]) == LowerAsciiChar(lower[i]);
    CaseVariantsShareAnAlias(mixed, lower);
  }

  lemma SameAliasKeepsLater(first: Certificate, second: Certificate)
    requires AliasKey(first.subject) == AliasKey(second.subject)
    ensures Aliases([first, second]) == map[AliasKey(second.subject) := second]
  {
    var certs := [first, second];
    assert certs[..|certs| - 1] == [first] && [first][..0] == [];
    assert Aliases([first]) == map[AliasKey(first.subject) := first];
    assert Aliases(certs) == Aliases([first])[AliasKey(second.subject) := second];
  }
}
