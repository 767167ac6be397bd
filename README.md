# mycerts core, modelled in Dafny

mycerts loads X.509 certificates from three sources into one list:
- a TLS server's peer chain;
- a PEM file;
- a JKS or PKCS12 key store.

It sorts that list by expiry, reports how soon each certificate expires, and writes the list out as a trust store. This project models the two classes that hold that logic and proves what they promise:

- `CertificateAnalyzer`, as the class `Analyzer.CertificateAnalyzer`. Its one piece of state is the list `certificates`:
  - the loaders only append to it;
  - the sort reorders it in place, stably, by notAfter;
  - the expiration report files each certificate into one of six buckets and splits the time to expiry into days, minutes and seconds;
  - the trust-store writer sets each certificate under its subject name. The key store lower-cases aliases, so of the certificates whose names differ only in letter case, the last one wins.
- `PemSplitter.split`, as the method `PemSplitter.Split`. It implements the pattern `(.+?)-----END (.+?)-----`, compiled with DOTALL and found again and again by `Matcher.find`, as a scan over the text. The scan is proved equal to a declarative reading of the pattern (`IsFooter`, `NoMatchFrom`): the least match from the current position, taken with reluctant groups. A block is recognised by its footer alone; no `-----BEGIN` line is needed.

Files:
- `Wrappers.dfy`: `Option`, `Result`, and `Outcome` (pass, or fail with an error).
- `Certificates.dfy`:
  - a certificate is reduced to its subject name and its notAfter instant;
  - instants are integer nanoseconds;
  - a day is exactly 86 400 s.
- `PemSplitter.dfy`: the pattern's meaning, the scan that finds the next footer (`FindFooter`), and `Split`.
- `PemSplitterProperties.dfy`: what the blocks look like, and how they cover the input.
- `CertificateOrdering.dfy`: the comparator, a stable sort, and its properties.
- `Expiration.dfy`: the buckets, the report, and the duration split.
- `TrustStore.dfy`: the lower-cased alias, and the alias map the writer builds.
- `CertificateLoading.dfy`: the error kinds, the block filter with `equalsIgnoreCase`, decoding, the key store walk, and the supported extensions.
- `Analyzer.dfy`: the class with the loaders, the sort, the report and the writer.

The model takes parameters in place of what it cannot see:
- the current instant `now`;
- the contents of the PEM file, as a `Result`;
- the X.509 certificate factory, as a `Decoder`;
- `KeyStore.load` followed by the alias walk, as a `KeyStoreLoader` that receives the store kind and the password option;
- the TLS handshake, as a `Handshake` that receives host, port and server name.

Where the documented contract and the code differ, the model follows the code:
- A PEM block the certificate factory rejects ends the load with an unchecked exception (`Unchecked`), not a typed load error. The certificates appended before it stay.
- `split` does not give one block per `-----END <TYPE>-----` occurrence. A footer that starts exactly where the previous match ended (or at index 0) cannot close a block, because group 1 needs at least one character. That footer is absorbed into the next block, or dropped when no later footer follows (`LoneFooterIsDropped`).
- A certificate whose notAfter equals `now` is not expired. It lands in the 7-day bucket.

## Model

Paths are relative to the repository root. `CertificateAnalyzer.java` is `core/src/main/java/br/com/hugobenicio/mycerts/core/CertificateAnalyzer.java`; `PemSplitter.java` is `core/src/main/java/br/com/hugobenicio/mycerts/core/pem/PemSplitter.java`.

| member | source | states |
|---|---|---|
| PemSplitter.FooterFrom | core/src/main/java/br/com/hugobenicio/mycerts/core/pem/PemSplitter.java:13 | a footer found from `p` lies after `p`, with group 2 non-empty, and ends inside the text |
| PemSplitter.NextOccurrenceIsFirst | core/src/main/java/br/com/hugobenicio/mycerts/core/pem/PemSplitter.java:13 | the scan for a literal stops at its first occurrence, or reports that there is none from that index on |
| PemSplitter.NoMarkerNoMatch | core/src/main/java/br/com/hugobenicio/mycerts/core/pem/PemSplitter.java:13 | with no `-----END ` after `p`, the pattern matches nowhere from `p` |
| PemSplitter.NoCloseNoMatch | core/src/main/java/br/com/hugobenicio/mycerts/core/pem/PemSplitter.java:13 | with no `-----` after the first `-----END `, the pattern matches nowhere from `p` |
| PemSplitter.FirstMarkerAndCloseAreFooter | core/src/main/java/br/com/hugobenicio/mycerts/core/pem/PemSplitter.java:13 | the first `-----END ` after `p` and the first `-----` after one character of group 2 form the reluctant match |
| PemSplitter.NoFooterIffNoMatch | core/src/main/java/br/com/hugobenicio/mycerts/core/pem/PemSplitter.java:13 | the scan finds no footer exactly when the pattern cannot match from `p` (both directions) |
| PemSplitter.FooterFromIsFooter | core/src/main/java/br/com/hugobenicio/mycerts/core/pem/PemSplitter.java:13 | the footer the scan finds is a match with both groups as short as possible |
| PemSplitter.FooterIsLeastMatch | core/src/main/java/br/com/hugobenicio/mycerts/core/pem/PemSplitter.java:13 | every match from `p` ends no earlier, in marker and in close, than the one the scan finds |
| PemSplitter.SplitFromStep | core/src/main/java/br/com/hugobenicio/mycerts/core/pem/PemSplitter.java:20-25 | each match adds one block and the next search resumes where that match ended, strictly further on |
| PemSplitter.FindFooter | core/src/main/java/br/com/hugobenicio/mycerts/core/pem/PemSplitter.java:21 | one `find` from `p` returns the footer of the declarative scan, or none |
| PemSplitter.Split | core/src/main/java/br/com/hugobenicio/mycerts/core/pem/PemSplitter.java:17-28 | the loop of `find` calls returns exactly the blocks of the declarative scan, in order |
| PemSplitterProperties.FooterIsTheScanResult | core/src/main/java/br/com/hugobenicio/mycerts/core/pem/PemSplitter.java:13 | any reluctant match of the pattern from `p` is the footer the scan reaches, so the match is unique |
| PemSplitterProperties.NoFooterNoBlocks | core/src/main/java/br/com/hugobenicio/mycerts/core/pem/PemSplitter.java:17-28 | `split` returns no block exactly when the pattern matches nowhere in the input; it never fails |
| PemSplitterProperties.BlockEndsInFooter | core/src/main/java/br/com/hugobenicio/mycerts/core/pem/PemSplitter.java:22-24 | a block's data ends in `-----END `, its name, and `-----` |
| PemSplitterProperties.NameHasNoEarlyDashes | core/src/main/java/br/com/hugobenicio/mycerts/core/pem/PemSplitter.java:13 | the name is the shortest non-empty text followed by `-----`, with no `-----` after its first character |
| PemSplitterProperties.DataHasNoEarlyMarker | core/src/main/java/br/com/hugobenicio/mycerts/core/pem/PemSplitter.java:13 | no `-----END ` starts inside a block before its own footer, except at its first character |
| PemSplitterProperties.BlockAtWellFormed | core/src/main/java/br/com/hugobenicio/mycerts/core/pem/PemSplitter.java:22-24 | every block has a non-empty name, text before its footer, and its own footer at the end |
| PemSplitterProperties.SplitFromWellFormed | core/src/main/java/br/com/hugobenicio/mycerts/core/pem/PemSplitter.java:20-25 | every block found from any start is well formed |
| PemSplitterProperties.BlocksAreWellFormed | core/src/main/java/br/com/hugobenicio/mycerts/core/pem/PemSplitter.java:17-28 | every block `split` returns is well formed |
| PemSplitterProperties.NoMatchFromLaterStart | core/src/main/java/br/com/hugobenicio/mycerts/core/pem/PemSplitter.java:21 | a search that fails from one position fails from every later one, so stopping at the first failed `find` loses nothing |
| PemSplitterProperties.ScanEndHasNoMatch | core/src/main/java/br/com/hugobenicio/mycerts/core/pem/PemSplitter.java:21-25 | where the scan stops, the pattern cannot match again |
| PemSplitterProperties.SplitFromTiles | core/src/main/java/br/com/hugobenicio/mycerts/core/pem/PemSplitter.java:20-25 | the blocks found from `p`, joined, are exactly the text from `p` to where the scan stops |
| PemSplitterProperties.BlocksTileInput | core/src/main/java/br/com/hugobenicio/mycerts/core/pem/PemSplitter.java:17-28 | the joined blocks are a prefix of the input, in order and without overlap; the rest holds no match and is dropped |
| PemSplitterProperties.LoneFooterIsDropped | core/src/main/java/br/com/hugobenicio/mycerts/core/pem/PemSplitter.java:13 | a footer at index 0 with nothing after it gives no block |
| PemSplitterProperties.FooterWithoutBeginIsABlock | core/src/main/java/br/com/hugobenicio/mycerts/core/pem/PemSplitter.java:7-13 | one character before a footer makes a block; no BEGIN line is needed, and the name keeps its case |
| CertificateOrdering.CompareByNotAfter | core/src/main/java/br/com/hugobenicio/mycerts/core/CertificateAnalyzer.java:224-239 | the comparator returns -1, 0 or 1 exactly when the first certificate expires earlier, at the same instant, or later |
| CertificateOrdering.CompareIsTotalPreorder | core/src/main/java/br/com/hugobenicio/mycerts/core/CertificateAnalyzer.java:224-239 | the comparator is antisymmetric and transitive, as `List.sort` requires |
| CertificateOrdering.SortedAgreesWithComparator | core/src/main/java/br/com/hugobenicio/mycerts/core/CertificateAnalyzer.java:221-240 | sorted by notAfter means the comparator finds no pair out of order, in both directions |
| CertificateOrdering.StableSortIsSortedPermutation | core/src/main/java/br/com/hugobenicio/mycerts/core/CertificateAnalyzer.java:223-240 | the sorted list has notAfter non-decreasing and is a permutation of the list |
| CertificateOrdering.StableSortKeepsTies | core/src/main/java/br/com/hugobenicio/mycerts/core/CertificateAnalyzer.java:223-240 | certificates with equal notAfter keep their relative order |
| CertificateOrdering.StableSortIsStable | core/src/main/java/br/com/hugobenicio/mycerts/core/CertificateAnalyzer.java:223-240 | the sort result is a stable sort of the list |
| CertificateOrdering.SortedIsDeterminedByTies | core/src/main/java/br/com/hugobenicio/mycerts/core/CertificateAnalyzer.java:223-240 | two sorted lists with the same tie groups are equal |
| CertificateOrdering.StableSortIsUnique | core/src/main/java/br/com/hugobenicio/mycerts/core/CertificateAnalyzer.java:223-240 | any stable sort of the list, whatever algorithm `List.sort` uses, equals the model's result |
| CertificateOrdering.SortingSortedIsIdentity | core/src/main/java/br/com/hugobenicio/mycerts/core/CertificateAnalyzer.java:223-240 | sorting an already sorted list changes nothing |
| CertificateOrdering.StableSortIsIdempotent | core/src/main/java/br/com/hugobenicio/mycerts/core/CertificateAnalyzer.java:223-240 | sorting twice gives the same list as sorting once |
| Expiration.Classify | core/src/main/java/br/com/hugobenicio/mycerts/core/CertificateAnalyzer.java:279-304 | the first-match chain of strict `isBefore` tests puts notAfter in the half-open interval of its bucket, each bucket an if-and-only-if |
| Expiration.ClassifyIsMonotone | core/src/main/java/br/com/hugobenicio/mycerts/core/CertificateAnalyzer.java:269-304 | a later expiry never lands in an earlier bucket |
| Expiration.BoundariesBelongToTheLaterBucket | core/src/main/java/br/com/hugobenicio/mycerts/core/CertificateAnalyzer.java:279-303 | notAfter == now is in the 7-day bucket; now+7d, +30d, +90d and +180d each fall into the next bucket |
| Expiration.ReportOrderFollowsRank | core/src/main/java/br/com/hugobenicio/mycerts/core/CertificateAnalyzer.java:307-319 | the report prints the buckets in the order of their thresholds, from expired to not expiring soon |
| Expiration.ReportOfSnoc | core/src/main/java/br/com/hugobenicio/mycerts/core/CertificateAnalyzer.java:275-305 | one more certificate goes at the end of its own bucket and changes no other bucket |
| Expiration.InBucketMember | core/src/main/java/br/com/hugobenicio/mycerts/core/CertificateAnalyzer.java:275-305 | a certificate is in a bucket exactly when it is in the list and classifies there |
| Expiration.ReportPartitions | core/src/main/java/br/com/hugobenicio/mycerts/core/CertificateAnalyzer.java:262-305 | the six buckets together hold the list's certificates with multiplicity, and their sizes sum to the list size |
| Expiration.InBucketKeepsOrder | core/src/main/java/br/com/hugobenicio/mycerts/core/CertificateAnalyzer.java:275-305 | each bucket lists its certificates at strictly increasing list positions and misses none |
| Expiration.ConcatFollowsReportOrder | core/src/main/java/br/com/hugobenicio/mycerts/core/CertificateAnalyzer.java:307-319 | the six lists joined are the lists in the order the report prints them |
| Expiration.SortedReportIsInListOrder | core/src/main/java/br/com/hugobenicio/mycerts/core/CertificateAnalyzer.java:262-319 | after sorting, the six buckets, joined in the order the report prints them, are the list itself |
| Expiration.DetailOf | core/src/main/java/br/com/hugobenicio/mycerts/core/CertificateAnalyzer.java:355-362 | the pronoun is "since" exactly when notAfter < now, and "in" otherwise, including zero; minutes and seconds are in 0..59; days are the whole days of the absolute duration |
| Expiration.DetailIsExact | core/src/main/java/br/com/hugobenicio/mycerts/core/CertificateAnalyzer.java:358-362 | days, the dropped hours, minutes and seconds add up to the whole seconds of the absolute duration |
| Expiration.DetailIsSymmetric | core/src/main/java/br/com/hugobenicio/mycerts/core/CertificateAnalyzer.java:355-358 | a duration and its negation give the same parts and differ only in the pronoun |
| Expiration.DetailLinesAt | core/src/main/java/br/com/hugobenicio/mycerts/core/CertificateAnalyzer.java:351-365 | one detail line per certificate, in list order, each giving that certificate's expiry, duration and subject |
| TrustStore.AliasKey | core/src/main/java/br/com/hugobenicio/mycerts/core/CertificateAnalyzer.java:335 | the alias has the name's length and no upper-case ASCII letter; each character is the name's, lower-cased |
| TrustStore.AliasKeyIsIdempotent | core/src/main/java/br/com/hugobenicio/mycerts/core/CertificateAnalyzer.java:335 | lower-casing an alias again changes nothing |
| TrustStore.CaseVariantsShareAnAlias | core/src/main/java/br/com/hugobenicio/mycerts/core/CertificateAnalyzer.java:335 | names that differ only in the case of ASCII letters get the same alias |
| TrustStore.AliasesAreSubjects | core/src/main/java/br/com/hugobenicio/mycerts/core/CertificateAnalyzer.java:329-336 | the store has one entry per distinct lower-cased subject name; each entry is a listed certificate filed under its subject's alias |
| TrustStore.LastWins | core/src/main/java/br/com/hugobenicio/mycerts/core/CertificateAnalyzer.java:333-336 | the entry for an alias is the last certificate in the list whose subject has that alias |
| TrustStore.DistinctSubjectsAreAllKept | core/src/main/java/br/com/hugobenicio/mycerts/core/CertificateAnalyzer.java:333-336 | with subject names distinct even ignoring case, all N certificates are kept, each under its own alias |
| TrustStore.SubjectsAtMostCertificates | core/src/main/java/br/com/hugobenicio/mycerts/core/CertificateAnalyzer.java:333-336 | there are never more entries than certificates |
| TrustStore.SharedSubjectLosesAnEntry | core/src/main/java/br/com/hugobenicio/mycerts/core/CertificateAnalyzer.java:333-336 | two certificates whose subject names have one alias leave fewer entries than certificates |
| TrustStore.CaseVariantSubjectsShareAnEntry | core/src/main/java/br/com/hugobenicio/mycerts/core/CertificateAnalyzer.java:333-336 | "CN=Example" then "CN=example" leave one entry, under "cn=example", holding the later certificate |
| CertificateLoading.ConnectError | core/src/main/java/br/com/hugobenicio/mycerts/core/CertificateAnalyzer.java:146-150 | an I/O failure becomes a LoadingCertificateException naming host, port and server name; any other failure escapes unchecked |
| CertificateLoading.EqualsIgnoreCaseOnAscii | core/src/main/java/br/com/hugobenicio/mycerts/core/CertificateAnalyzer.java:171-176 | on ASCII names, `equalsIgnoreCase` against an upper-case target is equality after upper-casing (both directions) |
| CertificateLoading.CertificateBlockIsCertificateName | core/src/main/java/br/com/hugobenicio/mycerts/core/CertificateAnalyzer.java:171-179 | a block is decoded exactly when its name equals "CERTIFICATE" ignoring case; the PKCS7 test never changes that |
| CertificateLoading.NameExamples | core/src/main/java/br/com/hugobenicio/mycerts/core/CertificateAnalyzer.java:171-176 | "certificate" and "Certificate" match, so does "PKCS7" spelled with the Kelvin sign; longer names do not |
| CertificateLoading.DecodeBlocksAppendsInOrder | core/src/main/java/br/com/hugobenicio/mycerts/core/CertificateAnalyzer.java:168-188 | the PEM loop appends the decodings of the CERTIFICATE blocks in file order, up to the first one the factory rejects, and fails exactly then |
| CertificateLoading.NoCertificateBlocksNothingHappens | core/src/main/java/br/com/hugobenicio/mycerts/core/CertificateAnalyzer.java:169-179 | blocks of other types are skipped without error |
| CertificateLoading.CertificateAndPkcs7Block | core/src/main/java/br/com/hugobenicio/mycerts/core/CertificateAnalyzer.java:169-184 | a CERTIFICATE block next to a PKCS7 block yields one certificate and no error |
| CertificateLoading.X509CertificatesMember | core/src/main/java/br/com/hugobenicio/mycerts/core/CertificateAnalyzer.java:206-214 | exactly the X.509 entries are appended; non-X.509 and null entries are skipped |
| CertificateLoading.X509CertificatesAppend | core/src/main/java/br/com/hugobenicio/mycerts/core/CertificateAnalyzer.java:206-214 | the walk keeps alias order |
| CertificateLoading.X509CertificatesCount | core/src/main/java/br/com/hugobenicio/mycerts/core/CertificateAnalyzer.java:206-214 | at most one certificate per alias, and exactly one each when all entries are X.509 |
| CertificateLoading.IsFileExtensionSupported | core/src/main/java/br/com/hugobenicio/mycerts/core/CertificateAnalyzer.java:368-370 | an extension is supported exactly when it is "pem", "jks" or "p12" |
| CertificateLoading.ExtensionExamples | core/src/main/java/br/com/hugobenicio/mycerts/core/CertificateAnalyzer.java:29 | the match is exact and case-sensitive: "PEM", ".pem" and "" are not supported |
| Analyzer.CertificateAnalyzer.constructor | core/src/main/java/br/com/hugobenicio/mycerts/core/CertificateAnalyzer.java:82-85 | a new analyzer holds no certificates |
| Analyzer.CertificateAnalyzer.LoadCertificatesFromRemoteServer | core/src/main/java/br/com/hugobenicio/mycerts/core/CertificateAnalyzer.java:108-151 | on success the peer chain is appended after the existing certificates; on failure the list is unchanged and the error names host, port and server name |
| Analyzer.CertificateAnalyzer.LoadCertificatesFromHost | core/src/main/java/br/com/hugobenicio/mycerts/core/CertificateAnalyzer.java:87-89 | the host-only overload uses port 443 and sends the host as server name |
| Analyzer.CertificateAnalyzer.LoadCertificatesFromHostAndPort | core/src/main/java/br/com/hugobenicio/mycerts/core/CertificateAnalyzer.java:91-93 | the host-and-port overload sends the host as server name |
| Analyzer.CertificateAnalyzer.LoadCertificatesFromHostWithServerName | core/src/main/java/br/com/hugobenicio/mycerts/core/CertificateAnalyzer.java:95-97 | the host-and-server-name overload uses port 443 |
| Analyzer.CertificateAnalyzer.LoadCertificatesFromPemFile | core/src/main/java/br/com/hugobenicio/mycerts/core/CertificateAnalyzer.java:159-189 | an unreadable file fails with its file name and appends nothing; otherwise the decoded CERTIFICATE blocks of `split` are appended, and a rejected block fails unchecked, keeping earlier appends |
| Analyzer.CertificateAnalyzer.LoadCertificatesFromJksInputStream | core/src/main/java/br/com/hugobenicio/mycerts/core/CertificateAnalyzer.java:191-194 | a JKS load passes the password through, absent as absent |
| Analyzer.CertificateAnalyzer.LoadCertificatesFromP12InputStream | core/src/main/java/br/com/hugobenicio/mycerts/core/CertificateAnalyzer.java:196-199 | a PKCS12 load passes the password through, absent as absent |
| Analyzer.CertificateAnalyzer.LoadCertificatesFromJksOrP12InputStream | core/src/main/java/br/com/hugobenicio/mycerts/core/CertificateAnalyzer.java:201-218 | a failed load appends nothing and fails with a LoadingCertificateException; otherwise the X.509 certificates are appended in alias order |
| Analyzer.CertificateAnalyzer.SortCertificatesByNotAfterDateAscending | core/src/main/java/br/com/hugobenicio/mycerts/core/CertificateAnalyzer.java:223-240 | the new list is a stable sort of the old one by notAfter, and a permutation of it |
| Analyzer.CertificateAnalyzer.ExpirationReport | core/src/main/java/br/com/hugobenicio/mycerts/core/CertificateAnalyzer.java:259-322 | the six lists are the buckets of the certificates; six sections are printed in bucket order, each with its count and detail lines |
| Analyzer.CertificateAnalyzer.FileCertificate | core/src/main/java/br/com/hugobenicio/mycerts/core/CertificateAnalyzer.java:279-304 | the if-chain appends the certificate to the list of its bucket only |
| Analyzer.CertificateAnalyzer.ExpirationReportDetails | core/src/main/java/br/com/hugobenicio/mycerts/core/CertificateAnalyzer.java:351-366 | the loop's arithmetic gives the detail line of each certificate, in list order |
| Analyzer.CertificateAnalyzer.SaveCertsToFile | core/src/main/java/br/com/hugobenicio/mycerts/core/CertificateAnalyzer.java:324-349 | the store holds the alias map of the list, where the last certificate with a given lower-cased name wins; its keys are the lower-cased subject names, and the password protects it |

## Left out

- TLS networking is a `Handshake` parameter: socket creation, the SNI parameters and the handshake (`CertificateAnalyzer.java:115-143`), the insecure trust manager, and the probe service.
- The remote loader appends the peer chain and then closes the socket. An `IOException` raised by that close, after the certificates were appended, is not modelled.
- The X.509 certificate factory is a `Decoder` parameter. `getBytes()` in the platform charset is not modelled either: the decoder receives the block text.
- JKS and PKCS12 parsing is a `KeyStoreLoader` parameter: `KeyStore.load` and the alias enumeration. Reusing one `KeyStore` object across loads is not modelled, because `load` re-initialises it.
- File reading (`Files.readString`) is the `contents` parameter, and `Path.getFileName` is the `fileName` parameter.
- Key store creation, `store` and the output file are left out of `SaveCertsToFile`, and so are the exceptions they raise. The method gives the store image that would be written.
- A null password in `saveCertsToFile` is not modelled: the password is a string.
- TrustStore.AliasKey: lower-cases ASCII letters only. The key store lower-cases in the English locale, so non-ASCII upper-case letters in a subject name are also folded there but not in the model. Both JKS and PKCS12, the default key store types, fold aliases this way; other key store types are not modelled.
- Printing and logging are left out: `individualReport`, the `printf` text of the report and of its details, and all log calls. The model gives the counts, the bucket contents and the numeric duration parts.
- `getCertificates` returns the live list. Callers mutating that list through the alias is not modelled.
- `Instant.now()` is the parameter `now`.
- Dafny integers are unbounded, so the 64-bit limits of `Instant` and `Duration` are not modelled. `Date` has millisecond precision; notAfter instants therefore compare as `Date.before` and `Date.after` do.
- EqualsIgnoreCase: stated only for upper-case ASCII targets, the two names the loader compares against. On such a target, Java's rule (upper-case, then lower-case) accepts exactly the letter, its lower case, and U+0130, U+0131, U+017F and U+212A where they fold onto it.
- Strings are sequences of characters. UTF-16 surrogate pairs are not distinguished from single characters.
- `List.sort` is TimSort. It is modelled by its result: `StableSortIsUnique` shows that every stable sort gives `StableSort`.
- The command-line and web front ends are left out, as are resource lookup and the exception class. `LoadingCertificateException` is represented by the error cases of `LoadError`.
