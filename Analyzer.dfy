/**
 * `CertificateAnalyzer`: one list of loaded certificates that the loaders
 * only append to, that the sort reorders in place, and that the report and
 * the trust-store writer read.
 */
module Analyzer {
  import opened Wrappers
  import opened Certificates
  import opened PemSplitter
  import opened CertificateLoading
  import opened CertificateOrdering
  import opened Expiration
  import opened TrustStore

  class CertificateAnalyzer {
    var certificates: seq<Certificate>

    constructor ()
      ensures certificates == []
    {
      certificates := [];
    }

    /* Remote servers */

    /** Appends the peer certificates of the handshake with `host:port`, sending `serverName` as SNI. */
    method LoadCertificatesFromRemoteServer(host: string, port: int, serverName: string, handshake: Handshake)
      returns (outcome: Outcome<LoadError>)
      modifies this
      ensures handshake(host, port, serverName).Success? ==>
                outcome == Pass && certificates == old(certificates) + handshake(host, port, serverName).value
      ensures handshake(host, port, serverName).Failure? ==>
                outcome == Fail(ConnectError(host, port, serverName, handshake(host, port, serverName).error))
                && certificates == old(certificates)
    {
      var peers := handshake(host, port, serverName);
      match peers
      case Failure(failure) =>
        outcome := Fail(ConnectError(host, port, serverName, failure));
      case Success(peerCertificates) =>
        certificates := certificates + peerCertificates;
        outcome := Pass;
    }

    /** The overload with the host only: port 443, and the host as server name. */
    method LoadCertificatesFromHost(host: string, handshake: Handshake) returns (outcome: Outcome<LoadError>)
      modifies this
      ensures handshake(host, DefaultTlsPort, host).Success? ==>
                outcome == Pass && certificates == old(certificates) + handshake(host, DefaultTlsPort, host).value
      ensures handshake(host, DefaultTlsPort, host).Failure? ==>
                outcome == Fail(ConnectError(host, DefaultTlsPort, host, handshake(host, DefaultTlsPort, host).error))
                && certificates == old(certificates)
    {
      outcome := LoadCertificatesFromRemoteServer(host, DefaultTlsPort, host, handshake);
    }

    /** The overload with host and port: the host is the server name. */
    method LoadCertificatesFromHostAndPort(host: string, port: int, handshake: Handshake) returns (outcome: Outcome<LoadError>)
      modifies this
      ensures handshake(host, port, host).Success? ==>
                outcome == Pass && certificates == old(certificates) + handshake(host, port, host).value
      ensures handshake(host, port, host).Failure? ==>
                outcome == Fail(ConnectError(host, port, host, handshake(host, port, host).error))
                && certificates == old(certificates)
    {
      outcome := LoadCertificatesFromRemoteServer(host, port, host, handshake);
    }

    /** The overload with host and server name: port 443. */
    method LoadCertificatesFromHostWithServerName(host: string, serverName: string, handshake: Handshake)
      returns (outcome: Outcome<LoadError>)
      modifies this
      ensures handshake(host, DefaultTlsPort, serverName).Success? ==>
                outcome == Pass && certificates == old(certificates) + handshake(host, DefaultTlsPort, serverName).value
      ensures handshake(host, DefaultTlsPort, serverName).Failure? ==>
                outcome == Fail(ConnectError(host, DefaultTlsPort, serverName, handshake(host, DefaultTlsPort, serverName).error))
                && certificates == old(certificates)
    {
      outcome := LoadCertificatesFromRemoteServer(host, DefaultTlsPort, serverName, handshake);
    }

    /* PEM files */

    /**
     * Splits the text of a PEM file into blocks and appends the certificate
     * of every CERTIFICATE block, in file order. `contents` is what reading
     * the file gave; a block the factory rejects ends the load with an
     * unchecked exception, keeping what was appended before it.
     */
    method LoadCertificatesFromPemFile(fileName: string, contents: Result<string, string>, decode: Decoder)
      returns (outcome: Outcome<LoadError>)
      modifies this
      ensures contents.Failure? ==> outcome == Fail(FileFailure(fileName)) && certificates == old(certificates)
      ensures contents.Success? ==>
                certificates == old(certificates) + DecodeBlocks(Blocks(contents.value), decode).certs
      ensures contents.Success? && DecodeBlocks(Blocks(contents.value), decode).failure.None? ==> outcome == Pass
      ensures contents.Success? && DecodeBlocks(Blocks(contents.value), decode).failure.Some? ==>
                outcome == Fail(Unchecked(DecodeBlocks(Blocks(contents.value), decode).failure.value))
    {
      if contents.Failure? {
        return Fail(FileFailure(fileName));
      }
      var blocks := Split(contents.value);
      var i := 0;
      while i < |blocks|
        invariant i <= |blocks|
        invariant certificates + DecodeBlocks(blocks[i..], decode).certs
                  == old(certificates) + DecodeBlocks(blocks, decode).certs
        invariant DecodeBlocks(blocks[i..], decode).failure == DecodeBlocks(blocks, decode).failure
      {
        var block := blocks[i];
        assert blocks[i..][1..] == blocks[i + 1..];
        if EqualsIgnoreCase(Pkcs7Type, block.name) {
          // PKCS7 blocks are skipped with a warning
        } else if !EqualsIgnoreCase(CertificateType, block.name) {
          // other block types are skipped with a warning
        } else {
          match decode(block.fullData)
          case Failure(cause) =>
            assert DecodeBlocks(blocks[i..], decode) == Decoded([], Some(cause));
            return Fail(Unchecked(cause));
          case Success(certificate) =>
            AppendOne(certificates, certificate, DecodeBlocks(blocks[i + 1..], decode).certs);
            certificates := certificates + [certificate];
        }
        i := i + 1;
      }
      outcome := Pass;
    }

    /* Key stores */

    method LoadCertificatesFromJksInputStream(password: Option<string>, load: KeyStoreLoader)
      returns (outcome: Outcome<LoadError>)
      modifies this
      ensures load(Jks, password).Failure? ==> outcome == Fail(KeyStoreFailure) && certificates == old(certificates)
      ensures load(Jks, password).Success? ==>
                outcome == Pass && certificates == old(certificates) + X509Certificates(load(Jks, password).value)
    {
      outcome := LoadCertificatesFromJksOrP12InputStream(Jks, password, load);
    }

    method LoadCertificatesFromP12InputStream(password: Option<string>, load: KeyStoreLoader)
      returns (outcome: Outcome<LoadError>)
      modifies this
      ensures load(Pkcs12, password).Failure? ==> outcome == Fail(KeyStoreFailure) && certificates == old(certificates)
      ensures load(Pkcs12, password).Success? ==>
                outcome == Pass && certificates == old(certificates) + X509Certificates(load(Pkcs12, password).value)
    {
      outcome := LoadCertificatesFromJksOrP12InputStream(Pkcs12, password, load);
    }

    /**
     * Loads the key store with the password as given (absent stays absent)
     * and appends the X.509 certificate of every alias, in alias order;
     * any failure of the load becomes a `LoadingCertificateException` before
     * anything is appended.
     */
    method LoadCertificatesFromJksOrP12InputStream(kind: KeyStoreKind, password: Option<string>, load: KeyStoreLoader)
      returns (outcome: Outcome<LoadError>)
      modifies this
      ensures load(kind, password).Failure? ==> outcome == Fail(KeyStoreFailure) && certificates == old(certificates)
      ensures load(kind, password).Success? ==>
                outcome == Pass && certificates == old(certificates) + X509Certificates(load(kind, password).value)
    {
      var loaded := load(kind, password);
      if loaded.Failure? {
        return Fail(KeyStoreFailure);
      }
      var entries := loaded.value;
      var i := 0;
      while i < |entries|
        invariant i <= |entries|
        invariant certificates == old(certificates) + X509Certificates(entries[..i])
      {
        assert entries[..i + 1][..i] == entries[..i];
        match entries[i].certificate {
          case X509Certificate(certificate) =>
            certificates := certificates + [certificate];
          case _ =>
            // not an X.509 certificate: skipped with a warning
        }
        i := i + 1;
      }
      assert entries[..i] == entries;
      outcome := Pass;
    }

    /* Sorting */

    /** Sorts the list in place by increasing notAfter; ties keep their order. */
    method SortCertificatesByNotAfterDateAscending()
      modifies this
      ensures certificates == StableSort(old(certificates))
      ensures IsStableSortOf(certificates, old(certificates))
      ensures multiset(certificates) == multiset(old(certificates))
    {
      StableSortIsStable(certificates);
      StableSortIsSortedPermutation(certificates);
      certificates := StableSort(certificates);
    }

    /* The expiration report */

    /**
     * Files every certificate into the first bucket whose strict threshold
     * it is before, then gives the six sections in print order, each with
     * its count and its detail lines.
     */
    method ExpirationReport(now: Instant) returns (report: Report, sections: seq<Section>)
      ensures report == ReportOf(certificates, now)
      ensures |sections| == |ReportOrder|
      ensures forall k :: 0 <= k < |sections| ==>
                sections[k] == Section(ReportOrder[k], |report.Get(ReportOrder[k])|, DetailLines(report.Get(ReportOrder[k]), now))
    {
      report := Report([], [], [], [], [], []);
      var i := 0;
      while i < |certificates|
        invariant i <= |certificates|
        invariant report == ReportOf(certificates[..i], now)
      {
        var certificate := certificates[i];
        ReportOfSnoc(certificates[..i], certificate, now);
        assert certificates[..i + 1] == certificates[..i] + [certificate];
        report := FileCertificate(report, certificate, now);
        i := i + 1;
      }
      assert certificates[..i] == certificates;
      sections := [];
      var k := 0;
      while k < |ReportOrder|
        invariant k <= |ReportOrder|
        invariant |sections| == k
        invariant forall j :: 0 <= j < k ==>
                    sections[j] == Section(ReportOrder[j], |report.Get(ReportOrder[j])|, DetailLines(report.Get(ReportOrder[j]), now))
      {
        var bucket := ReportOrder[k];
        var lines := ExpirationReportDetails(report.Get(bucket), now);
        sections := sections + [Section(bucket, |report.Get(bucket)|, lines)];
        k := k + 1;
      }
    }

    /** The body of the report loop: the first strict threshold the certificate is before picks its list. */
    static method FileCertificate(report: Report, certificate: Certificate, now: Instant) returns (filed: Report)
      ensures filed == report.Add(Classify(certificate.notAfter, now), certificate)
    {
      var notAfter := certificate.notAfter;
      if notAfter < now {
        filed := report.(expired := report.expired + [certificate]);
      } else if notAfter < PlusDays(now, 7) {
        filed := report.(within7Days := report.within7Days + [certificate]);
      } else if notAfter < PlusDays(now, 30) {
        filed := report.(within30Days := report.within30Days + [certificate]);
      } else if notAfter < PlusDays(now, 90) {
        filed := report.(within90Days := report.within90Days + [certificate]);
      } else if notAfter < PlusDays(now, 180) {
        filed := report.(within180Days := report.within180Days + [certificate]);
      } else {
        filed := report.(notExpiringSoon := report.notExpiringSoon + [certificate]);
      }
    }

    /** One line per certificate, in list order, with the duration between now and its expiry. */
    static method ExpirationReportDetails(certs: seq<Certificate>, now: Instant) returns (lines: seq<DetailLine>)
      ensures lines == DetailLines(certs, now)
    {
      lines := [];
      var i := 0;
      while i < |certs|
        invariant i <= |certs|
        invariant lines == DetailLines(certs[..i], now)
      {
        var certificate := certs[i];
        var notAfter := certificate.notAfter;
        var delta := notAfter - now;
        var pronoun := if delta < 0 then "since" else "in";
        var whole := (if delta < 0 then -delta else delta) / NanosPerSecond;
        var detail := Detail(pronoun, whole / SecondsPerDay, whole / SecondsPerMinute % 60, whole % SecondsPerMinute);
        assert certs[..i + 1] == certs[..i] + [certificate];
        lines := lines + [DetailLine(notAfter, detail, certificate.subject)];
        i := i + 1;
      }
      assert certs[..i] == certs;
    }

    /* The trust store */

    /**
     * Sets one certificate entry per loaded certificate under its subject
     * name, which the key store lower-cases, in list order, and gives the
     * store protected by `password`.
     */
    method SaveCertsToFile(password: string) returns (store: TrustStoreFile)
      ensures store == TrustStoreFile(Aliases(certificates), password)
      ensures store.entries.Keys == AliasKeys(certificates)
    {
      var entries: map<string, Certificate> := map[];
      var i := 0;
      while i < |certificates|
        invariant i <= |certificates|
        invariant entries == Aliases(certificates[..i])
      {
        var certificate := certificates[i];
        assert certificates[..i + 1][..i] == certificates[..i];
        entries := entries[AliasKey(certificate.subject) := certificate];
        i := i + 1;
      }
      assert certificates[..i] == certificates;
      AliasesAreSubjects(certificates);
      store := TrustStoreFile(entries, password);
    }
  }
}
