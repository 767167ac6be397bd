/**
 * What the three loaders of the analyzer append, and how they fail. The
 * X.509 certificate factory, the key store formats and the TLS handshake
 * are parameters: the model states what the loaders do with their results.
 */
module CertificateLoading {
  import opened Wrappers
  import opened Certificates
  import opened PemSplitter

  /* How a load fails */

  /**
   * The exceptions a loader lets escape: the three kinds of
   * `LoadingCertificateException` with the message each carries, and an
   * unchecked exception that propagates as it is.
   */
  datatype LoadError =
    | ServerFailure(host: string, port: int, serverName: string)
    | FileFailure(fileName: string)
    | KeyStoreFailure
    | Unchecked(cause: string)
  {
    predicate IsLoadingCertificateException()
    {
      !Unchecked?
    }
  }

  /* Remote servers */

  const DefaultTlsPort: int := 443

  /** Why the socket or the handshake failed: an `IOException`, or an argument the socket layer refuses. */
  datatype ConnectFailure = IoFailure(reason: string) | InvalidArgument(reason: string)

  /** Connects to host and port, sends the server name, and returns the peer certificates in session order. */
  type Handshake = (string, int, string) -> Result<seq<Certificate>, ConnectFailure>

  /** An `IOException` becomes a `LoadingCertificateException` naming host, port and server name; anything else escapes. */
  function ConnectError(host: string, port: int, serverName: string, failure: ConnectFailure): (e: LoadError)
    ensures e.IsLoadingCertificateException() <==> failure.IoFailure?
    ensures failure.IoFailure? ==> e == ServerFailure(host, port, serverName)
  {
    match failure
    case IoFailure(_) => ServerFailure(host, port, serverName)
    case InvalidArgument(reason) => Unchecked(reason)
  }

  /* PEM files */

  const Pkcs7Type: string := "PKCS7"
  const CertificateType: string := "CERTIFICATE"

  /** Upper-case ASCII letters and digits, the only targets the loader compares block names against. */
  predicate IsUpperAsciiWord(t: string)
  {
    forall i :: 0 <= i < |t| ==> 'A' <= t[i] <= 'Z' || '0' <= t[i] <= '9'
  }

  function LowerAscii(t: char): char
  {
    if 'A' <= t <= 'Z' then (t as int + 32) as char else t
  }

  /**
   * `Character.toUpperCase` followed, when that differs, by
   * `Character.toLowerCase`, as `equalsIgnoreCase` compares: against an
   * upper-case ASCII letter this accepts the letter, its lower case, and
   * the four non-ASCII characters whose case mapping lands on it.
   */
  predicate FoldsTo(c: char, t: char)
  {
    || c == t
    || c == LowerAscii(t)
    || (t == 'I' && (c == '\U{0130}' || c == '\U{0131}'))
    || (t == 'S' && c == '\U{017F}')
    || (t == 'K' && c == '\U{212A}')
  }

  /** `target.equalsIgnoreCase(s)` for an upper-case ASCII `target`. */
  predicate EqualsIgnoreCase(target: string, s: string)
    requires IsUpperAsciiWord(target)
  {
    |s| == |target| && forall i :: 0 <= i < |s| ==> FoldsTo(s[i], target[i])
  }

  /** Upper-casing ASCII text. */
  function UpperAscii(s: string): (r: string)
    ensures |r| == |s|
  {
    if s == [] then []
    else [if 'a' <= s[0] <= 'z' then (s[0] as int - 32) as char else s[0]] + UpperAscii(s[1..])
  }

  predicate IsAscii(s: string)
  {
    forall i :: 0 <= i < |s| ==> s[i] as int < 128
  }

  lemma {:induction false} UpperAsciiAt(s: string, i: nat)
    requires i < |s|
    ensures UpperAscii(s)[i] == if 'a' <= s[i] <= 'z' then (s[i] as int - 32) as char else s[i]
  {
    if i > 0 {
      UpperAsciiAt(s[1..], i - 1);
    }
  }

  /** On ASCII text the comparison is plain upper-casing. */
  lemma EqualsIgnoreCaseOnAscii(target: string, s: string)
    requires IsUpperAsciiWord(target) && IsAscii(s)
    ensures EqualsIgnoreCase(target, s) <==> UpperAscii(s) == target
  {
    if |s| == |target| {
      forall i | 0 <= i < |s| ensures FoldsTo(s[i], target[i]) <==> UpperAscii(s)[i] == target[i] {
        UpperAsciiAt(s, i);
      }
    }
  }

  /** The block survives both tests of the loop: it is not PKCS7 and it is CERTIFICATE. */
  predicate IsCertificateBlock(b: PemBlock)
  {
    !EqualsIgnoreCase(Pkcs7Type, b.name) && EqualsIgnoreCase(CertificateType, b.name)
  }

  /** The PKCS7 test never changes the outcome: a PKCS7 name is never a CERTIFICATE name. */
  lemma CertificateBlockIsCertificateName(b: PemBlock)
    ensures IsCertificateBlock(b) <==> EqualsIgnoreCase(CertificateType, b.name)
  {
  }

  lemma NameExamples()
    ensures EqualsIgnoreCase(CertificateType, "certificate")
    ensures EqualsIgnoreCase(CertificateType, "Certificate")
    ensures EqualsIgnoreCase(Pkcs7Type, "p\U{212A}cs7")
    ensures !EqualsIgnoreCase(CertificateType, "X509 CERTIFICATE")
    ensures !EqualsIgnoreCase(CertificateType, "CERTIFICATE ")
  {
  }

  /** The X.509 certificate factory applied to the bytes of one block. */
  type Decoder = string -> Result<Certificate, string>

  /** The blocks the loader hands to the certificate factory, in file order. */
  function CertificateBlocks(blocks: seq<PemBlock>): seq<PemBlock>
  {
    if blocks == [] then []
    else (if IsCertificateBlock(blocks[0]) then [blocks[0]] else []) + CertificateBlocks(blocks[1..])
  }

  /** What the PEM loop appends, and the decoding failure that stopped it, if any. */
  datatype Decoded = Decoded(certs: seq<Certificate>, failure: Option<string>)

  function DecodeBlocks(blocks: seq<PemBlock>, decode: Decoder): Decoded
  {
    if blocks == [] then Decoded([], None)
    else if !IsCertificateBlock(blocks[0]) then DecodeBlocks(blocks[1..], decode)
    else match decode(blocks[0].fullData)
      case Failure(e) => Decoded([], Some(e))
      case Success(c) =>
        var rest := DecodeBlocks(blocks[1..], decode);
        Decoded([c] + rest.certs, rest.failure)
  }

  /**
   * The loop appends the decodings of the certificate blocks in file order
   * and stops at the first one the factory rejects; whatever it appended
   * before stays. Other blocks are skipped and never fail.
   */
  lemma {:induction false} DecodeBlocksAppendsInOrder(blocks: seq<PemBlock>, decode: Decoder)
    ensures |DecodeBlocks(blocks, decode).certs| <= |CertificateBlocks(blocks)|
    ensures forall i :: 0 <= i < |DecodeBlocks(blocks, decode).certs| ==>
              decode(CertificateBlocks(blocks)[i].fullData) == Success(DecodeBlocks(blocks, decode).certs[i])
    ensures DecodeBlocks(blocks, decode).failure.None? <==>
              |DecodeBlocks(blocks, decode).certs| == |CertificateBlocks(blocks)|
    ensures DecodeBlocks(blocks, decode).failure.Some? ==>
              decode(CertificateBlocks(blocks)[|DecodeBlocks(blocks, decode).certs|].fullData)
              == Failure(DecodeBlocks(blocks, decode).failure.value)
  {
    if blocks != [] {
      DecodeBlocksAppendsInOrder(blocks[1..], decode);
      if IsCertificateBlock(blocks[0]) && decode(blocks[0].fullData).Success? {
        var rest := DecodeBlocks(blocks[1..], decode);
        var certs := DecodeBlocks(blocks, decode).certs;
        assert certs == [decode(blocks[0].fullData).value] + rest.certs;
        assert CertificateBlocks(blocks) == [blocks[0]] + CertificateBlocks(blocks[1..]);
        forall i | 1 <= i < |certs|
          ensures decode(CertificateBlocks(blocks)[i].fullData) == Success(certs[i])
        {
          assert certs[i] == rest.certs[i - 1];
        }
      }
    }
  }

  /** A file without certificate blocks appends nothing and cannot fail. */
  lemma {:induction false} NoCertificateBlocksNothingHappens(blocks: seq<PemBlock>, decode: Decoder)
    requires forall i :: 0 <= i < |blocks| ==> !IsCertificateBlock(blocks[i])
    ensures DecodeBlocks(blocks, decode) == Decoded([], None)
  {
    if blocks != [] {
      NoCertificateBlocksNothingHappens(blocks[1..], decode);
    }
  }

  /** A CERTIFICATE block next to a PKCS7 block: one certificate, and the PKCS7 block is skipped without error. */
  lemma CertificateAndPkcs7Block(certData: string, pkcs7Data: string, decode: Decoder)
    requires decode(certData).Success?
    ensures DecodeBlocks([PemBlock("CERTIFICATE", certData), PemBlock("PKCS7", pkcs7Data)], decode)
            == Decoded([decode(certData).value], None)
  {
    var blocks := [PemBlock("CERTIFICATE", certData), PemBlock("PKCS7", pkcs7Data)];
    var tail := [PemBlock("PKCS7", pkcs7Data)];
    assert blocks[1..] == tail && tail[1..] == [];
    assert !IsCertificateBlock(tail[0]);
    assert DecodeBlocks(tail, decode) == Decoded([], None);
    assert IsCertificateBlock(blocks[0]);
  }

  /* Key stores */

  datatype KeyStoreKind = Jks | Pkcs12

  /** What `getCertificate(alias)` returns: an X.509 certificate, some other certificate, or null. */
  datatype StoredCertificate = X509Certificate(cert: Certificate) | OtherCertificate | NoCertificate

  datatype AliasEntry = AliasEntry(alias: string, certificate: StoredCertificate)

  /**
   * `KeyStore.load` of the stream with the password (null is `None`),
   * followed by the walk over `aliases()`; a failure stands for any of the
   * exceptions `load` declares.
   */
  type KeyStoreLoader = (KeyStoreKind, Option<string>) -> Result<seq<AliasEntry>, string>

  /** The certificates the alias walk appends, in alias order. */
  function X509Certificates(entries: seq<AliasEntry>): seq<Certificate>
  {
    if entries == [] then []
    else
      X509Certificates(entries[..|entries| - 1])
      + match entries[|entries| - 1].certificate
        case X509Certificate(c) => [c]
        case _ => []
  }

  /** Exactly the X.509 entries are kept; an entry with another kind of certificate or none is skipped. */
  lemma {:induction false} X509CertificatesMember(entries: seq<AliasEntry>, c: Certificate)
    ensures c in X509Certificates(entries) <==> exists e :: e in entries && e.certificate == X509Certificate(c)
  {
    if entries != [] {
      var init, last := entries[..|entries| - 1], entries[|entries| - 1];
      X509CertificatesMember(init, c);
      assert entries == init + [last];
    }
  }

  /** The walk keeps alias order: the entries of two runs of aliases come out one run after the other. */
  lemma {:induction false} X509CertificatesAppend(a: seq<AliasEntry>, b: seq<AliasEntry>)
    ensures X509Certificates(a + b) == X509Certificates(a) + X509Certificates(b)
    decreases |b|
  {
    if b != [] {
      var init := b[..|b| - 1];
      assert (a + b)[..|a + b| - 1] == a + init;
      X509CertificatesAppend(a, init);
    } else {
      assert a + b == a;
    }
  }

  lemma {:induction false} X509CertificatesCount(entries: seq<AliasEntry>)
    ensures |X509Certificates(entries)| <= |entries|
    ensures (forall i :: 0 <= i < |entries| ==> entries[i].certificate.X509Certificate?) ==>
              |X509Certificates(entries)| == |entries|
  {
    if entries != [] {
      X509CertificatesCount(entries[..|entries| - 1]);
    }
  }

  /* File extensions */

  const SupportedFileExtensions: seq<string> := ["pem", "jks", "p12"]

  /** `isFileExtensionSupported`: an exact, case-sensitive match against the three extensions. */
  function IsFileExtensionSupported(extension: string): (supported: bool)
    ensures supported <==> extension == "pem" || extension == "jks" || extension == "p12"
  {
    extension in SupportedFileExtensions
  }

  lemma ExtensionExamples()
    ensures IsFileExtensionSupported("pem") && IsFileExtensionSupported("p12")
    ensures !IsFileExtensionSupported("PEM") && !IsFileExtensionSupported(".pem") && !IsFileExtensionSupported("")
  {
  }
}
