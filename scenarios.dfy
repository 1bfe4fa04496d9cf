/**
 * The cases of test/CertificateRepository.js replayed against the registry
 * class. Each method deploys a registry with `owner` (the test's accounts[0])
 * as the deploying account, makes the case's calls in order, and returns what
 * the case observes; the postconditions are the case's assertions. `other`
 * stands for accounts[1]. `now` is the block timestamp of a case's one add;
 * a case with several adds takes one timestamp per add (`now1`, `now2`, ...),
 * each its own block. The deployed contract in the test is shared by all
 * cases, each of which invalidates what it added; where a case depends on an
 * earlier one, the method replays that earlier history first.
 */
module Scenarios {
  import opened Certificates
  import opened Ledger
  import RegistrySpec
  import opened Registry

  /** "should add certificate if trusted issuer": the owner may add without being made a trusted issuer. */
  method AddAsOwner(owner: Address, now: nat) returns (added: Outcome, invalidated: Outcome)
    ensures added == Pass && invalidated == Pass
  {
    var registry := new CertificateRegistry(owner);
    RegistrySpec.AddCertificateAppends(registry.Model(), owner, "checksum1", "jan", "kowalski", 1, now);
    added := registry.AddCertificate(owner, "checksum1", "jan", "kowalski", 1, now);
    RegistrySpec.InvalidateUnlists(registry.Model(), owner, 0);
    invalidated := registry.Invalidate(owner, "checksum1");
  }

  /** "should fail to add certificate if not trusted issuer". */
  method AddAsUntrusted(owner: Address, other: Address, now: nat)
    returns (added: Outcome, checksums: seq<string>)
    requires owner != other
    ensures added.Fail? && Message(added.error) == "You are not a trusted issuer!"
    ensures checksums == []
  {
    var registry := new CertificateRegistry(owner);
    added := registry.AddCertificate(other, "checksum2", "jan", "kowalski", 1, now);
    checksums := registry.GetChecksums();
  }

  /** "should fail to add certificate add certificate if already present". */
  method AddTwice(owner: Address, now1: nat, now2: nat)
    returns (first: Outcome, second: Outcome, invalidated: Outcome)
    ensures first == Pass
    ensures second.Fail? && Message(second.error) == "Certificate already present!"
    ensures invalidated == Pass
  {
    var registry := new CertificateRegistry(owner);
    RegistrySpec.AddCertificateAppends(registry.Model(), owner, "checksum3", "jan", "kowalski", 1, now1);
    first := registry.AddCertificate(owner, "checksum3", "jan", "kowalski", 1, now1);
    ContainsIffListed(registry.Model().certs, "checksum3");
    second := registry.AddCertificate(owner, "checksum3", "jan", "kowalski", 1, now2);
    RegistrySpec.InvalidateUnlists(registry.Model(), owner, 0);
    invalidated := registry.Invalidate(owner, "checksum3");
  }

  /** "should fail to add certificate if checksum empty". */
  method AddEmptyChecksum(owner: Address, now: nat) returns (added: Outcome, checksums: seq<string>)
    ensures added.Fail? && Message(added.error) == "File checksum must not be empty!"
    ensures checksums == []
  {
    var registry := new CertificateRegistry(owner);
    added := registry.AddCertificate(owner, "", "jan", "kowalski", 1, now);
    checksums := registry.GetChecksums();
  }

  /** "should fail to add certificate if _recipient_name empty". */
  method AddEmptyName(owner: Address, now: nat) returns (added: Outcome, checksums: seq<string>)
    ensures added.Fail? && Message(added.error) == "Recipient name must not be empty!"
    ensures checksums == []
  {
    var registry := new CertificateRegistry(owner);
    added := registry.AddCertificate(owner, "checksum4", "", "kowalski", 1, now);
    checksums := registry.GetChecksums();
  }

  /** "should fail to add certificate if _recipient_surname empty". */
  method AddEmptySurname(owner: Address, now: nat) returns (added: Outcome, checksums: seq<string>)
    ensures added.Fail? && Message(added.error) == "Recipient surname must not be empty!"
    ensures checksums == []
  {
    var registry := new CertificateRegistry(owner);
    added := registry.AddCertificate(owner, "checksum5", "jan", "", 1, now);
    checksums := registry.GetChecksums();
  }

  /** "should fail to add certificate if _days_valid == 0". */
  method AddZeroDays(owner: Address, now: nat) returns (added: Outcome, checksums: seq<string>)
    ensures added.Fail? && Message(added.error) == "Contract must be valid for at least 1 day!"
    ensures checksums == []
  {
    var registry := new CertificateRegistry(owner);
    added := registry.AddCertificate(owner, "checksum6", "jan", "kowalski", 0, now);
    checksums := registry.GetChecksums();
  }

  /** "should add certificate correctly": the stored fields, issuer and expiry as read back. */
  method AddAndRead(owner: Address, now: nat) returns (certificate: Certificate, invalidated: Outcome)
    ensures certificate.recipient.name == "jan" && certificate.recipient.surname == "kowalski"
    ensures certificate.expireDate == certificate.issueDate + 1 * 86400
    ensures certificate.issuer == owner && certificate.checksum == "checksum7"
    ensures invalidated == Pass
  {
    var registry := new CertificateRegistry(owner);
    RegistrySpec.AddCertificateAppends(registry.Model(), owner, "checksum7", "jan", "kowalski", 1, now);
    var added := registry.AddCertificate(owner, "checksum7", "jan", "kowalski", 1, now);
    certificate := registry.GetCertificate("checksum7");
    RegistrySpec.InvalidateUnlists(registry.Model(), owner, 0);
    invalidated := registry.Invalidate(owner, "checksum7");
  }

  /** "should add and remove trusted issuer". */
  method TrustAndDistrust(owner: Address, other: Address)
    returns (before: bool, after: bool, afterRemoval: bool)
    requires owner != other
    ensures !before && after && !afterRemoval
  {
    var registry := new CertificateRegistry(owner);
    before := registry.IsTrustedIssuer(other);
    registry.AddTrustedIssuer(other);
    after := registry.IsTrustedIssuer(other);
    registry.RemoveTrustedIssuer(other);
    afterRemoval := registry.IsTrustedIssuer(other);
  }

  /** "should invalidate certificate correctly": afterwards the lookup misses and the listing is empty. */
  method InvalidateAndRead(owner: Address, now: nat)
    returns (found: Certificate, missing: Certificate, checksums: seq<string>)
    ensures found.checksum == "checksum8"
    ensures missing.checksum == ""
    ensures |checksums| == 0
  {
    var registry := new CertificateRegistry(owner);
    RegistrySpec.AddCertificateAppends(registry.Model(), owner, "checksum8", "jan", "kowalski", 1, now);
    var added := registry.AddCertificate(owner, "checksum8", "jan", "kowalski", 1, now);
    found := registry.GetCertificate("checksum8");
    RegistrySpec.InvalidateUnlists(registry.Model(), owner, 0);
    var invalidated := registry.Invalidate(owner, "checksum8");
    RegistrySpec.ListedIffFound(registry.Model(), "checksum8");
    missing := registry.GetCertificate("checksum8");
    checksums := registry.GetChecksums();
  }

  /** "should fail to invalidate certificate if not certificate's issuer": the record survives for its issuer. */
  method InvalidateAsOther(owner: Address, other: Address, now: nat)
    returns (refused: Outcome, survivor: Certificate, invalidated: Outcome)
    requires owner != other
    ensures refused.Fail? && Message(refused.error) == "You must be contract's issuer!"
    ensures survivor.checksum == "checksum9"
    ensures invalidated == Pass
  {
    var registry := new CertificateRegistry(owner);
    RegistrySpec.AddCertificateAppends(registry.Model(), owner, "checksum9", "jan", "kowalski", 1, now);
    var added := registry.AddCertificate(owner, "checksum9", "jan", "kowalski", 1, now);
    ContainsIffListed(registry.Model().certs, "checksum9");
    refused := registry.Invalidate(other, "checksum9");
    survivor := registry.GetCertificate("checksum9");
    RegistrySpec.InvalidateUnlists(registry.Model(), owner, 0);
    invalidated := registry.Invalidate(owner, "checksum9");
  }

  /** "should fail to invalidate certificate if certificate does not exist". */
  method InvalidateMissing(owner: Address) returns (refused: Outcome)
    ensures refused.Fail? && Message(refused.error) == "Certificate does not exist!"
  {
    var registry := new CertificateRegistry(owner);
    refused := registry.Invalidate(owner, "checksum10");
  }

  /**
   * The three adds of "should return all checksums" on the abstract state:
   * all pass and leave the three records in the order they were added.
   */
  lemma ReturnAllChecksumsAdds(owner: Address, other: Address, now1: nat, now2: nat, now3: nat)
    ensures var s0 := RegistrySpec.AddTrustedIssuer(RegistrySpec.Init(owner), other);
      var r1 := RegistrySpec.AddCertificate(s0, owner, "checksum11", "jan", "kowalski", 1, now1);
      r1.Ok? &&
      var r2 := RegistrySpec.AddCertificate(r1.value, other, "checksum12", "jan", "nowak", 1, now2);
      r2.Ok? &&
      var r3 := RegistrySpec.AddCertificate(r2.value, owner, "checksum13", "jan", "wójcik", 1, now3);
      r3.Ok? && RegistrySpec.Valid(r3.value) &&
      r3.value == RegistrySpec.State(owner, {other}, [
        RegistrySpec.Issued(owner, "checksum11", "jan", "kowalski", 1, now1),
        RegistrySpec.Issued(other, "checksum12", "jan", "nowak", 1, now2),
        RegistrySpec.Issued(owner, "checksum13", "jan", "wójcik", 1, now3)])
  {
    var c11 := RegistrySpec.Issued(owner, "checksum11", "jan", "kowalski", 1, now1);
    var c12 := RegistrySpec.Issued(other, "checksum12", "jan", "nowak", 1, now2);
    var s0 := RegistrySpec.AddTrustedIssuer(RegistrySpec.Init(owner), other);
    assert s0 == RegistrySpec.State(owner, {other}, []);
    RegistrySpec.AddCertificateAppends(s0, owner, "checksum11", "jan", "kowalski", 1, now1);
    var s1 := RegistrySpec.State(owner, {other}, [c11]);
    assert s0.certs + [c11] == [c11];
    assert RegistrySpec.AddCertificate(s0, owner, "checksum11", "jan", "kowalski", 1, now1) == Ok(s1);
    RegistrySpec.AddCertificateAppends(s1, other, "checksum12", "jan", "nowak", 1, now2);
    var s2 := RegistrySpec.State(owner, {other}, [c11, c12]);
    assert s1.certs + [c12] == [c11, c12];
    assert RegistrySpec.AddCertificate(s1, other, "checksum12", "jan", "nowak", 1, now2) == Ok(s2);
    RegistrySpec.AddCertificateAppends(s2, owner, "checksum13", "jan", "wójcik", 1, now3);
  }

  /**
   * The first invalidation of "should return all checksums", on the state the
   * three adds leave: the last record goes, the other two stay listed in order.
   */
  lemma ReturnAllChecksumsRevokeLast(owner: Address, other: Address, now1: nat, now2: nat, now3: nat)
    requires owner != other
    requires RegistrySpec.Valid(RegistrySpec.State(owner, {other}, [
      RegistrySpec.Issued(owner, "checksum11", "jan", "kowalski", 1, now1),
      RegistrySpec.Issued(other, "checksum12", "jan", "nowak", 1, now2),
      RegistrySpec.Issued(owner, "checksum13", "jan", "wójcik", 1, now3)]))
    ensures var c11 := RegistrySpec.Issued(owner, "checksum11", "jan", "kowalski", 1, now1);
      var c12 := RegistrySpec.Issued(other, "checksum12", "jan", "nowak", 1, now2);
      var c13 := RegistrySpec.Issued(owner, "checksum13", "jan", "wójcik", 1, now3);
      var r4 := RegistrySpec.Invalidate(RegistrySpec.State(owner, {other}, [c11, c12, c13]), owner, "checksum13");
      r4.Ok? && r4.value == RegistrySpec.State(owner, {other}, [c11, c12]) && RegistrySpec.Valid(r4.value)
  {
    var c11 := RegistrySpec.Issued(owner, "checksum11", "jan", "kowalski", 1, now1);
    var c12 := RegistrySpec.Issued(other, "checksum12", "jan", "nowak", 1, now2);
    var c13 := RegistrySpec.Issued(owner, "checksum13", "jan", "wójcik", 1, now3);
    var s3 := RegistrySpec.State(owner, {other}, [c11, c12, c13]);
    RegistrySpec.InvalidateAt(s3, owner, 2);
    RegistrySpec.RemoveAtKeepsValid(s3, 2);
    assert s3.certs[..2] + s3.certs[3..] == [c11, c12];
  }

  /**
   * The two cleanup invalidations of "should return all checksums": each
   * issuer revokes its own record, and no record is left.
   */
  lemma ReturnAllChecksumsCleanup(owner: Address, other: Address, now1: nat, now2: nat, now3: nat)
    requires owner != other
    requires RegistrySpec.Valid(RegistrySpec.State(owner, {other}, [
      RegistrySpec.Issued(owner, "checksum11", "jan", "kowalski", 1, now1),
      RegistrySpec.Issued(other, "checksum12", "jan", "nowak", 1, now2)]))
    ensures var c11 := RegistrySpec.Issued(owner, "checksum11", "jan", "kowalski", 1, now1);
      var c12 := RegistrySpec.Issued(other, "checksum12", "jan", "nowak", 1, now2);
      var r5 := RegistrySpec.Invalidate(RegistrySpec.State(owner, {other}, [c11, c12]), owner, "checksum11");
      r5.Ok? &&
      var end := RegistrySpec.Invalidate(r5.value, other, "checksum12");
      end.Ok? && end.value.certs == []
  {
    var c11 := RegistrySpec.Issued(owner, "checksum11", "jan", "kowalski", 1, now1);
    var c12 := RegistrySpec.Issued(other, "checksum12", "jan", "nowak", 1, now2);
    var s4 := RegistrySpec.State(owner, {other}, [c11, c12]);
    RegistrySpec.InvalidateUnlists(s4, owner, 0);
    var s5 := RegistrySpec.Invalidate(s4, owner, "checksum11").value;
    assert s5.certs == [c12];
    RegistrySpec.InvalidateUnlists(s5, other, 0);
  }

  /**
   * The calls of "should return all checksums" on the abstract state, from
   * deployment on; the case ends with no record left.
   */
  lemma ReturnAllChecksumsReplay(owner: Address, other: Address, now1: nat, now2: nat, now3: nat)
    requires owner != other
    ensures var s0 := RegistrySpec.AddTrustedIssuer(RegistrySpec.Init(owner), other);
      var r1 := RegistrySpec.AddCertificate(s0, owner, "checksum11", "jan", "kowalski", 1, now1);
      r1.Ok? &&
      var r2 := RegistrySpec.AddCertificate(r1.value, other, "checksum12", "jan", "nowak", 1, now2);
      r2.Ok? &&
      var r3 := RegistrySpec.AddCertificate(r2.value, owner, "checksum13", "jan", "wójcik", 1, now3);
      r3.Ok? &&
      var r4 := RegistrySpec.Invalidate(r3.value, owner, "checksum13");
      r4.Ok? && Checksums(r4.value.certs) == ["checksum11", "checksum12"] &&
      var r5 := RegistrySpec.Invalidate(r4.value, owner, "checksum11");
      r5.Ok? &&
      var end := RegistrySpec.Invalidate(r5.value, other, "checksum12");
      end.Ok? && end.value.certs == []
  {
    ReturnAllChecksumsAdds(owner, other, now1, now2, now3);
    ReturnAllChecksumsRevokeLast(owner, other, now1, now2, now3);
    ReturnAllChecksumsCleanup(owner, other, now1, now2, now3);
  }

  /** "should return all checksums": an invalidated record drops out of the listing, the rest keep their order. */
  method ReturnAllChecksums(owner: Address, other: Address, now1: nat, now2: nat, now3: nat)
    returns (checksums: seq<string>, cleanup1: Outcome, cleanup2: Outcome)
    requires owner != other
    ensures checksums == ["checksum11", "checksum12"]
    ensures cleanup1 == Pass && cleanup2 == Pass
  {
    ReturnAllChecksumsReplay(owner, other, now1, now2, now3);
    var registry := new CertificateRegistry(owner);
    registry.AddTrustedIssuer(other);
    var added1 := registry.AddCertificate(owner, "checksum11", "jan", "kowalski", 1, now1);
    var added2 := registry.AddCertificate(other, "checksum12", "jan", "nowak", 1, now2);
    var added3 := registry.AddCertificate(owner, "checksum13", "jan", "wójcik", 1, now3);
    var invalidated := registry.Invalidate(owner, "checksum13");
    checksums := registry.GetChecksums();
    cleanup1 := registry.Invalidate(owner, "checksum11");
    cleanup2 := registry.Invalidate(other, "checksum12");
  }

  /**
   * The calls of "should get all certificates issued by issuer" on the
   * abstract state, after the history that case inherits from the one before
   * it: checksum13 was added and invalidated, `other` is already trusted. The
   * checksum is issued again, `other` adds checksum14, and only the owner's
   * record is listed for the owner. Trusting `other` again changes nothing, and
   * the case ends with no record left.
   */
  lemma IssuedByReplay(owner: Address, other: Address, now1: nat, now2: nat, now3: nat)
    requires owner != other
    ensures var s0 := RegistrySpec.AddTrustedIssuer(RegistrySpec.Init(owner), other);
      var r1 := RegistrySpec.AddCertificate(s0, owner, "checksum13", "jan", "wójcik", 1, now1);
      r1.Ok? &&
      var r2 := RegistrySpec.Invalidate(r1.value, owner, "checksum13");
      r2.Ok? &&
      var s3 := RegistrySpec.AddTrustedIssuer(r2.value, other);
      s3 == r2.value &&
      var r4 := RegistrySpec.AddCertificate(s3, owner, "checksum13", "jan", "kowalski", 1, now2);
      r4.Ok? &&
      var r5 := RegistrySpec.AddCertificate(r4.value, other, "checksum14", "jan", "nowak", 1, now3);
      r5.Ok? &&
      var issued := IssuedBy(r5.value.certs, owner);
      |issued| == 1 && issued[0].checksum == "checksum13" &&
      var r6 := RegistrySpec.Invalidate(r5.value, other, "checksum14");
      r6.Ok? &&
      var end := RegistrySpec.Invalidate(r6.value, owner, "checksum13");
      end.Ok? && end.value.certs == []
  {
    var s0 := RegistrySpec.AddTrustedIssuer(RegistrySpec.Init(owner), other);
    RegistrySpec.AddCertificateAppends(s0, owner, "checksum13", "jan", "wójcik", 1, now1);
    var s1 := RegistrySpec.AddCertificate(s0, owner, "checksum13", "jan", "wójcik", 1, now1).value;
    RegistrySpec.InvalidateUnlists(s1, owner, 0);
    var s2 := RegistrySpec.Invalidate(s1, owner, "checksum13").value;
    var s3 := RegistrySpec.AddTrustedIssuer(s2, other);
    RegistrySpec.AddTrustedIssuerIdempotent(s2, other);
    RegistrySpec.AddCertificateAppends(s3, owner, "checksum13", "jan", "kowalski", 1, now2);
    var s4 := RegistrySpec.AddCertificate(s3, owner, "checksum13", "jan", "kowalski", 1, now2).value;
    RegistrySpec.AddCertificateAppends(s4, other, "checksum14", "jan", "nowak", 1, now3);
    var s5 := RegistrySpec.AddCertificate(s4, other, "checksum14", "jan", "nowak", 1, now3).value;
    assert s5.certs == [s5.certs[0]] + [s5.certs[1]];
    IssuedByAppend([s5.certs[0]], [s5.certs[1]], owner);
    RegistrySpec.InvalidateUnlists(s5, other, 1);
    var s6 := RegistrySpec.Invalidate(s5, other, "checksum14").value;
    RegistrySpec.InvalidateUnlists(s6, owner, 0);
  }

  /** "should get all certificates issued by issuer", with the history it inherits replayed first. */
  method CertificatesIssuedBy(owner: Address, other: Address, now1: nat, now2: nat, now3: nat)
    returns (issued: seq<Certificate>, cleanup1: Outcome, cleanup2: Outcome)
    requires owner != other
    ensures |issued| == 1 && issued[0].checksum == "checksum13"
    ensures cleanup1 == Pass && cleanup2 == Pass
  {
    IssuedByReplay(owner, other, now1, now2, now3);
    var registry := new CertificateRegistry(owner);
    registry.AddTrustedIssuer(other);
    var earlier := registry.AddCertificate(owner, "checksum13", "jan", "wójcik", 1, now1);
    var revoked := registry.Invalidate(owner, "checksum13");
    registry.AddTrustedIssuer(other);
    var added1 := registry.AddCertificate(owner, "checksum13", "jan", "kowalski", 1, now2);
    var added2 := registry.AddCertificate(other, "checksum14", "jan", "nowak", 1, now3);
    issued := registry.GetCertificatesIssuedBy(owner);
    cleanup1 := registry.Invalidate(other, "checksum14");
    cleanup2 := registry.Invalidate(owner, "checksum13");
  }

  /** The calls of "should get all certificates" on the abstract state; the case ends with no record left. */
  lemma AllCertificatesReplay(owner: Address, other: Address, now1: nat, now2: nat)
    requires owner != other
    ensures var s0 := RegistrySpec.AddTrustedIssuer(RegistrySpec.Init(owner), other);
      var r1 := RegistrySpec.AddCertificate(s0, owner, "checksum15", "jan", "kowalski", 1, now1);
      r1.Ok? &&
      var r2 := RegistrySpec.AddCertificate(r1.value, other, "checksum16", "jan", "nowak", 1, now2);
      r2.Ok? &&
      var all := r2.value.certs;
      |all| == 2 && all[0].checksum == "checksum15" && all[1].checksum == "checksum16" &&
      var r3 := RegistrySpec.Invalidate(r2.value, owner, "checksum15");
      r3.Ok? &&
      var end := RegistrySpec.Invalidate(r3.value, other, "checksum16");
      end.Ok? && end.value.certs == []
  {
    var s0 := RegistrySpec.AddTrustedIssuer(RegistrySpec.Init(owner), other);
    RegistrySpec.AddCertificateAppends(s0, owner, "checksum15", "jan", "kowalski", 1, now1);
    var s1 := RegistrySpec.AddCertificate(s0, owner, "checksum15", "jan", "kowalski", 1, now1).value;
    RegistrySpec.AddCertificateAppends(s1, other, "checksum16", "jan", "nowak", 1, now2);
    var s2 := RegistrySpec.AddCertificate(s1, other, "checksum16", "jan", "nowak", 1, now2).value;
    RegistrySpec.InvalidateUnlists(s2, owner, 0);
    var s3 := RegistrySpec.Invalidate(s2, owner, "checksum15").value;
    RegistrySpec.InvalidateUnlists(s3, other, 0);
  }

  /** "should get all certificates": both issuers' records, in the order they were added. */
  method AllCertificates(owner: Address, other: Address, now1: nat, now2: nat)
    returns (all: seq<Certificate>, cleanup1: Outcome, cleanup2: Outcome)
    requires owner != other
    ensures |all| == 2 && all[0].checksum == "checksum15" && all[1].checksum == "checksum16"
    ensures cleanup1 == Pass && cleanup2 == Pass
  {
    AllCertificatesReplay(owner, other, now1, now2);
    var registry := new CertificateRegistry(owner);
    registry.AddTrustedIssuer(other);
    var added1 := registry.AddCertificate(owner, "checksum15", "jan", "kowalski", 1, now1);
    var added2 := registry.AddCertificate(other, "checksum16", "jan", "nowak", 1, now2);
    all := registry.GetAllCertificates();
    cleanup1 := registry.Invalidate(owner, "checksum15");
    cleanup2 := registry.Invalidate(other, "checksum16");
  }
}
