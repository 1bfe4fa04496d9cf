/**
 * The certificate registry as a state machine over values: each call of the
 * contract is a function from the old state to the new state or to the error
 * the call reverts with. The registry class refines these functions; the
 * lemmas here state what the contract promises across calls.
 */
module RegistrySpec {
  import opened Certificates
  import opened Ledger

  /**
   * The registry's state: the deploying account, the accounts explicitly made
   * trusted issuers, and the live records in insertion order.
   */
  datatype State = State(owner: Address, trusted: set<Address>, certs: seq<Certificate>)

  /** A record that `addCertificate` can have stored. */
  predicate WellFormed(c: Certificate) {
    c.checksum != "" && c.recipient.name != "" && c.recipient.surname != "" &&
    c.issueDate < c.expireDate
  }

  /** The registry's invariant: checksums are unique and every record is well formed. */
  predicate Valid(s: State) {
    Unique(s.certs) && forall c :: c in s.certs ==> WellFormed(c)
  }

  /** Owner or explicitly trusted: the accounts that may add certificates. */
  predicate IsTrustedIssuer(s: State, a: Address): (b: bool)
    ensures a == s.owner ==> b
  {
    a == s.owner || a in s.trusted
  }

  /** The state right after deployment by `owner`. */
  function Init(owner: Address): (s: State)
    ensures Valid(s) && s.owner == owner && Checksums(s.certs) == []
    ensures forall a :: IsTrustedIssuer(s, a) <==> a == owner
  {
    State(owner, {}, [])
  }

  function AddTrustedIssuer(s: State, a: Address): (s': State)
    ensures s'.owner == s.owner && s'.certs == s.certs
    ensures forall b :: IsTrustedIssuer(s', b) <==> IsTrustedIssuer(s, b) || b == a
  {
    s.(trusted := s.trusted + {a})
  }

  function RemoveTrustedIssuer(s: State, a: Address): (s': State)
    ensures s'.owner == s.owner && s'.certs == s.certs
    ensures forall b :: IsTrustedIssuer(s', b) <==> IsTrustedIssuer(s, b) && (b != a || b == s.owner)
  {
    s.(trusted := s.trusted - {a})
  }

  /** The record a successful `addCertificate` stores. */
  function Issued(caller: Address, checksum: string, name: string, surname: string,
                  daysValid: nat, now: nat): (c: Certificate)
    ensures c.checksum == checksum && c.issuer == caller && c.issueDate == now
    ensures c.expireDate - c.issueDate == daysValid * SecondsPerDay
    ensures WellFormed(c) <==> checksum != "" && name != "" && surname != "" && daysValid >= 1
  {
    Certificate(checksum, Recipient(name, surname), now, now + daysValid * SecondsPerDay, caller)
  }

  /**
   * `addCertificate(checksum, name, surname, daysValid)` sent by `caller` in a
   * block with timestamp `now`. The checks run in a fixed order and the first
   * one that fails decides the error.
   */
  function AddCertificate(s: State, caller: Address, checksum: string, name: string,
                          surname: string, daysValid: nat, now: nat): Result<State>
  {
    if !IsTrustedIssuer(s, caller) then Err(NotTrustedIssuer)
    else if checksum == "" then Err(EmptyChecksum)
    else if Contains(s.certs, checksum) then Err(AlreadyPresent)
    else if name == "" then Err(EmptyName)
    else if surname == "" then Err(EmptySurname)
    else if daysValid < 1 then Err(InvalidDuration)
    else Ok(s.(certs := s.certs + [Issued(caller, checksum, name, surname, daysValid, now)]))
  }

  /** `invalidate(checksum)` sent by `caller`: a hard delete, allowed to the record's issuer only. */
  function Invalidate(s: State, caller: Address, checksum: string): Result<State> {
    if !Contains(s.certs, checksum) then Err(DoesNotExist)
    else if Lookup(s.certs, checksum).issuer != caller then Err(NotIssuer)
    else Ok(s.(certs := Without(s.certs, checksum)))
  }

  /** The rules `addCertificate` enforces, named by the error each one raises, in the order they are checked. */
  const AddRules: seq<Error> :=
    [NotTrustedIssuer, EmptyChecksum, AlreadyPresent, EmptyName, EmptySurname, InvalidDuration]

  /** Whether the rule named by `rule` holds for a call of `addCertificate`. */
  predicate AddRuleHolds(rule: Error, s: State, caller: Address, checksum: string,
                         name: string, surname: string, daysValid: nat)
  {
    match rule
    case NotTrustedIssuer => IsTrustedIssuer(s, caller)
    case EmptyChecksum => checksum != ""
    case AlreadyPresent => !Contains(s.certs, checksum)
    case EmptyName => name != ""
    case EmptySurname => surname != ""
    case InvalidDuration => daysValid >= 1
    case _ => true
  }

  /**
   * `addCertificate` succeeds exactly when every rule holds; otherwise it
   * reverts with the first rule, in the order of `AddRules`, that is broken.
   */
  lemma AddCertificateRules(s: State, caller: Address, checksum: string, name: string,
                            surname: string, daysValid: nat, now: nat)
    ensures AddCertificate(s, caller, checksum, name, surname, daysValid, now).Ok? <==>
      forall rule :: rule in AddRules ==> AddRuleHolds(rule, s, caller, checksum, name, surname, daysValid)
    ensures AddCertificate(s, caller, checksum, name, surname, daysValid, now).Err? ==>
      exists k :: 0 <= k < |AddRules| &&
        AddCertificate(s, caller, checksum, name, surname, daysValid, now).error == AddRules[k] &&
        !AddRuleHolds(AddRules[k], s, caller, checksum, name, surname, daysValid) &&
        forall j :: 0 <= j < k ==> AddRuleHolds(AddRules[j], s, caller, checksum, name, surname, daysValid)
  {
    var r := AddCertificate(s, caller, checksum, name, surname, daysValid, now);
    if r.Err? {
      var k := if !IsTrustedIssuer(s, caller) then 0
        else if checksum == "" then 1
        else if Contains(s.certs, checksum) then 2
        else if name == "" then 3
        else if surname == "" then 4
        else 5;
      assert r.error == AddRules[k] && AddRules[k] in AddRules;
    }
  }

  /**
   * A successful `addCertificate` stores the given fields under the checksum,
   * with the caller as issuer and an expiry `daysValid` days after the issue
   * date; it appends the checksum to the listing and changes nothing else.
   */
  lemma AddCertificateStores(s: State, caller: Address, checksum: string, name: string,
                             surname: string, daysValid: nat, now: nat)
    requires AddCertificate(s, caller, checksum, name, surname, daysValid, now).Ok?
    ensures var s' := AddCertificate(s, caller, checksum, name, surname, daysValid, now).value;
      var c := Lookup(s'.certs, checksum);
      && c.checksum == checksum && c.recipient.name == name && c.recipient.surname == surname
      && c.issuer == caller && c.issueDate == now
      && c.expireDate == c.issueDate + daysValid * SecondsPerDay
      && Checksums(s'.certs) == Checksums(s.certs) + [checksum]
      && (forall other :: other != checksum ==> Lookup(s'.certs, other) == Lookup(s.certs, other))
      && s'.owner == s.owner && s'.trusted == s.trusted
  {
    var c := Issued(caller, checksum, name, surname, daysValid, now);
    LookupAppend(s.certs, c, checksum);
    ChecksumsAppend(s.certs, [c]);
    forall other | other != checksum
      ensures Lookup(s.certs + [c], other) == Lookup(s.certs, other)
    {
      LookupAppend(s.certs, c, other);
    }
  }

  /**
   * A call of `addCertificate` that breaks none of its rules passes, keeps the
   * invariant, stores the issued record and appends its checksum to the listing.
   */
  lemma AddCertificateAppends(s: State, caller: Address, checksum: string, name: string,
                              surname: string, daysValid: nat, now: nat)
    requires Valid(s)
    requires IsTrustedIssuer(s, caller) && checksum != "" && checksum !in Checksums(s.certs)
    requires name != "" && surname != "" && daysValid >= 1
    ensures AddCertificate(s, caller, checksum, name, surname, daysValid, now).Ok?
    ensures var s' := AddCertificate(s, caller, checksum, name, surname, daysValid, now).value;
      && Valid(s') && s'.owner == s.owner && s'.trusted == s.trusted
      && Checksums(s'.certs) == Checksums(s.certs) + [checksum]
      && s'.certs == s.certs + [Issued(caller, checksum, name, surname, daysValid, now)]
      && Lookup(s'.certs, checksum) == Issued(caller, checksum, name, surname, daysValid, now)
  {
    ContainsIffListed(s.certs, checksum);
    AddCertificateStores(s, caller, checksum, name, surname, daysValid, now);
    AddCertificateKeepsValid(s, caller, checksum, name, surname, daysValid, now);
  }

  /** `addCertificate` keeps the registry's invariant. */
  lemma AddCertificateKeepsValid(s: State, caller: Address, checksum: string, name: string,
                                 surname: string, daysValid: nat, now: nat)
    requires Valid(s)
    requires AddCertificate(s, caller, checksum, name, surname, daysValid, now).Ok?
    ensures Valid(AddCertificate(s, caller, checksum, name, surname, daysValid, now).value)
  {
    var c := Issued(caller, checksum, name, surname, daysValid, now);
    UniqueAppend(s.certs, [c]);
    forall d | d in s.certs
      ensures !Contains([c], d.checksum)
    {
      ContainsIffMember(s.certs, checksum);
    }
  }

  /**
   * Once a checksum has been added, adding it again reverts with "Certificate
   * already present!" (or, for a caller that may not issue, with the
   * trusted-issuer error, which is checked first).
   */
  lemma AddCertificateTwice(s: State, caller: Address, checksum: string, name: string,
                            surname: string, daysValid: nat, now: nat,
                            caller2: Address, name2: string, surname2: string,
                            daysValid2: nat, now2: nat)
    requires AddCertificate(s, caller, checksum, name, surname, daysValid, now).Ok?
    ensures var s' := AddCertificate(s, caller, checksum, name, surname, daysValid, now).value;
      AddCertificate(s', caller2, checksum, name2, surname2, daysValid2, now2) ==
        if IsTrustedIssuer(s', caller2) then Err(AlreadyPresent) else Err(NotTrustedIssuer)
  {
    var c := Issued(caller, checksum, name, surname, daysValid, now);
    ContainsAppend(s.certs, [c], checksum);
  }

  /**
   * Only the issuer may revoke: `invalidate` succeeds exactly when a record
   * with the checksum exists and the caller issued it.
   */
  lemma InvalidateOnlyByIssuer(s: State, caller: Address, checksum: string)
    requires Valid(s)
    ensures Invalidate(s, caller, checksum).Ok? <==>
      exists c :: c in s.certs && c.checksum == checksum && c.issuer == caller
    ensures (forall c :: c in s.certs ==> c.checksum != checksum) ==>
      Invalidate(s, caller, checksum) == Err(DoesNotExist)
    ensures (exists c :: c in s.certs && c.checksum == checksum && c.issuer != caller) ==>
      Invalidate(s, caller, checksum) == Err(NotIssuer)
  {
    ContainsIffMember(s.certs, checksum);
    forall c | c in s.certs && c.checksum == checksum
      ensures Lookup(s.certs, checksum) == c
    {
      LookupMember(s.certs, c);
    }
  }

  /**
   * A successful `invalidate` is a hard delete: the lookup then returns the
   * absent record (empty checksum), the checksum leaves the listing, the other
   * records keep their order and lookups, and the invariant is kept.
   */
  lemma InvalidateDeletes(s: State, caller: Address, checksum: string)
    requires Valid(s)
    requires Invalidate(s, caller, checksum).Ok?
    ensures var s' := Invalidate(s, caller, checksum).value;
      && Lookup(s'.certs, checksum) == Absent && Lookup(s'.certs, checksum).checksum == ""
      && checksum !in Checksums(s'.certs)
      && checksum in Checksums(s.certs)
      && (forall i :: 0 <= i < |s.certs| && s.certs[i].checksum == checksum ==>
                      s'.certs == s.certs[..i] + s.certs[i + 1..])
      && (forall other :: other != checksum ==> Lookup(s'.certs, other) == Lookup(s.certs, other))
      && s'.owner == s.owner && s'.trusted == s.trusted
      && Valid(s')
  {
    var s' := Invalidate(s, caller, checksum).value;
    ContainsIffListed(s'.certs, checksum);
    ContainsIffListed(s.certs, checksum);
    forall i | 0 <= i < |s.certs| && s.certs[i].checksum == checksum
      ensures s'.certs == s.certs[..i] + s.certs[i + 1..]
    {
      WithoutAt(s.certs, i);
    }
    WithoutUnique(s.certs, checksum);
    forall other | other != checksum
      ensures Lookup(s'.certs, other) == Lookup(s.certs, other)
    {
      WithoutLookup(s.certs, checksum, other);
    }
  }

  /**
   * The issuer's `invalidate` of the record at position `i` passes, keeps the
   * invariant, and deletes exactly that record: the records and the listing
   * of checksums afterwards are the old ones with that entry taken out.
   */
  lemma InvalidateUnlists(s: State, caller: Address, i: nat)
    requires Valid(s)
    requires i < |s.certs| && s.certs[i].issuer == caller
    ensures Invalidate(s, caller, s.certs[i].checksum).Ok?
    ensures var s' := Invalidate(s, caller, s.certs[i].checksum).value;
      && Valid(s') && s'.owner == s.owner && s'.trusted == s.trusted
      && s'.certs == s.certs[..i] + s.certs[i + 1..]
      && Checksums(s'.certs) == Checksums(s.certs)[..i] + Checksums(s.certs)[i + 1..]
  {
    InvalidateAt(s, caller, i);
    RemoveAtKeepsValid(s, i);
    ChecksumsRemoveAt(s.certs, i);
  }

  /** The issuer's `invalidate` of the record at position `i` passes and splices that record out. */
  lemma InvalidateAt(s: State, caller: Address, i: nat)
    requires Unique(s.certs)
    requires i < |s.certs| && s.certs[i].issuer == caller
    ensures Invalidate(s, caller, s.certs[i].checksum) ==
      Ok(s.(certs := s.certs[..i] + s.certs[i + 1..]))
  {
    var checksum := s.certs[i].checksum;
    assert Contains(s.certs, checksum) by {
      ContainsIffMember(s.certs, checksum);
    }
    LookupMember(s.certs, s.certs[i]);
    WithoutAt(s.certs, i);
  }

  /** Splicing one record out keeps the invariant. */
  lemma RemoveAtKeepsValid(s: State, i: nat)
    requires Valid(s) && i < |s.certs|
    ensures Valid(s.(certs := s.certs[..i] + s.certs[i + 1..]))
  {
    WithoutAt(s.certs, i);
    WithoutUnique(s.certs, s.certs[i].checksum);
  }

  /**
   * Invalidation undoes addition: when the issuer invalidates the checksum it
   * has just added, the registry is back in the state before the add.
   */
  lemma AddThenInvalidate(s: State, caller: Address, checksum: string, name: string,
                          surname: string, daysValid: nat, now: nat)
    requires Valid(s)
    requires AddCertificate(s, caller, checksum, name, surname, daysValid, now).Ok?
    ensures Invalidate(AddCertificate(s, caller, checksum, name, surname, daysValid, now).value,
                       caller, checksum) == Ok(s)
  {
    var c := Issued(caller, checksum, name, surname, daysValid, now);
    var s' := AddCertificate(s, caller, checksum, name, surname, daysValid, now).value;
    assert s'.certs == s.certs + [c];
    ContainsAppend(s.certs, [c], checksum);
    LookupAppend(s.certs, c, checksum);
    WithoutAppend(s.certs, [c], checksum);
    assert Without([c], checksum) == [] by {
      assert [c][1..] == [];
    }
    WithoutMissing(s.certs, checksum);
    assert s.certs + [] == s.certs;
  }

  /** After an invalidation the same checksum may be issued again, by any trusted issuer. */
  lemma ReissueAfterInvalidate(s: State, caller: Address, checksum: string,
                               issuer: Address, name: string, surname: string,
                               daysValid: nat, now: nat)
    requires Valid(s)
    requires Invalidate(s, caller, checksum).Ok?
    requires IsTrustedIssuer(s, issuer) && name != "" && surname != "" && daysValid >= 1
    ensures AddCertificate(Invalidate(s, caller, checksum).value, issuer, checksum,
                           name, surname, daysValid, now).Ok?
  {
    assert Lookup(s.certs, checksum) in s.certs;
  }

  /**
   * `getChecksums` lists exactly the checksums `getCertificate` finds: a
   * non-empty checksum is listed if and only if its lookup returns a record
   * carrying it, rather than the absent record.
   */
  lemma ListedIffFound(s: State, checksum: string)
    requires Valid(s)
    ensures checksum in Checksums(s.certs) <==>
      checksum != "" && Lookup(s.certs, checksum).checksum == checksum
  {
    ContainsIffListed(s.certs, checksum);
    assert Contains(s.certs, checksum) ==> WellFormed(Lookup(s.certs, checksum));
  }

  /**
   * Trusting an account that is already trusted changes nothing: an account
   * in the trusted set leaves the state as it is, and any trusted issuer
   * (the owner included) leaves every account's trust as it is. In
   * particular two trusts in a row equal one.
   */
  lemma AddTrustedIssuerIdempotent(s: State, a: Address)
    ensures a in s.trusted ==> AddTrustedIssuer(s, a) == s
    ensures IsTrustedIssuer(s, a) ==>
      forall b :: IsTrustedIssuer(AddTrustedIssuer(s, a), b) == IsTrustedIssuer(s, b)
    ensures AddTrustedIssuer(AddTrustedIssuer(s, a), a) == AddTrustedIssuer(s, a)
  {
    if a in s.trusted {
      assert s.trusted + {a} == s.trusted;
    }
    assert s.trusted + {a} + {a} == s.trusted + {a};
  }

  /**
   * Trusting and then distrusting an account other than the owner makes it a
   * trusted issuer in between and leaves it untrusted afterwards; if it was
   * not trusted before, the state is back where it started.
   */
  lemma TrustedIssuerRoundTrip(s: State, a: Address)
    requires a != s.owner
    ensures IsTrustedIssuer(AddTrustedIssuer(s, a), a)
    ensures !IsTrustedIssuer(RemoveTrustedIssuer(AddTrustedIssuer(s, a), a), a)
    ensures a !in s.trusted ==> RemoveTrustedIssuer(AddTrustedIssuer(s, a), a) == s
  {
    if a !in s.trusted {
      assert s.trusted + {a} - {a} == s.trusted;
    }
  }
}
