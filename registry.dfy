/**
 * The deployed certificate registry: an object whose calls update its fields
 * in place. Records live in a map keyed by checksum, and a list of checksums
 * keeps their insertion order. Every call is proved to move the registry's
 * abstract state exactly as the matching function of RegistrySpec does.
 */
module Registry {
  import opened Certificates
  import opened Ledger
  import RegistrySpec

  /** The records of `records` stored under `keys`, in the order of `keys`. */
  function Collect(keys: seq<string>, records: map<string, Certificate>): seq<Certificate>
    requires forall k :: k in keys ==> k in records
  {
    seq(|keys|, i requires 0 <= i < |keys| => records[keys[i]])
  }

  /**
   * The checksum list and the record map describe the same records: they hold
   * the same checksums, and each record is stored under its own checksum.
   */
  predicate Represents(order: seq<string>, records: map<string, Certificate>) {
    && (forall k :: k in order ==> k in records)
    && (forall k :: k in records ==> k in order)
    && (forall k :: k in records ==> records[k].checksum == k)
  }

  lemma ChecksumsCollect(order: seq<string>, records: map<string, Certificate>)
    requires Represents(order, records)
    ensures Checksums(Collect(order, records)) == order
  {
  }

  lemma CollectAppend(a: seq<string>, b: seq<string>, records: map<string, Certificate>)
    requires forall k :: k in a + b ==> k in records
    ensures Collect(a + b, records) == Collect(a, records) + Collect(b, records)
  {
  }

  /** A checksum is in the map exactly when the abstract records contain it. */
  lemma ContainsCollect(order: seq<string>, records: map<string, Certificate>, checksum: string)
    requires Represents(order, records)
    ensures Contains(Collect(order, records), checksum) <==> checksum in records
  {
    ChecksumsCollect(order, records);
    ContainsIffListed(Collect(order, records), checksum);
  }

  /** Looking a checksum up in the map agrees with looking it up in the ordered records. */
  lemma LookupCollect(order: seq<string>, records: map<string, Certificate>, checksum: string)
    requires Represents(order, records) && Unique(Collect(order, records))
    ensures Lookup(Collect(order, records), checksum) ==
      if checksum in records then records[checksum] else Absent
  {
    var certs := Collect(order, records);
    ContainsCollect(order, records, checksum);
    if checksum in records {
      var i :| 0 <= i < |order| && order[i] == checksum;
      assert certs[i] == records[checksum];
      LookupMember(certs, certs[i]);
    }
  }

  /** Appending a new checksum and storing its record appends the record to the abstract records. */
  lemma CollectAdd(order: seq<string>, records: map<string, Certificate>, c: Certificate)
    requires Represents(order, records) && c.checksum !in records
    ensures Represents(order + [c.checksum], records[c.checksum := c])
    ensures Collect(order + [c.checksum], records[c.checksum := c]) == Collect(order, records) + [c]
  {
    var records' := records[c.checksum := c];
    assert Collect(order, records') == Collect(order, records);
    CollectAppend(order, [c.checksum], records');
  }

  /** Removing position `i` from the list and its key from the map deletes that record from the abstract records. */
  lemma CollectRemove(order: seq<string>, records: map<string, Certificate>, i: nat)
    requires Represents(order, records) && Unique(Collect(order, records)) && i < |order|
    ensures Represents(order[..i] + order[i + 1..], records - {order[i]})
    ensures Collect(order[..i] + order[i + 1..], records - {order[i]}) ==
      Without(Collect(order, records), order[i])
  {
    var certs := Collect(order, records);
    WithoutAt(certs, i);
    RemovedUnlisted(order, records, i);
    RemovedRepresents(order, records, i);
    RemovedCollect(order, records, i);
  }

  /** When checksums are unique, the removed checksum occurs nowhere else in the list. */
  lemma RemovedUnlisted(order: seq<string>, records: map<string, Certificate>, i: nat)
    requires Represents(order, records) && Unique(Collect(order, records)) && i < |order|
    ensures order[i] !in order[..i] + order[i + 1..]
  {
    var certs := Collect(order, records);
    WithoutAt(certs, i);
    RemovedChecksums(order, records, i);
    ContainsIffListed(certs[..i] + certs[i + 1..], order[i]);
  }

  lemma RemovedRepresents(order: seq<string>, records: map<string, Certificate>, i: nat)
    requires Represents(order, records) && i < |order|
    requires order[i] !in order[..i] + order[i + 1..]
    ensures Represents(order[..i] + order[i + 1..], records - {order[i]})
  {
    assert order == order[..i] + [order[i]] + order[i + 1..];
  }

  lemma RemovedCollect(order: seq<string>, records: map<string, Certificate>, i: nat)
    requires Represents(order, records) && i < |order|
    requires order[i] !in order[..i] + order[i + 1..]
    ensures var certs := Collect(order, records);
      Collect(order[..i] + order[i + 1..], records - {order[i]}) == certs[..i] + certs[i + 1..]
  {
    var certs := Collect(order, records);
    var order', records' := order[..i] + order[i + 1..], records - {order[i]};
    var certs' := certs[..i] + certs[i + 1..];
    forall j | 0 <= j < |order'|
      ensures order'[j] in records' && certs'[j] == records'[order'[j]]
    {
      if j < i {
        assert certs'[j] == certs[j] && order'[j] == order[j];
      } else {
        assert certs'[j] == certs[j + 1] && order'[j] == order[j + 1];
      }
    }
  }

  lemma RemovedChecksums(order: seq<string>, records: map<string, Certificate>, i: nat)
    requires Represents(order, records) && i < |order|
    ensures var certs := Collect(order, records);
      Checksums(certs[..i] + certs[i + 1..]) == order[..i] + order[i + 1..]
  {
    var certs := Collect(order, records);
    ChecksumsCollect(order, records);
    ChecksumsAppend(certs[..i], certs[i + 1..]);
    assert Checksums(certs[..i]) == order[..i];
    assert Checksums(certs[i + 1..]) == order[i + 1..];
  }

  class CertificateRegistry {
    /** The deploying account, fixed for the registry's lifetime. */
    const owner: Address
    /** Accounts the owner has made trusted issuers. */
    var trusted: set<Address>
    /** Checksums of the live records, in insertion order. */
    var order: seq<string>
    /** Live records, keyed by checksum. */
    var records: map<string, Certificate>

    /** The registry's invariant: list and map agree, and the abstract state is valid. */
    ghost predicate Valid()
      reads this
    {
      Represents(order, records) && RegistrySpec.Valid(Model())
    }

    /** The abstract state the fields stand for. */
    ghost function Model(): RegistrySpec.State
      reads this
      requires Represents(order, records)
    {
      RegistrySpec.State(owner, trusted, Collect(order, records))
    }

    /** Deployment: `owner` is the deploying account. */
    constructor (owner: Address)
      ensures Valid() && Model() == RegistrySpec.Init(owner)
    {
      this.owner := owner;
      trusted := {};
      order := [];
      records := map[];
    }

    function IsTrustedIssuer(issuer: Address): (b: bool)
      reads this
      requires Valid()
      ensures b == RegistrySpec.IsTrustedIssuer(Model(), issuer)
    {
      issuer == owner || issuer in trusted
    }

    method AddTrustedIssuer(issuer: Address)
      requires Valid()
      modifies this
      ensures Valid() && Model() == RegistrySpec.AddTrustedIssuer(old(Model()), issuer)
    {
      trusted := trusted + {issuer};
    }

    method RemoveTrustedIssuer(issuer: Address)
      requires Valid()
      modifies this
      ensures Valid() && Model() == RegistrySpec.RemoveTrustedIssuer(old(Model()), issuer)
    {
      trusted := trusted - {issuer};
    }

    /**
     * `addCertificate`: passes and moves to the state RegistrySpec.AddCertificate
     * gives, or reverts with its error and changes nothing.
     */
    method AddCertificate(caller: Address, checksum: string, name: string, surname: string,
                          daysValid: nat, now: nat) returns (outcome: Outcome)
      requires Valid()
      modifies this
      ensures Valid()
      ensures var r := RegistrySpec.AddCertificate(old(Model()), caller, checksum, name, surname, daysValid, now);
        && (outcome == Pass <==> r.Ok?)
        && (r.Ok? ==> Model() == r.value)
        && (r.Err? ==> outcome == Fail(r.error) && unchanged(this))
    {
      ContainsCollect(order, records, checksum);
      if !(caller == owner || caller in trusted) {
        return Fail(NotTrustedIssuer);
      }
      if checksum == "" {
        return Fail(EmptyChecksum);
      }
      if checksum in records {
        return Fail(AlreadyPresent);
      }
      if name == "" {
        return Fail(EmptyName);
      }
      if surname == "" {
        return Fail(EmptySurname);
      }
      if daysValid < 1 {
        return Fail(InvalidDuration);
      }
      var cert := RegistrySpec.Issued(caller, checksum, name, surname, daysValid, now);
      CollectAdd(order, records, cert);
      RegistrySpec.AddCertificateKeepsValid(Model(), caller, checksum, name, surname, daysValid, now);
      records := records[checksum := cert];
      order := order + [checksum];
      outcome := Pass;
    }

    /**
     * `invalidate`: passes and moves to the state RegistrySpec.Invalidate
     * gives, or reverts with its error and changes nothing. The checksum is
     * found by a scan of the list, which then closes the gap it leaves.
     */
    method Invalidate(caller: Address, checksum: string) returns (outcome: Outcome)
      requires Valid()
      modifies this
      ensures Valid()
      ensures var r := RegistrySpec.Invalidate(old(Model()), caller, checksum);
        && (outcome == Pass <==> r.Ok?)
        && (r.Ok? ==> Model() == r.value)
        && (r.Err? ==> outcome == Fail(r.error) && unchanged(this))
    {
      ContainsCollect(order, records, checksum);
      LookupCollect(order, records, checksum);
      if checksum !in records {
        return Fail(DoesNotExist);
      }
      if records[checksum].issuer != caller {
        return Fail(NotIssuer);
      }
      var i := 0;
      while order[i] != checksum
        invariant 0 <= i < |order|
        invariant checksum in order[i..]
        decreases |order| - i
      {
        assert order[i..] == [order[i]] + order[i + 1..];
        i := i + 1;
      }
      CollectRemove(order, records, i);
      RegistrySpec.InvalidateDeletes(Model(), caller, checksum);
      order := order[..i] + order[i + 1..];
      records := records - {checksum};
      outcome := Pass;
    }

    /** `getCertificate`: the record under `checksum`, or the absent record (empty checksum). */
    function GetCertificate(checksum: string): (r: Certificate)
      reads this
      requires Valid()
      ensures r == Lookup(Model().certs, checksum)
    {
      LookupCollect(order, records, checksum);
      if checksum in records then records[checksum] else Absent
    }

    /** `getChecksums`: the checksums of the live records, in insertion order. */
    function GetChecksums(): (r: seq<string>)
      reads this
      requires Valid()
      ensures r == Checksums(Model().certs)
    {
      ChecksumsCollect(order, records);
      order
    }

    /** `getAllCertificates`: the live records, in insertion order. */
    method GetAllCertificates() returns (r: seq<Certificate>)
      requires Valid()
      ensures r == Model().certs
      ensures Checksums(r) == GetChecksums()
    {
      r := [];
      var i := 0;
      while i < |order|
        invariant 0 <= i <= |order|
        invariant r == Collect(order[..i], records)
      {
        assert order[..i + 1] == order[..i] + [order[i]];
        CollectAppend(order[..i], [order[i]], records);
        r := r + [records[order[i]]];
        i := i + 1;
      }
      assert order[..i] == order;
      ChecksumsCollect(order, records);
    }

    /** `getCertificatesIssuedBy`: exactly the live records `issuer` added, in insertion order. */
    method GetCertificatesIssuedBy(issuer: Address) returns (r: seq<Certificate>)
      requires Valid()
      ensures r == IssuedBy(Model().certs, issuer)
      ensures forall c :: c in r <==> c in Model().certs && c.issuer == issuer
    {
      r := [];
      var i := 0;
      while i < |order|
        invariant 0 <= i <= |order|
        invariant r == IssuedBy(Collect(order[..i], records), issuer)
      {
        var c := records[order[i]];
        assert order[..i + 1] == order[..i] + [order[i]];
        CollectAppend(order[..i], [order[i]], records);
        assert Collect([order[i]], records) == [c];
        IssuedByAppend(Collect(order[..i], records), [c], issuer);
        assert IssuedBy([c], issuer) == if c.issuer == issuer then [c] else [] by {
          assert [c][1..] == [];
        }
        if c.issuer == issuer {
          r := r + [c];
        }
        i := i + 1;
      }
      assert order[..i] == order;
    }
  }
}
