/**
 * The certificate store seen as a value: the live records in insertion order.
 * Lookup, hard delete and the issuer filter are defined here on sequences and
 * serve as the reference the registry's map-and-list representation is proved
 * against.
 */
module Ledger {
  import opened Certificates

  /** The checksums of `certs`, in the same order. */
  function Checksums(certs: seq<Certificate>): (r: seq<string>)
    ensures |r| == |certs|
    ensures forall k :: k in r <==> exists c :: c in certs && c.checksum == k
  {
    var r := seq(|certs|, i requires 0 <= i < |certs| => certs[i].checksum);
    assert forall i :: 0 <= i < |r| ==> certs[i] in certs && certs[i].checksum == r[i];
    r
  }

  /** Some record in `certs` carries `checksum`. */
  predicate Contains(certs: seq<Certificate>, checksum: string) {
    certs != [] && (certs[0].checksum == checksum || Contains(certs[1..], checksum))
  }

  /** No two records share a checksum. */
  predicate Unique(certs: seq<Certificate>) {
    certs == [] || (!Contains(certs[1..], certs[0].checksum) && Unique(certs[1..]))
  }

  /** The record stored under `checksum`, or the absent sentinel when there is none. */
  function Lookup(certs: seq<Certificate>, checksum: string): (r: Certificate)
    ensures Contains(certs, checksum) ==> r in certs && r.checksum == checksum
    ensures !Contains(certs, checksum) ==> r == Absent
  {
    if certs == [] then Absent
    else if certs[0].checksum == checksum then certs[0]
    else Lookup(certs[1..], checksum)
  }

  /** `certs` with the records carrying `checksum` deleted; the others keep their order. */
  function Without(certs: seq<Certificate>, checksum: string): (r: seq<Certificate>)
    ensures forall c :: c in r <==> c in certs && c.checksum != checksum
    ensures !Contains(r, checksum)
  {
    if certs == [] then []
    else if certs[0].checksum == checksum then Without(certs[1..], checksum)
    else [certs[0]] + Without(certs[1..], checksum)
  }

  /** The records of `certs` whose issuer is `issuer`, in the same order. */
  function IssuedBy(certs: seq<Certificate>, issuer: Address): (r: seq<Certificate>)
    ensures forall c :: c in r <==> c in certs && c.issuer == issuer
  {
    if certs == [] then []
    else if certs[0].issuer == issuer then [certs[0]] + IssuedBy(certs[1..], issuer)
    else IssuedBy(certs[1..], issuer)
  }

  /** A checksum is stored exactly when it is one of the listed checksums. */
  lemma {:induction false} ContainsIffListed(certs: seq<Certificate>, checksum: string)
    ensures Contains(certs, checksum) <==> checksum in Checksums(certs)
  {
    if certs != [] {
      ContainsIffListed(certs[1..], checksum);
      assert Checksums(certs) == [certs[0].checksum] + Checksums(certs[1..]);
    }
  }

  /** A checksum is stored exactly when some stored record carries it. */
  lemma {:induction false} ContainsIffMember(certs: seq<Certificate>, checksum: string)
    ensures Contains(certs, checksum) <==> exists c :: c in certs && c.checksum == checksum
  {
    if certs != [] {
      ContainsIffMember(certs[1..], checksum);
      assert certs == [certs[0]] + certs[1..];
    }
  }

  lemma ChecksumsAppend(a: seq<Certificate>, b: seq<Certificate>)
    ensures Checksums(a + b) == Checksums(a) + Checksums(b)
  {
  }

  /** Splicing a record out of the records splices its checksum out of the listing. */
  lemma ChecksumsRemoveAt(certs: seq<Certificate>, i: nat)
    requires i < |certs|
    ensures Checksums(certs[..i] + certs[i + 1..]) == Checksums(certs)[..i] + Checksums(certs)[i + 1..]
  {
    ChecksumsAppend(certs[..i], certs[i + 1..]);
    assert Checksums(certs[..i]) == Checksums(certs)[..i];
    assert Checksums(certs[i + 1..]) == Checksums(certs)[i + 1..];
  }

  /** A record is found in a sequence exactly when it is found in one of its two parts. */
  lemma {:induction false} ContainsAppend(a: seq<Certificate>, b: seq<Certificate>, checksum: string)
    ensures Contains(a + b, checksum) <==> Contains(a, checksum) || Contains(b, checksum)
  {
    if a == [] {
      assert a + b == b;
    } else {
      assert (a + b)[0] == a[0];
      assert (a + b)[1..] == a[1..] + b;
      ContainsAppend(a[1..], b, checksum);
    }
  }

  /** Two parts can be joined without a clash exactly when neither shares a checksum with the other. */
  lemma {:induction false} UniqueAppend(a: seq<Certificate>, b: seq<Certificate>)
    ensures Unique(a + b) <==>
      Unique(a) && Unique(b) && forall c :: c in a ==> !Contains(b, c.checksum)
  {
    if a == [] {
      assert a + b == b;
    } else {
      assert (a + b)[0] == a[0];
      assert (a + b)[1..] == a[1..] + b;
      UniqueAppend(a[1..], b);
      ContainsAppend(a[1..], b, a[0].checksum);
      forall c | c in a
        ensures c == a[0] || c in a[1..]
      {
        var i :| 0 <= i < |a| && a[i] == c;
        if i > 0 { assert a[1..][i - 1] == c; }
      }
    }
  }

  /** In a sequence with unique checksums, a checksum identifies its record. */
  lemma {:induction false} UniqueSame(certs: seq<Certificate>, x: Certificate, y: Certificate)
    requires Unique(certs)
    requires x in certs && y in certs && x.checksum == y.checksum
    ensures x == y
  {
    if x != certs[0] && y != certs[0] {
      assert x in certs[1..] && y in certs[1..] by {
        var i :| 0 <= i < |certs| && certs[i] == x;
        var j :| 0 <= j < |certs| && certs[j] == y;
        assert certs[1..][i - 1] == x && certs[1..][j - 1] == y;
      }
      UniqueSame(certs[1..], x, y);
    } else if x != y {
      var other := if x == certs[0] then y else x;
      assert other in certs[1..] by {
        var i :| 0 <= i < |certs| && certs[i] == other;
        assert certs[1..][i - 1] == other;
      }
      ContainsIffMember(certs[1..], certs[0].checksum);
    }
  }

  /** In a sequence with unique checksums, looking up a record's checksum finds that record. */
  lemma LookupMember(certs: seq<Certificate>, c: Certificate)
    requires Unique(certs) && c in certs
    ensures Lookup(certs, c.checksum) == c
  {
    ContainsIffMember(certs, c.checksum);
    UniqueSame(certs, c, Lookup(certs, c.checksum));
  }

  /** Deletion distributes over concatenation: it never reorders the survivors. */
  lemma {:induction false} WithoutAppend(a: seq<Certificate>, b: seq<Certificate>, checksum: string)
    ensures Without(a + b, checksum) == Without(a, checksum) + Without(b, checksum)
  {
    if a == [] {
      assert a + b == b;
    } else {
      assert (a + b)[0] == a[0];
      assert (a + b)[1..] == a[1..] + b;
      WithoutAppend(a[1..], b, checksum);
    }
  }

  /** Deleting a checksum that is not stored changes nothing. */
  lemma {:induction false} WithoutMissing(certs: seq<Certificate>, checksum: string)
    requires !Contains(certs, checksum)
    ensures Without(certs, checksum) == certs
  {
    if certs != [] {
      WithoutMissing(certs[1..], checksum);
    }
  }

  /**
   * Deleting a stored checksum from a sequence with unique checksums removes
   * exactly the one record at its position and keeps the rest in order.
   */
  lemma WithoutAt(certs: seq<Certificate>, i: nat)
    requires Unique(certs) && i < |certs|
    ensures Without(certs, certs[i].checksum) == certs[..i] + certs[i + 1..]
  {
    var c := certs[i].checksum;
    var before, rest, after := certs[..i], certs[i..], certs[i + 1..];
    assert certs == before + rest;
    assert rest[0] == certs[i] && rest[1..] == after;
    UniqueAppend(before, rest);
    assert !Contains(before, c) by {
      ContainsIffMember(before, c);
    }
    assert !Contains(after, c);
    WithoutAppend(before, rest, c);
    assert Without(rest, c) == Without(after, c);
    WithoutMissing(before, c);
    WithoutMissing(after, c);
  }

  /** Deletion keeps checksums unique. */
  lemma {:induction false} WithoutUnique(certs: seq<Certificate>, checksum: string)
    requires Unique(certs)
    ensures Unique(Without(certs, checksum))
  {
    if certs != [] {
      WithoutUnique(certs[1..], checksum);
      if certs[0].checksum != checksum {
        var rest := Without(certs[1..], checksum);
        assert ([certs[0]] + rest)[1..] == rest;
        ContainsIffMember(rest, certs[0].checksum);
        ContainsIffMember(certs[1..], certs[0].checksum);
      }
    }
  }

  /** Deletion leaves every other checksum's lookup as it was. */
  lemma {:induction false} WithoutLookup(certs: seq<Certificate>, checksum: string, other: string)
    requires other != checksum
    ensures Lookup(Without(certs, checksum), other) == Lookup(certs, other)
  {
    if certs != [] {
      WithoutLookup(certs[1..], checksum, other);
      if certs[0].checksum != checksum {
        assert ([certs[0]] + Without(certs[1..], checksum))[1..] == Without(certs[1..], checksum);
      }
    }
  }

  /** Appending a record leaves every earlier lookup alone and makes its own checksum resolve to it. */
  lemma {:induction false} LookupAppend(certs: seq<Certificate>, c: Certificate, checksum: string)
    requires !Contains(certs, c.checksum)
    ensures Lookup(certs + [c], checksum) ==
      if checksum == c.checksum then c else Lookup(certs, checksum)
  {
    if certs == [] {
      assert certs + [c] == [c];
    } else {
      assert (certs + [c])[1..] == certs[1..] + [c];
      LookupAppend(certs[1..], c, checksum);
    }
  }

  /** The issuer filter distributes over concatenation: matching records keep their relative order. */
  lemma {:induction false} IssuedByAppend(a: seq<Certificate>, b: seq<Certificate>, issuer: Address)
    ensures IssuedBy(a + b, issuer) == IssuedBy(a, issuer) + IssuedBy(b, issuer)
  {
    if a == [] {
      assert a + b == b;
    } else {
      assert (a + b)[0] == a[0];
      assert (a + b)[1..] == a[1..] + b;
      IssuedByAppend(a[1..], b, issuer);
    }
  }
}
