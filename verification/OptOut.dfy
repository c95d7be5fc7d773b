/** NSEC3 denial in a zone that opts out its unsigned delegations (section 6 of RFC 5155). */
module OptOut {
  import opened Bytes
  import opened Order
  import opened Records
  import opened Nsec
  import opened Denial
  import opened Nsec3

  /** A delegation without DS. */
  predicate UnsignedCut(z: Zone, k: seq<Text>) {
    k in z.types && ChildSide(z.types[k]) && TYPE_DS !in z.types[k]
  }

  /** The hash of the name lies in a span that opts out; out lists the links that do. */
  ghost predicate InSpan(digest: Text -> Text, p: Params, owners: seq<Text>, out: set<nat>, k: seq<Text>) {
    exists i: nat :: i in out && i < |owners| && LinkCovers(OctetsLess, owners, i, HashOfKey(digest, p, k))
  }

  /** The name exists only for the sake of unsigned delegations in such spans. */
  ghost predicate Omitted(z: Zone, digest: Text -> Text, p: Params, owners: seq<Text>, out: set<nat>, k: seq<Text>) {
    Exists(z, k) && forall o :: o in z.owners && k <= o ==> UnsignedCut(z, o) && InSpan(digest, p, owners, out, o)
  }

  /** The hashes of all existing names, except that names may be omitted as section 7.1 of
      RFC 5155 allows; each link says whether it opts out. */
  ghost predicate OptOutChain(z: Zone, digest: Text -> Text, p: Params, owners: seq<Text>, out: set<nat>) {
    && |owners| >= 1
    && Ascending(OctetsLess, owners)
    && p.algorithm == 1 && p.iterations <= MAX_ITERATIONS
    && (forall k :: Exists(z, k) && !Omitted(z, digest, p, owners, out, k) ==> HashOfKey(digest, p, k) in owners)
    && (forall h :: h in owners ==> exists k :: Exists(z, k) && HashOfKey(digest, p, k) == h)
  }

  ghost predicate FlaggedLink(owners: seq<Text>, p: Params, out: set<nat>, r: Nsec3Record, i: nat) {
    IsHashLink(owners, p, r, i) && (r.optOut <==> i in out)
  }

  ghost predicate FromFlagged(owners: seq<Text>, p: Params, out: set<nat>, records: seq<Nsec3Record>) {
    forall r :: r in records ==> exists i: nat :: FlaggedLink(owners, p, out, r, i)
  }

  /** Without a link that opts out this is the chain of a zone that omits nothing. */
  lemma NothingOmitted(z: Zone, digest: Text -> Text, p: Params, owners: seq<Text>)
    requires OptOutChain(z, digest, p, owners, {})
    ensures HashedChain(z, digest, p, owners)
  {
    hide HashOfKey, OctetsLess;
    forall k | Exists(z, k) ensures !Omitted(z, digest, p, owners, {}, k) {
      var o :| o in z.owners && k <= o;
      assert !InSpan(digest, p, owners, {}, o);
    }
  }

  lemma AcceptedIfCovered(digest: Text -> Text, p: Params, owners: seq<Text>, out: set<nat>, qname: Text,
                          records: seq<Nsec3Record>)
    requires p.algorithm == 1 && p.iterations <= MAX_ITERATIONS && WellFormed(qname)
    requires FromFlagged(owners, p, out, records)
    ensures VerifyNSEC3DenialFull(digest, qname, records) == Verdict(true) <==>
              exists r :: r in records && RecordCoversHash(r, HashOfKey(digest, p, Key(qname)))
  {
    hide VerifyNSEC3DenialFull, HashOfKey, WellFormed, Key, RecordCoversHash, IsHashLink;
    if records == [] {
      NoRecordsNoVerdict(digest, qname);
    } else {
      forall r | r in records ensures exists i: nat :: IsHashLink(owners, p, r, i) {
        var i: nat :| FlaggedLink(owners, p, out, r, i);
      }
      VerdictOf(digest, p, owners, qname, records);
    }
  }

  /** A covered hash has one link around it, the record is that link, and the flag is its flag. */
  lemma CoveringLinkIs(owners: seq<Text>, p: Params, out: set<nat>, r: Nsec3Record, h: Text) returns (i: nat)
    requires Ascending(OctetsLess, owners) && |owners| >= 1 && RecordCoversHash(r, h)
    requires exists i: nat :: FlaggedLink(owners, p, out, r, i)
    ensures i < |owners| && LinkCovers(OctetsLess, owners, i, h) && (r.optOut <==> i in out) && h !in owners
    ensures forall j: nat :: j < |owners| && LinkCovers(OctetsLess, owners, j, h) ==> j == i
  {
    hide OctetsLess;
    OrdersAreTotal();
    i :| FlaggedLink(owners, p, out, r, i);
    assert LinkCovers(OctetsLess, owners, i, h);
    ChainPartition(OctetsLess, owners, h);
  }

  /** Exactly when an accepted denial is false in such a zone: a record covers the hash of the
      name, and the name is omitted from the chain or a wildcard answers for it. */
  lemma OptOutWrongIff(z: Zone, digest: Text -> Text, p: Params, owners: seq<Text>, out: set<nat>, qname: Text,
                       qtype: u16, records: seq<Nsec3Record>)
    requires OptOutChain(z, digest, p, owners, out) && FromFlagged(owners, p, out, records) && WellFormed(qname)
    ensures && VerifyNSEC3DenialFull(digest, qname, records) == Verdict(true)
            && (Exists(z, Key(qname)) || Answers(z, Key(qname), qtype))
       <==> && (exists r :: r in records && RecordCoversHash(r, HashOfKey(digest, p, Key(qname))))
            && (|| Omitted(z, digest, p, owners, out, Key(qname))
                || exists ce :: IsClosestEncloser(z, Key(qname), ce) && HasType(z, ce + [[STAR]], qtype))
  {
    hide VerifyNSEC3DenialFull, HashOfKey, WellFormed, Exists, Key, IsClosestEncloser, RecordCoversHash, InSpan,
      UnsignedCut;
    hide FlaggedLink, OctetsLess;
    AcceptedIfCovered(digest, p, owners, out, qname, records);
    if r :| r in records && RecordCoversHash(r, HashOfKey(digest, p, Key(qname))) {
      var i := CoveringLinkIs(owners, p, out, r, HashOfKey(digest, p, Key(qname)));
    }
  }

  // ---- the flag ----

  /** The response is accepted and yet the name owns records in the zone. */
  ghost predicate DeniesOwner(z: Zone, digest: Text -> Text, qname: Text, records: seq<Nsec3Record>) {
    VerifyNSEC3DenialFull(digest, qname, records) == Verdict(true) && Key(qname) in z.types
  }

  lemma FlagClearIsRight(z: Zone, digest: Text -> Text, p: Params, owners: seq<Text>, out: set<nat>, k: seq<Text>,
                         r: Nsec3Record)
    requires ValidZone(z) && OptOutChain(z, digest, p, owners, out)
    requires RecordCoversHash(r, HashOfKey(digest, p, k)) && !r.optOut
    requires exists i: nat :: FlaggedLink(owners, p, out, r, i)
    ensures k !in z.types
  {
    hide HashOfKey, RecordCoversHash, OctetsLess, LinkCovers, FlaggedLink, UnsignedCut;
    var i := CoveringLinkIs(owners, p, out, r, HashOfKey(digest, p, k));
    assert !InSpan(digest, p, owners, out, k);
    if k in z.types { OwnerIsHashed(z, digest, p, owners, out, k); }
  }

  lemma OwnerIsHashed(z: Zone, digest: Text -> Text, p: Params, owners: seq<Text>, out: set<nat>, k: seq<Text>)
    requires ValidZone(z) && OptOutChain(z, digest, p, owners, out) && k in z.types
    ensures HashOfKey(digest, p, k) in owners || InSpan(digest, p, owners, out, k)
  {
    hide HashOfKey, InSpan, OctetsLess, UnsignedCut;
    OwnerIsThere(z, k);
    assert k in z.owners && k <= k;
  }

  /** The zone with an unsigned delegation added. */
  function Insert(owners: seq<seq<Text>>, k: seq<Text>): seq<seq<Text>> {
    if owners == [] || NameLess(k, owners[0]) then [k] + owners else [owners[0]] + Insert(owners[1..], k)
  }

  function Delegating(z: Zone, k: seq<Text>): Zone {
    Zone(Insert(z.owners, k), z.types[k := {TYPE_NS}])
  }

  lemma {:induction false} InsertAdds(owners: seq<seq<Text>>, k: seq<Text>, x: seq<Text>)
    ensures x in Insert(owners, k) <==> x in owners || x == k
  {
    hide NameLess;
    if owners != [] && !NameLess(k, owners[0]) {
      InsertAdds(owners[1..], k, x);
      assert owners == [owners[0]] + owners[1..];
    }
  }

  lemma {:induction false} InsertAscends(owners: seq<seq<Text>>, k: seq<Text>)
    requires StrictTotal(NameLess) && Ascending(NameLess, owners) && k !in owners
    ensures Ascending(NameLess, Insert(owners, k))
  {
    hide NameLess;
    if owners == [] {
    } else if NameLess(k, owners[0]) {
      FrontAscends(k, owners);
    } else {
      var rest := owners[1..];
      InsertAscends(rest, k);
      forall x | x in Insert(rest, k) ensures NameLess(owners[0], x) {
        InsertAdds(rest, k, x);
        if x != k {
          var j :| 0 <= j < |rest| && rest[j] == x;
          assert owners[j + 1] == x;
        }
      }
      PrependAscends(owners[0], Insert(rest, k));
    }
  }

  lemma FrontAscends(k: seq<Text>, owners: seq<seq<Text>>)
    requires StrictTotal(NameLess) && owners != [] && NameLess(k, owners[0]) && Ascending(NameLess, owners)
    ensures Ascending(NameLess, [k] + owners)
  {
    hide NameLess;
    forall x | x in owners ensures NameLess(k, x) {
      var j :| 0 <= j < |owners| && owners[j] == x;
      assert j == 0 || NameLess(owners[0], x);
    }
    PrependAscends(k, owners);
  }

  lemma PrependAscends(first: seq<Text>, rest: seq<seq<Text>>)
    requires Ascending(NameLess, rest) && forall x :: x in rest ==> NameLess(first, x)
    ensures Ascending(NameLess, [first] + rest)
  {
    hide NameLess;
    var all := [first] + rest;
    forall i, j | 0 <= i < j < |all| ensures NameLess(all[i], all[j]) {
      assert all[j] == rest[j - 1] && rest[j - 1] in rest;
      if i > 0 { assert all[i] == rest[i - 1]; }
    }
  }

  lemma DelegatingIsValid(z: Zone, k: seq<Text>)
    requires ValidZone(z) && k !in z.types
    ensures ValidZone(Delegating(z, k))
    ensures forall o :: o in Delegating(z, k).owners <==> o in z.owners || o == k
  {
    hide NameLess, Insert;
    OrdersAreTotal();
    InsertAscends(z.owners, k);
    forall o ensures o in Insert(z.owners, k) <==> o in z.owners || o == k { InsertAdds(z.owners, k, o); }
    assert k in Delegating(z, k).owners;
  }

  /** A delegation in a span that opts out leaves no trace in the chain. */
  lemma DelegatingKeepsChain(z: Zone, digest: Text -> Text, p: Params, owners: seq<Text>, out: set<nat>, k: seq<Text>)
    requires ValidZone(z) && OptOutChain(z, digest, p, owners, out) && k !in z.types
    requires InSpan(digest, p, owners, out, k)
    ensures OptOutChain(Delegating(z, k), digest, p, owners, out)
  {
    hide HashOfKey, InSpan, OctetsLess, NameLess, Insert, ValidZone;
    var z' := Delegating(z, k);
    DelegatingIsValid(z, k);
    forall x | Exists(z, x) ensures Exists(z', x) {
      var o :| o in z.owners && x <= o;
      assert o in z'.owners;
    }
    forall x | Exists(z', x) && !Omitted(z', digest, p, owners, out, x) ensures HashOfKey(digest, p, x) in owners {
      NotOmittedBefore(z, digest, p, owners, out, k, x);
    }
  }

  lemma NotOmittedBefore(z: Zone, digest: Text -> Text, p: Params, owners: seq<Text>, out: set<nat>, k: seq<Text>,
                         x: seq<Text>)
    requires ValidZone(z) && k !in z.types && InSpan(digest, p, owners, out, k)
    requires Exists(Delegating(z, k), x) && !Omitted(Delegating(z, k), digest, p, owners, out, x)
    ensures Exists(z, x) && !Omitted(z, digest, p, owners, out, x)
  {
    hide InSpan, NameLess, Insert;
    var z' := Delegating(z, k);
    DelegatingIsValid(z, k);
    var o :| o in z'.owners && x <= o && !(UnsignedCut(z', o) && InSpan(digest, p, owners, out, o));
    assert UnsignedCut(z', k);
    assert o != k && o in z.owners;
    assert UnsignedCut(z, o) <==> UnsignedCut(z', o);
  }

  /** The flag decides, exactly: in every zone that a chain is true of, acceptance means that the
      name owns nothing, if and only if no record of the response that covers the hash of the name
      opts out. The source never reads the flag. */
  lemma OptOutIff(z: Zone, digest: Text -> Text, p: Params, owners: seq<Text>, out: set<nat>, qname: Text,
                  records: seq<Nsec3Record>)
    requires ValidZone(z) && OptOutChain(z, digest, p, owners, out) && FromFlagged(owners, p, out, records)
    requires WellFormed(qname)
    ensures (forall z' :: ValidZone(z') && OptOutChain(z', digest, p, owners, out) ==>
              !DeniesOwner(z', digest, qname, records))
       <==> forall r :: r in records && RecordCoversHash(r, HashOfKey(digest, p, Key(qname))) ==> !r.optOut
  {
    hide VerifyNSEC3DenialFull, HashOfKey, WellFormed, Key, RecordCoversHash, OptOutChain, ValidZone, FlaggedLink;
    var k := Key(qname);
    ChainParams(z, digest, p, owners, out);
    AcceptedIfCovered(digest, p, owners, out, qname, records);
    if forall r :: r in records && RecordCoversHash(r, HashOfKey(digest, p, k)) ==> !r.optOut {
      forall z' | ValidZone(z') && OptOutChain(z', digest, p, owners, out)
        ensures !DeniesOwner(z', digest, qname, records)
      {
        if r :| r in records && RecordCoversHash(r, HashOfKey(digest, p, k)) {
          FlagClearIsRight(z', digest, p, owners, out, k, r);
        }
      }
    } else {
      var r :| r in records && RecordCoversHash(r, HashOfKey(digest, p, k)) && r.optOut;
      var z' := FlagSetIsWrong(z, digest, p, owners, out, k, r);
      assert DeniesOwner(z', digest, qname, records);
    }
  }

  lemma ChainParams(z: Zone, digest: Text -> Text, p: Params, owners: seq<Text>, out: set<nat>)
    requires OptOutChain(z, digest, p, owners, out)
    ensures p.algorithm == 1 && p.iterations <= MAX_ITERATIONS && |owners| >= 1 && Ascending(OctetsLess, owners)
  {}

  lemma FlagSetIsWrong(z: Zone, digest: Text -> Text, p: Params, owners: seq<Text>, out: set<nat>, k: seq<Text>,
                       r: Nsec3Record) returns (z': Zone)
    requires ValidZone(z) && OptOutChain(z, digest, p, owners, out)
    requires RecordCoversHash(r, HashOfKey(digest, p, k)) && r.optOut
    requires exists i: nat :: FlaggedLink(owners, p, out, r, i)
    ensures ValidZone(z') && OptOutChain(z', digest, p, owners, out) && k in z'.types
  {
    hide HashOfKey, RecordCoversHash, LinkCovers, FlaggedLink, OptOutChain, ValidZone, Insert;
    if k in z.types {
      z' := z;
    } else {
      ChainParams(z, digest, p, owners, out);
      var i := CoveringLinkIs(owners, p, out, r, HashOfKey(digest, p, k));
      assert InSpan(digest, p, owners, out, k);
      z' := Delegating(z, k);
      DelegatingIsValid(z, k);
      DelegatingKeepsChain(z, digest, p, owners, out, k);
    }
  }

  // ---- an example ----

  /** "b" is delegated without DS and omitted from a chain of one link that opts out: the link is
      accepted as a denial of "b". */
  lemma OptOutCounterexample()
    ensures var z, r := Denial.TwoNames([98], [TYPE_NS]), Nsec3Record(PLAIN, true, [0], [0]);
            && ValidZone(z) && OptOutChain(z, Same, PLAIN, [[0]], {0}) && FromFlagged([[0]], PLAIN, {0}, [r])
            && DeniesOwner(z, Same, [98], [r])
  {
    hide HashOfKey, VerifyNSEC3DenialFull, Key, WellFormed, OptOutChain, ValidZone, FromFlagged, Denial.TwoNames;
    hide RecordCoversHash;
    var z, r := Denial.TwoNames([98], [TYPE_NS]), Nsec3Record(PLAIN, true, [0], [0]);
    KeyOfOneLabel([98]);
    TwoNamesChain([98], [TYPE_NS]);
    SmallZone(z);
    SmallChain(z);
    SampleHashes();
    SmallLink();
    AcceptedIfCovered(Same, PLAIN, [[0]], {0}, [98], [r]);
    assert r in [r] && RecordCoversHash(r, [1, 98, 0]);
  }

  lemma SmallZone(z: Zone)
    requires z == Denial.TwoNames([98], [TYPE_NS])
    ensures z.owners == [[], [[98]]] && z.types.Keys == {[], [[98]]} && UnsignedCut(z, [[98]])
  {
    KeyOfOneLabel([98]);
    hide Key;
    assert z.types[[[98]]] == {TYPE_NS};
  }

  lemma SmallLink()
    ensures LinkCovers(OctetsLess, [[0]], 0, [1, 98, 0]) && Ascending(OctetsLess, [[0]])
    ensures RecordCoversHash(Nsec3Record(PLAIN, true, [0], [0]), [1, 98, 0])
    ensures FromFlagged([[0]], PLAIN, {0}, [Nsec3Record(PLAIN, true, [0], [0])])
  {
    var owners: seq<Text> := [[0]];
    assert Next(owners, 0) == [0];
    assert OctetsLess([0], [1, 98, 0]) && !OctetsLess([0], [0]);
    assert FlaggedLink(owners, PLAIN, {0}, Nsec3Record(PLAIN, true, [0], [0]), 0);
  }

  lemma SmallChain(z: Zone)
    requires z.owners == [[], [[98]]] && UnsignedCut(z, [[98]])
    ensures OptOutChain(z, Same, PLAIN, [[0]], {0})
  {
    hide HashOfKey, OctetsLess, UnsignedCut, LinkCovers;
    SampleHashes();
    SmallLink();
    var b: seq<Text> := [[98]];
    assert z.owners[0] == [] && z.owners[1] == b;
    assert InSpan(Same, PLAIN, [[0]], {0}, b);
    forall k | Exists(z, k) ensures k == [] || k == b {
      var o :| o in z.owners && k <= o;
      assert k == o[..|k|] && (|k| == 1 ==> k == b);
    }
    assert Exists(z, b) ==> Omitted(z, Same, PLAIN, [[0]], {0}, b) by {
      forall o | o in z.owners && b <= o ensures o == b { assert o == [] || o == b; }
    }
    assert Exists(z, []) by { RootExists(z); }
  }
}
