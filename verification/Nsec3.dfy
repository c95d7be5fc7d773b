/** NSEC3 denial over hashed names (dnssec/nsec3.go); the digest is a parameter. */
module Nsec3 {
  import Records
  import opened Bytes
  import opened Labels
  import opened Order
  import opened Nsec
  import opened Denial
  import opened Compression

  const MAX_ITERATIONS: nat := 100

  datatype Params = Params(algorithm: byte, iterations: u16, salt: Text)

  datatype Nsec3Record = Nsec3Record(params: Params, optOut: bool, ownerHash: Text, nextHash: Text)

  datatype Hashed = BadAlgorithm | TooManyIterations | Hash(value: Text)

  datatype Outcome = NoRecords | Failed(error: Hashed) | Verdict(denied: bool)

  function Iterate(digest: Text -> Text, salt: Text, hash: Text, n: nat): Text
    decreases n
  {
    if n == 0 then hash else Iterate(digest, salt, digest(hash + salt), n - 1)
  }

  function Dotted(s: Text): Text {
    if HasSuffix(s, [DOT]) then s else s + [DOT]
  }

  /** ComputeNSEC3Hash: the name lowercased with a trailing dot, then in wire form. */
  function ComputeHash(digest: Text -> Text, name: Text, p: Params): Hashed {
    if p.algorithm != 1 then BadAlgorithm
    else if p.iterations > MAX_ITERATIONS then TooManyIterations
    else
      var dotted := Dotted(Lower(name));
      var wire := if dotted == [DOT] then [0] else PlainName(Split(TrimDot(dotted)));
      Hash(Iterate(digest, p.salt, digest(wire + p.salt), p.iterations))
  }

  /** The iteration loop. */
  method IterateLoop(digest: Text -> Text, salt: Text, wire: Text, iterations: u16) returns (hash: Text)
    ensures hash == Iterate(digest, salt, digest(wire + salt), iterations)
  {
    hash := digest(wire + salt);
    for i := 0 to iterations
      invariant Iterate(digest, salt, hash, iterations - i) == Iterate(digest, salt, digest(wire + salt), iterations)
    {
      hash := digest(hash + salt);
    }
  }

  /** ComputeNSEC3Hash */
  method ComputeNSEC3Hash(digest: Text -> Text, name: Text, p: Params) returns (h: Hashed)
    ensures h == ComputeHash(digest, name, p)
  {
    hide Dotted, Iterate, PlainName, Split;
    if p.algorithm != 1 {
      return BadAlgorithm;
    }
    if p.iterations > MAX_ITERATIONS {
      return TooManyIterations;
    }
    var dotted := Dotted(Lower(name));
    var wire := if dotted == [DOT] then [0] else PlainName(Split(TrimDot(dotted)));
    var hash := IterateLoop(digest, p.salt, wire, p.iterations);
    h := Hash(hash);
  }

  predicate RecordCoversHash(r: Nsec3Record, hash: Text) {
    Covers(OctetsLess, r.ownerHash, r.nextHash, hash)
  }

  function VerifyNSEC3DenialFull(digest: Text -> Text, qname: Text, records: seq<Nsec3Record>): Outcome {
    if records == [] then NoRecords
    else if records[0].params.iterations > MAX_ITERATIONS then Failed(TooManyIterations)
    else
      match ComputeHash(digest, qname, records[0].params)
      case Hash(h) => Verdict(exists r :: r in records && RecordCoversHash(r, h))
      case error => Failed(error)
  }

  /** The loop over the records, each tested through three hash comparisons. */
  method Verify(digest: Text -> Text, qname: Text, records: seq<Nsec3Record>) returns (o: Outcome)
    ensures o == VerifyNSEC3DenialFull(digest, qname, records)
  {
    hide ComputeHash, RecordCoversHash;
    if records == [] {
      return NoRecords;
    }
    if records[0].params.iterations > MAX_ITERATIONS {
      return Failed(TooManyIterations);
    }
    var hash := ComputeNSEC3Hash(digest, qname, records[0].params);
    if !hash.Hash? {
      return Failed(hash);
    }
    for i := 0 to |records|
      invariant forall j :: 0 <= j < i ==> !RecordCoversHash(records[j], hash.value)
    {
      var covers := CoversHashFull(records[i], hash.value);
      if covers { return Verdict(true); }
    }
    o := Verdict(false);
  }

  method CoversHashFull(r: Nsec3Record, hash: Text) returns (covers: bool)
    ensures covers == RecordCoversHash(r, hash)
  {
    hide OctetsLess;
    OrdersAreTotal();
    var cmpOwner := CompareOctets(hash, r.ownerHash);
    var cmpNext := CompareOctets(hash, r.nextHash);
    var cmp := CompareOctets(r.ownerHash, r.nextHash);
    if cmp < 0 {
      return cmpOwner > 0 && cmpNext < 0;
    }
    covers := cmpOwner > 0 || cmpNext < 0;
  }

  /** The hash of a name given by its labels from the root down. */
  function HashOfKey(digest: Text -> Text, p: Params, k: seq<Text>): Text {
    Iterate(digest, p.salt, digest(PlainName(Reverse(k)) + p.salt), p.iterations)
  }

  /** The hash depends on the canonical name only: neither case nor a trailing dot matters. */
  lemma HashIsCanonical(digest: Text -> Text, name: Text, p: Params)
    requires WellFormed(name) && p.algorithm == 1 && p.iterations <= MAX_ITERATIONS
    ensures ComputeHash(digest, name, p) == Hash(HashOfKey(digest, p, Key(name)))
  {
    hide Split, Iterate, Dotted, CanonicalName;
    DottedIsCanonical(name);
    var t := CanonicalName(name);
    assert TrimDot(t + [DOT]) == t && (t + [DOT] == [DOT] <==> t == []);
    assert Reverse(Key(name)) == CanonicalLabels(name);
  }

  /** The iterated hash of section 5 of RFC 5155. */
  function IH(digest: Text -> Text, salt: Text, x: Text, k: nat): Text {
    if k == 0 then digest(x + salt) else digest(IH(digest, salt, x, k - 1) + salt)
  }

  lemma {:induction false} IterateIsIH(digest: Text -> Text, salt: Text, x: Text, k: nat, n: nat)
    ensures Iterate(digest, salt, IH(digest, salt, x, k), n) == IH(digest, salt, x, k + n)
    decreases n
  {
    if n > 0 { IterateIsIH(digest, salt, x, k + 1, n - 1); }
  }

  /** For algorithm 1 and at most 100 iterations the hash is IH of the name in lower case wire
      form; for anything else there is none. */
  lemma HashIs(digest: Text -> Text, name: Text, p: Params)
    requires WellFormed(name)
    ensures ComputeHash(digest, name, p)
         == if p.algorithm != 1 then BadAlgorithm
            else if p.iterations > 100 then TooManyIterations
            else Hash(IH(digest, p.salt, PlainName(CanonicalLabels(name)), p.iterations))
  {
    hide Split, Iterate, Dotted, CanonicalName, WellFormed, PlainName, CanonicalLabels;
    if p.algorithm == 1 && p.iterations <= 100 {
      HashIsCanonical(digest, name, p);
      LabelsBack(name);
      IterateIsIH(digest, p.salt, PlainName(CanonicalLabels(name)), 0, p.iterations);
    }
  }

  lemma LabelsBack(name: Text)
    ensures Reverse(Key(name)) == CanonicalLabels(name)
  {
    hide CanonicalLabels;
  }

  lemma DottedIsCanonical(name: Text)
    ensures Dotted(Lower(name)) == CanonicalName(name) + [DOT]
  {
    var lower := Lower(name);
    if |name| > 0 && name[|name| - 1] == DOT {
      assert lower[|lower| - 1..] == [DOT];
      assert lower == Lower(name[..|name| - 1]) + [DOT];
    } else if |name| > 0 {
      assert lower[|lower| - 1..][0] == LowerByte(name[|name| - 1]) != DOT;
    }
  }

  // ---- against a zone ----

  /** The zone's NSEC3 chain: the hashes of all existing names, empty non-terminals included,
      in ascending order. */
  ghost predicate HashedChain(z: Zone, digest: Text -> Text, p: Params, owners: seq<Text>) {
    && |owners| >= 1
    && Ascending(OctetsLess, owners)
    && p.algorithm == 1 && p.iterations <= MAX_ITERATIONS
    && (forall k :: Exists(z, k) ==> HashOfKey(digest, p, k) in owners)
    && (forall h :: h in owners ==> exists k :: Exists(z, k) && HashOfKey(digest, p, k) == h)
  }

  ghost predicate IsHashLink(owners: seq<Text>, p: Params, r: Nsec3Record, i: nat) {
    i < |owners| && r.params == p && r.ownerHash == owners[i] && r.nextHash == Next(owners, i)
  }

  ghost predicate FromChain(owners: seq<Text>, p: Params, records: seq<Nsec3Record>) {
    forall r :: r in records ==> exists i: nat :: IsHashLink(owners, p, r, i)
  }

  lemma VerdictOf(digest: Text -> Text, p: Params, owners: seq<Text>, qname: Text, records: seq<Nsec3Record>)
    requires p.algorithm == 1 && p.iterations <= MAX_ITERATIONS && WellFormed(qname)
    requires FromChain(owners, p, records) && records != []
    ensures VerifyNSEC3DenialFull(digest, qname, records)
         == Verdict(exists r :: r in records && RecordCoversHash(r, HashOfKey(digest, p, Key(qname))))
  {
    hide ComputeHash, HashOfKey, WellFormed, Key, RecordCoversHash;
    HashIsCanonical(digest, qname, p);
    assert records[0] in records && records[0].params == p;
  }

  lemma LinkIsNoOwner(owners: seq<Text>, p: Params, r: Nsec3Record, h: Text)
    requires Ascending(OctetsLess, owners) && RecordCoversHash(r, h)
    requires exists i: nat :: IsHashLink(owners, p, r, i)
    ensures h !in owners
  {
    hide OctetsLess;
    OrdersAreTotal();
    var i: nat :| IsHashLink(owners, p, r, i);
    assert LinkCovers(OctetsLess, owners, i, h);
    ChainPartition(OctetsLess, owners, h);
  }

  /** Accepted records of the true chain show that the name does not exist in the zone. */
  lemma Nsec3Sound(z: Zone, digest: Text -> Text, p: Params, owners: seq<Text>,
                   qname: Text, records: seq<Nsec3Record>)
    requires HashedChain(z, digest, p, owners) && FromChain(owners, p, records) && WellFormed(qname)
    requires VerifyNSEC3DenialFull(digest, qname, records) == Verdict(true)
    ensures !Exists(z, Key(qname))
  {
    hide HashOfKey, WellFormed, Exists, Key, OctetsLess, RecordCoversHash;
    VerdictOf(digest, p, owners, qname, records);
    var h := HashOfKey(digest, p, Key(qname));
    var r :| r in records && RecordCoversHash(r, h);
    LinkIsNoOwner(owners, p, r, h);
  }

  /** The records contain the one link of the chain that owns or covers the hash. */
  ghost predicate HashShown(owners: seq<Text>, p: Params, records: seq<Nsec3Record>, h: Text) {
    exists r, i: nat :: r in records && IsHashLink(owners, p, r, i)
                        && (owners[i] == h || LinkCovers(OctetsLess, owners, i, h))
  }

  /** Acceptance, exactly, for every response made of links of the chain: the hash of the name is
      not in the chain, and the link around it is in the response. Neither the type nor the
      response code plays a part. */
  lemma Nsec3AcceptsIff(z: Zone, digest: Text -> Text, p: Params, owners: seq<Text>,
                        qname: Text, records: seq<Nsec3Record>)
    requires HashedChain(z, digest, p, owners) && FromChain(owners, p, records) && WellFormed(qname)
    ensures VerifyNSEC3DenialFull(digest, qname, records)
         == if records == [] then NoRecords
            else var h := HashOfKey(digest, p, Key(qname)); Verdict(h !in owners && HashShown(owners, p, records, h))
  {
    hide VerifyNSEC3DenialFull, HashOfKey, WellFormed, Exists, Key, OctetsLess, RecordCoversHash, LinkCovers;
    if records == [] {
      NoRecordsNoVerdict(digest, qname);
    } else {
      var h := HashOfKey(digest, p, Key(qname));
      VerdictOf(digest, p, owners, qname, records);
      ShownIfCovered(owners, p, records, h);
    }
  }

  lemma NoRecordsNoVerdict(digest: Text -> Text, qname: Text)
    ensures VerifyNSEC3DenialFull(digest, qname, []) == NoRecords
  {}

  lemma ShownIfCovered(owners: seq<Text>, p: Params, records: seq<Nsec3Record>, h: Text)
    requires Ascending(OctetsLess, owners) && |owners| >= 1 && FromChain(owners, p, records)
    ensures (exists r :: r in records && RecordCoversHash(r, h)) <==> h !in owners && HashShown(owners, p, records, h)
  {
    hide OctetsLess;
    if r :| r in records && RecordCoversHash(r, h) {
      LinkIsNoOwner(owners, p, r, h);
      var i: nat :| IsHashLink(owners, p, r, i);
      assert LinkCovers(OctetsLess, owners, i, h);
    }
  }

  /** A name that exists, if only as an empty non-terminal, is never accepted: every true NODATA
      is refused, whatever the type and the response code. */
  lemma Nsec3RefusesExisting(z: Zone, digest: Text -> Text, p: Params, owners: seq<Text>,
                             qname: Text, records: seq<Nsec3Record>)
    requires HashedChain(z, digest, p, owners) && FromChain(owners, p, records) && WellFormed(qname)
    requires records != [] && Exists(z, Key(qname))
    ensures VerifyNSEC3DenialFull(digest, qname, records) == Verdict(false)
  {
    hide VerifyNSEC3DenialFull, HashOfKey, WellFormed, Exists, Key, HashShown;
    Nsec3AcceptsIff(z, digest, p, owners, qname, records);
  }

  /** Exactly when the checker is wrong: it accepts a name the zone answers for if and only if a
      record covers the hash of the name and the wildcard below the closest encloser owns the
      type. The checker never looks for a denial of that wildcard. */
  lemma Nsec3WrongIff(z: Zone, digest: Text -> Text, p: Params, owners: seq<Text>,
                      qname: Text, qtype: u16, records: seq<Nsec3Record>)
    requires HashedChain(z, digest, p, owners) && FromChain(owners, p, records) && WellFormed(qname)
    ensures VerifyNSEC3DenialFull(digest, qname, records) == Verdict(true) && Answers(z, Key(qname), qtype)
       <==> && (exists r :: r in records && RecordCoversHash(r, HashOfKey(digest, p, Key(qname))))
            && (exists ce :: IsClosestEncloser(z, Key(qname), ce) && HasType(z, ce + [[STAR]], qtype))
  {
    hide VerifyNSEC3DenialFull, HashOfKey, WellFormed, Exists, Key, IsClosestEncloser, RecordCoversHash;
    if records == [] {
      NoRecordsNoVerdict(digest, qname);
    } else {
      VerdictOf(digest, p, owners, qname, records);
      if VerifyNSEC3DenialFull(digest, qname, records) == Verdict(true) {
        Nsec3Sound(z, digest, p, owners, qname, records);
      }
    }
  }

  // ---- what a caller would have to look for ----

  lemma CoveredDoesNotExist(z: Zone, digest: Text -> Text, p: Params, owners: seq<Text>,
                            records: seq<Nsec3Record>, k: seq<Text>, r: Nsec3Record)
    requires HashedChain(z, digest, p, owners) && FromChain(owners, p, records)
    requires r in records && RecordCoversHash(r, HashOfKey(digest, p, k))
    ensures !Exists(z, k)
  {
    hide HashOfKey, Exists, OctetsLess, RecordCoversHash;
    LinkIsNoOwner(owners, p, r, HashOfKey(digest, p, k));
  }

  /** Acceptance is right about every type as soon as a record also covers the hash of the
      wildcard below the closest encloser. */
  lemma Nsec3RightIfWildcardCovered(z: Zone, digest: Text -> Text, p: Params, owners: seq<Text>, qname: Text,
                                    qtype: u16, records: seq<Nsec3Record>, ce: seq<Text>, r: Nsec3Record)
    requires HashedChain(z, digest, p, owners) && FromChain(owners, p, records) && WellFormed(qname) && ValidZone(z)
    requires VerifyNSEC3DenialFull(digest, qname, records) == Verdict(true)
    requires IsClosestEncloser(z, Key(qname), ce)
    requires r in records && RecordCoversHash(r, HashOfKey(digest, p, ce + [[STAR]]))
    ensures !Answers(z, Key(qname), qtype)
  {
    hide VerifyNSEC3DenialFull, HashOfKey, WellFormed, Key, IsClosestEncloser, RecordCoversHash, ValidZone;
    Nsec3Sound(z, digest, p, owners, qname, records);
    CoveredDoesNotExist(z, digest, p, owners, records, ce + [[STAR]], r);
    NoTypeWhereNothing(z, ce + [[STAR]], qtype);
    forall e | IsClosestEncloser(z, Key(qname), e) ensures e == ce { ClosestEncloserUnique(z, Key(qname), e, ce); }
  }

  lemma NoTypeWhereNothing(z: Zone, k: seq<Text>, t: u16)
    requires ValidZone(z) && !Exists(z, k)
    ensures !HasType(z, k, t)
  {
    if k in z.types { OwnerIsThere(z, k); }
  }

  /** The closest-encloser proof of section 8.3 of RFC 5155 with a denied wildcard, read off the
      records alone: one matches the ancestor of n labels, one covers the next closer name, and
      one covers the wildcard. */
  ghost predicate EncloserProof(digest: Text -> Text, p: Params, records: seq<Nsec3Record>, k: seq<Text>, n: nat) {
    && n < |k|
    && (exists r :: r in records && r.ownerHash == HashOfKey(digest, p, k[..n]))
    && (exists r :: r in records && RecordCoversHash(r, HashOfKey(digest, p, k[..n + 1])))
    && (exists r :: r in records && RecordCoversHash(r, HashOfKey(digest, p, k[..n] + [[STAR]])))
  }

  /** Those three records deny every type, if no existing name collides with the ancestor; the
      source does not ask for them. */
  lemma EncloserProofSound(z: Zone, digest: Text -> Text, p: Params, owners: seq<Text>, k: seq<Text>, n: nat,
                           qtype: u16, records: seq<Nsec3Record>)
    requires HashedChain(z, digest, p, owners) && FromChain(owners, p, records) && ValidZone(z)
    requires EncloserProof(digest, p, records, k, n)
    requires forall e :: Exists(z, e) && HashOfKey(digest, p, e) == HashOfKey(digest, p, k[..n]) ==> e == k[..n]
    ensures IsClosestEncloser(z, k, k[..n]) && !Answers(z, k, qtype)
  {
    hide HashOfKey, RecordCoversHash, ValidZone;
    var ce := k[..n];
    var m :| m in records && m.ownerHash == HashOfKey(digest, p, ce);
    MatchExists(z, digest, p, owners, records, ce, m);
    var c :| c in records && RecordCoversHash(c, HashOfKey(digest, p, k[..n + 1]));
    CoveredDoesNotExist(z, digest, p, owners, records, k[..n + 1], c);
    var w :| w in records && RecordCoversHash(w, HashOfKey(digest, p, ce + [[STAR]]));
    CoveredDoesNotExist(z, digest, p, owners, records, ce + [[STAR]], w);
    NoTypeWhereNothing(z, ce + [[STAR]], qtype);
    NothingBelow(z, k, n);
    forall e | IsClosestEncloser(z, k, e) ensures e == ce { ClosestEncloserUnique(z, k, e, ce); }
  }

  lemma MatchExists(z: Zone, digest: Text -> Text, p: Params, owners: seq<Text>, records: seq<Nsec3Record>,
                    k: seq<Text>, r: Nsec3Record)
    requires HashedChain(z, digest, p, owners) && FromChain(owners, p, records)
    requires r in records && r.ownerHash == HashOfKey(digest, p, k)
    requires forall e :: Exists(z, e) && HashOfKey(digest, p, e) == HashOfKey(digest, p, k) ==> e == k
    ensures Exists(z, k)
  {
    hide HashOfKey, Exists, OctetsLess;
    var i: nat :| IsHashLink(owners, p, r, i);
    assert owners[i] in owners;
  }

  /** Where the next closer name does not exist, nothing below it does. */
  lemma NothingBelow(z: Zone, k: seq<Text>, n: nat)
    requires n < |k| && Exists(z, k[..n]) && !Exists(z, k[..n + 1])
    ensures IsClosestEncloser(z, k, k[..n]) && !Exists(z, k)
  {
    forall q | Exists(z, q) && |q| > n ensures Exists(z, q[..n + 1]) { PrefixExists(z, q, n + 1); }
    assert forall q :: q <= k && |q| > n ==> q[..n + 1] == k[..n + 1];
    assert k <= k;
  }

  lemma PrefixExists(z: Zone, k: seq<Text>, m: nat)
    requires Exists(z, k) && m <= |k|
    ensures Exists(z, k[..m])
  {
    var o :| o in z.owners && k <= o;
    assert k[..m] == o[..m];
  }

  // ---- an example ----

  /** A zone with a wildcard address record and its chain under the identity as digest. */
  const SAMPLE: Zone := Zone([[], [[STAR]]], map[[] := {Records.TYPE_SOA}, [[STAR]] := {Records.TYPE_A}])
  const PLAIN: Params := Params(1, 0, [])
  const HASHES: seq<Text> := [[0], [1, STAR, 0]]
  const CHAIN: seq<Nsec3Record> := [Nsec3Record(PLAIN, false, HASHES[0], HASHES[1]),
                                    Nsec3Record(PLAIN, false, HASHES[1], HASHES[0])]

  function Same(t: Text): Text {
    t
  }

  lemma SampleHashes()
    ensures HashOfKey(Same, PLAIN, []) == HASHES[0]
    ensures HashOfKey(Same, PLAIN, [[STAR]]) == HASHES[1]
    ensures HashOfKey(Same, PLAIN, [[98]]) == [1, 98, 0]
  {
    assert Reverse<Text>([]) == [];
    assert Reverse([[STAR]]) == [[STAR]] && [[STAR]][1..] == [];
    var b: Text := [98];
    assert Reverse([b]) == [b] && [b][1..] == [];
  }

  lemma SampleExists(k: seq<Text>)
    ensures Exists(SAMPLE, k) <==> k == [] || k == [[STAR]]
  {
    assert SAMPLE.owners[0] == [] && SAMPLE.owners[1] == [[STAR]];
    if k == [] { assert SAMPLE.owners[0] in SAMPLE.owners && k <= SAMPLE.owners[0]; }
    if k == [[STAR]] { assert SAMPLE.owners[1] in SAMPLE.owners && k <= SAMPLE.owners[1]; }
    if Exists(SAMPLE, k) {
      var o :| o in SAMPLE.owners && k <= o;
      assert o == [] || o == [[STAR]];
      assert k == o[..|k|];
      assert |k| == |o| ==> k == o;
    }
  }

  lemma SampleChain()
    ensures HashedChain(SAMPLE, Same, PLAIN, HASHES)
  {
    hide HashOfKey, Exists;
    SampleHashes();
    assert OctetsLess(HASHES[0], HASHES[1]);
    forall k ensures Exists(SAMPLE, k) <==> k == [] || k == [[STAR]] { SampleExists(k); }
    assert Exists(SAMPLE, []) && Exists(SAMPLE, [[STAR]]);
  }

  lemma SampleLinks()
    ensures FromChain(HASHES, PLAIN, CHAIN)
  {
    assert Next(HASHES, 0) == HASHES[1] && Next(HASHES, 1) == HASHES[0];
    assert IsHashLink(HASHES, PLAIN, CHAIN[0], 0) && IsHashLink(HASHES, PLAIN, CHAIN[1], 1);
  }

  lemma SampleEncloser()
    ensures !Exists(SAMPLE, [[98]]) && IsClosestEncloser(SAMPLE, [[98]], [])
    ensures HasType(SAMPLE, [] + [[STAR]], Records.TYPE_A)
  {
    var b: Text := [98];
    SampleExists([b]);
    SampleExists([]);
    forall p | p <= [b] && Exists(SAMPLE, p) ensures |p| <= 0 { SampleExists(p); }
    assert [] + [[STAR]] == [[STAR]];
  }

  lemma SampleCovers()
    ensures CHAIN[1] in CHAIN && RecordCoversHash(CHAIN[1], [1, 98, 0])
  {
    var star, b: Text := [1, STAR, 0], [1, 98, 0];
    assert star[1..] == [STAR, 0] && b[1..] == [98, 0];
    assert LexLess(ByteLess, star[1..], b[1..]);
    assert OctetsLess(star, b) && !OctetsLess(star, [0]);
  }

  /** In it "b" does not exist, the wildcard answers for "b", and the chain is accepted as a
      denial of "b". */
  lemma WildcardCounterexample()
    ensures HashedChain(SAMPLE, Same, PLAIN, HASHES) && FromChain(HASHES, PLAIN, CHAIN) && WellFormed([98])
    ensures VerifyNSEC3DenialFull(Same, [98], CHAIN) == Verdict(true)
    ensures Answers(SAMPLE, Key([98]), Records.TYPE_A)
  {
    hide HashOfKey, Exists, HashedChain, FromChain, VerifyNSEC3DenialFull, Key, Answers, HasType, IsClosestEncloser,
      WellFormed;
    KeyOfOneLabel([98]);
    SampleHashes();
    SampleChain();
    SampleLinks();
    SampleEncloser();
    SampleCovers();
    Nsec3WrongIff(SAMPLE, Same, PLAIN, HASHES, [98], Records.TYPE_A, CHAIN);
  }

  /** And the true NODATA for an address at the apex is refused. */
  lemma NodataCounterexample()
    ensures HashedChain(SAMPLE, Same, PLAIN, HASHES) && FromChain(HASHES, PLAIN, CHAIN)
    ensures !Answers(SAMPLE, Key([]), Records.TYPE_A) && !Answers(SAMPLE, Key([]), Records.TYPE_CNAME)
    ensures VerifyNSEC3DenialFull(Same, [], CHAIN) == Verdict(false)
  {
    hide HashOfKey, Exists, HashedChain, FromChain, VerifyNSEC3DenialFull, Key, WellFormed;
    RootKey();
    SampleExists([]);
    SampleChain();
    SampleLinks();
    Nsec3RefusesExisting(SAMPLE, Same, PLAIN, HASHES, [], CHAIN);
  }
}
