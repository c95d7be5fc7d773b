/** The chain of trust from the root to a signer (dnssec/validator.go). Fetching DNSKEY and DS
    records, key tags, DS digests and signature checks are functions of the environment. */
module TrustChain {
  import opened Bytes
  import opened Labels
  import opened Records
  import Nsec
  import Nsec3

  datatype Validation = Secure | Insecure | Bogus | Indeterminate

  datatype DnsKey = DnsKey(flags: u16, protocol: byte, algorithm: byte, publicKey: Text)

  datatype Ds = Ds(keyTag: u16, algorithm: byte, digestType: byte, digest: Text)

  /** Everything the validator asks for: fetched keys and DS records (None on an error), the
      parsers of NSEC and NSEC3 records, the key-tag and digest functions, the signature
      check of each algorithm, the configured anchors and policy, and the clock. */
  datatype World = World(keys: Text -> Option<seq<DnsKey>>, ds: Text -> Option<seq<Ds>>,
                         nsec: RR -> Option<Nsec.NsecRecord>, nsec3: RR -> Option<Nsec3.Nsec3Record>,
                         tag: DnsKey -> u16, digests: (DnsKey, Ds, Text) -> bool, hash: Text -> Text,
                         signed: (Text, Text, Text, byte) -> bool,
                         anchors: seq<Ds>, allowSha1: bool, now: int)

  const DIGEST_SHA1: byte := 1

  predicate WeakDigest(w: World, d: Ds) {
    !w.allowSha1 && d.digestType == DIGEST_SHA1
  }

  /** IsKSK */
  predicate IsKsk(k: DnsKey) {
    k.flags % 2 == 1
  }

  // ---- the zones of the chain ----

  /** buildZoneChain: the zones from the root down to the given one. */
  function BuildZoneChain(zone: Text): (chain: seq<Text>)
    ensures |chain| == |SplitLabels(zone)| + 1
    ensures forall k :: 0 <= k < |chain| ==> chain[k] == ZoneOf(SplitLabels(zone), k)
  {
    var ls := SplitLabels(zone);
    seq(|ls| + 1, k requires 0 <= k <= |ls| => ZoneOf(ls, k))
  }

  /** The last k labels, with the trailing dot. */
  function ZoneOf(ls: seq<Text>, k: nat): Text
    requires k <= |ls|
  {
    Join(ls[|ls| - k..]) + [DOT]
  }

  method ZoneChain(zone: Text) returns (chain: seq<Text>)
    ensures chain == BuildZoneChain(zone)
  {
    hide Split, Join, ZoneOf;
    var z := Nsec3.Dotted(zone);
    DottedText(zone);
    if z == [DOT] {
      RootOf([]);
      return [[DOT]];
    }
    var labels := Split(TrimDot(z));
    assert labels == SplitLabels(zone);
    chain := [[DOT]];
    RootOf(labels);
    for i := |labels| downto 0
      invariant |chain| == |labels| - i + 1
      invariant forall k :: 0 <= k < |chain| ==> chain[k] == ZoneOf(labels, k)
    {
      ZoneOfIs(labels, i);
      chain := chain + [Join(labels[i..]) + [DOT]];
    }
  }

  lemma RootOf(ls: seq<Text>)
    ensures ZoneOf(ls, 0) == [DOT]
  {
    assert ls[|ls|..] == [];
  }

  lemma ZoneOfIs(ls: seq<Text>, i: nat)
    requires i <= |ls|
    ensures ZoneOf(ls, |ls| - i) == Join(ls[i..]) + [DOT]
  {}

  lemma EmptyJoin()
    ensures Join([]) == []
  {}

  /** z is the root, the zone itself, or what follows one of its dots. */
  predicate AtOrAbove(z: Text, zone: Text) {
    var name := Nsec3.Dotted(zone);
    z == [DOT] || z == name || (z != [] && HasSuffix(name, [DOT] + z))
  }

  lemma DottedText(zone: Text)
    ensures Nsec3.Dotted(zone) == TrimDot(zone) + [DOT]
  {}

  lemma SuffixDotted(t: Text, a: Text)
    ensures HasSuffix(t + [DOT], [DOT] + (a + [DOT])) <==> HasSuffix(t, [DOT] + a)
  {
    var n := |t| - |a| - 1;
    if n >= 0 {
      assert (t + [DOT])[n..] == t[n..] + [DOT];
      assert [DOT] + (a + [DOT]) == ([DOT] + a) + [DOT];
      assert t[n..] + [DOT] == ([DOT] + a) + [DOT] ==> t[n..] == ([DOT] + a) by {
        assert (t[n..] + [DOT])[..|a| + 1] == t[n..];
        assert (([DOT] + a) + [DOT])[..|a| + 1] == [DOT] + a;
      }
    }
  }

  lemma ChainGivesAbove(zone: Text, k: nat)
    requires k <= |SplitLabels(zone)|
    ensures AtOrAbove(ZoneOf(SplitLabels(zone), k), zone)
  {
    hide Split, Join, HasSuffix;
    var t, ls := TrimDot(zone), SplitLabels(zone);
    DottedText(zone);
    SplitLabelsFacts(zone);
    var s := ls[|ls| - k..];
    if s == [] {
      EmptyJoin();
    } else {
      SplitJoin(s);
      SuffixGivesInZone(t, Join(s));
      SuffixDotted(t, Join(s));
    }
  }

  lemma AboveGivesChain(zone: Text, z: Text) returns (k: nat)
    requires AtOrAbove(z, zone)
    ensures k <= |SplitLabels(zone)| && z == ZoneOf(SplitLabels(zone), k)
  {
    hide Split, Join;
    var t, ls := TrimDot(zone), SplitLabels(zone);
    DottedText(zone);
    SplitLabelsFacts(zone);
    if z == [DOT] {
      k := 0;
      assert ls[|ls|..] == [];
      EmptyJoin();
    } else if z == t + [DOT] {
      k := |ls|;
      assert ls[0..] == ls;
    } else {
      var a := z[..|z| - 1];
      assert z == a + [DOT] by { LastOctet(t, z); }
      SuffixDotted(t, a);
      InZoneGivesSuffix(t, a);
      JoinSplit(a);
      k := |Split(a)|;
    }
  }

  lemma LastOctet(t: Text, z: Text)
    requires z != [] && HasSuffix(t + [DOT], [DOT] + z)
    ensures z[|z| - 1] == DOT
  {
    var s := t + [DOT];
    assert s[|s| - |z| - 1..][|z|] == s[|s| - 1];
  }

  /** The chain lists every ancestor of the zone and nothing else. */
  lemma ZoneChainIsAncestors(zone: Text, z: Text)
    ensures z in BuildZoneChain(zone) <==> AtOrAbove(z, zone)
  {
    hide Split, Join, HasSuffix, AtOrAbove, ZoneOf;
    var chain := BuildZoneChain(zone);
    if z in chain {
      var k :| 0 <= k < |chain| && chain[k] == z;
      ChainGivesAbove(zone, k);
    }
    if AtOrAbove(z, zone) {
      var k := AboveGivesChain(zone, z);
      assert chain[k] == z;
    }
  }

  /** It goes down one label at a time. */
  lemma ChainDescends(zone: Text, k: nat)
    requires 0 < k <= |SplitLabels(zone)|
    ensures var ls, chain := SplitLabels(zone), BuildZoneChain(zone);
            chain[k] == ls[|ls| - k] + [DOT] + (if k == 1 then [] else chain[k - 1])
  {
    hide Split;
    var ls := SplitLabels(zone);
    assert ls[|ls| - k..][1..] == ls[|ls| - k + 1..];
  }

  // ---- trust ----

  /** Some key-signing key matches some DS record that policy accepts. */
  ghost predicate Endorsed(w: World, keys: seq<DnsKey>, ds: seq<Ds>, zone: Text) {
    exists k, d :: k in keys && d in ds && IsKsk(k) && !WeakDigest(w, d) && w.digests(k, d, zone)
  }

  /** verifyAgainstTrustAnchors and verifyDNSKEYWithDS */
  method VerifyKeys(w: World, keys: seq<DnsKey>, ds: seq<Ds>, zone: Text) returns (r: bool)
    ensures r == Endorsed(w, keys, ds, zone)
  {
    for i := 0 to |keys|
      invariant forall k, d :: k in keys[..i] && d in ds && IsKsk(k) && !WeakDigest(w, d) ==> !w.digests(k, d, zone)
    {
      if IsKsk(keys[i]) {
        for j := 0 to |ds|
          invariant forall d :: d in ds[..j] && !WeakDigest(w, d) ==> !w.digests(keys[i], d, zone)
        {
          if !WeakDigest(w, ds[j]) && w.digests(keys[i], ds[j], zone) {
            return true;
          }
        }
        assert ds[..|ds|] == ds;
      }
      assert keys[..i + 1] == keys[..i] + [keys[i]];
    }
    assert keys[..|keys|] == keys;
    r := false;
  }

  /** What one zone of the chain contributes. */
  ghost function LinkVerdict(w: World, chain: seq<Text>, i: nat): Validation
    requires i < |chain|
  {
    var zone := chain[i];
    match w.keys(zone)
    case None => Indeterminate
    case Some(keys) =>
      if i == 0 then (if Endorsed(w, keys, w.anchors, zone) then Secure else Bogus)
      else
        match w.ds(zone)
        case None => Indeterminate
        case Some(ds) =>
          if forall d :: d in ds ==> WeakDigest(w, d) then Insecure
          else if Endorsed(w, keys, ds, zone) then Secure
          else Bogus
  }

  /** The first zone from the root that is not Secure decides. */
  ghost function FirstFailure(w: World, chain: seq<Text>, i: nat): Validation
    requires i <= |chain|
    decreases |chain| - i
  {
    if i == |chain| then Secure
    else if LinkVerdict(w, chain, i) != Secure then LinkVerdict(w, chain, i)
    else FirstFailure(w, chain, i + 1)
  }

  ghost function TrustOf(w: World, zone: Text): Validation {
    FirstFailure(w, BuildZoneChain(zone), 0)
  }

  /** validateTrustChain */
  method ValidateTrustChain(w: World, zone: Text) returns (v: Validation)
    ensures v == TrustOf(w, zone)
  {
    hide LinkVerdict, BuildZoneChain;
    var chain := ZoneChain(zone);
    for i := 0 to |chain|
      invariant FirstFailure(w, chain, 0) == FirstFailure(w, chain, i)
    {
      v := CheckZone(w, chain, i);
      if v != Secure {
        return;
      }
    }
    v := Secure;
  }

  /** One round of the loop. */
  method CheckZone(w: World, chain: seq<Text>, i: nat) returns (v: Validation)
    requires i < |chain|
    ensures v == LinkVerdict(w, chain, i)
  {
    hide Endorsed, WeakDigest;
    var keys := w.keys(chain[i]);
    if keys.None? {
      return Indeterminate;
    }
    if i == 0 {
      var ok := VerifyKeys(w, keys.value, w.anchors, chain[0]);
      return if ok then Secure else Bogus;
    }
    var ds := w.ds(chain[i]);
    if ds.None? {
      return Indeterminate;
    }
    if |ds.value| == 0 {
      return Insecure;
    }
    var usable := SomeUsable(w, ds.value);
    if !usable {
      return Insecure;
    }
    var ok := VerifyKeys(w, keys.value, ds.value, chain[i]);
    v := if ok then Secure else Bogus;
  }

  method SomeUsable(w: World, ds: seq<Ds>) returns (r: bool)
    ensures r <==> exists d :: d in ds && !WeakDigest(w, d)
  {
    for j := 0 to |ds|
      invariant forall i :: 0 <= i < j ==> WeakDigest(w, ds[i])
    {
      if !WeakDigest(w, ds[j]) {
        return true;
      }
    }
    r := false;
  }

  lemma {:induction false} FirstFailureIs(w: World, chain: seq<Text>, i: nat)
    requires i <= |chain|
    ensures FirstFailure(w, chain, i) == Secure <==> forall j :: i <= j < |chain| ==> LinkVerdict(w, chain, j) == Secure
    decreases |chain| - i
  {
    hide LinkVerdict;
    if i < |chain| { FirstFailureIs(w, chain, i + 1); }
  }

  /** The keys of the zone are fetched and, for the root, match an accepted anchor; for any other
      zone, a key-signing key matches an accepted DS record. */
  ghost predicate Vouched(w: World, z: Text) {
    && w.keys(z).Some?
    && if z == [DOT] then Endorsed(w, w.keys(z).value, w.anchors, z)
       else w.ds(z).Some? && Endorsed(w, w.keys(z).value, w.ds(z).value, z)
  }

  /** Secure says exactly that every zone from the root to the signer is vouched for. */
  lemma SecureIff(w: World, zone: Text)
    requires AllNonEmpty(SplitLabels(zone))
    ensures TrustOf(w, zone) == Secure <==> forall z :: AtOrAbove(z, zone) ==> Vouched(w, z)
  {
    hide FirstFailure, LinkVerdict, AtOrAbove, SplitLabels, Vouched;
    var chain := BuildZoneChain(zone);
    FirstFailureIs(w, chain, 0);
    forall i | 0 <= i < |chain| ensures LinkVerdict(w, chain, i) == Secure <==> Vouched(w, chain[i]) {
      LinkIsVouched(w, zone, i);
    }
    forall z ensures z in chain <==> AtOrAbove(z, zone) {
      ZoneChainIsAncestors(zone, z);
    }
    if TrustOf(w, zone) == Secure {
      forall z | AtOrAbove(z, zone) ensures Vouched(w, z) {
        var i :| 0 <= i < |chain| && chain[i] == z;
      }
    }
  }

  lemma LinkIsVouched(w: World, zone: Text, i: nat)
    requires AllNonEmpty(SplitLabels(zone)) && i <= |SplitLabels(zone)|
    ensures LinkVerdict(w, BuildZoneChain(zone), i) == Secure <==> Vouched(w, BuildZoneChain(zone)[i])
  {
    hide SplitLabels;
    var ls, chain := SplitLabels(zone), BuildZoneChain(zone);
    if i == 0 {
      assert ls[|ls|..] == [];
      assert chain[0] == ZoneOf(ls, 0) == [DOT];
    } else {
      ChainDescends(zone, i);
      assert ls[|ls| - i] != [];
      assert |chain[i]| > 1;
    }
  }

  /** Any other verdict is that of the first zone from the root that is not vouched for. */
  lemma {:induction false} FailureIsFirst(w: World, chain: seq<Text>, i: nat) returns (j: nat)
    requires i <= |chain| && FirstFailure(w, chain, i) != Secure
    ensures i <= j < |chain| && LinkVerdict(w, chain, j) == FirstFailure(w, chain, i)
    ensures forall k :: i <= k < j ==> LinkVerdict(w, chain, k) == Secure
    decreases |chain| - i
  {
    hide LinkVerdict;
    j := i;
    if LinkVerdict(w, chain, i) == Secure { j := FailureIsFirst(w, chain, i + 1); }
  }

  /** No usable DS: none at all, or only SHA-1 digests (1) where those are not allowed. */
  ghost predicate NoUsableDs(w: World, ds: seq<Ds>) {
    forall d :: d in ds ==> d.digestType == 1 && !w.allowSha1
  }

  /** What any other verdict means: the zones above are vouched for, and the first that is not
      could not be looked up, is delegated without a usable DS, or has keys that nothing endorses. */
  lemma FailureMeans(w: World, zone: Text) returns (z: Text)
    requires AllNonEmpty(SplitLabels(zone)) && TrustOf(w, zone) != Secure
    ensures AtOrAbove(z, zone) && !Vouched(w, z)
    ensures forall a :: AtOrAbove(a, zone) && |a| < |z| ==> Vouched(w, a)
    ensures TrustOf(w, zone) == Indeterminate <==> w.keys(z).None? || (z != [DOT] && w.ds(z).None?)
    ensures TrustOf(w, zone) == Insecure <==>
              w.keys(z).Some? && z != [DOT] && w.ds(z).Some? && NoUsableDs(w, w.ds(z).value)
    ensures TrustOf(w, zone) == Bogus <==>
              && w.keys(z).Some?
              && if z == [DOT] then !Endorsed(w, w.keys(z).value, w.anchors, z)
                 else && w.ds(z).Some? && !NoUsableDs(w, w.ds(z).value)
                      && !Endorsed(w, w.keys(z).value, w.ds(z).value, z)
  {
    hide FirstFailure, AtOrAbove, SplitLabels, Endorsed, LinkVerdict, Vouched;
    var chain := BuildZoneChain(zone);
    var j := FailureIsFirst(w, chain, 0);
    z := chain[j];
    LinkIsVouched(w, zone, j);
    ZoneChainIsAncestors(zone, z);
    LinkMeans(w, zone, j);
    forall a | AtOrAbove(a, zone) && |a| < |z| ensures Vouched(w, a) {
      ZoneChainIsAncestors(zone, a);
      var i :| 0 <= i < |chain| && chain[i] == a;
      ShorterIsEarlier(zone, j, i);
      LinkIsVouched(w, zone, i);
    }
  }

  lemma LinkMeans(w: World, zone: Text, i: nat)
    requires AllNonEmpty(SplitLabels(zone)) && i <= |SplitLabels(zone)|
    ensures var v, z := LinkVerdict(w, BuildZoneChain(zone), i), BuildZoneChain(zone)[i];
            && (v == Indeterminate <==> w.keys(z).None? || (z != [DOT] && w.ds(z).None?))
            && (v == Insecure <==>
                  w.keys(z).Some? && z != [DOT] && w.ds(z).Some? && NoUsableDs(w, w.ds(z).value))
            && (v == Bogus <==>
                  && w.keys(z).Some?
                  && if z == [DOT] then !Endorsed(w, w.keys(z).value, w.anchors, z)
                     else && w.ds(z).Some? && !NoUsableDs(w, w.ds(z).value)
                          && !Endorsed(w, w.keys(z).value, w.ds(z).value, z))
  {
    hide SplitLabels, Endorsed, BuildZoneChain;
    RootIsShort(zone, i);
  }

  /** Only the first zone of the chain is the root. */
  lemma RootIsShort(zone: Text, i: nat)
    requires AllNonEmpty(SplitLabels(zone)) && i <= |SplitLabels(zone)|
    ensures BuildZoneChain(zone)[i] == [DOT] <==> i == 0
  {
    hide SplitLabels;
    var ls, chain := SplitLabels(zone), BuildZoneChain(zone);
    if i == 0 {
      RootOf(ls);
    } else {
      ChainDescends(zone, i);
      assert ls[|ls| - i] != [];
      assert |chain[i]| > 1;
    }
  }

  /** Zones further down the chain have longer names. */
  lemma {:induction false} ShorterIsEarlier(zone: Text, j: nat, i: nat)
    requires j <= |SplitLabels(zone)| && i <= |SplitLabels(zone)|
    ensures |BuildZoneChain(zone)[i]| < |BuildZoneChain(zone)[j]| ==> i < j
    decreases i
  {
    hide SplitLabels, BuildZoneChain;
    if j < i {
      ChainDescends(zone, i);
      ShorterIsEarlier(zone, j, i - 1);
      if i == 1 { FirstIsRoot(zone); }
    }
  }

  lemma FirstIsRoot(zone: Text)
    ensures BuildZoneChain(zone)[0] == [DOT]
  {
    hide SplitLabels;
    RootOf(SplitLabels(zone));
  }

  /** The root is trusted exactly if its keys match an accepted anchor. */
  lemma RootTrust(w: World)
    ensures TrustOf(w, [DOT]) == Secure <==> w.keys([DOT]).Some? && Endorsed(w, w.keys([DOT]).value, w.anchors, [DOT])
  {
    hide Endorsed, Join, Split, ZoneOf;
    RootChain();
    var chain := BuildZoneChain([DOT]);
    assert FirstFailure(w, chain, 1) == Secure;
  }

  lemma RootChain()
    ensures BuildZoneChain([DOT]) == [[DOT]]
  {
    hide Join, Split, ZoneOf;
    assert TrimDot([DOT]) == [] && SplitLabels([DOT]) == [];
    RootOf([]);
  }
}
