/** The octets an RRSIG signs (dnssec/verify.go, buildSignedData). */
module SignedData {
  import opened Bytes
  import opened Labels
  import opened Compression
  import opened Records
  import opened Order
  import opened Nsec

  datatype Rrsig = Rrsig(typeCovered: u16, algorithm: byte, labels: byte, origTtl: u32, expiration: u32,
                         inception: u32, keyTag: u16, signer: Text, signature: Text)

  /** canonicalNameWire */
  function NameBytes(name: Text): Text {
    PlainName(CanonicalLabels(name))
  }

  /** canonicalWildcardOwner; the label count is compared as an 8-bit number. */
  function WildcardOwner(name: Text, signed: byte): Text {
    var trimmed := TrimDot(name);
    if signed == 0 || trimmed == [] then name
    else
      var labels := Split(trimmed);
      if |labels| % 256 <= signed then name
      else [STAR, DOT] + Join(labels[|labels| - signed..])
  }

  /** The wire name at the front of s with its label octets lowercased, and what follows it;
      None when no uncompressed name is there. */
  function LowerFront(s: Text): (r: Option<Text>)
    ensures r.Some? ==> |r.value| == |s|
  {
    if s == [] || s[0] >= 64 then None
    else
      var l: int := s[0];
      if l == 0 then Some(s)
      else if 1 + l > |s| then None
      else
        match LowerFront(s[1 + l..])
        case None => None
        case Some(rest) => Some([s[0]] + Lower(s[1..1 + l]) + rest)
  }

  /** lowercaseWireName */
  function LowerName(s: Text, start: nat): (r: Option<Text>)
    ensures r.Some? ==> |r.value| == |s|
  {
    if start > |s| then None
    else
      match LowerFront(s[start..])
      case None => None
      case Some(rest) => Some(s[..start] + rest)
  }

  /** The length of the wire name at the front of s. */
  function NameLength(s: Text): (r: Option<nat>)
    ensures r.Some? ==> 0 < r.value <= |s|
  {
    if s == [] || s[0] >= 64 then None
    else
      var l: int := s[0];
      if l == 0 then Some(1)
      else if 1 + l > |s| then None
      else
        match NameLength(s[1 + l..])
        case None => None
        case Some(n) => Some(1 + l + n)
  }

  function OrElse(o: Option<Text>, s: Text): Text {
    if o.Some? then o.value else s
  }

  /** canonicalRData: the switch lists exactly the types whose RDATA packRData treats as names. */
  function CanonicalRData(rdata: Text, rtype: u16): Text {
    match ShapeOf(rtype)
    case Raw => rdata
    case OneName(pre, _) => if |rdata| < pre + 1 then rdata else OrElse(LowerName(rdata, pre), rdata)
    case TwoNames =>
      match LowerName(rdata, 0)
      case None => rdata
      case Some(out) =>
        match NameLength(out)
        case None => rdata
        case Some(end) => OrElse(LowerName(out, end), out)
  }

  /** One record as it is signed, with the TTL of the signature. */
  function RecordBytes(rr: RR, sig: Rrsig): Text {
    var rd := CanonicalRData(rr.rdata, sig.typeCovered);
    NameBytes(WildcardOwner(rr.name, sig.labels))
    + (PutU16(rr.rtype) + PutU16(rr.class_) + PutU32(sig.origTtl) + PutU16(|rd| % 0x1_0000)) + rd
  }

  function Wires(rrset: seq<RR>, sig: Rrsig): seq<Text> {
    if rrset == [] then []
    else (if rrset[0].rtype == sig.typeCovered then [RecordBytes(rrset[0], sig)] else []) + Wires(rrset[1..], sig)
  }

  function Insert(w: Text, ws: seq<Text>): seq<Text> {
    if ws == [] || !OctetsLess(ws[0], w) then [w] + ws else [ws[0]] + Insert(w, ws[1..])
  }

  /** sort.Slice by bytes.Compare: Sorted permutations are unique, so any algorithm will do. */
  function Sort(ws: seq<Text>): seq<Text> {
    if ws == [] then [] else Insert(ws[0], Sort(ws[1..]))
  }

  function Concat(ws: seq<Text>): Text {
    if ws == [] then [] else ws[0] + Concat(ws[1..])
  }

  function SigFields(sig: Rrsig): Text {
    PutU16(sig.typeCovered) + [sig.algorithm, sig.labels] + PutU32(sig.origTtl) + PutU32(sig.expiration)
    + PutU32(sig.inception) + PutU16(sig.keyTag)
  }

  function BuildSignedData(rrset: seq<RR>, sig: Rrsig): Text {
    SigFields(sig) + NameBytes(sig.signer) + Concat(Sort(Wires(rrset, sig)))
  }

  // ---- sorting ----

  ghost predicate IsSorted(ws: seq<Text>) {
    forall i, j :: 0 <= i < j < |ws| ==> !OctetsLess(ws[j], ws[i])
  }

  lemma {:induction false} InsertAdds(w: Text, ws: seq<Text>)
    ensures multiset(Insert(w, ws)) == multiset{w} + multiset(ws)
  {
    hide OctetsLess;
    if ws != [] {
      assert ws == [ws[0]] + ws[1..];
      if OctetsLess(ws[0], w) { InsertAdds(w, ws[1..]); }
    }
  }

  lemma SortedCons(x: Text, ws: seq<Text>)
    requires IsSorted(ws) && forall y :: y in multiset(ws) ==> !OctetsLess(y, x)
    ensures IsSorted([x] + ws)
  {
    hide OctetsLess;
    forall i, j | 0 <= i < j < |[x] + ws| ensures !OctetsLess(([x] + ws)[j], ([x] + ws)[i]) {
      assert ([x] + ws)[j] == ws[j - 1] && ws[j - 1] in multiset(ws);
    }
  }

  lemma {:induction false} InsertSorts(w: Text, ws: seq<Text>)
    requires IsSorted(ws)
    ensures IsSorted(Insert(w, ws))
  {
    hide OctetsLess;
    OrdersAreTotal();
    if ws != [] && OctetsLess(ws[0], w) {
      InsertSorts(w, ws[1..]);
      InsertAdds(w, ws[1..]);
      SortedCons(ws[0], Insert(w, ws[1..]));
    } else {
      SortedCons(w, ws);
    }
  }

  lemma {:induction false} SortSorts(ws: seq<Text>)
    ensures IsSorted(Sort(ws)) && multiset(Sort(ws)) == multiset(ws)
  {
    hide OctetsLess, Insert;
    if ws != [] {
      SortSorts(ws[1..]);
      InsertSorts(ws[0], Sort(ws[1..]));
      InsertAdds(ws[0], Sort(ws[1..]));
      assert ws == [ws[0]] + ws[1..];
    }
  }

  /** A sorted sequence is determined by its elements. */
  lemma {:induction false} SortedUnique(a: seq<Text>, b: seq<Text>)
    requires IsSorted(a) && IsSorted(b) && multiset(a) == multiset(b)
    ensures a == b
    decreases |a|
  {
    hide OctetsLess, IsSorted;
    SameSize(a, b);
    if a != [] {
      LeastFirst(a, b);
      LeastFirst(b, a);
      OrdersAreTotal();
      var a1, b1 := a[1..], b[1..];
      SortedTail(a);
      SortedTail(b);
      MultisetTail(a);
      MultisetTail(b);
      SortedUnique(a1, b1);
      assert a == [a[0]] + a1 && b == [b[0]] + b1;
    }
  }

  lemma MultisetTail(a: seq<Text>)
    requires a != []
    ensures multiset(a[1..]) == multiset(a) - multiset{a[0]}
  {
    assert a == [a[0]] + a[1..];
  }

  lemma SameSize(a: seq<Text>, b: seq<Text>)
    requires multiset(a) == multiset(b)
    ensures |a| == |b|
  {
    assert |a| == |multiset(a)| == |multiset(b)| == |b|;
  }

  lemma SortedTail(a: seq<Text>)
    requires IsSorted(a) && a != []
    ensures IsSorted(a[1..])
  {
    hide OctetsLess;
  }

  lemma LeastFirst(a: seq<Text>, b: seq<Text>)
    requires IsSorted(a) && a != [] && b != [] && multiset(a) == multiset(b)
    ensures !OctetsLess(b[0], a[0])
  {
    hide OctetsLess;
    OrdersAreTotal();
    assert b[0] in multiset(b);
    assert b[0] in a;
  }

  lemma SortOfPermutation(a: seq<Text>, b: seq<Text>)
    requires multiset(a) == multiset(b)
    ensures Sort(a) == Sort(b)
  {
    SortSorts(a);
    SortSorts(b);
    SortedUnique(Sort(a), Sort(b));
  }

  // ---- permuting the record set ----

  lemma {:induction false} WiresConcat(a: seq<RR>, b: seq<RR>, sig: Rrsig)
    ensures Wires(a + b, sig) == Wires(a, sig) + Wires(b, sig)
  {
    hide RecordBytes;
    if a == [] {
      assert a + b == b;
    } else {
      assert (a + b)[1..] == a[1..] + b;
      WiresConcat(a[1..], b, sig);
    }
  }

  /** s without its element i. */
  function Without<T>(s: seq<T>, i: nat): seq<T>
    requires i < |s|
  {
    s[..i] + s[i + 1..]
  }

  lemma MultisetWithout<T>(s: seq<T>, i: nat)
    requires i < |s|
    ensures multiset(Without(s, i)) == multiset(s) - multiset{s[i]}
  {
    assert s == s[..i] + [s[i]] + s[i + 1..];
  }

  lemma WiresWithout(s: seq<RR>, i: nat, sig: Rrsig)
    requires i < |s|
    ensures multiset(Wires(s, sig)) == multiset(Wires([s[i]], sig)) + multiset(Wires(Without(s, i), sig))
  {
    hide Wires;
    assert s == s[..i] + ([s[i]] + s[i + 1..]);
    WiresConcat(s[..i], [s[i]] + s[i + 1..], sig);
    WiresConcat([s[i]], s[i + 1..], sig);
    WiresConcat(s[..i], s[i + 1..], sig);
  }

  lemma {:induction false} WiresOfPermutation(a: seq<RR>, b: seq<RR>, sig: Rrsig)
    requires multiset(a) == multiset(b)
    ensures multiset(Wires(a, sig)) == multiset(Wires(b, sig))
    decreases |a|
  {
    hide Wires, Without;
    assert |a| == |multiset(a)| == |multiset(b)| == |b|;
    if a == [] {
      assert a == b;
    } else {
      assert a[0] in multiset(b);
      var i :| 0 <= i < |b| && b[i] == a[0];
      MultisetWithout(a, 0);
      MultisetWithout(b, i);
      assert |Without(a, 0)| == |a| - 1 by { WithoutLength(a, 0); }
      WiresOfPermutation(Without(a, 0), Without(b, i), sig);
      WiresWithout(a, 0, sig);
      WiresWithout(b, i, sig);
    }
  }

  lemma WithoutLength<T>(s: seq<T>, i: nat)
    requires i < |s|
    ensures |Without(s, i)| == |s| - 1
  {}

  /** The order in which a response lists the record set does not matter. */
  lemma PermutedSignedData(a: seq<RR>, b: seq<RR>, sig: Rrsig)
    requires multiset(a) == multiset(b)
    ensures BuildSignedData(a, sig) == BuildSignedData(b, sig)
  {
    hide Wires, Sort, Concat;
    WiresOfPermutation(a, b, sig);
    SortOfPermutation(Wires(a, sig), Wires(b, sig));
  }

  // ---- case, trailing dots and wildcard expansion of owners ----

  function LowerAll(ls: seq<Text>): (r: seq<Text>)
    ensures |r| == |ls|
    ensures forall i :: 0 <= i < |ls| ==> r[i] == Lower(ls[i])
  {
    seq(|ls|, i requires 0 <= i < |ls| => Lower(ls[i]))
  }

  lemma GlueLower(c: byte, rest: seq<Text>)
    requires |rest| >= 1
    ensures Glue(LowerByte(c), LowerAll(rest)) == LowerAll(Glue(c, rest))
  {
    var a, b := Glue(LowerByte(c), LowerAll(rest)), LowerAll(Glue(c, rest));
    assert Lower([c] + rest[0]) == [LowerByte(c)] + Lower(rest[0]);
    assert |a| == |b|;
    forall i | 0 <= i < |a| ensures a[i] == b[i] {}
  }

  lemma {:induction false} SplitLower(t: Text)
    ensures Split(Lower(t)) == LowerAll(Split(t))
  {
    hide Glue, LowerAll;
    if t == [] {
      assert Lower(t) == [] && LowerAll([[]]) == [[]];
    } else {
      SplitLower(t[1..]);
      assert Lower(t)[1..] == Lower(t[1..]);
      GlueLower(t[0], Split(t[1..]));
    }
  }

  lemma CanonicalLabelsLower(name: Text)
    ensures CanonicalLabels(name) == LowerAll(SplitLabels(name))
  {
    hide Split;
    SplitLower(TrimDot(name));
  }

  /** The record was expanded from a wildcard: its owner has more labels than were signed. */
  predicate Expanded(name: Text, signed: byte) {
    signed > 0 && |SplitLabels(name)| % 256 > signed
  }

  function LastLabels(name: Text, n: nat): seq<Text> {
    var ls := SplitLabels(name);
    if n <= |ls| then LowerAll(ls[|ls| - n..]) else LowerAll(ls)
  }

  lemma OwnerText(name: Text, signed: byte)
    ensures !Expanded(name, signed) ==> WildcardOwner(name, signed) == name
    ensures Expanded(name, signed) ==>
              var ls := SplitLabels(name); WildcardOwner(name, signed) == [STAR, DOT] + Join(ls[|ls| - signed..])
  {
    hide Split, Join;
  }

  /** The owner that goes into the signed octets. */
  lemma SignedOwner(name: Text, signed: byte)
    requires AllNonEmpty(SplitLabels(name))
    ensures CanonicalLabels(WildcardOwner(name, signed))
         == if Expanded(name, signed) then [[STAR]] + LastLabels(name, signed) else LowerAll(SplitLabels(name))
  {
    hide Split, Join, WildcardOwner, SplitLabels, CanonicalLabels, LowerAll;
    OwnerText(name, signed);
    CanonicalLabelsLower(name);
    SplitLabelsFacts(name);
    if Expanded(name, signed) {
      var ls := SplitLabels(name);
      StarLabels(ls[|ls| - signed..]);
    }
  }

  lemma StarLabels(tail: seq<Text>)
    requires |tail| >= 1 && AllNonEmpty(tail) && AllDotFree(tail)
    ensures CanonicalLabels([STAR, DOT] + Join(tail)) == [[STAR]] + LowerAll(tail)
  {
    hide Split, Join, LowerAll;
    var star: seq<Text> := [[STAR]];
    var name := [STAR, DOT] + Join(tail);
    JoinStar(tail);
    assert AllNonEmpty(star + tail) && AllDotFree(star + tail);
    SplitLabelsJoin(star + tail);
    CanonicalLabelsLower(name);
    LowerAllStar(tail);
  }

  lemma JoinStar(tail: seq<Text>)
    requires |tail| >= 1
    ensures Join([[STAR]] + tail) == [STAR, DOT] + Join(tail)
  {
    hide Join;
    var star: seq<Text> := [[STAR]];
    JoinConcat(star, tail);
    JoinOne([STAR]);
    assert [STAR] + [DOT] + Join(tail) == [STAR, DOT] + Join(tail);
  }

  lemma JoinOne(l: Text)
    ensures Join([l]) == l
  {}

  lemma LowerAllStar(tail: seq<Text>)
    ensures LowerAll([[STAR]] + tail) == [[STAR]] + LowerAll(tail)
  {
    assert Lower([STAR]) == [STAR];
  }

  /** Owners that sign alike: equal up to case and a trailing dot, or two expansions with the
      same last signed labels. */
  predicate SameOwner(a: Text, b: Text, signed: byte) {
    && AllNonEmpty(SplitLabels(a)) && AllNonEmpty(SplitLabels(b))
    && (CanonicalName(a) == CanonicalName(b)
        || (Expanded(a, signed) && Expanded(b, signed) && LastLabels(a, signed) == LastLabels(b, signed)))
  }

  lemma SameOwnerBytes(a: Text, b: Text, signed: byte)
    requires SameOwner(a, b, signed)
    ensures NameBytes(WildcardOwner(a, signed)) == NameBytes(WildcardOwner(b, signed))
  {
    hide WildcardOwner, SplitLabels, CanonicalName, CanonicalLabels, LowerAll, PlainName, AllNonEmpty;
    SignedOwner(a, signed);
    SignedOwner(b, signed);
    if CanonicalName(a) == CanonicalName(b) {
      CanonicalLabelsLower(a);
      CanonicalLabelsLower(b);
      assert CanonicalLabels(a) == CanonicalLabels(b) by { SameCanonicalLabels(a, b); }
      SameLast(SplitLabels(a), SplitLabels(b), signed);
    }
  }

  lemma SameCanonicalLabels(a: Text, b: Text)
    requires CanonicalName(a) == CanonicalName(b)
    ensures CanonicalLabels(a) == CanonicalLabels(b)
  {}

  lemma SameLast(la: seq<Text>, lb: seq<Text>, n: nat)
    requires LowerAll(la) == LowerAll(lb)
    ensures |la| == |lb|
    ensures n <= |la| ==> LowerAll(la[|la| - n..]) == LowerAll(lb[|lb| - n..])
  {
    assert |LowerAll(la)| == |LowerAll(lb)|;
    if n <= |la| {
      assert LowerAll(la[|la| - n..]) == LowerAll(la)[|la| - n..];
      assert LowerAll(lb[|lb| - n..]) == LowerAll(lb)[|lb| - n..];
    }
  }

  // ---- RDATA ----

  predicate WireLabels(ls: seq<Text>) {
    forall i :: 0 <= i < |ls| ==> 1 <= |ls[i]| <= 63
  }

  lemma LowerAllTail(ls: seq<Text>)
    requires ls != []
    ensures LowerAll(ls)[1..] == LowerAll(ls[1..])
  {}

  lemma PlainCons(l: Text, rest: seq<Text>)
    requires |l| <= 63
    ensures PlainName([l] + rest) == [|l|] + l + PlainName(rest)
  {
    var ls := [l] + rest;
    assert ls[0] == l && ls[1..] == rest && |l| % 256 == |l|;
  }

  /** One step of the walk over the label of l octets at the front, whatever the rest is. */
  lemma LowerStep(s: Text, l: nat, body: Text, tail: Text)
    requires 1 <= l <= 63 && |s| == 1 + l + |tail| && s[0] == l && s[1..1 + l] == body && s[1 + l..] == tail
    ensures LowerFront(s)
         == (match LowerFront(tail) case None => None case Some(rest) => Some([l] + Lower(body) + rest))
  {
    hide Lower;
  }

  lemma LengthStep(s: Text, l: nat, tail: Text)
    requires 1 <= l <= 63 && |s| == 1 + l + |tail| && s[0] == l && s[1 + l..] == tail
    ensures NameLength(s) == (match NameLength(tail) case None => None case Some(n) => Some(1 + l + n))
  {
    var n := NameLength(tail);
    hide LowerFront, Lower;
    assert NameLength(s[1 + l..]) == n;
  }

  lemma LowerFrontCons(l: Text, rest: Text)
    requires 1 <= |l| <= 63 && LowerFront(rest).Some?
    ensures LowerFront([|l|] + l + rest) == Some([|l|] + Lower(l) + LowerFront(rest).value)
  {
    hide LowerFront, NameLength;
    FrontParts(l, rest);
    LowerStep([|l|] + l + rest, |l|, l, rest);
  }

  lemma NameLengthCons(l: Text, rest: Text)
    requires 1 <= |l| <= 63 && NameLength(rest).Some?
    ensures NameLength([|l|] + l + rest).Some?
    ensures NameLength([|l|] + l + rest).value == 1 + |l| + NameLength(rest).value
  {
    hide LowerFront, NameLength;
    FrontParts(l, rest);
    LengthStep([|l|] + l + rest, |l|, rest);
  }

  lemma FrontParts(l: Text, rest: Text)
    requires |l| <= 63
    ensures var s := [|l|] + l + rest; s[0] == |l| && s[1..1 + |l|] == l && s[1 + |l|..] == rest
  {}

  lemma PlainNil()
    ensures PlainName([]) == [0] && LowerAll([]) == []
    ensures forall post: Text :: LowerFront([0] + post) == Some([0] + post) && NameLength([0] + post) == Some(1)
  {}

  /** Lowercasing touches exactly the labels of the name. */
  lemma {:induction false} LowerFrontPlain(ls: seq<Text>, post: Text)
    requires WireLabels(ls)
    ensures LowerFront(PlainName(ls) + post) == Some(PlainName(LowerAll(ls)) + post)
    ensures NameLength(PlainName(ls) + post) == Some(|PlainName(ls)|)
    ensures |PlainName(LowerAll(ls))| == |PlainName(ls)|
    decreases |ls|
  {
    hide LowerFront, NameLength, PlainName, LowerAll;
    if ls == [] {
      PlainNil();
    } else {
      var l, rest, low := ls[0], ls[1..], LowerAll(ls[1..]);
      LowerAllTail(ls);
      assert ls == [l] + rest && LowerAll(ls) == [Lower(l)] + low;
      PlainCons(l, rest);
      PlainCons(Lower(l), low);
      LowerFrontPlain(rest, post);
      LowerFrontCons(l, PlainName(rest) + post);
      NameLengthCons(l, PlainName(rest) + post);
      assert PlainName(ls) + post == [|l|] + l + (PlainName(rest) + post);
      assert PlainName(LowerAll(ls)) + post == [|l|] + Lower(l) + (PlainName(low) + post);
    }
  }

  /** d is fixed octets, a wire name and what follows. */
  ghost predicate Spells(d: Text, fixed: Text, ls: seq<Text>, post: Text) {
    WireLabels(ls) && d == fixed + PlainName(ls) + post
  }

  ghost predicate SpellsTwo(d: Text, m: seq<Text>, r: seq<Text>, post: Text) {
    WireLabels(m) && WireLabels(r) && d == PlainName(m) + (PlainName(r) + post)
  }

  ghost predicate SameButCase(a: seq<Text>, b: seq<Text>) {
    LowerAll(a) == LowerAll(b)
  }

  /** RDATA that differs at most in the case of the names inside it. */
  ghost predicate CaseVariant(rtype: u16, d: Text, d': Text) {
    d == d' ||
    match ShapeOf(rtype)
    case Raw => false
    case OneName(pre, _) =>
      exists fixed, ls, ls', post ::
        |fixed| == pre && Spells(d, fixed, ls, post) && Spells(d', fixed, ls', post) && SameButCase(ls, ls')
    case TwoNames =>
      exists m, m', r, r', post ::
        SpellsTwo(d, m, r, post) && SpellsTwo(d', m', r', post) && SameButCase(m, m') && SameButCase(r, r')
  }

  lemma CanonicalOneName(rtype: u16, d: Text, fixed: Text, ls: seq<Text>, post: Text)
    requires ShapeOf(rtype).OneName? && |fixed| == ShapeOf(rtype).pre && Spells(d, fixed, ls, post)
    ensures CanonicalRData(d, rtype) == fixed + (PlainName(LowerAll(ls)) + post)
  {
    hide LowerFront, PlainName, LowerAll, ShapeOf;
    assert d[|fixed|..] == PlainName(ls) + post && d[..|fixed|] == fixed;
    LowerFrontPlain(ls, post);
  }

  lemma CanonicalTwoNames(rtype: u16, d: Text, m: seq<Text>, r: seq<Text>, post: Text)
    requires ShapeOf(rtype).TwoNames? && SpellsTwo(d, m, r, post)
    ensures CanonicalRData(d, rtype) == PlainName(LowerAll(m)) + (PlainName(LowerAll(r)) + post)
  {
    hide LowerFront, NameLength, PlainName, LowerAll, ShapeOf;
    var rest := PlainName(r) + post;
    var low := PlainName(LowerAll(m));
    LowerFrontPlain(m, rest);
    LowerAllWire(m);
    LowerFrontPlain(LowerAll(m), rest);
    LowerFrontPlain(r, post);
    var out := low + rest;
    assert d[0..] == d && d[..0] + out == out;
    assert out[..|low|] == low && out[|low|..] == rest;
  }

  lemma LowerAllWire(ls: seq<Text>)
    requires WireLabels(ls)
    ensures WireLabels(LowerAll(ls))
  {}

  lemma CaseVariantCanonical(rtype: u16, d: Text, d': Text)
    requires CaseVariant(rtype, d, d')
    ensures CanonicalRData(d, rtype) == CanonicalRData(d', rtype)
  {
    hide CanonicalRData, Spells, SpellsTwo, LowerAll;
    if d != d' {
      match ShapeOf(rtype)
      case OneName(pre, _) =>
        var fixed, ls, ls', post :|
          |fixed| == pre && Spells(d, fixed, ls, post) && Spells(d', fixed, ls', post) && SameButCase(ls, ls');
        CanonicalOneName(rtype, d, fixed, ls, post);
        CanonicalOneName(rtype, d', fixed, ls', post);
      case TwoNames =>
        var m, m', r, r', post :|
          SpellsTwo(d, m, r, post) && SpellsTwo(d', m', r', post) && SameButCase(m, m') && SameButCase(r, r');
        CanonicalTwoNames(rtype, d, m, r, post);
        CanonicalTwoNames(rtype, d', m', r', post);
    }
  }

  // ---- canonicalRData keeps the length and has nothing left to do ----

  lemma {:induction false} LowerFrontTwice(s: Text)
    requires LowerFront(s).Some?
    ensures LowerFront(LowerFront(s).value) == LowerFront(s)
    ensures NameLength(LowerFront(s).value).Some?
  {
    hide LowerFront, NameLength;
    LowerFrontEnds(s);
    var l: int := s[0];
    if l > 0 {
      var body, tail := s[1..1 + l], s[1 + l..];
      LowerStep(s, l, body, tail);
      LowerFrontTwice(tail);
      var rest := LowerFront(tail).value;
      LowerTwice(body);
      LowerFrontCons(Lower(body), rest);
      NameLengthCons(Lower(body), rest);
    }
  }

  lemma LowerTwice(s: Text)
    ensures Lower(Lower(s)) == Lower(s)
  {}

  /** The label at the front of a name that is already lowercase. */
  lemma LowercaseParts(s: Text, l: nat, body: Text, tail: Text)
    requires 1 <= l <= 63 && |s| == 1 + l + |tail| && s[0] == l && s[1..1 + l] == body && s[1 + l..] == tail
    requires LowerFront(s) == Some(s)
    ensures Lower(body) == body && LowerFront(tail) == Some(tail)
  {
    hide LowerFront, NameLength, Lower;
    LowerStep(s, l, body, tail);
    var rest := LowerFront(tail).value;
    Split3(s, l, Lower(body), rest);
  }

  lemma Split3(s: Text, l: nat, low: Text, rest: Text)
    requires l < 256 && |low| == l && s == [l] + low + rest
    ensures s[1..1 + l] == low && s[1 + l..] == rest
  {}

  /** Whether a name is already lowercase is decided by its own octets. */
  lemma {:induction false} LowerFrontLocal(s: Text, t: Text)
    requires LowerFront(s) == Some(s) && NameLength(s).Some?
    requires |t| == |s| && t[..NameLength(s).value] == s[..NameLength(s).value]
    ensures LowerFront(t) == Some(t) && NameLength(t) == NameLength(s)
    decreases |s|
  {
    hide LowerFront, NameLength, Lower;
    var e := NameLength(s).value;
    assert t[0] == t[..e][0] == s[..e][0];
    LowerFrontEnds(s);
    LowerFrontEnds(t);
    if s[0] > 0 {
      var l: int := s[0];
      var body, s1, t1 := s[1..1 + l], s[1 + l..], t[1 + l..];
      LowercaseParts(s, l, body, s1);
      LengthStep(s, l, s1);
      SameFront(s, t, e, l);
      LowerFrontLocal(s1, t1);
      LowerStep(t, l, body, t1);
      LengthStep(t, l, t1);
      assert t == [l] + body + t1;
    }
  }

  lemma SameFront(s: Text, t: Text, e: nat, l: nat)
    requires 1 + l <= e <= |s| == |t| && t[..e] == s[..e]
    ensures t[1..1 + l] == s[1..1 + l] && t[1 + l..][..e - 1 - l] == s[1 + l..][..e - 1 - l]
  {
    forall i | 0 <= i < e ensures t[i] == s[i] { assert t[..e][i] == s[..e][i]; }
  }

  /** canonicalRData preserves the length and is idempotent, on every octet string and type. */
  lemma CanonicalRDataTwice(rdata: Text, rtype: u16)
    ensures |CanonicalRData(rdata, rtype)| == |rdata|
    ensures CanonicalRData(CanonicalRData(rdata, rtype), rtype) == CanonicalRData(rdata, rtype)
  {
    hide LowerFront, NameLength, ShapeOf;
    match ShapeOf(rtype)
    case Raw =>
    case OneName(pre, _) =>
      if |rdata| >= pre + 1 && LowerFront(rdata[pre..]).Some? {
        var rest := LowerFront(rdata[pre..]).value;
        LowerFrontTwice(rdata[pre..]);
        var o := rdata[..pre] + rest;
        assert o[pre..] == rest && o[..pre] == rdata[..pre];
      }
    case TwoNames =>
      assert rdata[0..] == rdata;
      if LowerFront(rdata).Some? {
        LowerFrontTwice(rdata);
        TwoNamesTwice(rdata, rtype, LowerFront(rdata).value);
      }
  }

  lemma TwoNamesTwice(rdata: Text, rtype: u16, out: Text)
    requires ShapeOf(rtype).TwoNames? && LowerFront(rdata) == Some(out)
    requires LowerFront(out) == Some(out) && NameLength(out).Some?
    ensures CanonicalRData(CanonicalRData(rdata, rtype), rtype) == CanonicalRData(rdata, rtype)
  {
    hide LowerFront, NameLength, ShapeOf;
    var e := NameLength(out).value;
    assert rdata[0..] == rdata && out[0..] == out && rdata[..0] + out == out && out[..0] + out == out;
    if LowerFront(out[e..]).Some? {
      var rest := LowerFront(out[e..]).value;
      LowerFrontTwice(out[e..]);
      var o := out[..e] + rest;
      assert o[..e] == out[..e] && o[e..] == rest && o[0..] == o && o[..0] + o == o;
      LowerFrontLocal(out, o);
    }
  }

  // ---- the canonical form ----

  /** Records that are signed alike under sig: TTL and length field do not count, owners and
      names inside RDATA may differ as above. */
  ghost predicate Equivalent(sig: Rrsig, r: RR, r': RR) {
    && r.rtype == r'.rtype && r.class_ == r'.class_
    && SameOwner(r.name, r'.name, sig.labels)
    && CaseVariant(sig.typeCovered, r.rdata, r'.rdata)
  }

  lemma EquivalentBytes(sig: Rrsig, r: RR, r': RR)
    requires Equivalent(sig, r, r')
    ensures RecordBytes(r, sig) == RecordBytes(r', sig)
  {
    hide SameOwner, CaseVariant, CanonicalRData, NameBytes, WildcardOwner;
    SameOwnerBytes(r.name, r'.name, sig.labels);
    CaseVariantCanonical(sig.typeCovered, r.rdata, r'.rdata);
  }

  lemma {:induction false} EquivalentWires(sig: Rrsig, a: seq<RR>, b: seq<RR>)
    requires |a| == |b| && forall i :: 0 <= i < |a| ==> Equivalent(sig, a[i], b[i])
    ensures Wires(a, sig) == Wires(b, sig)
    decreases |a|
  {
    hide RecordBytes;
    if a != [] {
      EquivalentBytes(sig, a[0], b[0]);
      EquivalentWires(sig, a[1..], b[1..]);
    }
  }

  /** The signed octets are a canonical form: they stay the same when the record set a is
      reordered into c, its records are replaced one by one by equivalent ones, and the signer
      name of the signature changes case. */
  lemma SignedDataIsCanonical(a: seq<RR>, c: seq<RR>, b: seq<RR>, sig: Rrsig, signer: Text)
    requires multiset(a) == multiset(c)
    requires |c| == |b| && forall i :: 0 <= i < |c| ==> Equivalent(sig, c[i], b[i])
    requires CanonicalName(signer) == CanonicalName(sig.signer)
    ensures BuildSignedData(a, sig) == BuildSignedData(b, sig.(signer := signer))
  {
    hide Wires, Equivalent, Sort, Concat, CanonicalName;
    PermutedSignedData(a, c, sig);
    EquivalentWires(sig, c, b);
    SameCanonicalLabels(signer, sig.signer);
    SignerIgnored(b, sig, signer);
  }

  lemma {:induction false} SignerIgnored(b: seq<RR>, sig: Rrsig, signer: Text)
    ensures Wires(b, sig) == Wires(b, sig.(signer := signer))
  {
    if b != [] { SignerIgnored(b[1..], sig, signer); }
  }

  // ---- the loops ----

  /** lowercaseWireName: a copy whose labels are lowercased in place. */
  method LowercaseWireName(rdata: Text, start: int) returns (r: Option<Text>)
    ensures r == if start < 0 then None else LowerName(rdata, start)
  {
    if start < 0 || start > |rdata| {
      return None;
    }
    var out := new byte[|rdata|](i requires 0 <= i < |rdata| => rdata[i]);
    r := LowerInPlace(out, start, rdata);
  }

  method LowerInPlace(out: array<byte>, start: nat, ghost rdata: Text) returns (r: Option<Text>)
    requires start <= out.Length && out[..] == rdata
    modifies out
    ensures r == LowerName(rdata, start)
  {
    hide LowerFront, LowerName, Prefixed;
    var i := start;
    PrefixedNothing(LowerFront(rdata[start..]));
    assert out[start..start] == [];
    while true
      invariant start <= i <= |rdata| == out.Length
      invariant out[..start] == rdata[..start] && out[i..] == rdata[i..]
      invariant LowerFront(rdata[start..]) == Prefixed(out[start..i], LowerFront(rdata[i..]))
      decreases |rdata| - i
    {
      if i < |rdata| { assert out[i] == out[i..][0] == rdata[i]; }
      LowerFrontEnds(rdata[i..]);
      LowerNameEnds(out[..], rdata, start, i);
      if i >= out.Length || out[i] >= 64 {
        return None;
      }
      var l: int := out[i];
      if l == 0 {
        return Some(out[..]);
      }
      if i + 1 + l > out.Length {
        return None;
      }
      LowerLabel(out, start, i, l, rdata);
      i := i + 1 + l;
    }
  }

  /** Where the walk over a name ends. */
  lemma LowerFrontEnds(s: Text)
    ensures s == [] || s[0] >= 64 ==> LowerFront(s).None?
    ensures s != [] && 0 < s[0] < 64 && 1 + s[0] > |s| ==> LowerFront(s).None?
    ensures s != [] && s[0] == 0 ==> LowerFront(s) == Some(s) && NameLength(s) == Some(1)
  {}

  lemma LengthEnds(s: Text)
    ensures s == [] || s[0] >= 64 ==> NameLength(s).None?
    ensures s != [] && 0 < s[0] < 64 && 1 + s[0] > |s| ==> NameLength(s).None?
    ensures s != [] && s[0] == 0 ==> NameLength(s) == Some(1)
  {}

  lemma LowerNameEnds(out: Text, rdata: Text, start: nat, i: nat)
    requires start <= i <= |rdata| == |out|
    requires out[..start] == rdata[..start] && out[i..] == rdata[i..]
    requires LowerFront(rdata[start..]) == Prefixed(out[start..i], LowerFront(rdata[i..]))
    ensures LowerFront(rdata[i..]).None? ==> LowerName(rdata, start) == None
    ensures LowerFront(rdata[i..]) == Some(rdata[i..]) ==> LowerName(rdata, start) == Some(out)
  {
    hide LowerFront;
    assert out == out[..start] + (out[start..i] + out[i..]);
  }

  lemma PrefixedNothing(r: Option<Text>)
    ensures Prefixed([], r) == r
  {
    if r.Some? { assert [] + r.value == r.value; }
  }

  lemma SliceOf(s: Text, t: Text, i: nat, n: nat)
    requires i < n <= |s| == |t| && s[i..] == t[i..]
    ensures s[i + 1..n] == t[i + 1..n] && s[n..] == t[n..]
  {
    forall k | i <= k < |s| ensures s[k] == t[k] { assert s[i..][k - i] == t[i..][k - i]; }
  }

  method LowerLabel(out: array<byte>, start: nat, i: nat, l: nat, ghost rdata: Text)
    requires start <= i && i + 1 + l <= |rdata| == out.Length && 0 < l < 64 && out[i] == l
    requires out[..start] == rdata[..start] && out[i..] == rdata[i..]
    modifies out
    ensures out[..start] == rdata[..start] && out[i + 1 + l..] == rdata[i + 1 + l..]
    ensures Prefixed(old(out[start..i]), LowerFront(rdata[i..]))
         == Prefixed(out[start..i + 1 + l], LowerFront(rdata[i + 1 + l..]))
  {
    hide LowerFront, Prefixed;
    ghost var n := i + 1 + l;
    assert rdata[i] == rdata[i..][0] == out[i..][0];
    assert out[i + 1..n] == rdata[i + 1..n] && out[n..] == rdata[n..] by { SliceOf(out[..], rdata, i, n); }
    label before:
    LowerOctets(out, i + 1, i + 1 + l);
    assert out[..start] == out[..i + 1][..start] == old@before(out[..i + 1])[..start];
    assert out[start..i] == out[..i + 1][start..i] == old@before(out[..i + 1])[start..i];
    assert out[i] == out[..i + 1][i] == old@before(out[..i + 1])[i];
    PrefixedStep(rdata, out[..], start, i, l);
  }

  ghost function Prefixed(done: Text, rest: Option<Text>): Option<Text> {
    if rest.Some? then Some(done + rest.value) else None
  }

  lemma PrefixedStep(rdata: Text, out: Text, start: nat, i: nat, l: nat)
    requires start <= i && |out| == |rdata| && i + 1 + l <= |rdata|
    requires rdata[i] == out[i] == l && 0 < l < 64
    requires out[i + 1..i + 1 + l] == Lower(rdata[i + 1..i + 1 + l])
    ensures Prefixed(out[start..i], LowerFront(rdata[i..]))
         == Prefixed(out[start..i + 1 + l], LowerFront(rdata[i + 1 + l..]))
  {
    hide LowerFront, Lower;
    var s, body, tail := rdata[i..], rdata[i + 1..i + 1 + l], rdata[i + 1 + l..];
    assert s[0] == l && s[1..1 + l] == body && s[1 + l..] == tail;
    LowerStep(s, l, body, tail);
    assert out[start..i + 1 + l] == out[start..i] + ([l] + Lower(body));
    if LowerFront(tail).Some? {
      var rest := LowerFront(tail).value;
      assert out[start..i] + ([l] + Lower(body) + rest) == out[start..i + 1 + l] + rest;
    }
  }

  method LowerOctets(out: array<byte>, a: nat, b: nat)
    requires a <= b <= out.Length
    modifies out
    ensures out[..a] == old(out[..a]) && out[b..] == old(out[b..])
    ensures out[a..b] == Lower(old(out[a..b]))
  {
    for j := a to b
      invariant out[..a] == old(out[..a]) && out[j..] == old(out[j..])
      invariant forall k :: a <= k < j ==> out[k] == LowerByte(old(out[k]))
    {
      assert out[j] == out[j..][0] == old(out[j]);
      if 65 <= out[j] <= 90 {
        out[j] := out[j] + 32;
      }
    }
  }

  /** scanWireNameEnd from the front of rdata, the one place where it is used. */
  method ScanWireNameEnd(rdata: Text) returns (r: Option<nat>)
    ensures r == NameLength(rdata)
  {
    hide NameLength;
    var i: nat := 0;
    assert rdata[0..] == rdata;
    while true
      invariant i <= |rdata|
      invariant NameLength(rdata) == (match NameLength(rdata[i..]) case None => None case Some(n) => Some(i + n))
      decreases |rdata| - i
    {
      LengthEnds(rdata[i..]);
      if i >= |rdata| || rdata[i] >= 64 {
        return None;
      }
      var l: int := rdata[i];
      if l == 0 {
        return Some(i + 1);
      }
      if i + 1 + l > |rdata| {
        return None;
      }
      LengthStep(rdata[i..], l, rdata[i + 1 + l..]);
      i := i + 1 + l;
    }
  }

  /** canonicalRData */
  method CanonicalForm(rdata: Text, rtype: u16) returns (r: Text)
    ensures r == CanonicalRData(rdata, rtype)
  {
    hide LowerName, NameLength, ShapeOf;
    match ShapeOf(rtype) {
      case Raw =>
        return rdata;
      case OneName(pre, _) =>
        if |rdata| < pre + 1 {
          return rdata;
        }
        var out := LowercaseWireName(rdata, pre);
        return if out.None? then rdata else out.value;
      case TwoNames =>
        var out := LowercaseWireName(rdata, 0);
        if out.None? {
          return rdata;
        }
        var end := ScanWireNameEnd(out.value);
        if end.None? {
          return rdata;
        }
        var out2 := LowercaseWireName(out.value, end.value);
        return if out2.None? then out.value else out2.value;
    }
  }

  /** One record of canonicalRRSetWire. */
  method RecordWire(rr: RR, sig: Rrsig) returns (buf: Text)
    ensures buf == RecordBytes(rr, sig)
  {
    hide CanonicalRData, NameBytes, WildcardOwner, PutU16, PutU32;
    var rd := CanonicalForm(rr.rdata, sig.typeCovered);
    buf := NameBytes(WildcardOwner(rr.name, sig.labels))
    + (PutU16(rr.rtype) + PutU16(rr.class_) + PutU32(sig.origTtl) + PutU16(|rd| % 0x1_0000)) + rd;
  }

  /** canonicalRRSetWire: the loop over the set, the sort, the concatenation. */
  method CanonicalRRSetWire(rrset: seq<RR>, sig: Rrsig) returns (r: Text)
    ensures r == Concat(Sort(Wires(rrset, sig)))
  {
    hide RecordBytes, Sort, Wires;
    var wires: seq<Text> := [];
    NoWires(sig);
    assert rrset[..0] == [];
    for i := 0 to |rrset|
      invariant wires == Wires(rrset[..i], sig)
    {
      WiresConcat(rrset[..i], [rrset[i]], sig);
      OneWire(rrset[i], sig);
      assert rrset[..i + 1] == rrset[..i] + [rrset[i]];
      if rrset[i].rtype == sig.typeCovered {
        var wire := RecordWire(rrset[i], sig);
        wires := wires + [wire];
      }
    }
    assert rrset[..|rrset|] == rrset;
    wires := Sort(wires);
    r := AppendWires(wires);
  }

  lemma NoWires(sig: Rrsig)
    ensures Wires([], sig) == []
  {}

  lemma OneWire(rr: RR, sig: Rrsig)
    ensures Wires([rr], sig) == if rr.rtype == sig.typeCovered then [RecordBytes(rr, sig)] else []
  {
    hide RecordBytes;
    assert [rr][1..] == [];
  }

  method AppendWires(wires: seq<Text>) returns (r: Text)
    ensures r == Concat(wires)
  {
    r := [];
    assert wires[0..] == wires;
    for i := 0 to |wires|
      invariant Concat(wires) == r + Concat(wires[i..])
    {
      assert wires[i..][1..] == wires[i + 1..];
      r := r + wires[i];
    }
  }

  /** buildSignedData */
  method SignedOctets(rrset: seq<RR>, sig: Rrsig) returns (buf: Text)
    ensures buf == BuildSignedData(rrset, sig)
  {
    hide Sort, Wires, Concat, SigFields, NameBytes;
    var wire := CanonicalRRSetWire(rrset, sig);
    buf := SigFields(sig) + NameBytes(sig.signer) + wire;
  }
}
