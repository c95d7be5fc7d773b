/** Resource records on the wire (dns/wire.go packRData, dns/record.go UnpackRR). */
module Records {
  import opened Bytes
  import opened Labels
  import opened NameWire
  import opened Compression

  const TYPE_A: u16 := 1
  const TYPE_NS: u16 := 2
  const TYPE_CNAME: u16 := 5
  const TYPE_SOA: u16 := 6
  const TYPE_PTR: u16 := 12
  const TYPE_MX: u16 := 15
  const TYPE_AAAA: u16 := 28
  const TYPE_SRV: u16 := 33
  const TYPE_DNAME: u16 := 39
  const TYPE_OPT: u16 := 41
  const TYPE_DS: u16 := 43
  const TYPE_RRSIG: u16 := 46
  const TYPE_NSEC: u16 := 47
  const TYPE_DNSKEY: u16 := 48
  const TYPE_NSEC3: u16 := 50

  datatype RR = RR(name: Text, rtype: u16, class_: u16, ttl: u32, rdlength: u16, rdata: Text)

  /** Where the switch statements of packRData and UnpackRR see names in RDATA: after pre fixed
      octets with or without octets behind the name, or two names and 20 octets (SOA). */
  datatype Shape = Raw | OneName(pre: nat, tail: bool) | TwoNames

  function ShapeOf(rtype: u16): Shape {
    if rtype in {TYPE_NS, TYPE_CNAME, TYPE_PTR, TYPE_DNAME} then OneName(0, false)
    else if rtype == TYPE_MX then OneName(2, false)
    else if rtype == TYPE_SRV then OneName(6, false)
    else if rtype == TYPE_RRSIG then OneName(18, true)
    else if rtype == TYPE_NSEC then OneName(0, true)
    else if rtype == TYPE_SOA then TwoNames
    else Raw
  }

  // ---- packing ----

  /** The switch of packRData: names are decoded from RDATA and encoded again, compressed. */
  function WriteRData(w: W, rtype: u16, rdata: Text, cap: nat): (r: Result<W>)
    ensures r.Ok? ==> w.bytes <= r.value.bytes && |r.value.bytes| <= cap
  {
    match ShapeOf(rtype)
    case Raw => Put(w, rdata, cap)
    case OneName(pre, tail) =>
      if |rdata| < pre then Put(w, rdata, cap)
      else
        var w1 :- Put(w, rdata[..pre], cap);
        (match DecodeName(rdata, pre)
         case Err(_) => Put(w1, rdata[pre..], cap)
         case Ok((name, end)) =>
           var w2 :- EncodeName(w1, name, cap);
           if tail && end < |rdata| then Put(w2, rdata[end..], cap) else Ok(w2))
    case TwoNames =>
      match DecodeName(rdata, 0)
      case Err(_) => Put(w, rdata, cap)
      case Ok((mname, off1)) =>
        match DecodeName(rdata, off1)
        case Err(_) => Put(w, rdata, cap)
        case Ok((rname, off2)) =>
          DecodeNameBounds(rdata, off1);
          var w1 :- EncodeName(w, mname, cap);
          var w2 :- EncodeName(w1, rname, cap);
          Put(w2, rdata[off2..], cap)
  }

  function Patch(bytes: Text, at: nat, v: u16): Text
    requires at + 2 <= |bytes|
  {
    bytes[..at] + PutU16(v) + bytes[at + 2..]
  }

  /** packRData: RDLENGTH is reserved, RDATA written, then RDLENGTH patched in place. */
  function PackRData(w: W, rr: RR, cap: nat): (r: Result<W>)
    ensures r.Ok? ==> w.bytes <= r.value.bytes && |r.value.bytes| <= cap
  {
    var w1 :- Put(w, PutU16(0), cap);
    if rr.rdata == [] then Ok(w1)
    else
      var w2 :- WriteRData(w1, rr.rtype, rr.rdata, cap);
      assert w.bytes <= w2.bytes by { assert w2.bytes[..|w.bytes|] == w1.bytes[..|w.bytes|] == w.bytes; }
      Ok(w2.(bytes := Patch(w2.bytes, |w.bytes|, (|w2.bytes| - |w1.bytes|) % 0x1_0000)))
  }

  function Fixed(rr: RR): (r: Text)
    ensures |r| == 8
  {
    PutU16(rr.rtype) + PutU16(rr.class_) + PutU32(rr.ttl)
  }

  function PackRR(w: W, rr: RR, cap: nat): (r: Result<W>)
    ensures r.Ok? ==> w.bytes <= r.value.bytes && |r.value.bytes| <= cap
  {
    var w1 :- EncodeName(w, rr.name, cap);
    var w2 :- Put(w1, Fixed(rr), cap);
    PackRData(w2, rr, cap)
  }

  // ---- unpacking ----

  /** The switch of UnpackRR: names in RDATA are decompressed over the whole message. */
  function UnpackRData(msg: Text, start: nat, len: nat, rtype: u16): Text
    requires start + len <= |msg|
  {
    var raw := msg[start..start + len];
    match ShapeOf(rtype)
    case Raw => raw
    case OneName(pre, tail) =>
      if len < pre then raw
      else
        (match DecodeName(msg, start + pre)
         case Err(_) => raw
         case Ok((name, end)) =>
           if !tail then msg[start..start + pre] + PlainName(SplitLabels(name))
           else if end > start + len then raw
           else msg[start..start + pre] + PlainName(SplitLabels(name)) + msg[end..start + len])
    case TwoNames =>
      match DecodeName(msg, start)
      case Err(_) => raw
      case Ok((mname, off1)) =>
        match DecodeName(msg, off1)
        case Err(_) => raw
        case Ok((rname, off2)) =>
          if off2 + 20 > start + len then raw
          else PlainName(SplitLabels(mname)) + PlainName(SplitLabels(rname)) + msg[off2..off2 + 20]
  }

  function UnpackRR(msg: Text, off: nat): Result<(RR, nat)> {
    match DecodeName(msg, off)
    case Err(e) => Err(e)
    case Ok((name, o)) =>
      if |msg| - o < 10 then Err(Truncated)
      else
        var len := GetU16(msg, o + 8);
        if |msg| - (o + 10) < len then Err(Truncated)
        else
          var rtype := GetU16(msg, o);
          var rdata := UnpackRData(msg, o + 10, len, rtype);
          Ok((RR(name, rtype, GetU16(msg, o + 2), GetU32(msg, o + 4), |rdata| % 0x1_0000, rdata), o + 10 + len))
  }

  // ---- what the round trip is stated for ----

  /** RDATA holds a well-formed name at off, uncompressed. */
  predicate PlainAt(rdata: Text, off: nat) {
    match DecodeName(rdata, off)
    case Err(_) => false
    case Ok((name, end)) =>
      off < end <= |rdata| && WellFormedName(name) && rdata[off..end] == PlainName(SplitLabels(name))
  }

  function NameEnd(rdata: Text, off: nat): (end: nat)
    requires PlainAt(rdata, off)
    ensures off < end <= |rdata|
  {
    DecodeName(rdata, off).value.1
  }

  /** RDATA as the rest of the program keeps it: no compression pointers, nothing behind the
      name where the type has nothing there, 20 octets behind the names of an SOA. */
  predicate SelfContained(rtype: u16, rdata: Text) {
    match ShapeOf(rtype)
    case Raw => true
    case OneName(pre, tail) => PlainAt(rdata, pre) && (tail || NameEnd(rdata, pre) == |rdata|)
    case TwoNames =>
      PlainAt(rdata, 0) && PlainAt(rdata, NameEnd(rdata, 0))
      && NameEnd(rdata, NameEnd(rdata, 0)) + 20 == |rdata|
  }

  predicate WellFormedRR(rr: RR) {
    WellFormedName(rr.name) && |rr.rdata| < 0x1_0000 && SelfContained(rr.rtype, rr.rdata)
  }

  /** What unpacking returns for a packed record: the owner without a trailing dot and the
      length field filled in. */
  function Normal(rr: RR): RR {
    rr.(name := TrimDot(rr.name), rdlength := |rr.rdata| % 0x1_0000)
  }

  lemma SplitLabelsJoin(labels: seq<Text>)
    requires AllNonEmpty(labels) && AllDotFree(labels)
    ensures SplitLabels(Join(labels)) == labels
  {
    if labels != [] {
      SplitJoin(labels);
      JoinLength(labels);
      var t := Join(labels);
      if t[|t| - 1] == DOT { TrailingDot(t); }
    }
  }

  /** Writing a name that decodes from RDATA and reading it from the message gives the plain form. */
  lemma NameThroughMessage(w: W, name: Text, cap: nat, gap: Gap, msg: Text)
    requires TableOk(w, gap) && gap.hi <= |w.bytes|
    requires WellFormedName(name)
    requires EncodeName(w, name, cap).Ok?
    requires Keeps(EncodeName(w, name, cap).value.bytes, msg, gap)
    ensures var w' := EncodeName(w, name, cap).value;
            && TableOk(w', gap)
            && w.bytes <= w'.bytes
            && |w.bytes| < |w'.bytes| <= |w.bytes| + |PlainName(SplitLabels(name))|
            && DecodeName(msg, |w.bytes|) == Ok((TrimDot(name), |w'.bytes|))
            && SplitLabels(TrimDot(name)) == SplitLabels(name)
  {
    var w' := EncodeName(w, name, cap).value;
    var labels := SplitLabels(name);
    SplitLabelsFacts(name);
    var hops := EncodeNameSound(w, name, cap, gap);
    ReadBackDecodes(w, w', labels, hops, gap, msg);
    SplitLabelsJoin(labels);
    DecodeNameBounds(msg, |w.bytes|);
  }

  /** RDATA written behind the reserved length reads back unchanged, whatever is appended to
      the message or patched into the gap; compression never makes it longer. */
  lemma RDataRoundTrip(w: W, rtype: u16, rdata: Text, cap: nat, gap: Gap, msg: Text)
    requires TableOk(w, gap) && gap.hi <= |w.bytes|
    requires SelfContained(rtype, rdata)
    requires WriteRData(w, rtype, rdata, cap).Ok?
    requires Keeps(WriteRData(w, rtype, rdata, cap).value.bytes, msg, gap)
    ensures var w' := WriteRData(w, rtype, rdata, cap).value;
            && TableOk(w', gap)
            && |w'.bytes| <= |w.bytes| + |rdata|
            && UnpackRData(msg, |w.bytes|, |w'.bytes| - |w.bytes|, rtype) == rdata
  {
    var w' := WriteRData(w, rtype, rdata, cap).value;
    match ShapeOf(rtype)
    case Raw =>
      PutKeepsTable(w, w', rdata, gap);
      assert msg[|w.bytes|..|w'.bytes|] == rdata;
    case OneName(pre, tail) => OneNameRoundTrip(w, rtype, rdata, cap, gap, msg);
    case TwoNames => TwoNamesRoundTrip(w, rtype, rdata, cap, gap, msg);
  }

  lemma PutKeepsTable(w: W, w': W, data: Text, gap: Gap)
    requires TableOk(w, gap) && w' == w.(bytes := w.bytes + data)
    ensures TableOk(w', gap)
  {
    TableKept(w, w', gap);
  }

  /** Octets written after the gap are in the message. */
  lemma PutIsKept(head: Text, data: Text, rest: Text, msg: Text, gap: Gap)
    requires gap.hi <= |head|
    requires head + data <= rest && Keeps(rest, msg, gap)
    ensures |head| + |data| <= |msg| && msg[|head|..|head| + |data|] == data
  {
    forall i | 0 <= i < |data| ensures msg[|head|..|head| + |data|][i] == data[i] {
      assert msg[|head| + i] == rest[|head| + i] == (head + data)[|head| + i];
    }
  }

  lemma KeepsPrefix(head: Text, rest: Text, msg: Text, gap: Gap)
    requires head <= rest && Keeps(rest, msg, gap)
    ensures Keeps(head, msg, gap)
    ensures |rest| <= |msg|
  {}

  lemma OneNameWrites(w: W, rtype: u16, rdata: Text, cap: nat, w1: W)
    requires ShapeOf(rtype).OneName? && SelfContained(rtype, rdata)
    requires w1 == w.(bytes := w.bytes + rdata[..ShapeOf(rtype).pre])
    requires WriteRData(w, rtype, rdata, cap).Ok?
    ensures var (name, end) := DecodeName(rdata, ShapeOf(rtype).pre).value;
            var e := EncodeName(w1, name, cap);
            e.Ok? && WriteRData(w, rtype, rdata, cap).value == e.value.(bytes := e.value.bytes + rdata[end..])
  {
    hide EncodeName, DecodeName, WellFormedName, PlainName, ShapeOf;
    var (name, end) := DecodeName(rdata, ShapeOf(rtype).pre).value;
    if end == |rdata| {
      var w2 := EncodeName(w1, name, cap).value;
      assert w2.bytes + rdata[end..] == w2.bytes;
    }
  }

  lemma OneNameReads(msg: Text, start: nat, len: nat, rtype: u16, rdata: Text, t: Text, e: nat)
    requires ShapeOf(rtype).OneName? && SelfContained(rtype, rdata)
    requires var pre := ShapeOf(rtype).pre;
             var end := NameEnd(rdata, pre);
             && start + pre <= e <= start + len <= |msg|
             && start + len - e == |rdata| - end
             && DecodeName(msg, start + pre) == Ok((t, e))
             && PlainName(SplitLabels(t)) == rdata[pre..end]
             && msg[start..start + pre] == rdata[..pre]
             && msg[e..start + len] == rdata[end..]
    ensures UnpackRData(msg, start, len, rtype) == rdata
  {
    hide DecodeName, WellFormedName, PlainName, ShapeOf, SplitLabels;
    var pre := ShapeOf(rtype).pre;
    assert rdata == rdata[..pre] + rdata[pre..NameEnd(rdata, pre)] + rdata[NameEnd(rdata, pre)..];
  }

  lemma OneNameRoundTrip(w: W, rtype: u16, rdata: Text, cap: nat, gap: Gap, msg: Text)
    requires TableOk(w, gap) && gap.hi <= |w.bytes|
    requires ShapeOf(rtype).OneName? && SelfContained(rtype, rdata)
    requires WriteRData(w, rtype, rdata, cap).Ok?
    requires Keeps(WriteRData(w, rtype, rdata, cap).value.bytes, msg, gap)
    ensures var w' := WriteRData(w, rtype, rdata, cap).value;
            && TableOk(w', gap)
            && |w'.bytes| <= |w.bytes| + |rdata|
            && UnpackRData(msg, |w.bytes|, |w'.bytes| - |w.bytes|, rtype) == rdata
  {
    hide WriteRData, UnpackRData, EncodeName, DecodeName, TableOk, WellFormedName, PlainName, Keeps, SplitLabels,
      TrimDot, ShapeOf;
    var w' := WriteRData(w, rtype, rdata, cap).value;
    var pre := ShapeOf(rtype).pre;
    var (name, end) := DecodeName(rdata, pre).value;
    var w1 := w.(bytes := w.bytes + rdata[..pre]);
    OneNameWrites(w, rtype, rdata, cap, w1);
    var w2 := EncodeName(w1, name, cap).value;
    PutKeepsTable(w, w1, rdata[..pre], gap);
    KeepsPrefix(w2.bytes, w'.bytes, msg, gap);
    NameThroughMessage(w1, name, cap, gap, msg);
    PutKeepsTable(w2, w', rdata[end..], gap);
    KeepsPrefix(w1.bytes, w2.bytes, msg, gap);
    PutIsKept(w.bytes, rdata[..pre], w1.bytes, msg, gap);
    PutIsKept(w2.bytes, rdata[end..], w'.bytes, msg, gap);
    OneNameReads(msg, |w.bytes|, |w'.bytes| - |w.bytes|, rtype, rdata, TrimDot(name), |w2.bytes|);
  }

  lemma TwoNamesRoundTrip(w: W, rtype: u16, rdata: Text, cap: nat, gap: Gap, msg: Text)
    requires TableOk(w, gap) && gap.hi <= |w.bytes|
    requires ShapeOf(rtype).TwoNames? && SelfContained(rtype, rdata)
    requires WriteRData(w, rtype, rdata, cap).Ok?
    requires Keeps(WriteRData(w, rtype, rdata, cap).value.bytes, msg, gap)
    ensures var w' := WriteRData(w, rtype, rdata, cap).value;
            && TableOk(w', gap)
            && |w'.bytes| <= |w.bytes| + |rdata|
            && UnpackRData(msg, |w.bytes|, |w'.bytes| - |w.bytes|, rtype) == rdata
  {
    hide EncodeName, DecodeName, TableOk, WellFormedName, PlainName, Keeps, SplitLabels, TrimDot, ShapeOf;
    var w' := WriteRData(w, rtype, rdata, cap).value;
    var (mname, off1) := DecodeName(rdata, 0).value;
    var (rname, off2) := DecodeName(rdata, off1).value;
    var w1 := EncodeName(w, mname, cap).value;
    var w2 := EncodeName(w1, rname, cap).value;
    assert rdata == rdata[..off1] + rdata[off1..off2] + rdata[off2..];
    assert w'.bytes == w2.bytes + rdata[off2..];
    KeepsPrefix(w2.bytes, w'.bytes, msg, gap);
    KeepsPrefix(w1.bytes, w2.bytes, msg, gap);
    NameThroughMessage(w, mname, cap, gap, msg);
    NameThroughMessage(w1, rname, cap, gap, msg);
    PutKeepsTable(w2, w', rdata[off2..], gap);
    PutIsKept(w2.bytes, rdata[off2..], w'.bytes, msg, gap);
  }

  /** Octets that are not written yet are clear of every recorded name. */
  lemma {:induction false} NameAtFutureGap(msg: Text, off: nat, labels: seq<Text>, hops: nat, gap: Gap)
    requires NameAt(msg, off, labels, hops, NO_GAP) && |msg| <= gap.lo
    ensures NameAt(msg, off, labels, hops, gap)
    decreases hops, |labels|
  {
    match ItemAt(msg, off)
    case Terminator =>
    case Pointer(target) => NameAtFutureGap(msg, target, labels, hops - 1, gap);
    case Label(_, next) => NameAtFutureGap(msg, next, labels[1..], hops, gap);
  }

  lemma OpenGap(w: W, gap: Gap)
    requires TableOk(w, NO_GAP) && |w.bytes| <= gap.lo
    ensures TableOk(w, gap)
  {
    forall k | k in w.table ensures Recorded(w.bytes, w.table[k], Split(k), gap) {
      assert Recorded(w.bytes, w.table[k], Split(k), NO_GAP);
      var hops: nat :| hops < |Split(k)| && NameAt(w.bytes, w.table[k], Split(k), hops, NO_GAP);
      NameAtFutureGap(w.bytes, w.table[k], Split(k), hops, gap);
    }
  }

  lemma CloseGap(w: W, gap: Gap)
    requires TableOk(w, gap)
    ensures TableOk(w, NO_GAP)
  {
    forall k | k in w.table ensures Recorded(w.bytes, w.table[k], Split(k), NO_GAP) {
      assert Recorded(w.bytes, w.table[k], Split(k), gap);
      var hops: nat :| hops < |Split(k)| && NameAt(w.bytes, w.table[k], Split(k), hops, gap);
      NameAtForgetGap(w.bytes, w.table[k], Split(k), hops, gap);
    }
  }

  lemma EmptyRData(rtype: u16, msg: Text, start: nat)
    requires SelfContained(rtype, []) && start <= |msg|
    ensures UnpackRData(msg, start, 0, rtype) == []
  {}

  /** packRData with its back-patch: the length field holds the octets written after it, the
      RDATA reads back, and no recorded name is disturbed by the patch. */
  lemma PackRDataRoundTrip(w: W, rr: RR, cap: nat, msg: Text)
    requires TableOk(w, NO_GAP) && WellFormedRR(rr)
    requires PackRData(w, rr, cap).Ok?
    requires PackRData(w, rr, cap).value.bytes <= msg
    ensures var w' := PackRData(w, rr, cap).value;
            && TableOk(w', NO_GAP)
            && |w.bytes| + 2 <= |w'.bytes| <= |w.bytes| + 2 + |rr.rdata|
            && GetU16(msg, |w.bytes|) == |w'.bytes| - |w.bytes| - 2
            && UnpackRData(msg, |w.bytes| + 2, |w'.bytes| - |w.bytes| - 2, rr.rtype) == rr.rdata
  {
    hide WriteRData, UnpackRData, TableOk, SelfContained, WellFormedName;
    var w' := PackRData(w, rr, cap).value;
    var at := |w.bytes|;
    var w1 := w.(bytes := w.bytes + PutU16(0));
    assert msg[at] == w'.bytes[at] && msg[at + 1] == w'.bytes[at + 1];
    if rr.rdata == [] {
      PutKeepsTable(w, w', PutU16(0), NO_GAP);
      EmptyRData(rr.rtype, msg, at + 2);
    } else {
      var gap := Gap(at, at + 2);
      OpenGap(w, gap);
      PutKeepsTable(w, w1, PutU16(0), gap);
      var w2 := WriteRData(w1, rr.rtype, rr.rdata, cap).value;
      assert Keeps(w2.bytes, w'.bytes, gap);
      assert Keeps(w2.bytes, msg, gap);
      RDataRoundTrip(w1, rr.rtype, rr.rdata, cap, gap, msg);
      TableKept(w2, w', gap);
      CloseGap(w', gap);
    }
  }

  /** A packed record unpacks to itself, from the same place to the same place. */
  lemma RRRoundTrip(w: W, rr: RR, cap: nat, msg: Text)
    requires TableOk(w, NO_GAP) && WellFormedRR(rr)
    requires PackRR(w, rr, cap).Ok?
    requires PackRR(w, rr, cap).value.bytes <= msg
    ensures TableOk(PackRR(w, rr, cap).value, NO_GAP)
    ensures UnpackRR(msg, |w.bytes|) == Ok((Normal(rr), |PackRR(w, rr, cap).value.bytes|))
  {
    hide EncodeName, PackRData, UnpackRData, DecodeName, TableOk, WellFormedName, SelfContained, Keeps, SplitLabels;
    hide PlainName, PutU32, GetU32, GetU16, PutU16;
    var w1 := EncodeName(w, rr.name, cap).value;
    var w2 := w1.(bytes := w1.bytes + Fixed(rr));
    var w' := PackRData(w2, rr, cap).value;
    assert w2.bytes <= msg by { assert msg[..|w2.bytes|] == w'.bytes[..|w2.bytes|] == w2.bytes; }
    assert w1.bytes <= msg by { assert msg[..|w1.bytes|] == w2.bytes[..|w1.bytes|] == w1.bytes; }
    NameThroughMessage(w, rr.name, cap, NO_GAP, msg);
    PutKeepsTable(w1, w2, Fixed(rr), NO_GAP);
    PackRDataRoundTrip(w2, rr, cap, msg);
    FixedReadsBack(w1.bytes, rr, msg);
  }

  lemma FixedReadsBack(head: Text, rr: RR, msg: Text)
    requires head + Fixed(rr) <= msg
    ensures GetU16(msg, |head|) == rr.rtype
    ensures GetU16(msg, |head| + 2) == rr.class_
    ensures GetU32(msg, |head| + 4) == rr.ttl
  {
    var all := head + Fixed(rr);
    forall i | 0 <= i < 8 ensures msg[|head| + i] == Fixed(rr)[i] {
      assert msg[|head| + i] == all[|head| + i];
    }
  }
}
