/** The wire formats by octet position: sections 3.3 and 4.1 of RFC 1035, section 6.1 of RFC 6891.
    The reader is described here without the functions that the writer shares with it; what the
    writer does follows by the round trips. */
module Layouts {
  import opened Bytes
  import opened Labels
  import opened NameWire
  import opened Compression
  import opened Records
  import opened Edns
  import opened Messages

  /** Octets as a number, the most significant first. */
  function Number(s: Text): nat {
    if s == [] then 0 else Number(s[..|s| - 1]) * 256 + s[|s| - 1]
  }

  lemma NumberOfTwo(a: byte, b: byte)
    ensures Number([a, b]) == a * 256 + b
  {
    var s: Text := [a, b];
    var t: Text := [a];
    assert s[..1] == t && t[..0] == [];
    assert Number(t) == a;
  }

  lemma NumberOfFour(a: byte, b: byte, c: byte, d: byte)
    ensures Number([a, b, c, d]) == ((a * 256 + b) * 256 + c) * 256 + d
  {
    var s, t: Text := [a, b, c, d], [a, b, c];
    assert s[..3] == t && t[..2] == [a, b];
    NumberOfTwo(a, b);
  }

  /** Written and read integers are big-endian. */
  lemma BigEndian16(v: u16, s: Text, at: nat)
    ensures Number(PutU16(v)) == v
    ensures at + 2 <= |s| ==> GetU16(s, at) == Number(s[at..at + 2])
  {
    NumberOfTwo(v / 256, v % 256);
    if at + 2 <= |s| {
      assert s[at..at + 2] == [s[at], s[at + 1]];
      NumberOfTwo(s[at], s[at + 1]);
    }
  }

  lemma BigEndian32(v: u32, s: Text, at: nat)
    ensures Number(PutU32(v)) == v
    ensures at + 4 <= |s| ==> GetU32(s, at) == Number(s[at..at + 4])
  {
    var hi, lo := v / 0x1_0000, v % 0x1_0000;
    assert PutU32(v) == [hi / 256, hi % 256, lo / 256, lo % 256];
    NumberOfFour(hi / 256, hi % 256, lo / 256, lo % 256);
    if at + 4 <= |s| {
      assert s[at..at + 4] == [s[at], s[at + 1], s[at + 2], s[at + 3]];
      NumberOfFour(s[at], s[at + 1], s[at + 2], s[at + 3]);
    }
  }

  // ---- names ----

  /** The target of a pointer: the low 14 bits of its two octets. */
  function TargetAt(msg: Text, off: nat): nat
    requires off + 1 < |msg| && msg[off] >= 192
  {
    Number([msg[off] - 192, msg[off + 1]])
  }

  /** Section 4.1.4 of RFC 1035: a name is a zero octet, a label behind its length and a name, or
      a pointer to a name further up. */
  lemma NameByOctets(msg: Text, off: nat, labels: seq<Text>, hops: nat)
    ensures NameAt(msg, off, labels, hops, NO_GAP)
       <==> && off < |msg|
            && (|| (msg[off] == 0 && labels == [] && hops == 0)
                || (&& 1 <= msg[off] <= 63 && off + 1 + msg[off] <= |msg|
                    && labels != [] && labels[0] == msg[off + 1..off + 1 + msg[off]]
                    && NameAt(msg, off + 1 + msg[off], labels[1..], hops, NO_GAP))
                || (&& msg[off] >= 192 && off + 1 < |msg| && hops > 0 && TargetAt(msg, off) < off
                    && NameAt(msg, TargetAt(msg, off), labels, hops - 1, NO_GAP)))
  {
    if off + 1 < |msg| && msg[off] >= 192 { NumberOfTwo(msg[off] - 192, msg[off + 1]); }
  }

  predicate WireLabels(ls: seq<Text>) {
    forall i :: 0 <= i < |ls| ==> 1 <= |ls[i]| <= 63
  }

  lemma LabelStep(msg: Text, off: nat, l: Text, rest: seq<Text>)
    requires 1 <= |l| <= 63 && off + 1 + |l| <= |msg|
    requires msg[off] == |l| && msg[off + 1..off + 1 + |l|] == l
    requires NameAt(msg, off + 1 + |l|, rest, 0, NO_GAP)
    ensures NameAt(msg, off, [l] + rest, 0, NO_GAP) && Extent(msg, off) == Extent(msg, off + 1 + |l|)
  {
    assert ([l] + rest)[1..] == rest;
  }

  lemma PlainParts(msg: Text, off: nat, l: Text, tail: Text)
    requires off + 1 + |l| + |tail| <= |msg| && |l| <= 63
    requires msg[off..off + 1 + |l| + |tail|] == [|l|] + l + tail
    ensures msg[off] == |l| && msg[off + 1..off + 1 + |l|] == l
    ensures msg[off + 1 + |l|..off + 1 + |l| + |tail|] == tail
  {
    var n := 1 + |l| + |tail|;
    var s := msg[off..off + n];
    assert s[0] == |l| && s[1..1 + |l|] == l && s[1 + |l|..n] == tail;
    SliceOf(msg, off, n, 1, 1 + |l|);
    SliceOf(msg, off, n, 1 + |l|, n);
  }

  lemma SliceOf(s: Text, off: nat, n: nat, a: nat, b: nat)
    requires a <= b <= n && off + n <= |s|
    ensures s[off..off + n][a..b] == s[off + a..off + b]
  {
    var t := s[off..off + n];
    forall i | 0 <= i < b - a ensures t[a..b][i] == s[off + a..off + b][i] { assert t[a + i] == s[off + a + i]; }
    assert t[a..b] == s[off + a..off + b];
  }

  lemma RootIsName(msg: Text, off: nat)
    requires off < |msg| && msg[off] == 0
    ensures NameAt(msg, off, [], 0, NO_GAP) && Extent(msg, off) == off + 1
  {}

  /** The plain form of labels is such a name, without pointers. */
  lemma {:induction false} PlainIsName(msg: Text, off: nat, ls: seq<Text>)
    requires WireLabels(ls) && off + |PlainName(ls)| <= |msg| && msg[off..off + |PlainName(ls)|] == PlainName(ls)
    ensures NameAt(msg, off, ls, 0, NO_GAP) && Extent(msg, off) == off + |PlainName(ls)|
    decreases |ls|
  {
    hide NameAt, Extent;
    if ls == [] {
      assert msg[off..off + 1][0] == 0;
      RootIsName(msg, off);
    } else {
      var l, rest := ls[0], ls[1..];
      var tail := PlainName(rest);
      assert PlainName(ls) == [|l|] + l + tail;
      PlainParts(msg, off, l, tail);
      hide PlainName;
      PlainIsName(msg, off + 1 + |l|, rest);
      LabelStep(msg, off, l, rest);
      assert ls == [l] + rest;
    }
  }

  /** So it decodes to its labels, unless they are too many. */
  lemma PlainDecodes(head: Text, ls: seq<Text>, post: Text)
    requires WireLabels(ls) && |Join(ls)| <= 255
    ensures DecodeName(head + PlainName(ls) + post, |head|) == Ok((Join(ls), |head| + |PlainName(ls)|))
  {
    hide DecodeName, PlainName, NameAt, Extent, Join;
    var msg := head + PlainName(ls) + post;
    assert msg[|head|..|head| + |PlainName(ls)|] == PlainName(ls);
    PlainIsName(msg, |head|, ls);
    DecodeNameOf(msg, |head|, ls, 0);
  }

  /** What is no name at its first octet is refused for that: past the end, a reserved length, a
      label or pointer that is cut off, or a pointer that does not point further up. */
  lemma NoNameAt(msg: Text, off: nat)
    ensures off >= |msg| ==> DecodeName(msg, off) == Err(Truncated)
    ensures off < |msg| && 64 <= msg[off] < 192 ==> DecodeName(msg, off) == Err(LabelTooLong)
    ensures off < |msg| && 1 <= msg[off] <= 63 && off + 1 + msg[off] > |msg| ==> DecodeName(msg, off) == Err(Truncated)
    ensures off + 1 == |msg| && msg[off] >= 192 ==> DecodeName(msg, off) == Err(Truncated)
    ensures off + 1 < |msg| && msg[off] >= 192 && TargetAt(msg, off) >= off ==>
              DecodeName(msg, off) == Err(PointerForward)
  {
    if off + 1 < |msg| && msg[off] >= 192 { NumberOfTwo(msg[off] - 192, msg[off + 1]); }
  }

  // ---- header, questions and records ----

  ghost predicate HeaderIs(msg: Text, h: Header)
    requires |msg| >= 12
  {
    && h.id == Number(msg[0..2]) && h.flags == Number(msg[2..4]) && h.qdCount == Number(msg[4..6])
    && h.anCount == Number(msg[6..8]) && h.nsCount == Number(msg[8..10]) && h.arCount == Number(msg[10..12])
  }

  lemma HeaderLayout(msg: Text)
    requires |msg| >= 12
    ensures HeaderIs(msg, GetHeader(msg))
  {
    hide Number, GetU16;
    BigEndian16(0, msg, 0);
    BigEndian16(0, msg, 2);
    BigEndian16(0, msg, 4);
    BigEndian16(0, msg, 6);
    BigEndian16(0, msg, 8);
    BigEndian16(0, msg, 10);
  }

  /** A question is a name, a type and a class. */
  lemma QuestionLayout(msg: Text, off: nat, q: Question, end: nat)
    ensures UnpackQuestion(msg, off) == Ok((q, end))
       <==> && end >= 4 && end <= |msg| && DecodeName(msg, off) == Ok((q.name, end - 4))
            && q.qtype == Number(msg[end - 4..end - 2]) && q.qclass == Number(msg[end - 2..end])
  {
    hide Number, GetU16, DecodeName;
    if DecodeName(msg, off).Ok? {
      var o := DecodeName(msg, off).value.1;
      if |msg| - o >= 4 {
        BigEndian16(0, msg, o);
        BigEndian16(0, msg, o + 2);
      }
    }
  }

  /** A record is a name, type, class, TTL, the length of its RDATA, and that RDATA. */
  lemma RecordLayout(msg: Text, off: nat, rr: RR, end: nat)
    ensures UnpackRR(msg, off) == Ok((rr, end))
       <==> && DecodeName(msg, off).Ok?
            && var (name, o) := DecodeName(msg, off).value;
               && rr.name == name && o + 10 <= end <= |msg|
               && rr.rtype == Number(msg[o..o + 2]) && rr.class_ == Number(msg[o + 2..o + 4])
               && rr.ttl == Number(msg[o + 4..o + 8]) && end - (o + 10) == Number(msg[o + 8..o + 10])
               && rr.rdata == UnpackRData(msg, o + 10, end - (o + 10), rr.rtype)
               && rr.rdlength == |rr.rdata| % 0x1_0000
  {
    hide Number, GetU16, GetU32, DecodeName, UnpackRData;
    if DecodeName(msg, off).Ok? {
      var o := DecodeName(msg, off).value.1;
      if |msg| - o >= 10 {
        BigEndian16(0, msg, o);
        BigEndian16(0, msg, o + 2);
        BigEndian32(0, msg, o + 4);
        BigEndian16(0, msg, o + 8);
      }
    }
  }

  // ---- RDATA ----

  /** The types whose RDATA holds one name, by number, with the octets in front of it. */
  function Before(rtype: u16): Option<nat> {
    if rtype in {2, 5, 12, 39, 47} then Some(0)
    else if rtype == 15 then Some(2)
    else if rtype == 33 then Some(6)
    else if rtype == 46 then Some(18)
    else None
  }

  /** RDATA that is read from a message is self-contained: the one name of NS (2), CNAME (5),
      PTR (12), MX (15), SRV (33), DNAME (39), RRSIG (46) and NSEC (47) is replaced by its plain
      form, with the octets in front of it and, for the last two, those behind it. */
  lemma OneNameLayout(msg: Text, start: nat, len: nat, rtype: u16, name: Text, end: nat)
    requires start + len <= |msg| && Before(rtype).Some? && Before(rtype).value <= len
    requires DecodeName(msg, start + Before(rtype).value) == Ok((name, end))
    ensures var plain := msg[start..start + Before(rtype).value] + PlainName(SplitLabels(name));
            && (rtype !in {46, 47} ==> UnpackRData(msg, start, len, rtype) == plain)
            && (rtype in {46, 47} ==>
                  UnpackRData(msg, start, len, rtype)
                  == if end <= start + len then plain + msg[end..start + len] else msg[start..start + len])
  {
    hide DecodeName, PlainName, SplitLabels;
  }

  /** In an SOA (6) both names are, in front of its five numbers. */
  lemma TwoNamesLayout(msg: Text, start: nat, len: nat, mname: Text, off: nat, rname: Text, end: nat)
    requires start + len <= |msg|
    requires DecodeName(msg, start) == Ok((mname, off)) && DecodeName(msg, off) == Ok((rname, end))
    ensures UnpackRData(msg, start, len, 6)
         == if end + 20 <= start + len
            then PlainName(SplitLabels(mname)) + PlainName(SplitLabels(rname)) + msg[end..end + 20]
            else msg[start..start + len]
  {
    hide DecodeName, PlainName, SplitLabels;
  }

  /** All other RDATA, and RDATA in which such a name does not decode, is copied. */
  lemma RawLayout(msg: Text, start: nat, len: nat, rtype: u16)
    requires start + len <= |msg|
    requires match Before(rtype)
             case Some(pre) => len < pre || DecodeName(msg, start + pre).Err?
             case None =>
               rtype == 6 ==> DecodeName(msg, start).Err? || DecodeName(msg, DecodeName(msg, start).value.1).Err?
    ensures UnpackRData(msg, start, len, rtype) == msg[start..start + len]
  {
    hide DecodeName, PlainName, SplitLabels;
  }

  /** Written, such a name goes through the encoder between the octets in front of it and, for RRSIG
      and NSEC, those behind it; for the other types nothing follows it. */
  lemma OneNameWritten(w: W, rtype: u16, rdata: Text, cap: nat, name: Text, end: nat)
    requires Before(rtype).Some? && Before(rtype).value <= |rdata|
    requires DecodeName(rdata, Before(rtype).value) == Ok((name, end)) && end <= |rdata|
    requires WriteRData(w, rtype, rdata, cap).Ok?
    ensures var w1 := w.(bytes := w.bytes + rdata[..Before(rtype).value]);
            && EncodeName(w1, name, cap).Ok?
            && var w2 := EncodeName(w1, name, cap).value;
               WriteRData(w, rtype, rdata, cap).value
               == if rtype in {46, 47} then w2.(bytes := w2.bytes + rdata[end..]) else w2
  {
    hide DecodeName, EncodeName;
    var w1 := w.(bytes := w.bytes + rdata[..Before(rtype).value]);
    var w2 := EncodeName(w1, name, cap).value;
    if end == |rdata| { assert w2.bytes + rdata[end..] == w2.bytes; }
  }

  /** RDATA without names, or with one that does not decode, is written as it is. */
  lemma RawWritten(w: W, rtype: u16, rdata: Text, cap: nat)
    requires match Before(rtype)
             case Some(pre) => |rdata| < pre || DecodeName(rdata, pre).Err?
             case None =>
               rtype == 6 ==> DecodeName(rdata, 0).Err? || DecodeName(rdata, DecodeName(rdata, 0).value.1).Err?
    requires WriteRData(w, rtype, rdata, cap).Ok?
    ensures WriteRData(w, rtype, rdata, cap).value == w.(bytes := w.bytes + rdata)
  {
    hide DecodeName, EncodeName;
    if Before(rtype).Some? && Before(rtype).value <= |rdata| {
      var pre := Before(rtype).value;
      assert w.bytes + rdata[..pre] + rdata[pre..] == w.bytes + rdata;
    }
  }

  // ---- whole messages ----

  /** The questions follow each other from off to end. */
  ghost predicate QuestionsAt(msg: Text, off: nat, qs: seq<Question>, end: nat)
    decreases |qs|
  {
    if qs == [] then end == off
    else exists next: nat :: UnpackQuestion(msg, off) == Ok((qs[0], next)) && QuestionsAt(msg, next, qs[1..], end)
  }

  ghost predicate RecordsAt(msg: Text, off: nat, rrs: seq<RR>, end: nat)
    decreases |rrs|
  {
    if rrs == [] then end == off
    else exists next: nat :: UnpackRR(msg, off) == Ok((rrs[0], next)) && RecordsAt(msg, next, rrs[1..], end)
  }

  lemma {:induction false} QuestionsInOrder(msg: Text, off: nat, n: nat, qs: seq<Question>, end: nat)
    ensures UnpackQuestions(msg, off, n) == Ok((qs, end)) <==> |qs| == n && QuestionsAt(msg, off, qs, end)
    decreases n
  {
    hide UnpackQuestion;
    if n > 0 && UnpackQuestion(msg, off).Ok? {
      var next := UnpackQuestion(msg, off).value.1;
      if qs != [] {
        QuestionsInOrder(msg, next, n - 1, qs[1..], end);
        assert qs == [qs[0]] + qs[1..];
      }
      if UnpackQuestions(msg, off, n) == Ok((qs, end)) {
        assert qs[1..] == UnpackQuestions(msg, next, n - 1).value.0;
      }
    }
  }

  lemma {:induction false} RecordsInOrder(msg: Text, off: nat, n: nat, rrs: seq<RR>, end: nat)
    ensures UnpackRRs(msg, off, n) == Ok((rrs, end)) <==> |rrs| == n && RecordsAt(msg, off, rrs, end)
    decreases n
  {
    hide UnpackRR;
    if n > 0 && UnpackRR(msg, off).Ok? {
      var next := UnpackRR(msg, off).value.1;
      if rrs != [] {
        RecordsInOrder(msg, next, n - 1, rrs[1..], end);
        assert rrs == [rrs[0]] + rrs[1..];
      }
      if UnpackRRs(msg, off, n) == Ok((rrs, end)) {
        assert rrs[1..] == UnpackRRs(msg, next, n - 1).value.0;
      }
    }
  }

  /** The four sections follow the header in the order questions, answers, authority, additional,
      as many of each as the header says. */
  ghost predicate SectionsAt(msg: Text, m: Message) {
    exists a: nat, b: nat, c: nat, d: nat ::
      && QuestionsAt(msg, 12, m.questions, a) && RecordsAt(msg, a, m.answers, b)
      && RecordsAt(msg, b, m.authority, c) && RecordsAt(msg, c, m.additional, d)
  }

  ghost predicate CountsAre(m: Message) {
    && |m.questions| == m.header.qdCount && |m.answers| == m.header.anCount
    && |m.authority| == m.header.nsCount && |m.additional| == m.header.arCount
  }

  /** The EDNS data is that of the first OPT record (41) of the additional section. */
  ghost predicate EdnsIs(m: Message) {
    && (m.edns.None? <==> forall rr :: rr in m.additional ==> rr.rtype != 41)
    && (m.edns.Some? ==>
          exists i :: 0 <= i < |m.additional| && m.additional[i].rtype == 41
                      && (forall j :: 0 <= j < i ==> m.additional[j].rtype != 41)
                      && m.additional[i].rdlength <= |m.additional[i].rdata|
                      && m.edns == ParseOPT(m.additional[i]))
  }

  lemma {:induction false} FirstOptIs(rrs: seq<RR>)
    requires forall i :: 0 <= i < |rrs| ==> rrs[i].rdlength <= |rrs[i].rdata|
    ensures FirstOpt(rrs).None? <==> forall rr :: rr in rrs ==> rr.rtype != 41
    ensures FirstOpt(rrs).Some? ==>
              exists i :: 0 <= i < |rrs| && rrs[i].rtype == 41 && (forall j :: 0 <= j < i ==> rrs[j].rtype != 41)
                          && FirstOpt(rrs) == ParseOPT(rrs[i])
  {
    hide ParseOptions;
    if rrs != [] && rrs[0].rtype != TYPE_OPT {
      var rest := rrs[1..];
      FirstOptIs(rest);
      assert forall rr :: rr in rrs <==> rr == rrs[0] || rr in rest;
      if FirstOpt(rest).Some? {
        var i :| 0 <= i < |rest| && rest[i].rtype == 41 && (forall j :: 0 <= j < i ==> rest[j].rtype != 41)
                 && FirstOpt(rest) == ParseOPT(rest[i]);
        assert rrs[i + 1] == rest[i];
        assert forall j :: 0 < j < i + 1 ==> rrs[j] == rest[j - 1];
      }
    } else if rrs != [] {
      assert rrs[0] in rrs;
    }
  }

  /** Every message that is read is read by this plan. */
  lemma UnpackLayout(msg: Text, m: Message)
    requires Unpack(msg) == Ok(m)
    ensures |msg| >= 12 && HeaderIs(msg, m.header) && CountsAre(m) && SectionsAt(msg, m) && EdnsIs(m)
  {
    hide UnpackQuestions, UnpackRRs, GetHeader, FirstOpt, HeaderIs, QuestionsAt, RecordsAt, ParseOPT;
    HeaderLayout(msg);
    var h := GetHeader(msg);
    var (qs, a) := UnpackQuestions(msg, 12, h.qdCount).value;
    var (an, b) := UnpackRRs(msg, a, h.anCount).value;
    var (ns, c) := UnpackRRs(msg, b, h.nsCount).value;
    var (ar, d) := UnpackRRs(msg, c, h.arCount).value;
    QuestionsInOrder(msg, 12, h.qdCount, qs, a);
    RecordsInOrder(msg, a, h.anCount, an, b);
    RecordsInOrder(msg, b, h.nsCount, ns, c);
    RecordsInOrder(msg, c, h.arCount, ar, d);
    UnpackedLengths(msg, c, h.arCount);
    FirstOptIs(ar);
  }

  // ---- EDNS ----

  /** Class and TTL of an OPT record hold the payload size, the extended RCODE, the version and,
      as the highest bit of the lower half, the DO flag; its RDATA is code, length and data of each
      option. */
  lemma OptLayout(rr: RR)
    requires rr.rdlength <= |rr.rdata|
    ensures ParseOPT(rr).Some? <==> rr.rtype == 41
    ensures rr.rtype == 41 ==>
              var e, t := ParseOPT(rr).value, PutU32(rr.ttl);
              && e.udpSize == rr.class_ && e.extRcode == t[0] && e.version == t[1] && (e.doFlag <==> t[2] >= 128)
              && e.options == ParseOptions(rr.rdata, 0, rr.rdlength)
  {
    hide ParseOptions;
    HighBit(rr.ttl);
  }

  /** The record that is built is at the root, with the size, no extended RCODE, version 0, the DO
      flag and no other flag, and the options as RDATA. */
  lemma OptBuilt(udpSize: u16, doFlag: bool, os: seq<EdnsOption>)
    ensures var rr := OptWith(udpSize, doFlag, os);
            && rr.name == [] && rr.rtype == 41 && rr.class_ == udpSize && rr.rdata == OptionsBytes(os)
            && PutU32(rr.ttl) == [0, 0, if doFlag then 128 else 0, 0] && rr.rdlength == |rr.rdata| % 0x1_0000
  {}

  lemma HighBit(v: u32)
    ensures var t := PutU32(v);
            t[0] == v / 0x100_0000 && t[1] == v / 0x1_0000 % 256 && (t[2] >= 128 <==> v / 0x8000 % 2 == 1)
  {
    var hi, lo := v / 0x1_0000, v % 0x1_0000;
    var t := PutU32(v);
    assert t[0] == hi / 256 && t[1] == hi % 256 && t[2] == lo / 256;
    Halves(v, hi, lo);
  }

  lemma Halves(v: u32, hi: nat, lo: nat)
    requires v == hi * 0x1_0000 + lo && lo < 0x1_0000
    ensures v / 0x100_0000 == hi / 256 && v / 0x8000 % 2 == lo / 0x8000
  {
    assert v / 0x8000 == hi * 2 + lo / 0x8000;
  }

  lemma OptionLayout(o: EdnsOption)
    requires |o.data| < 0x1_0000
    ensures var b := OptionBytes(o);
            |b| == 4 + |o.data| && Number(b[0..2]) == o.code && Number(b[2..4]) == |o.data| && b[4..] == o.data
  {
    hide Number, PutU16;
    var b := OptionBytes(o);
    BigEndian16(o.code, [], 0);
    BigEndian16(|o.data|, [], 0);
    assert b[0..2] == PutU16(o.code) && b[2..4] == PutU16(|o.data|);
  }
}
