/** Whole messages (dns/wire.go Pack and Unpack, dns/header.go, dns/question.go). */
module Messages {
  import opened Bytes
  import opened Labels
  import opened NameWire
  import opened Compression
  import opened Records
  import opened Edns

  datatype Header = Header(id: u16, flags: u16, qdCount: u16, anCount: u16, nsCount: u16, arCount: u16)

  datatype Question = Question(name: Text, qtype: u16, qclass: u16)

  datatype Message = Message(header: Header, questions: seq<Question>, answers: seq<RR>,
                             authority: seq<RR>, additional: seq<RR>, edns: Option<Edns0>)

  // ---- packing ----

  function HeaderBytes(h: Header): (r: Text)
    ensures |r| == 12
  {
    PutU16(h.id) + PutU16(h.flags) + PutU16(h.qdCount) + PutU16(h.anCount) + PutU16(h.nsCount) + PutU16(h.arCount)
  }

  function PackQuestions(w: W, qs: seq<Question>, cap: nat): (r: Result<W>)
    ensures r.Ok? ==> w.bytes <= r.value.bytes
    decreases |qs|
  {
    if qs == [] then Ok(w)
    else
      var w1 :- PackQuestion(w, qs[0], cap);
      PackQuestions(w1, qs[1..], cap)
  }

  function PackQuestion(w: W, q: Question, cap: nat): (r: Result<W>)
    ensures r.Ok? ==> w.bytes <= r.value.bytes && |r.value.bytes| <= cap
  {
    var w1 :- EncodeName(w, q.name, cap);
    Put(w1, PutU16(q.qtype) + PutU16(q.qclass), cap)
  }

  function PackRRs(w: W, rrs: seq<RR>, cap: nat): (r: Result<W>)
    ensures r.Ok? ==> w.bytes <= r.value.bytes
    decreases |rrs|
  {
    if rrs == [] then Ok(w)
    else
      var w1 :- PackRR(w, rrs[0], cap);
      PackRRs(w1, rrs[1..], cap)
  }

  /** Pack sets the four counts, each truncated to 16 bits. */
  function Counted(m: Message): Header {
    m.header.(qdCount := |m.questions| % 0x1_0000, anCount := |m.answers| % 0x1_0000,
              nsCount := |m.authority| % 0x1_0000, arCount := |m.additional| % 0x1_0000)
  }

  function PackBody(w: W, m: Message, cap: nat): (r: Result<W>)
    ensures r.Ok? ==> w.bytes <= r.value.bytes
  {
    var w1 :- PackQuestions(w, m.questions, cap);
    var w2 :- PackRRs(w1, m.answers, cap);
    var w3 :- PackRRs(w2, m.authority, cap);
    PackRRs(w3, m.additional, cap)
  }

  function Pack(m: Message, cap: nat): Result<Text> {
    var w :- Put(W([], map[]), HeaderBytes(Counted(m)), cap);
    var w' :- PackBody(w, m, cap);
    Ok(w'.bytes)
  }

  // ---- unpacking ----

  function UnpackQuestion(msg: Text, off: nat): Result<(Question, nat)> {
    match DecodeName(msg, off)
    case Err(e) => Err(e)
    case Ok((name, o)) =>
      if |msg| - o < 4 then Err(Truncated)
      else Ok((Question(name, GetU16(msg, o), GetU16(msg, o + 2)), o + 4))
  }

  function UnpackQuestions(msg: Text, off: nat, n: nat): Result<(seq<Question>, nat)>
    decreases n
  {
    if n == 0 then Ok(([], off))
    else
      match UnpackQuestion(msg, off)
      case Err(e) => Err(e)
      case Ok((q, o)) =>
        match UnpackQuestions(msg, o, n - 1)
        case Err(e) => Err(e)
        case Ok((qs, end)) => Ok(([q] + qs, end))
  }

  function UnpackRRs(msg: Text, off: nat, n: nat): Result<(seq<RR>, nat)>
    decreases n
  {
    if n == 0 then Ok(([], off))
    else
      match UnpackRR(msg, off)
      case Err(e) => Err(e)
      case Ok((rr, o)) =>
        match UnpackRRs(msg, o, n - 1)
        case Err(e) => Err(e)
        case Ok((rrs, end)) => Ok(([rr] + rrs, end))
  }

  function GetHeader(msg: Text): Header
    requires |msg| >= 12
  {
    Header(GetU16(msg, 0), GetU16(msg, 2), GetU16(msg, 4), GetU16(msg, 6), GetU16(msg, 8), GetU16(msg, 10))
  }

  /** The EDNS data of the first OPT record. */
  function FirstOpt(rrs: seq<RR>): Option<Edns0>
    requires forall i :: 0 <= i < |rrs| ==> rrs[i].rdlength <= |rrs[i].rdata|
  {
    if rrs == [] then None
    else if rrs[0].rtype == TYPE_OPT then ParseOPT(rrs[0])
    else FirstOpt(rrs[1..])
  }

  lemma {:induction false} UnpackedLengths(msg: Text, off: nat, n: nat)
    requires UnpackRRs(msg, off, n).Ok?
    ensures var rrs := UnpackRRs(msg, off, n).value.0;
            |rrs| == n && forall i :: 0 <= i < |rrs| ==> rrs[i].rdlength <= |rrs[i].rdata|
    decreases n
  {
    hide UnpackRR;
    if n > 0 {
      UnpackedLength(msg, off);
      UnpackedLengths(msg, UnpackRR(msg, off).value.1, n - 1);
    }
  }

  lemma UnpackedLength(msg: Text, off: nat)
    requires UnpackRR(msg, off).Ok?
    ensures UnpackRR(msg, off).value.0.rdlength <= |UnpackRR(msg, off).value.0.rdata|
  {
    hide UnpackRData, DecodeName;
  }

  function Unpack(msg: Text): Result<Message> {
    if |msg| < 12 then Err(Truncated)
    else
      var h := GetHeader(msg);
      match UnpackQuestions(msg, 12, h.qdCount)
      case Err(e) => Err(e)
      case Ok((qs, o1)) =>
        match UnpackRRs(msg, o1, h.anCount)
        case Err(e) => Err(e)
        case Ok((an, o2)) =>
          match UnpackRRs(msg, o2, h.nsCount)
          case Err(e) => Err(e)
          case Ok((ns, o3)) =>
            match UnpackRRs(msg, o3, h.arCount)
            case Err(e) => Err(e)
            case Ok((ar, _)) =>
              UnpackedLengths(msg, o3, h.arCount);
              Ok(Message(h, qs, an, ns, ar, FirstOpt(ar)))
  }

  // ---- the round trip ----

  predicate WellFormedRRs(rrs: seq<RR>) {
    |rrs| < 0x1_0000 && forall i :: 0 <= i < |rrs| ==> WellFormedRR(rrs[i])
  }

  predicate WellFormedMessage(m: Message) {
    && |m.questions| < 0x1_0000
    && (forall i :: 0 <= i < |m.questions| ==> WellFormedName(m.questions[i].name))
    && WellFormedRRs(m.answers) && WellFormedRRs(m.authority) && WellFormedRRs(m.additional)
  }

  function NormalRRs(rrs: seq<RR>): (r: seq<RR>)
    ensures |r| == |rrs|
    ensures forall i :: 0 <= i < |r| ==> r[i] == Normal(rrs[i])
  {
    seq(|rrs|, i requires 0 <= i < |rrs| => Normal(rrs[i]))
  }

  function NormalQuestions(qs: seq<Question>): (r: seq<Question>)
    ensures |r| == |qs|
    ensures forall i :: 0 <= i < |r| ==> r[i] == qs[i].(name := TrimDot(qs[i].name))
  {
    seq(|qs|, i requires 0 <= i < |qs| => qs[i].(name := TrimDot(qs[i].name)))
  }

  /** The message as unpacking presents it: counts and length fields filled in, no trailing
      dots, EDNS data read off the first OPT record. */
  function NormalMessage(m: Message): Message {
    Message(Counted(m), NormalQuestions(m.questions), NormalRRs(m.answers), NormalRRs(m.authority),
            NormalRRs(m.additional), FirstOpt(NormalRRs(m.additional)))
  }

  lemma QuestionRoundTrip(w: W, q: Question, cap: nat, gap: Gap, msg: Text)
    requires TableOk(w, gap) && gap.hi <= |w.bytes| && WellFormedName(q.name)
    requires PackQuestion(w, q, cap).Ok? && Keeps(PackQuestion(w, q, cap).value.bytes, msg, gap)
    ensures TableOk(PackQuestion(w, q, cap).value, gap)
    ensures UnpackQuestion(msg, |w.bytes|)
              == Ok((q.(name := TrimDot(q.name)), |PackQuestion(w, q, cap).value.bytes|))
  {
    hide EncodeName, DecodeName, TableOk, WellFormedName, Keeps, SplitLabels, PlainName;
    var w1 := EncodeName(w, q.name, cap).value;
    var w' := PackQuestion(w, q, cap).value;
    var tail := PutU16(q.qtype) + PutU16(q.qclass);
    assert w'.bytes == w1.bytes + tail;
    KeepsPrefix(w1.bytes, w'.bytes, msg, gap);
    NameThroughMessage(w, q.name, cap, gap, msg);
    PutKeepsTable(w1, w', tail, gap);
    PutIsKept(w1.bytes, tail, w'.bytes, msg, gap);
    forall i | 0 <= i < 4 ensures msg[|w1.bytes| + i] == tail[i] {
      assert msg[|w1.bytes|..|w1.bytes| + 4][i] == tail[i];
    }
  }

  lemma {:induction false} QuestionsRoundTrip(w: W, qs: seq<Question>, cap: nat, gap: Gap, msg: Text)
    requires TableOk(w, gap) && gap.hi <= |w.bytes|
    requires forall i :: 0 <= i < |qs| ==> WellFormedName(qs[i].name)
    requires PackQuestions(w, qs, cap).Ok? && Keeps(PackQuestions(w, qs, cap).value.bytes, msg, gap)
    ensures TableOk(PackQuestions(w, qs, cap).value, gap)
    ensures UnpackQuestions(msg, |w.bytes|, |qs|)
              == Ok((NormalQuestions(qs), |PackQuestions(w, qs, cap).value.bytes|))
    decreases |qs|
  {
    hide PackQuestion, UnpackQuestion, TableOk, WellFormedName, NormalQuestions, TrimDot, Keeps;
    if qs == [] {
      assert NormalQuestions(qs) == [];
    } else {
      var w1 := PackQuestion(w, qs[0], cap).value;
      KeepsPrefix(w1.bytes, PackQuestions(w, qs, cap).value.bytes, msg, gap);
      QuestionRoundTrip(w, qs[0], cap, gap, msg);
      QuestionsRoundTrip(w1, qs[1..], cap, gap, msg);
      assert NormalQuestions(qs) == [NormalQuestions(qs)[0]] + NormalQuestions(qs[1..]);
    }
  }

  lemma {:induction false} RRsRoundTrip(w: W, rrs: seq<RR>, cap: nat, msg: Text)
    requires TableOk(w, NO_GAP)
    requires forall i :: 0 <= i < |rrs| ==> WellFormedRR(rrs[i])
    requires PackRRs(w, rrs, cap).Ok? && PackRRs(w, rrs, cap).value.bytes <= msg
    ensures TableOk(PackRRs(w, rrs, cap).value, NO_GAP)
    ensures UnpackRRs(msg, |w.bytes|, |rrs|) == Ok((NormalRRs(rrs), |PackRRs(w, rrs, cap).value.bytes|))
    decreases |rrs|
  {
    hide PackRR, UnpackRR, TableOk, WellFormedRR, NormalRRs, Normal;
    if rrs == [] {
      assert NormalRRs(rrs) == [];
    } else {
      var w1 := PackRR(w, rrs[0], cap).value;
      var w' := PackRRs(w, rrs, cap).value;
      assert w1.bytes <= msg by { assert msg[..|w1.bytes|] == w'.bytes[..|w1.bytes|] == w1.bytes; }
      RRRoundTrip(w, rrs[0], cap, msg);
      RRsRoundTrip(w1, rrs[1..], cap, msg);
      assert NormalRRs(rrs) == [Normal(rrs[0])] + NormalRRs(rrs[1..]);
    }
  }

  lemma HeaderRoundTrip(h: Header, msg: Text)
    requires HeaderBytes(h) <= msg
    ensures |msg| >= 12 && GetHeader(msg) == h
  {
    forall i | 0 <= i < 12 ensures msg[i] == HeaderBytes(h)[i] {}
  }

  /** The sections after the header, each read from where it was written. */
  lemma BodyRoundTrip(w: W, m: Message, cap: nat, msg: Text) returns (o1: nat, o2: nat, o3: nat, end: nat)
    requires TableOk(w, NO_GAP) && WellFormedMessage(m)
    requires PackBody(w, m, cap).Ok? && PackBody(w, m, cap).value.bytes <= msg
    ensures UnpackQuestions(msg, |w.bytes|, |m.questions|) == Ok((NormalQuestions(m.questions), o1))
    ensures UnpackRRs(msg, o1, |m.answers|) == Ok((NormalRRs(m.answers), o2))
    ensures UnpackRRs(msg, o2, |m.authority|) == Ok((NormalRRs(m.authority), o3))
    ensures UnpackRRs(msg, o3, |m.additional|) == Ok((NormalRRs(m.additional), end))
    ensures end == |PackBody(w, m, cap).value.bytes|
  {
    hide PackQuestions, PackRRs, UnpackRRs, UnpackQuestions, TableOk, WellFormedRR, WellFormedName;
    var w1 := PackQuestions(w, m.questions, cap).value;
    var w2 := PackRRs(w1, m.answers, cap).value;
    var w3 := PackRRs(w2, m.authority, cap).value;
    var w4 := PackRRs(w3, m.additional, cap).value;
    assert w3.bytes <= msg by { assert msg[..|w3.bytes|] == w4.bytes[..|w3.bytes|] == w3.bytes; }
    assert w2.bytes <= msg by { assert msg[..|w2.bytes|] == w3.bytes[..|w2.bytes|] == w2.bytes; }
    assert w1.bytes <= msg by { assert msg[..|w1.bytes|] == w2.bytes[..|w1.bytes|] == w1.bytes; }
    o1, o2, o3, end := |w1.bytes|, |w2.bytes|, |w3.bytes|, |w4.bytes|;
    PrefixKeeps(w1.bytes, msg, NO_GAP);
    QuestionsRoundTrip(w, m.questions, cap, NO_GAP, msg);
    RRsRoundTrip(w1, m.answers, cap, msg);
    RRsRoundTrip(w2, m.authority, cap, msg);
    RRsRoundTrip(w3, m.additional, cap, msg);
  }

  /** Every well-formed message that Pack accepts comes back from Unpack. */
  lemma MessageRoundTrip(m: Message, cap: nat)
    requires WellFormedMessage(m) && Pack(m, cap).Ok?
    ensures Unpack(Pack(m, cap).value) == Ok(NormalMessage(m))
  {
    hide PackBody, UnpackQuestions, UnpackRRs, GetHeader, HeaderBytes, WellFormedRR, WellFormedName, FirstOpt;
    var msg := Pack(m, cap).value;
    var w := W(HeaderBytes(Counted(m)), map[]);
    assert [] + HeaderBytes(Counted(m)) == HeaderBytes(Counted(m));
    assert PackBody(w, m, cap).value.bytes == msg;
    HeaderRoundTrip(Counted(m), msg);
    assert TableOk(w, NO_GAP);
    var o1, o2, o3, end := BodyRoundTrip(w, m, cap, msg);
  }
}
