/** Oversized UDP responses (server/handler.go, maybeTruncateUDP). */
module Truncation {
  import opened Bytes
  import opened NameWire
  import opened Compression
  import opened Records
  import opened Messages

  /** advertisedUDPBufferSize */
  function Ceiling(configured: int): u16 {
    if configured < 512 || configured > 65535 then 1232 else configured
  }

  /** The size cap: the client's EDNS size, at least 512, at most our own ceiling. */
  function MaxSize(client: Option<u16>, configured: int): (n: nat)
    ensures 512 <= n <= 65535
    ensures n <= Ceiling(configured)
  {
    var asked := if client.Some? && client.value >= 512 then client.value else 512;
    if asked > Ceiling(configured) then Ceiling(configured) else asked
  }

  /** A reply may have the size that the client offers, 512 octets if it offers less or nothing, and
      never more than the configured size, which is 1232 if the setting makes no sense. */
  lemma MaxSizeIs(client: Option<u16>, configured: int)
    ensures var offered := if client.Some? then client.value else 512;
            var ceiling := if 512 <= configured <= 65535 then configured else 1232;
            && MaxSize(client, configured) <= ceiling
            && (512 <= offered <= ceiling ==> MaxSize(client, configured) == offered)
            && (offered < 512 ==> MaxSize(client, configured) == 512)
            && (offered > ceiling ==> MaxSize(client, configured) == ceiling)
  {}

  /** flags | 1 << 9 */
  function WithTC(flags: u16): u16 {
    if flags / 512 % 2 == 0 then flags + 512 else flags
  }

  function Clipped(h: Header): Header {
    h.(flags := WithTC(h.flags), anCount := 0, nsCount := 0, arCount := 0)
  }

  /** The loop that walks over the question section. */
  function QuestionsEnd(msg: Text, off: nat, n: nat): nat
    decreases n
  {
    if n == 0 || off >= |msg| then off
    else
      match DecodeName(msg, off)
      case Err(_) => off
      case Ok((_, o)) => QuestionsEnd(msg, o + 4, n - 1)
  }

  function Truncate(packed: Text, maxSize: nat): Text
    requires maxSize >= 12
  {
    if |packed| <= maxSize then packed
    else
      var h := Clipped(GetHeader(packed));
      var p := HeaderBytes(h) + packed[12..];
      var end := QuestionsEnd(p, 12, h.qdCount);
      if end > maxSize then HeaderBytes(h.(qdCount := 0)) else p[..end]
  }

  lemma {:induction false} QuestionsEndOf(msg: Text, off: nat, n: nat)
    requires UnpackQuestions(msg, off, n).Ok?
    ensures QuestionsEnd(msg, off, n) == UnpackQuestions(msg, off, n).value.1
    decreases n
  {
    if n > 0 && off < |msg| { QuestionsEndOf(msg, UnpackQuestion(msg, off).value.1, n - 1); }
  }

  /** The questions survive the new header and the cut behind them: no name among them reads
      an octet of the header. */
  lemma QuestionsSurvive(m: Message, cap: nat, p: Text) returns (end: nat)
    requires WellFormedMessage(m) && Pack(m, cap).Ok?
    requires |p| == |Pack(m, cap).value| && p[12..] == Pack(m, cap).value[12..]
    ensures 12 <= end <= |p|
    ensures QuestionsEnd(p, 12, |m.questions|) == end == QuestionsEnd(Pack(m, cap).value, 12, |m.questions|)
    ensures UnpackQuestions(p[..end], 12, |m.questions|) == Ok((NormalQuestions(m.questions), end))
  {
    hide PackBody, PackQuestions, HeaderBytes, QuestionsEnd, UnpackQuestions, Keeps, WellFormedName,
         WellFormedRRs, NormalQuestions;
    var packed := Pack(m, cap).value;
    var w := W(HeaderBytes(Counted(m)), map[]);
    assert [] + HeaderBytes(Counted(m)) == HeaderBytes(Counted(m));
    QuestionsFirst(w, m, cap);
    var w1 := PackQuestions(w, m.questions, cap).value;
    end := |w1.bytes|;
    SwapHeader(w1.bytes, packed, p);
    QuestionsRoundTrip(w, m.questions, cap, Gap(0, 12), p);
    QuestionsRoundTrip(w, m.questions, cap, Gap(0, 12), p[..end]);
    QuestionsEndOf(p, 12, |m.questions|);
    SwapHeader(w1.bytes, packed, packed);
    QuestionsRoundTrip(w, m.questions, cap, Gap(0, 12), packed);
    QuestionsEndOf(packed, 12, |m.questions|);
  }

  lemma PackedHeader(m: Message, cap: nat)
    requires Pack(m, cap).Ok?
    ensures |Pack(m, cap).value| >= 12 && GetHeader(Pack(m, cap).value) == Counted(m)
  {
    hide PackBody, HeaderBytes;
    var w := W(HeaderBytes(Counted(m)), map[]);
    assert [] + HeaderBytes(Counted(m)) == HeaderBytes(Counted(m));
    HeaderRoundTrip(Counted(m), Pack(m, cap).value);
  }

  /** What the client can rely on: the reply fits, is the packed message when that fits, and
      otherwise is a complete message with TC set, the same questions and no records, or the
      bare header exactly when the header and the questions alone do not fit. */
  lemma TruncatedReply(m: Message, cap: nat, maxSize: nat)
    requires WellFormedMessage(m) && Pack(m, cap).Ok? && maxSize >= 12
    ensures |Truncate(Pack(m, cap).value, maxSize)| <= maxSize
    ensures |Pack(m, cap).value| <= maxSize ==> Truncate(Pack(m, cap).value, maxSize) == Pack(m, cap).value
    ensures |Pack(m, cap).value| > maxSize ==>
              var h := Clipped(Counted(m));
              var r := Unpack(Truncate(Pack(m, cap).value, maxSize));
              if QuestionsEnd(Pack(m, cap).value, 12, |m.questions|) <= maxSize
              then r == Ok(Message(h, NormalQuestions(m.questions), [], [], [], None))
              else r == Ok(Message(h.(qdCount := 0), [], [], [], [], None))
  {
    hide Pack, Unpack, HeaderBytes, GetHeader, QuestionsEnd, UnpackQuestions, WellFormedName, WellFormedRRs,
         NormalQuestions, WithTC;
    var packed := Pack(m, cap).value;
    if |packed| > maxSize {
      PackedHeader(m, cap);
      var h := Clipped(Counted(m));
      var p := HeaderBytes(h) + packed[12..];
      assert p[12..] == packed[12..];
      var end := QuestionsSurvive(m, cap, p);
      if end > maxSize {
        HeaderOnly(h.(qdCount := 0));
      } else {
        HeaderRoundTrip(h, p[..end]);
        SectionsEmpty(h, p[..end], NormalQuestions(m.questions), end);
      }
    }
  }

  lemma QuestionsFirst(w: W, m: Message, cap: nat)
    requires PackBody(w, m, cap).Ok?
    ensures PackQuestions(w, m.questions, cap).Ok?
    ensures PackQuestions(w, m.questions, cap).value.bytes <= PackBody(w, m, cap).value.bytes
  {
    hide PackRRs, PackQuestions;
    var w1 := PackQuestions(w, m.questions, cap).value;
    var w2 := PackRRs(w1, m.answers, cap).value;
    var w3 := PackRRs(w2, m.authority, cap).value;
    var w4 := PackRRs(w3, m.additional, cap).value;
    assert w4.bytes[..|w2.bytes|] == w3.bytes[..|w2.bytes|] == w2.bytes;
    assert w4.bytes[..|w1.bytes|] == w2.bytes[..|w1.bytes|] == w1.bytes;
  }

  lemma SwapHeader(head: Text, packed: Text, p: Text)
    requires 12 <= |head| && head <= packed
    requires |p| == |packed| && p[12..] == packed[12..]
    ensures Keeps(head, p, Gap(0, 12)) && Keeps(head, p[..|head|], Gap(0, 12))
  {
    forall i | 12 <= i < |head| ensures p[i] == head[i] {
      assert p[12..][i - 12] == packed[12..][i - 12];
    }
  }

  lemma SectionsEmpty(h: Header, msg: Text, qs: seq<Question>, end: nat)
    requires |msg| >= 12 && GetHeader(msg) == h && h.anCount == h.nsCount == h.arCount == 0
    requires UnpackQuestions(msg, 12, h.qdCount) == Ok((qs, end))
    ensures Unpack(msg) == Ok(Message(h, qs, [], [], [], None))
  {
    hide GetHeader, UnpackQuestions;
    assert UnpackRRs(msg, end, 0) == Ok(([], end));
  }

  lemma HeaderOnly(h: Header)
    requires h.qdCount == h.anCount == h.nsCount == h.arCount == 0
    ensures Unpack(HeaderBytes(h)) == Ok(Message(h, [], [], [], [], None))
  {
    HeaderRoundTrip(h, HeaderBytes(h));
    SectionsEmpty(h, HeaderBytes(h), [], 12);
  }

  /** maybeTruncateUDP: the header of the packed message is overwritten in place and the
      question section is walked to find where to cut. */
  method MaybeTruncateUDP(packed: array<byte>, client: Option<u16>, configured: int) returns (end: nat)
    modifies packed
    ensures end <= packed.Length
    ensures packed[..end] == Truncate(old(packed[..]), MaxSize(client, configured))
  {
    hide HeaderBytes, Clipped, GetHeader, QuestionsEnd;
    var maxSize := MaxSize(client, configured);
    if packed.Length <= maxSize {
      end := packed.Length;
      assert packed[..end] == packed[..];
      return;
    }
    ghost var h := Clipped(GetHeader(packed[..]));
    var qdcount := ClipHeader(packed);
    end := SkipQuestions(packed[..], qdcount);
    if end > maxSize {
      end := 12;
      DropQuestions(packed, h);
    }
  }

  method ClipHeader(packed: array<byte>) returns (qdcount: u16)
    requires packed.Length >= 12
    modifies packed
    ensures var h := Clipped(GetHeader(old(packed[..])));
            packed[..] == HeaderBytes(h) + old(packed[..])[12..] && qdcount == h.qdCount
  {
    ghost var h := GetHeader(packed[..]);
    var flags: u16 := (packed[2] as int) * 256 + packed[3];
    packed[2], packed[3] := WithTC(flags) / 256, WithTC(flags) % 256;
    packed[6], packed[7], packed[8], packed[9], packed[10], packed[11] := 0, 0, 0, 0, 0, 0;
    qdcount := (packed[4] as int) * 256 + packed[5];
    ClippedBytes(h, old(packed[..]), packed[..]);
  }

  method DropQuestions(packed: array<byte>, ghost h: Header)
    requires packed.Length >= 12 && HeaderBytes(h) <= packed[..]
    modifies packed
    ensures packed[..12] == HeaderBytes(h.(qdCount := 0))
  {
    hide HeaderBytes;
    packed[4], packed[5] := 0, 0;
    BareBytes(h, old(packed[..]), packed[..12]);
  }

  method SkipQuestions(msg: Text, qdcount: u16) returns (end: nat)
    ensures end == QuestionsEnd(msg, 12, qdcount)
  {
    hide DecodeName;
    end := 12;
    var i := 0;
    while i < qdcount && end < |msg|
      invariant 0 <= i <= qdcount
      invariant QuestionsEnd(msg, end, qdcount - i) == QuestionsEnd(msg, 12, qdcount)
    {
      var d, _, _ := Decode(msg, end);
      if d.Err? { return; }
      end := d.value.1 + 4;
      i := i + 1;
    }
  }

  lemma HeaderBytesOfGet(msg: Text)
    requires |msg| >= 12
    ensures HeaderBytes(GetHeader(msg)) == msg[..12]
  {}

  lemma ClippedBytes(h: Header, was: Text, now: Text)
    requires |was| == |now| >= 12 && h == GetHeader(was)
    requires now[..2] == was[..2] && now[4..6] == was[4..6] && now[12..] == was[12..]
    requires now[2..4] == PutU16(WithTC(h.flags)) && now[6..12] == [0, 0, 0, 0, 0, 0]
    ensures now == HeaderBytes(Clipped(h)) + was[12..]
  {
    HeaderBytesOfGet(was);
    var b := HeaderBytes(Clipped(h));
    assert b[..2] == was[..2] && b[4..6] == was[4..6];
    assert b == now[..2] + now[2..4] + now[4..6] + now[6..12];
    assert now == (now[..2] + now[2..4] + now[4..6] + now[6..12]) + now[12..];
  }

  lemma BareBytes(h: Header, was: Text, now: Text)
    requires HeaderBytes(h) <= was && |now| == 12
    requires now[..4] == was[..4] && now[4..6] == [0, 0] && now[6..] == was[6..12]
    ensures now == HeaderBytes(h.(qdCount := 0))
  {
    var a, b := HeaderBytes(h), HeaderBytes(h.(qdCount := 0));
    assert a == was[..12];
    assert b[..4] == a[..4] && b[6..] == a[6..] && b[4..6] == [0, 0];
    assert now == now[..4] + now[4..6] + now[6..] && b == b[..4] + b[4..6] + b[6..];
  }
}
