/** The cursor classes of dns/wire.go and the loops over them: wireWriter with its buffer and
    suffix table updated in place, and wireReader. Each operation is tied to the function of
    the same name whose round trip Compression, Records and Messages prove. */
module Wire {
  import opened Bytes
  import opened Labels
  import NW = NameWire
  import C = Compression
  import R = Records
  import E = Edns
  import M = Messages

  type Status = Option<Error>

  /** The outcome of a step that the function r describes. */
  ghost predicate Follows(r: Result<C.W>, s: Status, value: C.W) {
    match s
    case None => r == Ok(value)
    case Some(e) => r == Err(e)
  }

  class WireWriter {
    const buf: array<byte>
    var offset: nat
    var compressed: map<Text, nat>

    ghost predicate Valid()
      reads this
    {
      offset <= buf.Length
    }

    ghost function Value(): C.W
      requires Valid()
      reads this, buf
    {
      C.W(buf[..offset], compressed)
    }

    constructor (buffer: array<byte>)
      ensures Valid() && buf == buffer && Value() == C.W([], map[])
    {
      buf := buffer;
      offset := 0;
      compressed := map[];
    }

    method WriteBytes(b: Text) returns (s: Status)
      requires Valid()
      modifies this`offset, buf
      ensures Valid() && Follows(C.Put(old(Value()), b, buf.Length), s, Value())
      ensures s.Some? ==> Value() == old(Value())
    {
      if buf.Length - offset < |b| {
        return Some(BufferFull);
      }
      for i := 0 to |b|
        invariant offset == old(offset)
        invariant buf[..offset] == old(buf[..offset])
        invariant buf[offset..offset + i] == b[..i]
      {
        buf[offset + i] := b[i];
      }
      offset := offset + |b|;
      assert b[..|b|] == b;
      assert buf[..offset] == buf[..old(offset)] + buf[old(offset)..offset];
      s := None;
    }

    method WriteUint16(v: u16) returns (s: Status)
      requires Valid()
      modifies this`offset, buf
      ensures Valid() && Follows(C.Put(old(Value()), PutU16(v), buf.Length), s, Value())
    {
      s := WriteBytes(PutU16(v));
    }

    method EncodeName(name: Text) returns (s: Status)
      requires Valid()
      modifies this, buf
      ensures Valid() && Follows(C.EncodeName(old(Value()), name, buf.Length), s, Value())
    {
      if name == [] || name == [DOT] {
        s := WriteBytes([0]);
        return;
      }
      if name in compressed && compressed[name] < C.MAX_POINTER {
        s := WriteUint16(0xC000 + compressed[name]);
        return;
      }
      var labels := SplitLabels(name);
      s := EncodeLabels(labels);
    }

    /** The loop of EncodeName over the labels. */
    method EncodeLabels(labels: seq<Text>) returns (s: Status)
      requires Valid()
      modifies this, buf
      ensures Valid() && Follows(C.Emit(old(Value()), labels, buf.Length), s, Value())
    {
      ghost var spec := C.Emit(Value(), labels, buf.Length);
      var i := 0;
      while i < |labels|
        invariant i <= |labels| && Valid()
        invariant C.Emit(Value(), labels[i..], buf.Length) == spec
      {
        var rest := labels[i..];
        var suffix := Join(rest);
        if suffix in compressed && compressed[suffix] < C.MAX_POINTER {
          s := WriteUint16(0xC000 + compressed[suffix]);
          return;
        }
        compressed := compressed[suffix := offset];
        if |labels[i]| > NW.MAX_LABEL {
          return Some(LabelTooLong);
        }
        s := WriteBytes([|labels[i]|]);
        if s.Some? { return; }
        s := WriteBytes(labels[i]);
        if s.Some? { return; }
        assert rest[1..] == labels[i + 1..];
        i := i + 1;
      }
      s := WriteBytes([0]);
    }

    /** The switch of packRData. */
    method WriteRData(rtype: u16, rdata: Text) returns (s: Status)
      requires Valid()
      modifies this, buf
      ensures Valid() && Follows(R.WriteRData(old(Value()), rtype, rdata, buf.Length), s, Value())
    {
      match R.ShapeOf(rtype)
      case Raw =>
        s := WriteBytes(rdata);
      case OneName(pre, tail) =>
        s := WriteOneName(rdata, pre, tail);
      case TwoNames =>
        s := WriteTwoNames(rdata);
    }

    method WriteOneName(rdata: Text, pre: nat, tail: bool) returns (s: Status)
      requires Valid()
      modifies this, buf
      ensures Valid()
      ensures forall rtype: u16 :: R.ShapeOf(rtype) == R.OneName(pre, tail) ==>
                Follows(R.WriteRData(old(Value()), rtype, rdata, buf.Length), s, Value())
    {
      hide C.EncodeName, NW.DecodeName;
      if |rdata| < pre {
        s := WriteBytes(rdata);
        return;
      }
      s := WriteBytes(rdata[..pre]);
      if s.Some? { return; }
      var d, _, _ := NW.Decode(rdata, pre);
      if d.Err? {
        s := WriteBytes(rdata[pre..]);
        return;
      }
      var (name, end) := d.value;
      s := EncodeName(name);
      if s.Some? { return; }
      if tail && end < |rdata| {
        s := WriteBytes(rdata[end..]);
      }
    }

    method WriteTwoNames(rdata: Text) returns (s: Status)
      requires Valid()
      modifies this, buf
      ensures Valid()
      ensures forall rtype: u16 :: R.ShapeOf(rtype) == R.TwoNames ==>
                Follows(R.WriteRData(old(Value()), rtype, rdata, buf.Length), s, Value())
    {
      hide C.EncodeName, NW.DecodeName;
      var d1, _, _ := NW.Decode(rdata, 0);
      if d1.Err? {
        s := WriteBytes(rdata);
        return;
      }
      var d2, _, _ := NW.Decode(rdata, d1.value.1);
      if d2.Err? {
        s := WriteBytes(rdata);
        return;
      }
      s := EncodeName(d1.value.0);
      if s.Some? { return; }
      s := EncodeName(d2.value.0);
      if s.Some? { return; }
      s := WriteBytes(rdata[d2.value.1..]);
    }

    /** The length is written over its placeholder. */
    method PatchUint16(at: nat, v: u16)
      requires Valid() && at + 2 <= offset
      modifies buf
      ensures Valid() && Value() == old(Value()).(bytes := R.Patch(old(Value()).bytes, at, v))
    {
      buf[at], buf[at + 1] := v / 256, v % 256;
      assert buf[..offset] == R.Patch(old(Value()).bytes, at, v);
    }

    /** RDLENGTH is written as a placeholder and patched in place once RDATA is out. */
    method PackRData(rr: R.RR) returns (s: Status)
      requires Valid()
      modifies this, buf
      ensures Valid() && Follows(R.PackRData(old(Value()), rr, buf.Length), s, Value())
    {
      hide R.WriteRData;
      var rdLenOffset := offset;
      s := WriteUint16(0);
      if s.Some? { return; }
      var rdStart := offset;
      ghost var w1 := Value();
      if rr.rdata == [] {
        PatchUint16(rdLenOffset, 0);
        assert R.Patch(w1.bytes, rdLenOffset, 0) == w1.bytes;
        return;
      }
      s := WriteRData(rr.rtype, rr.rdata);
      if s.Some? { return; }
      ghost var w2 := Value();
      assert w1.bytes <= w2.bytes;
      var rdLen: u16 := (offset - rdStart) % 0x1_0000;
      PatchUint16(rdLenOffset, rdLen);
    }

    method PackRR(rr: R.RR) returns (s: Status)
      requires Valid()
      modifies this, buf
      ensures Valid() && Follows(R.PackRR(old(Value()), rr, buf.Length), s, Value())
    {
      hide C.EncodeName, R.PackRData, PutU16, PutU32;
      s := EncodeName(rr.name);
      if s.Some? { return; }
      ghost var w1 := Value();
      s := WriteUint16(rr.rtype);
      if s.Some? { return; }
      s := WriteUint16(rr.class_);
      if s.Some? { return; }
      s := WriteBytes(PutU32(rr.ttl));
      if s.Some? { return; }
      assert Value().bytes == w1.bytes + R.Fixed(rr);
      s := PackRData(rr);
    }

    method PackRRs(rrs: seq<R.RR>) returns (s: Status)
      requires Valid()
      modifies this, buf
      ensures Valid() && Follows(M.PackRRs(old(Value()), rrs, buf.Length), s, Value())
    {
      hide R.PackRR;
      ghost var spec := M.PackRRs(Value(), rrs, buf.Length);
      s := None;
      for i := 0 to |rrs|
        invariant Valid() && s.None?
        invariant M.PackRRs(Value(), rrs[i..], buf.Length) == spec
      {
        s := PackRR(rrs[i]);
        if s.Some? { return; }
        assert rrs[i..][1..] == rrs[i + 1..];
      }
    }

    method PackQuestions(qs: seq<M.Question>) returns (s: Status)
      requires Valid()
      modifies this, buf
      ensures Valid() && Follows(M.PackQuestions(old(Value()), qs, buf.Length), s, Value())
    {
      hide M.PackQuestion;
      ghost var spec := M.PackQuestions(Value(), qs, buf.Length);
      s := None;
      for i := 0 to |qs|
        invariant Valid() && s.None?
        invariant M.PackQuestions(Value(), qs[i..], buf.Length) == spec
      {
        s := PackQuestion(qs[i]);
        if s.Some? { return; }
        assert qs[i..][1..] == qs[i + 1..];
      }
    }

    method PackQuestion(q: M.Question) returns (s: Status)
      requires Valid()
      modifies this, buf
      ensures Valid() && Follows(M.PackQuestion(old(Value()), q, buf.Length), s, Value())
    {
      hide C.EncodeName, PutU16;
      s := EncodeName(q.name);
      if s.Some? { return; }
      ghost var w1 := Value();
      s := WriteUint16(q.qtype);
      if s.Some? { return; }
      s := WriteUint16(q.qclass);
      if s.Some? { return; }
      assert Value().bytes == w1.bytes + (PutU16(q.qtype) + PutU16(q.qclass));
    }
  }

  /** Pack: the octets written into buffer are those of the function whose round trip is proved. */
  method Pack(msg: M.Message, buffer: array<byte>) returns (r: Result<Text>)
    modifies buffer
    ensures r == M.Pack(msg, buffer.Length)
    ensures r.Ok? ==> |r.value| <= buffer.Length && r.value == buffer[..|r.value|]
  {
    hide M.PackQuestions, M.PackRRs, M.HeaderBytes;
    var w := new WireWriter(buffer);
    var s := w.WriteBytes(M.HeaderBytes(M.Counted(msg)));
    if s.Some? { return Err(s.value); }
    s := w.PackQuestions(msg.questions);
    if s.Some? { return Err(s.value); }
    s := w.PackRRs(msg.answers);
    if s.Some? { return Err(s.value); }
    s := w.PackRRs(msg.authority);
    if s.Some? { return Err(s.value); }
    s := w.PackRRs(msg.additional);
    if s.Some? { return Err(s.value); }
    r := Ok(buffer[..w.offset]);
  }

  class WireReader {
    const buf: Text
    var offset: nat

    constructor (buf: Text, offset: nat)
      ensures this.buf == buf && this.offset == offset
    {
      this.buf := buf;
      this.offset := offset;
    }

    method ReadUint16() returns (r: Result<u16>)
      modifies this
      ensures r == if |buf| - old(offset) < 2 then Err(Truncated) else Ok(GetU16(buf, old(offset)))
      ensures offset == if r.Ok? then old(offset) + 2 else old(offset)
    {
      if |buf| - offset < 2 {
        return Err(Truncated);
      }
      r := Ok(GetU16(buf, offset));
      offset := offset + 2;
    }

    method ReadUint32() returns (r: Result<u32>)
      modifies this
      ensures r == if |buf| - old(offset) < 4 then Err(Truncated) else Ok(GetU32(buf, old(offset)))
      ensures offset == if r.Ok? then old(offset) + 4 else old(offset)
    {
      if |buf| - offset < 4 {
        return Err(Truncated);
      }
      r := Ok(GetU32(buf, offset));
      offset := offset + 4;
    }
  }

  /** encodePlainName: one pass over the text with a moving start of the current label. */
  method EncodePlainName(name: Text) returns (r: Text)
    ensures r == C.PlainName(SplitLabels(name))
  {
    if name == [] || name == [DOT] {
      return [0];
    }
    r := PlainLabels(TrimDot(name));
  }

  method PlainLabels(t: Text) returns (r: Text)
    ensures r == C.PlainName(Split(t))
  {
    hide C.PlainName, Split, Remaining;
    r := [];
    var start := 0;
    RemainingEnds(t);
    for i := 0 to |t| + 1
      invariant 0 <= start <= |t| + 1 && (i <= |t| ==> start <= i) && (i == |t| + 1 ==> start == i)
      invariant forall k :: start <= k < i && k < |t| ==> t[k] != DOT
      invariant C.PlainName(Split(t)) == r + Remaining(t, start)
    {
      if i == |t| || t[i] == DOT {
        LabelAt(t, start, i);
        var l := t[start..i];
        Regroup(r, [|l| % 256], l, Remaining(t, i + 1));
        r := r + [|l| % 256] + l;
        start := i + 1;
      }
    }
    r := r + [0];
  }

  lemma Regroup(a: Text, b: Text, c: Text, d: Text)
    ensures a + (b + c + d) == (a + b + c) + d
  {}

  /** What is still to be written when the current label starts at start. */
  ghost function Remaining(t: Text, start: nat): Text {
    if start <= |t| then C.PlainName(Split(t[start..])) else [0]
  }

  lemma RemainingEnds(t: Text)
    ensures Remaining(t, 0) == C.PlainName(Split(t))
    ensures Remaining(t, |t| + 1) == [0]
  {
    assert t[0..] == t;
  }

  lemma PlainFirst(l: Text, rest: seq<Text>)
    ensures C.PlainName([l] + rest) == [|l| % 256] + l + C.PlainName(rest)
  {
    assert ([l] + rest)[1..] == rest;
  }

  lemma PlainNone()
    ensures C.PlainName([]) == [0]
  {}

  lemma LabelAt(t: Text, start: nat, i: nat)
    requires start <= i <= |t| && (forall k :: start <= k < i ==> t[k] != DOT) && (i < |t| ==> t[i] == DOT)
    ensures Remaining(t, start) == [(i - start) % 256] + t[start..i] + Remaining(t, i + 1)
  {
    hide C.PlainName, Split;
    var l := t[start..i];
    SplitOfDotFree(l);
    if i < |t| {
      var rest := t[i + 1..];
      assert t[start..] == l + [DOT] + rest;
      SplitConcat(l, rest);
      PlainFirst(l, Split(rest));
    } else {
      assert l == t[start..];
      PlainFirst(l, []);
      PlainNone();
      var none: seq<Text> := [];
      assert [l] + none == [l];
    }
  }

  /** UnpackRR reads every octet string without leaving it, and on success moves forward. */
  method UnpackRR(msg: Text, start: nat) returns (r: Result<(R.RR, nat)>)
    ensures r == R.UnpackRR(msg, start)
    ensures r.Ok? ==> start < r.value.1 <= |msg|
  {
    hide NW.DecodeName, R.UnpackRData;
    var d, _, _ := NW.Decode(msg, start);
    if d.Err? {
      return Err(d.error);
    }
    var (name, offset) := d.value;
    var rd := new WireReader(msg, offset);
    var rtype := rd.ReadUint16();
    if rtype.Err? { return Err(rtype.error); }
    var class_ := rd.ReadUint16();
    if class_.Err? { return Err(class_.error); }
    var ttl := rd.ReadUint32();
    if ttl.Err? { return Err(ttl.error); }
    var len := rd.ReadUint16();
    if len.Err? { return Err(len.error); }
    if |msg| - rd.offset < len.value {
      return Err(Truncated);
    }
    var rdata := UnpackRData(msg, rd.offset, len.value, rtype.value);
    r := Ok((R.RR(name, rtype.value, class_.value, ttl.value, |rdata| % 0x1_0000, rdata), rd.offset + len.value));
  }

  /** The switch of UnpackRR. */
  method UnpackRData(msg: Text, start: nat, len: nat, rtype: u16) returns (r: Text)
    requires start + len <= |msg|
    ensures r == R.UnpackRData(msg, start, len, rtype)
  {
    hide NW.DecodeName, C.PlainName, SplitLabels;
    r := msg[start..start + len];
    match R.ShapeOf(rtype)
    case Raw =>
    case OneName(pre, tail) =>
      if len < pre { return; }
      var d, _, _ := NW.Decode(msg, start + pre);
      if d.Err? || (tail && d.value.1 > start + len) { return; }
      var plain := EncodePlainName(d.value.0);
      r := msg[start..start + pre] + plain;
      if tail {
        r := r + msg[d.value.1..start + len];
      }
    case TwoNames =>
      var d1, _, _ := NW.Decode(msg, start);
      if d1.Err? { return; }
      var d2, _, _ := NW.Decode(msg, d1.value.1);
      if d2.Err? || d2.value.1 + 20 > start + len { return; }
      var mname := EncodePlainName(d1.value.0);
      var rname := EncodePlainName(d2.value.0);
      r := mname + rname + msg[d2.value.1..d2.value.1 + 20];
  }

  method UnpackRRs(msg: Text, start: nat, count: u16) returns (r: Result<(seq<R.RR>, nat)>)
    ensures r == M.UnpackRRs(msg, start, count)
  {
    hide R.UnpackRR;
    var rrs, offset := [], start;
    PrependNothing(M.UnpackRRs(msg, start, count));
    for i := 0 to count
      invariant M.UnpackRRs(msg, start, count) == Prepend(rrs, M.UnpackRRs(msg, offset, count - i))
    {
      var u := UnpackRR(msg, offset);
      if u.Err? { return Err(u.error); }
      ghost var rest := M.UnpackRRs(msg, u.value.1, count - i - 1);
      if rest.Ok? {
        assert rrs + ([u.value.0] + rest.value.0) == (rrs + [u.value.0]) + rest.value.0;
      }
      rrs := rrs + [u.value.0];
      offset := u.value.1;
    }
    assert rrs + [] == rrs;
    r := Ok((rrs, offset));
  }

  ghost function Prepend<T>(done: seq<T>, r: Result<(seq<T>, nat)>): Result<(seq<T>, nat)> {
    match r
    case Err(e) => Err(e)
    case Ok((rest, off)) => Ok((done + rest, off))
  }

  lemma PrependNothing<T>(r: Result<(seq<T>, nat)>)
    ensures Prepend([], r) == r
  {
    if r.Ok? { assert [] + r.value.0 == r.value.0; }
  }

  method UnpackQuestions(msg: Text, start: nat, count: u16) returns (r: Result<(seq<M.Question>, nat)>)
    ensures r == M.UnpackQuestions(msg, start, count)
  {
    hide NW.DecodeName;
    var qs, offset := [], start;
    PrependNothing(M.UnpackQuestions(msg, start, count));
    for i := 0 to count
      invariant M.UnpackQuestions(msg, start, count) == Prepend(qs, M.UnpackQuestions(msg, offset, count - i))
    {
      var d, _, _ := NW.Decode(msg, offset);
      if d.Err? { return Err(d.error); }
      if |msg| - d.value.1 < 4 { return Err(Truncated); }
      var q := M.Question(d.value.0, GetU16(msg, d.value.1), GetU16(msg, d.value.1 + 2));
      ghost var rest := M.UnpackQuestions(msg, d.value.1 + 4, count - i - 1);
      if rest.Ok? {
        assert qs + ([q] + rest.value.0) == (qs + [q]) + rest.value.0;
      }
      qs := qs + [q];
      offset := d.value.1 + 4;
    }
    assert qs + [] == qs;
    r := Ok((qs, offset));
  }

  method Unpack(msg: Text) returns (r: Result<M.Message>)
    ensures r == M.Unpack(msg)
  {
    hide M.UnpackRRs, M.UnpackQuestions, M.FirstOpt, M.GetHeader;
    if |msg| < 12 {
      return Err(Truncated);
    }
    var h := M.GetHeader(msg);
    var qs := UnpackQuestions(msg, 12, h.qdCount);
    if qs.Err? { return Err(qs.error); }
    var an := UnpackRRs(msg, qs.value.1, h.anCount);
    if an.Err? { return Err(an.error); }
    var ns := UnpackRRs(msg, an.value.1, h.nsCount);
    if ns.Err? { return Err(ns.error); }
    var ar := UnpackRRs(msg, ns.value.1, h.arCount);
    if ar.Err? { return Err(ar.error); }
    M.UnpackedLengths(msg, ns.value.1, h.arCount);
    var edns := FindOpt(ar.value.0);
    r := Ok(M.Message(h, qs.value.0, an.value.0, ns.value.0, ar.value.0, edns));
  }

  /** The search for the first OPT record. */
  method FindOpt(rrs: seq<R.RR>) returns (edns: Option<E.Edns0>)
    requires forall i :: 0 <= i < |rrs| ==> rrs[i].rdlength <= |rrs[i].rdata|
    ensures edns == M.FirstOpt(rrs)
  {
    hide E.ParseOPT;
    assert rrs[0..] == rrs;
    for i := 0 to |rrs|
      invariant M.FirstOpt(rrs) == M.FirstOpt(rrs[i..])
    {
      assert rrs[i..][1..] == rrs[i + 1..];
      if rrs[i].rtype == R.TYPE_OPT {
        edns := E.ParseOptRecord(rrs[i]);
        return;
      }
    }
    edns := None;
  }
}
