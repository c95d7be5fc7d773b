/** Reading domain names from a message (dns/name.go, DecodeName).

    `NameAt` is the reference reading of RFC 1035 section 4.1.4, `DecodeName` the
    function the loop computes, and `Decode` the loop itself. */
module NameWire {
  import opened Bytes
  import opened Labels

  const MAX_NAME: nat := 255
  const MAX_LABEL: nat := 63
  const MAX_HOPS: nat := 128

  /** What starts at an offset: nothing complete, a terminator, a pointer, a label with the
      offset after it, or a length octet of a reserved kind. */
  datatype Item = Cut | Terminator | Pointer(target: nat) | Label(text: Text, next: nat) | Reserved

  function ItemAt(msg: Text, off: nat): (item: Item)
    ensures item.Terminator? ==> off + 1 <= |msg|
    ensures item.Pointer? ==> off + 2 <= |msg|
    ensures item.Label? ==> 1 <= |item.text| <= MAX_LABEL && item.next == off + 1 + |item.text| <= |msg|
  {
    if off >= |msg| then Cut
    else
      var n: int := msg[off];
      if n == 0 then Terminator
      else if n >= 192 then
        if off + 1 >= |msg| then Cut else Pointer((n - 192) * 256 + msg[off + 1])
      else if n > MAX_LABEL then Reserved
      else if off + 1 + n > |msg| then Cut
      else Label(msg[off + 1..off + 1 + n], off + 1 + n)
  }

  /** Octets lo <= p < hi that a writer still intends to overwrite. */
  datatype Gap = Gap(lo: nat, hi: nat)

  const NO_GAP := Gap(0, 0)

  /** No octet of [a, b) lies in the gap. */
  predicate Clear(gap: Gap, a: nat, b: nat) {
    gap.hi <= a || b <= gap.lo
  }

  /** The name starting at off spells labels, following exactly hops pointers, each to an
      earlier octet, and reads no octet of the gap. */
  ghost predicate NameAt(msg: Text, off: nat, labels: seq<Text>, hops: nat, gap: Gap)
    decreases hops, |labels|
  {
    match ItemAt(msg, off)
    case Terminator => labels == [] && hops == 0 && Clear(gap, off, off + 1)
    case Pointer(target) =>
      target < off && hops > 0 && Clear(gap, off, off + 2) && NameAt(msg, target, labels, hops - 1, gap)
    case Label(text, next) =>
      labels != [] && labels[0] == text && Clear(gap, off, next) && NameAt(msg, next, labels[1..], hops, gap)
    case Cut => false
    case Reserved => false
  }

  /** Where the octets of the name that are stored at off itself end: after its terminator
      or after its first pointer. */
  function Extent(msg: Text, off: nat): (e: nat)
    ensures e == 0 || off < e <= |msg|
    decreases |msg| - off
  {
    match ItemAt(msg, off)
    case Terminator => off + 1
    case Pointer(_) => off + 2
    case Label(_, next) => Extent(msg, next)
    case Cut => 0
    case Reserved => 0
  }

  /** name with one more label, as the loop appends it. */
  function Append(name: Text, l: Text): Text {
    if |name| > 0 then name + [DOT] + l else l
  }

  function AppendAll(name: Text, labels: seq<Text>): Text
    decreases |labels|
  {
    if labels == [] then name else AppendAll(Append(name, labels[0]), labels[1..])
  }

  /** The iterations that remain with the given octets of name read and hops pointers followed. */
  function Walk(msg: Text, off: nat, name: Text, hops: nat): Result<Text>
    requires hops <= MAX_HOPS
    decreases MAX_HOPS - hops, |msg| - off
  {
    match ItemAt(msg, off)
    case Cut => Err(Truncated)
    case Terminator => Ok(name)
    case Pointer(target) =>
      if target >= off then Err(PointerForward)
      else if hops + 1 > MAX_HOPS then Err(PointerLoop)
      else Walk(msg, target, name, hops + 1)
    case Reserved => Err(LabelTooLong)
    case Label(text, next) =>
      if |Append(name, text)| > MAX_NAME then Err(NameTooLong)
      else Walk(msg, next, Append(name, text), hops)
  }

  /** The decoded text and the offset after the octets at off. */
  function DecodeName(msg: Text, off: nat): Result<(Text, nat)> {
    match Walk(msg, off, [], 0)
    case Ok(name) => Ok((name, Extent(msg, off)))
    case Err(e) => Err(e)
  }

  lemma {:induction false} NameAtLabels(msg: Text, off: nat, labels: seq<Text>, hops: nat, gap: Gap)
    requires NameAt(msg, off, labels, hops, gap)
    ensures AllNonEmpty(labels)
    ensures forall i :: 0 <= i < |labels| ==> |labels[i]| <= MAX_LABEL
    ensures off < Extent(msg, off) <= |msg|
    decreases hops, |labels|
  {
    match ItemAt(msg, off)
    case Terminator =>
    case Pointer(target) => NameAtLabels(msg, target, labels, hops - 1, gap);
    case Label(_, next) => NameAtLabels(msg, next, labels[1..], hops, gap);
  }

  /** A name is read in one way only. */
  lemma {:induction false} NameAtUnique(msg: Text, off: nat, a: seq<Text>, ha: nat, b: seq<Text>, hb: nat)
    requires NameAt(msg, off, a, ha, NO_GAP) && NameAt(msg, off, b, hb, NO_GAP)
    ensures a == b && ha == hb
    decreases ha, |a|
  {
    match ItemAt(msg, off)
    case Terminator =>
    case Pointer(target) => NameAtUnique(msg, target, a, ha - 1, b, hb - 1);
    case Label(_, next) =>
      NameAtUnique(msg, next, a[1..], ha, b[1..], hb);
      assert a == [a[0]] + a[1..] && b == [b[0]] + b[1..];
  }

  lemma {:induction false} AppendAllGrows(name: Text, labels: seq<Text>)
    ensures |AppendAll(name, labels)| >= |name|
    decreases |labels|
  {
    if labels != [] { AppendAllGrows(Append(name, labels[0]), labels[1..]); }
  }

  lemma {:induction false} AppendAllIsJoin(name: Text, labels: seq<Text>)
    requires AllNonEmpty(labels)
    ensures labels != [] ==> AppendAll(name, labels) == Append(name, Join(labels))
    decreases |labels|
  {
    if |labels| > 1 {
      AppendAllIsJoin(Append(name, labels[0]), labels[1..]);
    }
  }

  /** Completeness: the loop accepts every name within its two limits. */
  lemma {:induction false} WalkAccepts(msg: Text, off: nat, labels: seq<Text>, more: nat, name: Text, hops: nat)
    requires NameAt(msg, off, labels, more, NO_GAP)
    requires hops + more <= MAX_HOPS
    requires |AppendAll(name, labels)| <= MAX_NAME
    ensures Walk(msg, off, name, hops) == Ok(AppendAll(name, labels))
    decreases more, |labels|
  {
    match ItemAt(msg, off)
    case Terminator =>
    case Pointer(target) => WalkAccepts(msg, target, labels, more - 1, name, hops + 1);
    case Label(text, next) =>
      AppendAllGrows(Append(name, text), labels[1..]);
      WalkAccepts(msg, next, labels[1..], more, Append(name, text), hops);
  }

  /** Soundness: an accepted name is one the reference reading allows. */
  lemma {:induction false} WalkReads(msg: Text, off: nat, name: Text, hops: nat) returns (labels: seq<Text>, more: nat)
    requires hops <= MAX_HOPS && |name| <= MAX_NAME
    requires Walk(msg, off, name, hops).Ok?
    ensures NameAt(msg, off, labels, more, NO_GAP)
    ensures hops + more <= MAX_HOPS
    ensures Walk(msg, off, name, hops).value == AppendAll(name, labels)
    ensures |AppendAll(name, labels)| <= MAX_NAME
    decreases MAX_HOPS - hops, |msg| - off
  {
    match ItemAt(msg, off)
    case Terminator =>
      labels, more := [], 0;
    case Pointer(target) =>
      labels, more := WalkReads(msg, target, name, hops + 1);
      more := more + 1;
    case Label(text, next) =>
      var rest;
      rest, more := WalkReads(msg, next, Append(name, text), hops);
      labels := [text] + rest;
      assert labels[1..] == rest;
  }

  /** A name DecodeName must accept, and what it must return for it. */
  ghost predicate Readable(msg: Text, off: nat, labels: seq<Text>, hops: nat) {
    NameAt(msg, off, labels, hops, NO_GAP) && hops <= MAX_HOPS && |Join(labels)| <= MAX_NAME
  }

  /** DecodeName accepts exactly the names of the reference reading that follow at most 128
      pointers and have at most 255 octets of text, and returns their dotted labels. */
  lemma DecodeNameExact(msg: Text, off: nat, text: Text, end: nat)
    ensures DecodeName(msg, off) == Ok((text, end))
       <==> end == Extent(msg, off)
            && exists labels, hops :: Readable(msg, off, labels, hops) && text == Join(labels)
  {
    if DecodeName(msg, off) == Ok((text, end)) {
      var labels, hops := WalkReads(msg, off, [], 0);
      NameAtLabels(msg, off, labels, hops, NO_GAP);
      AppendAllIsJoin([], labels);
      assert Readable(msg, off, labels, hops);
    }
    if labels, hops :| Readable(msg, off, labels, hops) && text == Join(labels) {
      DecodeNameOf(msg, off, labels, hops);
    }
  }

  lemma DecodeNameOf(msg: Text, off: nat, labels: seq<Text>, hops: nat)
    requires Readable(msg, off, labels, hops)
    ensures DecodeName(msg, off) == Ok((Join(labels), Extent(msg, off)))
    ensures off < Extent(msg, off) <= |msg|
  {
    NameAtLabels(msg, off, labels, hops, NO_GAP);
    AppendAllIsJoin([], labels);
    WalkAccepts(msg, off, labels, hops, [], 0);
  }

  /** On success the text is short and the new offset moves forward inside the message. */
  lemma DecodeNameBounds(msg: Text, off: nat)
    requires DecodeName(msg, off).Ok?
    ensures |DecodeName(msg, off).value.0| <= MAX_NAME
    ensures off < DecodeName(msg, off).value.1 <= |msg|
  {
    var labels, hops := WalkReads(msg, off, [], 0);
    NameAtLabels(msg, off, labels, hops, NO_GAP);
  }

  /** msg' keeps every octet of msg except those of the gap, and may be longer. */
  predicate Keeps(msg: Text, msg': Text, gap: Gap) {
    && |msg| <= |msg'|
    && forall p {:trigger msg'[p]} :: 0 <= p < |msg| && (p < gap.lo || gap.hi <= p) ==> msg'[p] == msg[p]
  }

  lemma ItemKept(msg: Text, msg': Text, off: nat, gap: Gap)
    requires Keeps(msg, msg', gap)
    requires
      match ItemAt(msg, off)
      case Terminator => Clear(gap, off, off + 1)
      case Pointer(_) => Clear(gap, off, off + 2)
      case Label(_, next) => Clear(gap, off, next)
      case _ => false
    ensures ItemAt(msg', off) == ItemAt(msg, off)
  {
    assert msg'[off] == msg[off];
    match ItemAt(msg, off)
    case Terminator =>
    case Pointer(_) => assert msg'[off + 1] == msg[off + 1];
    case Label(text, next) => assert msg'[off + 1..next] == msg[off + 1..next];
  }

  lemma {:induction false} NameAtKept(msg: Text, msg': Text, off: nat, labels: seq<Text>, hops: nat, gap: Gap)
    requires NameAt(msg, off, labels, hops, gap)
    requires Keeps(msg, msg', gap)
    ensures NameAt(msg', off, labels, hops, gap)
    ensures Extent(msg', off) == Extent(msg, off)
    decreases hops, |labels|
  {
    ItemKept(msg, msg', off, gap);
    match ItemAt(msg, off)
    case Terminator =>
    case Pointer(target) => NameAtKept(msg, msg', target, labels, hops - 1, gap);
    case Label(_, next) => NameAtKept(msg, msg', next, labels[1..], hops, gap);
  }

  lemma {:induction false} NameAtForgetGap(msg: Text, off: nat, labels: seq<Text>, hops: nat, gap: Gap)
    requires NameAt(msg, off, labels, hops, gap)
    ensures NameAt(msg, off, labels, hops, NO_GAP)
    decreases hops, |labels|
  {
    match ItemAt(msg, off)
    case Terminator =>
    case Pointer(target) => NameAtForgetGap(msg, target, labels, hops - 1, gap);
    case Label(_, next) => NameAtForgetGap(msg, next, labels[1..], hops, gap);
  }

  /** The decoding loop. Whatever the message, it follows at most 128 pointers and reads at
      most 129 labels, although a pointer target alone gives no decreasing measure: after a
      jump the loop reads forward again, possibly over the pointer it came from. */
  method Decode(msg: Text, start: nat) returns (r: Result<(Text, nat)>, ghost follows: nat, ghost labels: nat)
    ensures r == DecodeName(msg, start)
    ensures r.Ok? ==> |r.value.0| <= MAX_NAME && start < r.value.1 <= |msg|
    ensures follows <= MAX_HOPS
    ensures labels <= 129
  {
    var offset: nat, name: Text, jumped, consumedEnd: nat, hops: nat := start, [], false, 0, 0;
    labels := 0;
    follows := 0;
    while true
      invariant hops <= MAX_HOPS && follows == hops
      invariant |name| <= MAX_NAME && (labels > 0 ==> 2 * labels - 1 <= |name|)
      invariant Walk(msg, offset, name, hops) == Walk(msg, start, [], 0)
      invariant jumped ==> consumedEnd == Extent(msg, start)
      invariant !jumped ==> Extent(msg, start) == Extent(msg, offset)
      decreases MAX_HOPS - hops, |msg| - offset
    {
      match ItemAt(msg, offset)
      case Cut =>
        return Err(Truncated), follows, labels;
      case Reserved =>
        return Err(LabelTooLong), follows, labels;
      case Terminator =>
        if !jumped { consumedEnd := offset + 1; }
        DecodeNameBounds(msg, start);
        return Ok((name, consumedEnd)), follows, labels;
      case Pointer(target) =>
        if !jumped { consumedEnd := offset + 2; }
        if target >= offset {
          return Err(PointerForward), follows, labels;
        }
        if hops + 1 > MAX_HOPS {
          return Err(PointerLoop), follows, labels;
        }
        hops, follows := hops + 1, follows + 1;
        offset, jumped := target, true;
      case Label(text, next) =>
        labels := labels + 1;
        name := Append(name, text);
        offset := next;
        if |name| > MAX_NAME {
          return Err(NameTooLong), follows, labels;
        }
    }
  }
}
