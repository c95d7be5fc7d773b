/** Writing domain names with compression (dns/name.go, EncodeName).

    `W` is the value of a wireWriter: the octets written and the suffix table. */
module Compression {
  import opened Bytes
  import opened Labels
  import opened NameWire

  const MAX_POINTER: nat := 0x3FFF

  datatype W = W(bytes: Text, table: map<Text, nat>)

  /** wireWriter.writeBytes into a buffer of cap octets. */
  function Put(w: W, data: Text, cap: nat): Result<W> {
    if cap - |w.bytes| < |data| then Err(BufferFull) else Ok(w.(bytes := w.bytes + data))
  }

  function PointerTo(off: nat): Text
    requires off < MAX_POINTER
  {
    PutU16(0xC000 + off)
  }

  /** The suffix has a recorded offset that a pointer can carry. */
  predicate Known(w: W, suffix: Text) {
    suffix in w.table && w.table[suffix] < MAX_POINTER
  }

  /** The loop of EncodeName from some label on. */
  function Emit(w: W, labels: seq<Text>, cap: nat): (r: Result<W>)
    ensures r.Ok? ==> w.bytes <= r.value.bytes && |r.value.bytes| <= cap
    decreases |labels|
  {
    if labels == [] then Put(w, [0], cap)
    else if Known(w, Join(labels)) then Put(w, PointerTo(w.table[Join(labels)]), cap)
    else
      var w1 := w.(table := w.table[Join(labels) := |w.bytes|]);
      if |labels[0]| > MAX_LABEL then Err(LabelTooLong)
      else
        var w2 :- Put(w1, [|labels[0]|], cap);
        var w3 :- Put(w2, labels[0], cap);
        Emit(w3, labels[1..], cap)
  }

  function EncodeName(w: W, name: Text, cap: nat): (r: Result<W>)
    ensures r.Ok? ==> w.bytes <= r.value.bytes && |r.value.bytes| <= cap
  {
    if name == [] || name == [DOT] then Put(w, [0], cap)
    else if Known(w, name) then Put(w, PointerTo(w.table[name]), cap)
    else Emit(w, SplitLabels(name), cap)
  }

  /** The uncompressed form; byte(len(label)) wraps as in the source. */
  function PlainName(labels: seq<Text>): (r: Text)
    ensures |r| >= 1
  {
    if labels == [] then [0] else [|labels[0]| % 256] + labels[0] + PlainName(labels[1..])
  }

  /** The octets at off spell labels, and fewer pointers than labels are needed to read them. */
  ghost predicate Recorded(bytes: Text, off: nat, labels: seq<Text>, gap: Gap) {
    exists hops: nat :: hops < |labels| && NameAt(bytes, off, labels, hops, gap)
  }

  /** Every suffix in the table still decodes at its offset to that suffix. */
  ghost predicate TableOk(w: W, gap: Gap) {
    forall k {:trigger w.table[k]} | k in w.table :: Recorded(w.bytes, w.table[k], Split(k), gap)
  }

  lemma RecordedKept(bytes: Text, bytes': Text, off: nat, labels: seq<Text>, gap: Gap)
    requires Recorded(bytes, off, labels, gap) && Keeps(bytes, bytes', gap)
    ensures Recorded(bytes', off, labels, gap)
  {
    var hops: nat :| hops < |labels| && NameAt(bytes, off, labels, hops, gap);
    NameAtKept(bytes, bytes', off, labels, hops, gap);
  }

  lemma TableKept(w: W, w': W, gap: Gap)
    requires TableOk(w, gap) && Keeps(w.bytes, w'.bytes, gap) && w'.table == w.table
    ensures TableOk(w', gap)
  {
    forall k | k in w'.table ensures Recorded(w'.bytes, w'.table[k], Split(k), gap) {
      RecordedKept(w.bytes, w'.bytes, w.table[k], Split(k), gap);
    }
  }

  lemma PrefixKeeps(a: Text, b: Text, gap: Gap)
    requires a <= b
    ensures Keeps(a, b, gap)
  {}

  /** The writer once the first label is out. */
  function AfterLabel(w: W, labels: seq<Text>): W
    requires labels != [] && |labels[0]| <= MAX_LABEL
  {
    W(w.bytes + [|labels[0]|] + labels[0], w.table[Join(labels) := |w.bytes|])
  }

  lemma ItemIsLabel(msg: Text, head: Text, l: Text)
    requires 1 <= |l| <= MAX_LABEL
    requires head + [|l|] + l <= msg
    ensures ItemAt(msg, |head|) == Label(l, |head| + 1 + |l|)
  {
    var run := head + [|l|] + l;
    assert msg[|head|] == run[|head|] == |l|;
    assert msg[|head| + 1..|run|] == run[|head| + 1..] == l;
  }

  lemma PrependLabel(msg: Text, head: Text, l: Text, rest: seq<Text>, hops: nat, gap: Gap)
    requires 1 <= |l| <= MAX_LABEL
    requires head + [|l|] + l <= msg
    requires gap.hi <= |head|
    requires NameAt(msg, |head| + 1 + |l|, rest, hops, gap)
    ensures NameAt(msg, |head|, [l] + rest, hops, gap)
    ensures Extent(msg, |head|) == Extent(msg, |head| + 1 + |l|)
  {
    ItemIsLabel(msg, head, l);
    assert ([l] + rest)[1..] == rest;
  }

  lemma ItemIsPointer(head: Text, off: nat)
    requires off < MAX_POINTER
    ensures ItemAt(head + PointerTo(off), |head|) == Pointer(off)
  {
    var msg := head + PointerTo(off);
    assert msg[|head|] == 192 + off / 256 && msg[|head| + 1] == off % 256;
  }

  /** What a successful run of the loop leaves behind: the labels can be read back where they
      were written, and each table entry is an old one or a suffix readable at its offset. */
  ghost predicate ReadBack(w: W, w': W, labels: seq<Text>, hops: nat, gap: Gap) {
    && w.bytes <= w'.bytes
    && hops <= |labels|
    && NameAt(w'.bytes, |w.bytes|, labels, hops, gap)
    && Extent(w'.bytes, |w.bytes|) == |w'.bytes|
    && |w'.bytes| <= |w.bytes| + |PlainName(labels)|
    && forall k {:trigger w'.table[k]} | k in w'.table ::
         (k in w.table && w'.table[k] == w.table[k]) || Recorded(w'.bytes, w'.table[k], Split(k), gap)
  }

  /** The table entries that a name of at most n labels can use are readable. */
  ghost predicate TableOkUpTo(w: W, n: nat, gap: Gap) {
    forall k {:trigger w.table[k]} | k in w.table && |Split(k)| <= n :: Recorded(w.bytes, w.table[k], Split(k), gap)
  }

  lemma {:induction false} EmitSound(w: W, labels: seq<Text>, cap: nat, gap: Gap) returns (hops: nat)
    requires Emit(w, labels, cap).Ok?
    requires AllNonEmpty(labels) && AllDotFree(labels)
    requires gap.hi <= |w.bytes|
    requires TableOkUpTo(w, |labels|, gap)
    ensures ReadBack(w, Emit(w, labels, cap).value, labels, hops, gap)
    decreases |labels|
  {
    if labels == [] {
      hops := 0;
    } else {
      SplitJoin(labels);
      if Known(w, Join(labels)) {
        hops := EmitPointer(w, labels, gap);
      } else {
        var w3 := AfterLabel(w, labels);
        UpToAfterLabel(w, labels, gap);
        hops := EmitSound(w3, labels[1..], cap, gap);
        LabelReadBack(w, Emit(w, labels, cap).value, labels, hops, gap);
      }
    }
  }

  lemma UpToAfterLabel(w: W, labels: seq<Text>, gap: Gap)
    requires labels != [] && |labels[0]| <= MAX_LABEL && Split(Join(labels)) == labels
    requires TableOkUpTo(w, |labels|, gap)
    ensures TableOkUpTo(AfterLabel(w, labels), |labels[1..]|, gap)
  {
    var w3 := AfterLabel(w, labels);
    forall k | k in w3.table && |Split(k)| <= |labels[1..]|
      ensures Recorded(w3.bytes, w3.table[k], Split(k), gap)
    {
      PrefixKeeps(w.bytes, w3.bytes, gap);
      RecordedKept(w.bytes, w3.bytes, w.table[k], Split(k), gap);
    }
  }

  lemma LabelReadBack(w: W, w': W, labels: seq<Text>, hops: nat, gap: Gap)
    requires labels != [] && 1 <= |labels[0]| <= MAX_LABEL && Split(Join(labels)) == labels
    requires gap.hi <= |w.bytes|
    requires ReadBack(AfterLabel(w, labels), w', labels[1..], hops, gap)
    ensures ReadBack(w, w', labels, hops, gap)
  {
    hide NameAt, Extent, Split, Join;
    var w3 := AfterLabel(w, labels);
    assert w.bytes <= w'.bytes by { assert w'.bytes[..|w.bytes|] == w3.bytes[..|w.bytes|] == w.bytes; }
    PrependLabel(w'.bytes, w.bytes, labels[0], labels[1..], hops, gap);
    assert [labels[0]] + labels[1..] == labels;
    assert Recorded(w'.bytes, |w.bytes|, labels, gap);
  }

  lemma EmitPointer(w: W, labels: seq<Text>, gap: Gap) returns (hops: nat)
    requires labels != [] && AllDotFree(labels) && Known(w, Join(labels))
    requires gap.hi <= |w.bytes|
    requires Recorded(w.bytes, w.table[Join(labels)], Split(Join(labels)), gap)
    ensures hops <= |labels|
    ensures NameAt(w.bytes + PointerTo(w.table[Join(labels)]), |w.bytes|, labels, hops, gap)
    ensures Extent(w.bytes + PointerTo(w.table[Join(labels)]), |w.bytes|) == |w.bytes| + 2
    ensures 2 <= |PlainName(labels)|
  {
    SplitJoin(labels);
    var off := w.table[Join(labels)];
    var h: nat :| h < |labels| && NameAt(w.bytes, off, labels, h, gap);
    ItemIsPointer(w.bytes, off);
    NameAtKept(w.bytes, w.bytes + PointerTo(off), off, labels, h, gap);
    hops := h + 1;
  }

  // ---- EncodeName as a whole ----

  /** The names EncodeName is meant for: the root, or non-empty labels within 255 octets. */
  predicate WellFormedName(name: Text) {
    AllNonEmpty(SplitLabels(name)) && |TrimDot(name)| <= MAX_NAME
  }

  /** The compression invariant: encoding a name with no empty label keeps every table entry
      readable and makes the name readable where it was written, over no more pointers than it
      has labels, in exactly the octets written and no more of them than its plain form. */
  lemma EncodeNameSound(w: W, name: Text, cap: nat, gap: Gap) returns (hops: nat)
    requires TableOk(w, gap) && gap.hi <= |w.bytes|
    requires AllNonEmpty(SplitLabels(name))
    requires EncodeName(w, name, cap).Ok?
    ensures ReadBack(w, EncodeName(w, name, cap).value, SplitLabels(name), hops, gap)
    ensures TableOk(EncodeName(w, name, cap).value, gap)
  {
    var w' := EncodeName(w, name, cap).value;
    var labels := SplitLabels(name);
    SplitLabelsFacts(name);
    if name == [] || name == [DOT] {
      hops := 0;
    } else {
      if Known(w, name) { KnownIsUndotted(w, name, gap); }
      hops := EmitSound(w, labels, cap, gap);
    }
    PrefixKeeps(w.bytes, w'.bytes, gap);
    forall k | k in w'.table ensures Recorded(w'.bytes, w'.table[k], Split(k), gap) {
      if k in w.table && w'.table[k] == w.table[k] {
        RecordedKept(w.bytes, w'.bytes, w.table[k], Split(k), gap);
      }
    }
  }

  /** A readable table holds no name with an empty label, hence none that ends in a dot. */
  lemma KnownIsUndotted(w: W, name: Text, gap: Gap)
    requires TableOk(w, gap) && name in w.table
    ensures AllNonEmpty(Split(name))
    ensures name != [] && TrimDot(name) == name
  {
    assert Recorded(w.bytes, w.table[name], Split(name), gap);
    var hops: nat :| hops < |Split(name)| && NameAt(w.bytes, w.table[name], Split(name), hops, gap);
    NameAtLabels(w.bytes, w.table[name], Split(name), hops, gap);
    if name != [] && name[|name| - 1] == DOT { TrailingDot(name); }
  }

  lemma TrailingDot(name: Text)
    requires name != [] && name[|name| - 1] == DOT
    ensures !AllNonEmpty(Split(name))
  {
    hide Split;
    var head := name[..|name| - 1];
    assert name == head + [DOT] + [];
    SplitConcat(head, []);
    SplitOfDotFree([]);
    assert Split(name)[|Split(name)| - 1] == [];
  }

  /** Reading back, whatever is appended or patched into the gap later. */
  lemma ReadBackDecodes(w: W, w': W, labels: seq<Text>, hops: nat, gap: Gap, msg: Text)
    requires ReadBack(w, w', labels, hops, gap) && Keeps(w'.bytes, msg, gap)
    requires |Join(labels)| <= MAX_NAME
    ensures DecodeName(msg, |w.bytes|) == Ok((Join(labels), |w'.bytes|))
  {
    NameAtKept(w'.bytes, msg, |w.bytes|, labels, hops, gap);
    NameAtForgetGap(msg, |w.bytes|, labels, hops, gap);
    NameAtLabels(msg, |w.bytes|, labels, hops, NO_GAP);
    JoinLength(labels);
    DecodeNameOf(msg, |w.bytes|, labels, hops);
  }

  /** A malformed name is written up to its first empty label, which reads as the terminator. */
  lemma {:induction false} EmitStopsAtEmpty(w: W, labels: seq<Text>, k: nat, cap: nat)
    requires Emit(w, labels, cap).Ok?
    requires k < |labels| && labels[k] == [] && AllNonEmpty(labels[..k]) && AllDotFree(labels)
    requires forall s | s in w.table && |Split(s)| <= |labels| :: AllNonEmpty(Split(s))
    ensures NameAt(Emit(w, labels, cap).value.bytes, |w.bytes|, labels[..k], 0, NO_GAP)
    decreases |labels|
  {
    hide Emit, Split, Join;
    NotKnown(w, labels, k);
    EmitFirst(w, labels, cap);
    var w3 := AfterLabel(w, labels);
    var bytes := Emit(w, labels, cap).value.bytes;
    if k == 0 {
      assert bytes[|w.bytes|] == w3.bytes[|w.bytes|] == 0;
    } else {
      var rest := labels[1..];
      assert rest[..k - 1] == labels[..k][1..];
      EmitStopsAtEmpty(w3, rest, k - 1, cap);
      PrependLabel(bytes, w.bytes, labels[0], rest[..k - 1], 0, NO_GAP);
      assert [labels[0]] + rest[..k - 1] == labels[..k];
    }
  }

  lemma NotKnown(w: W, labels: seq<Text>, k: nat)
    requires k < |labels| && labels[k] == [] && AllDotFree(labels)
    requires forall s | s in w.table && |Split(s)| <= |labels| :: AllNonEmpty(Split(s))
    ensures !Known(w, Join(labels))
    ensures |labels[0]| <= MAX_LABEL ==>
              forall s | s in AfterLabel(w, labels).table && |Split(s)| < |labels| :: AllNonEmpty(Split(s))
  {
    SplitJoin(labels);
    assert !AllNonEmpty(labels);
  }

  lemma EmitFirst(w: W, labels: seq<Text>, cap: nat)
    requires labels != [] && !Known(w, Join(labels)) && Emit(w, labels, cap).Ok?
    ensures |labels[0]| <= MAX_LABEL
    ensures Emit(w, labels, cap) == Emit(AfterLabel(w, labels), labels[1..], cap)
    ensures AfterLabel(w, labels).bytes <= Emit(w, labels, cap).value.bytes
  {}

  /** The round trip, exactly: what was written decodes to the name, without its trailing dot,
      and to the end of what was written, if and only if the name is well formed. EncodeName
      itself rejects neither an empty label nor an over-long name. */
  lemma EncodeRoundTripIff(w: W, name: Text, cap: nat)
    requires TableOk(w, NO_GAP)
    requires EncodeName(w, name, cap).Ok?
    ensures DecodeName(EncodeName(w, name, cap).value.bytes, |w.bytes|)
              == Ok((TrimDot(name), |EncodeName(w, name, cap).value.bytes|))
       <==> WellFormedName(name)
  {
    var w' := EncodeName(w, name, cap).value;
    var labels := SplitLabels(name);
    SplitLabelsFacts(name);
    if AllNonEmpty(labels) {
      var hops := EncodeNameSound(w, name, cap, NO_GAP);
      if |TrimDot(name)| <= MAX_NAME {
        ReadBackDecodes(w, w', labels, hops, NO_GAP, w'.bytes);
      } else if DecodeName(w'.bytes, |w.bytes|).Ok? {
        DecodeNameBounds(w'.bytes, |w.bytes|);
      }
    } else {
      EmptyLabelIsLost(w, name, cap);
    }
  }

  lemma EmptyLabelIsLost(w: W, name: Text, cap: nat)
    requires TableOk(w, NO_GAP)
    requires EncodeName(w, name, cap).Ok?
    requires !AllNonEmpty(SplitLabels(name))
    ensures var d := DecodeName(EncodeName(w, name, cap).value.bytes, |w.bytes|);
            d.Ok? ==> |d.value.0| < |TrimDot(name)|
  {
    var labels := SplitLabels(name);
    SplitLabelsFacts(name);
    if Known(w, name) { KnownIsUndotted(w, name, NO_GAP); }
    var k := FirstEmpty(labels);
    forall s | s in w.table ensures AllNonEmpty(Split(s)) { KnownIsUndotted(w, s, NO_GAP); }
    EmitStopsAtEmpty(w, labels, k, cap);
    var bytes := EncodeName(w, name, cap).value.bytes;
    if DecodeName(bytes, |w.bytes|).Ok? {
      var ls, hops := WalkReads(bytes, |w.bytes|, [], 0);
      NameAtUnique(bytes, |w.bytes|, ls, hops, labels[..k], 0);
      AppendAllIsJoin([], ls);
      JoinPrefixShorter(labels, k);
    }
  }

  lemma FirstEmpty(labels: seq<Text>) returns (k: nat)
    requires !AllNonEmpty(labels)
    ensures k < |labels| && labels[k] == [] && AllNonEmpty(labels[..k])
  {
    k := 0;
    while labels[k] != []
      invariant k < |labels| && AllNonEmpty(labels[..k])
      invariant exists i :: k <= i < |labels| && labels[i] == []
      decreases |labels| - k
    {
      k := k + 1;
    }
  }

  lemma JoinPrefixShorter(labels: seq<Text>, k: nat)
    requires k < |labels| && (k > 0 || Join(labels) != [])
    ensures |Join(labels[..k])| < |Join(labels)|
  {
    if k > 0 {
      JoinConcat(labels[..k], labels[k..]);
      assert labels == labels[..k] + labels[k..];
    }
  }

  /** The encoder refuses nothing else: labels of at most 63 octets whose plain form fits the
      buffer are always written, empty or not. */
  lemma {:induction false} EmitAccepts(w: W, labels: seq<Text>, cap: nat)
    requires |w.bytes| + |PlainName(labels)| <= cap
    requires forall i :: 0 <= i < |labels| ==> |labels[i]| <= MAX_LABEL
    ensures Emit(w, labels, cap).Ok?
    decreases |labels|
  {
    hide Join;
    if labels != [] && !Known(w, Join(labels)) {
      EmitAccepts(AfterLabel(w, labels), labels[1..], cap);
    }
  }

  /** A name with an empty label that is encoded without an error and does not come back. */
  lemma EmptyLabelCounterexample()
    ensures var w := EncodeName(W([], map[]), [DOT, 98], 512);
            w.Ok? && DecodeName(w.value.bytes, 0) != Ok(([DOT, 98], |w.value.bytes|))
  {
    hide Emit, Join;
    var name: Text := [DOT, 98];
    var w0 := W([], map[]);
    assert name == [] + [DOT] + [98];
    SplitConcat([], [98]);
    SplitOfDotFree([98]);
    var labels := SplitLabels(name);
    assert labels == [[], [98]];
    var last: seq<Text> := labels[1..];
    assert last == [[98]] && last[1..] == [];
    assert |PlainName(last)| == 2 + |PlainName(last[1..])| == 3;
    assert |PlainName(labels)| == 1 + |PlainName(last)|;
    EmitAccepts(w0, labels, 512);
    assert labels[0] == [];
    EncodeRoundTripIff(w0, name, 512);
  }
}
