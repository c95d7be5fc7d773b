/** Dotted text and label sequences: strings.Split and strings.Join on "." and how they
    undo each other, which lets every other module reason about labels. */
module Labels {
  import opened Bytes

  predicate DotFree(l: Text) {
    DOT !in l
  }

  predicate AllDotFree(ls: seq<Text>) {
    forall i :: 0 <= i < |ls| ==> DotFree(ls[i])
  }

  predicate AllNonEmpty(ls: seq<Text>) {
    forall i :: 0 <= i < |ls| ==> ls[i] != []
  }

  /** The split of a text whose first octet is c and whose remainder splits into rest. */
  function Glue(c: byte, rest: seq<Text>): (ls: seq<Text>)
    requires |rest| >= 1
    ensures |ls| >= 1
  {
    if c == DOT then [[]] + rest else [[c] + rest[0]] + rest[1..]
  }

  /** strings.Split(s, "."): at least one, possibly empty, label. */
  function Split(s: Text): (ls: seq<Text>)
    ensures |ls| >= 1
  {
    if s == [] then [[]] else Glue(s[0], Split(s[1..]))
  }

  /** strings.Join(ls, ".") */
  function Join(ls: seq<Text>): Text {
    if |ls| == 0 then []
    else if |ls| == 1 then ls[0]
    else ls[0] + [DOT] + Join(ls[1..])
  }

  /** dns/name.go splitLabels: the root has no labels. */
  function SplitLabels(name: Text): seq<Text> {
    var t := TrimDot(name);
    if t == [] then [] else Split(t)
  }

  lemma {:induction false} JoinSplit(s: Text)
    ensures Join(Split(s)) == s
    ensures AllDotFree(Split(s))
  {
    if s != [] {
      JoinSplit(s[1..]);
      var rest := Split(s[1..]);
      if s[0] == DOT {
        assert ([[]] + rest)[1..] == rest;
      } else {
        assert ([[s[0]] + rest[0]] + rest[1..])[1..] == rest[1..];
      }
    }
  }

  lemma GlueConcat(c: byte, a: seq<Text>, b: seq<Text>)
    requires |a| >= 1
    ensures Glue(c, a + b) == Glue(c, a) + b
  {
    assert (a + b)[1..] == a[1..] + b;
  }

  /** Splitting at a dot that the text already shows. */
  lemma {:induction false} SplitConcat(a: Text, b: Text)
    ensures Split(a + [DOT] + b) == Split(a) + Split(b)
  {
    var s := a + [DOT] + b;
    if a == [] {
      assert s[1..] == b;
    } else {
      hide Glue;
      assert s[1..] == a[1..] + [DOT] + b;
      SplitConcat(a[1..], b);
      GlueConcat(a[0], Split(a[1..]), Split(b));
    }
  }

  lemma {:induction false} SplitOfDotFree(l: Text)
    requires DotFree(l)
    ensures Split(l) == [l]
  {
    if l != [] {
      SplitOfDotFree(l[1..]);
      assert [l[0]] + l[1..] == l;
    }
  }

  lemma {:induction false} SplitJoin(ls: seq<Text>)
    requires |ls| >= 1
    requires AllDotFree(ls)
    ensures Split(Join(ls)) == ls
  {
    SplitOfDotFree(ls[0]);
    if |ls| > 1 {
      SplitJoin(ls[1..]);
      SplitConcat(ls[0], Join(ls[1..]));
    }
  }

  /** Split inverts Join exactly on the label sequences without a dot inside a label. */
  lemma SplitJoinIff(ls: seq<Text>)
    requires |ls| >= 1
    ensures Split(Join(ls)) == ls <==> AllDotFree(ls)
  {
    if AllDotFree(ls) { SplitJoin(ls); }
    JoinSplit(Join(ls));
  }

  lemma {:induction false} JoinConcat(a: seq<Text>, b: seq<Text>)
    requires |a| >= 1 && |b| >= 1
    ensures Join(a + b) == Join(a) + [DOT] + Join(b)
  {
    if |a| == 1 {
      assert (a + b)[1..] == b;
    } else {
      assert (a + b)[1..] == a[1..] + b;
      JoinConcat(a[1..], b);
    }
  }

  /** A text of n non-empty labels has at least 2n - 1 octets. */
  lemma {:induction false} JoinLength(ls: seq<Text>)
    requires AllNonEmpty(ls)
    ensures 2 * |ls| - 1 <= |Join(ls)|
  {
    if |ls| > 1 { JoinLength(ls[1..]); }
  }

  lemma SplitLabelsFacts(name: Text)
    ensures Join(SplitLabels(name)) == TrimDot(name)
    ensures AllDotFree(SplitLabels(name))
  {
    JoinSplit(TrimDot(name));
  }

  /** The labels of z are the last labels of n. */
  predicate LabelSuffix(n: seq<Text>, z: seq<Text>) {
    |z| <= |n| && n[|n| - |z|..] == z
  }

  /** security/bailiwick.go InZone */
  predicate InZone(name: Text, zone: Text) {
    zone == [] || name == zone || HasSuffix(name, [DOT] + zone)
  }

  /** The textual suffix test decides the tree relation: name is at or below zone. */
  lemma InZoneIsLabelSuffix(name: Text, zone: Text)
    requires zone != []
    ensures InZone(name, zone) <==> LabelSuffix(Split(name), Split(zone))
  {
    hide Split;
    if name == zone || HasSuffix(name, [DOT] + zone) { InZoneGivesSuffix(name, zone); }
    if LabelSuffix(Split(name), Split(zone)) { SuffixGivesInZone(name, zone); }
  }

  lemma InZoneGivesSuffix(name: Text, zone: Text)
    requires name == zone || HasSuffix(name, [DOT] + zone)
    ensures LabelSuffix(Split(name), Split(zone))
  {
    hide Split;
    if name != zone {
      var p := name[..|name| - |zone| - 1];
      assert name == p + [DOT] + zone;
      SplitConcat(p, zone);
    }
  }

  lemma SuffixGivesInZone(name: Text, zone: Text)
    requires LabelSuffix(Split(name), Split(zone))
    ensures name == zone || HasSuffix(name, [DOT] + zone)
  {
    hide Split, Join;
    var n, z := Split(name), Split(zone);
    JoinSplit(name);
    JoinSplit(zone);
    var p := n[..|n| - |z|];
    assert n == p + z;
    if p != [] {
      JoinConcat(p, z);
      assert name[|name| - |zone| - 1..] == [DOT] + zone;
    }
  }

  lemma InZoneTransitive(a: Text, b: Text, c: Text)
    requires InZone(a, b) && InZone(b, c)
    ensures InZone(a, c)
  {
    if c != [] && a != b && b != c && b != [] {
      var t := [DOT] + c;
      assert a[|a| - |t|..] == a[|a| - |b| - 1..][|b| + 1 - |t|..];
      assert ([DOT] + b)[|b| + 1 - |t|..] == b[|b| - |t|..];
    }
  }
}
