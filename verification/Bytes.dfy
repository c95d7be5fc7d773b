/** Octets, Go strings as octet sequences, big-endian integers and the result type
    shared by every component of the resolver model. */
module Bytes {
  type byte = b: int | 0 <= b < 256

  /** A Go string or byte slice. */
  type Text = seq<byte>

  type u16 = n: int | 0 <= n < 0x1_0000
  type u32 = n: int | 0 <= n < 0x1_0000_0000

  const DOT: byte := 46
  const STAR: byte := 42

  datatype Option<+T> = None | Some(value: T)

  /** The errors of dns/errors.go that the codec can return. */
  datatype Error = Truncated | BufferFull | NameTooLong | LabelTooLong | PointerLoop | PointerForward

  datatype Result<+T> = Ok(value: T) | Err(error: Error) {
    predicate IsFailure() { Err? }
    function PropagateFailure<U>(): Result<U>
      requires Err?
    {
      Err(error)
    }
    function Extract(): T
      requires Ok?
    {
      value
    }
  }

  function PutU16(v: u16): (r: Text)
    ensures |r| == 2
  {
    [v / 256, v % 256]
  }

  function GetU16(s: Text, at: nat): u16
    requires at + 2 <= |s|
  {
    (s[at] as int) * 256 + (s[at + 1] as int)
  }

  function PutU32(v: u32): (r: Text)
    ensures |r| == 4
  {
    PutU16(v / 0x1_0000) + PutU16(v % 0x1_0000)
  }

  function GetU32(s: Text, at: nat): u32
    requires at + 4 <= |s|
  {
    (GetU16(s, at) as int) * 0x1_0000 + (GetU16(s, at + 2) as int)
  }

  /** ASCII lowercasing: the names of the model are ASCII. */
  function LowerByte(b: byte): byte {
    if 65 <= b <= 90 then b + 32 else b
  }

  /** The capital letters, and only they, become the small ones. */
  lemma LowerByteIs(b: byte)
    ensures 'A' as int <= b <= 'Z' as int ==> LowerByte(b) - 'a' as int == b - 'A' as int
    ensures !('A' as int <= b <= 'Z' as int) ==> LowerByte(b) == b
  {}

  function Lower(s: Text): (r: Text)
    ensures |r| == |s|
    ensures forall i :: 0 <= i < |s| ==> r[i] == LowerByte(s[i])
  {
    seq(|s|, i requires 0 <= i < |s| => LowerByte(s[i]))
  }

  /** strings.TrimSuffix(s, ".") */
  function TrimDot(s: Text): Text {
    if |s| > 0 && s[|s| - 1] == DOT then s[..|s| - 1] else s
  }

  /** strings.HasSuffix */
  predicate HasSuffix(s: Text, t: Text) {
    |t| <= |s| && s[|s| - |t|..] == t
  }
}
