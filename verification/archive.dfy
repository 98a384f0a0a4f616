/**
  The opened e-book archive, reduced to what the parser reads from it: a
  lookup from stored entry name to the entry's bytes. Opening the ZIP
  container and streaming its entries are not part of this model.
 */
module Archive {

  /** One octet, as stored in an archive entry. */
  type byte = x: int | 0 <= x < 256

  /** Stored entry name (case-sensitive, '/'-separated) to entry content. */
  type Files = map<string, seq<byte>>

  /** A Go string is a byte string; here each char stands for one byte. */
  predicate IsByteString(s: string)
  {
    forall i :: 0 <= i < |s| ==> s[i] as int < 256
  }

  /** Go's `string(data)` conversion: one char per byte, nothing decoded. */
  function Text(data: seq<byte>): (s: string)
    ensures |s| == |data|
    ensures IsByteString(s)
    ensures forall i :: 0 <= i < |data| ==> s[i] as int == data[i]
  {
    seq(|data|, i requires 0 <= i < |data| => data[i] as char)
  }
}
