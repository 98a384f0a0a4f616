/**
  Filtering a range of positions in order: the shape of the parser's
  loops that walk the manifest or the spine and append only the entries
  that pass their checks.
 */
module Filter {

  /** The positions `lo`, ..., `hi - 1` at which `keep` holds, in ascending order. */
  function Select(keep: nat -> bool, lo: nat, hi: nat): (r: seq<nat>)
    requires lo <= hi
    ensures |r| <= hi - lo
    ensures forall k :: 0 <= k < |r| ==> lo <= r[k] < hi && keep(r[k])
    ensures forall k, l :: 0 <= k < l < |r| ==> r[k] < r[l]
    ensures forall j :: lo <= j < hi && keep(j) ==> j in r
    decreases hi - lo
  {
    if lo == hi then []
    else (if keep(lo) then [lo] else []) + Select(keep, lo + 1, hi)
  }

  /** The positions `lo`, ..., `hi - 1` at which `keep` fails, in ascending order. */
  function Rejected(keep: nat -> bool, lo: nat, hi: nat): (r: seq<nat>)
    requires lo <= hi
    ensures forall k :: 0 <= k < |r| ==> lo <= r[k] < hi && !keep(r[k])
    ensures forall j :: lo <= j < hi && !keep(j) ==> j in r
  {
    Select((j: nat) => !keep(j), lo, hi)
  }

  /** Every position is either selected or rejected, never both, never neither. */
  lemma {:induction false} SelectPartition(keep: nat -> bool, lo: nat, hi: nat)
    requires lo <= hi
    ensures |Select(keep, lo, hi)| + |Rejected(keep, lo, hi)| == hi - lo
    decreases hi - lo
  {
    if lo < hi {
      SelectPartition(keep, lo + 1, hi);
    }
  }
}
