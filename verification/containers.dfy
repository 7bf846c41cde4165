/**
 * The few pieces of the C++ standard library the storage engine leans on:
 * a nullable result (a `T*` that may be `nullptr`) and `std::vector::resize`,
 * together with the doubling rule both World revisions apply before they
 * write past the end of a table.
 */
module Containers {

  /** `T*`: either a location holding a value or `nullptr`. */
  datatype Option<T> = None | Some(value: T)

  /**
   * `v.resize(n, fill)`: the first `min(|s|, n)` elements are kept, the vector
   * is truncated or padded with `fill` up to length `n`.
   */
  function Resize<X>(s: seq<X>, n: nat, fill: X): (r: seq<X>)
    ensures |r| == n
    ensures forall i :: 0 <= i < n && i < |s| ==> r[i] == s[i]
    ensures forall i :: |s| <= i < n ==> r[i] == fill
  {
    if n <= |s| then s[..n] else s + seq(n - |s|, _ => fill)
  }

  /**
   * The growth rule of `prepare_entity_create` and `prepare_component_create`:
   * when the high-water slot count has reached the table's size, the table is
   * resized to twice that count; otherwise it is left alone.
   */
  function Grown<X>(s: seq<X>, count: nat, fill: X): (r: seq<X>)
    ensures count < |s| ==> r == s
    ensures count >= |s| ==> |r| == 2 * count
    ensures |s| <= |r| && r[..|s|] == s
    ensures forall i :: |s| <= i < |r| ==> r[i] == fill
    ensures 0 < count ==> count < |r|
  {
    if count >= |s| then Resize(s, 2 * count, fill) else s
  }
}
