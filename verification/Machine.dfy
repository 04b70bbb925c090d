/** Machine-level vocabulary shared by every layer: the C integer widths and the
    option and result types that stand for null pointers and error returns. */
module Machine {
  type byte = x: int | 0 <= x < 0x100
  type int32 = x: int | -0x8000_0000 <= x < 0x8000_0000
  type int64 = x: int | -0x8000_0000_0000_0000 <= x < 0x8000_0000_0000_0000

  const INT32_MIN: int := -0x8000_0000
  const INT32_MAX: int := 0x7fff_ffff

  datatype Option<+T> = None | Some(value: T)

  datatype Result<+T, +E> = Ok(value: T) | Err(error: E)

  /** `s` with `x` put in front of position `i`: what a right shift by one followed by a store does. */
  function InsertAt<T>(s: seq<T>, i: nat, x: T): (r: seq<T>)
    requires i <= |s|
    ensures |r| == |s| + 1 && r[i] == x
    ensures forall j :: 0 <= j < i ==> r[j] == s[j]
    ensures forall j :: i < j < |r| ==> r[j] == s[j - 1]
  {
    s[..i] + [x] + s[i..]
  }

  /** Position `p` (from 1) of `s` set to `x`; the position just past the end appends. */
  ghost function Put<T>(s: seq<T>, p: int, x: T): (r: seq<T>)
    requires 1 <= p <= |s| + 1
    ensures |r| == if p <= |s| then |s| else |s| + 1
    ensures forall i :: 0 <= i < |r| ==> r[i] == if i == p - 1 then x else s[i]
  {
    if p <= |s| then s[p - 1 := x] else s + [x]
  }

  /** Always true of `true`.  A definition of the form `forall b :: Seal(b) ==> ...` stays folded in
      proofs that do not mention `Seal(true)`; this keeps large definitions out of the way of proofs
      that only pass them on. */
  ghost predicate Seal(b: bool) {
    b
  }

  /** A second marker of the same kind, for the invariants of objects. */
  ghost predicate Shut(b: bool) {
    b
  }
}
