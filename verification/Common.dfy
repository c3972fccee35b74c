/** Bytes, optional values and splicing, shared by the modules that move bytes around. */
module Common {

  newtype byte = x: int | 0 <= x < 256

  datatype Option<T> = None | Some(value: T)

  function Min(a: int, b: int): int { if a < b then a else b }

  /** x written over s from position i on. */
  function Splice<T>(s: seq<T>, i: nat, x: seq<T>): (r: seq<T>)
    requires i + |x| <= |s|
    ensures |r| == |s|
    ensures forall k :: 0 <= k < |s| ==> r[k] == if i <= k < i + |x| then x[k - i] else s[k]
  {
    s[..i] + x + s[i + |x|..]
  }
}
