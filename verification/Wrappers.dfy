/** The datatypes and list operations shared by the modules of the model. */
module Wrappers {
  datatype Option<+T> = None | Some(value: T)

  /** The Go pair (value, error): exactly one of the two is meaningful. */
  datatype Result<+T, +E> = Ok(value: T) | Err(error: E)

  /** core.PeerID: a byte string. */
  type PeerId = string

  /** No entry occurs twice. */
  predicate Distinct<T(==)>(s: seq<T>) {
    forall i, j :: 0 <= i < j < |s| ==> s[i] != s[j]
  }

  /** The list without its entry at i, as the idiom append(s[:i], s[i+1:]...) leaves it. */
  function Without<T>(s: seq<T>, i: nat): seq<T>
    requires i < |s|
  {
    s[..i] + s[i + 1..]
  }

  function Pow2(k: nat): (r: nat)
    ensures r > 0
  {
    if k == 0 then 1 else 2 * Pow2(k - 1)
  }
}
