/** What several modules share. */
module Common {
  import opened Bytes

  /** What a C string holds, and what ends it. */
  type Text = seq<byte>

  const NUL: byte := 0

  datatype Option<T> = None | Some(value: T)

  /** s with x at position k and the rest moved up. */
  function InsertedAt<T>(s: seq<T>, k: nat, x: T): (r: seq<T>)
    requires k <= |s|
    ensures |r| == |s| + 1 && r[k] == x
    ensures forall i :: 0 <= i < k ==> r[i] == s[i]
    ensures forall i :: k < i < |r| ==> r[i] == s[i - 1]
  {
    s[..k] + [x] + s[k..]
  }
}
