/** What several of the models share. */
module Common {

  type uint32 = x: int | 0 <= x < 0x1_0000_0000

  /** The sequence without its element at `k`. */
  function Without<T>(s: seq<T>, k: nat): seq<T>
    requires k < |s|
  {
    s[..k] + s[k + 1..]
  }
}
