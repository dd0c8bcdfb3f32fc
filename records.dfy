/** What the record loops of the player and rule decoders share. */
module RecordLoop {

  /** How often `for (let i = 0; i < count; i += 1)` runs: count times, and not at all for a negative count. */
  function Iterations(count: int): nat {
    if count < 0 then 0 else count
  }

  /** A non-empty sequence is its front followed by its last element. */
  lemma SnocSplit<X>(s: seq<X>)
    requires s != []
    ensures s[..|s| - 1] + [s[|s| - 1]] == s
  {
  }
}
