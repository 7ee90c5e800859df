/** The name dispatch both `createPlayer` functions use: a linear search of
    a fixed table of type names, whose position selects the player kind. */
module Dispatch {
  /** The position of the first entry equal to `t`, or the table size when
      there is none (the `for (pos = 0; ...)` search). */
  function Lookup(types: seq<string>, t: string): (pos: nat)
    ensures pos <= |types|
    ensures pos < |types| ==> types[pos] == t
    ensures forall j :: 0 <= j < pos ==> types[j] != t
  {
    if |types| == 0 then 0
    else if types[0] == t then 0
    else 1 + Lookup(types[1..], t)
  }

}
