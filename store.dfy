/// The environment's store of truth tables: an append-only list of tables
/// and the index of the current one, -1 while the list is empty.
module Stores {
  import opened Bits

  class Store {
    var tables: seq<Bits>
    var index: int

    ghost predicate Valid()
      reads this
    {
      -1 <= index < |tables| && (index == -1 <==> tables == [])
    }

    constructor ()
      ensures Valid()
      ensures tables == [] && index == -1
    {
      tables := [];
      index := -1;
    }

    /// `extend()`: append a default (empty) table and make it current.
    method Extend()
      requires Valid()
      modifies this
      ensures Valid()
      ensures tables == old(tables) + [[]]
      ensures index == |old(tables)|
    {
      tables := tables + [[]];
      index := |tables| - 1;
    }

    /// `current()` read as a value.
    function Current(): (t: Bits)
      reads this
      requires Valid() && index >= 0
      ensures t in tables && t == tables[index]
    {
      tables[index]
    }

    /// `current() = t`: overwrite the current slot; no other slot changes.
    method SetCurrent(t: Bits)
      requires Valid() && index >= 0
      modifies this
      ensures Valid()
      ensures tables == old(tables)[old(index) := t]
      ensures index == old(index)
    {
      tables := tables[index := t];
    }
  }
}
