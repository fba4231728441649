/** The key-held table (Pool/KeyStates.cpp): an ordered map from key code to held flag. */
module KeyTables {

  /** `isKeyHeldDown` on a table: a key with no entry is not held; otherwise the entry says. */
  predicate HeldIn(table: map<int, bool>, key: int) {
    if key !in table then false else table[key]
  }

  /** A key the table has never seen reports not held. */
  lemma UnseenKeyNotHeld(table: map<int, bool>, key: int)
    requires key !in table
    ensures !HeldIn(table, key)
  {
  }

  /** Writing one key's flag makes that key report it and leaves every other key's report as it was. */
  lemma WriteAffectsOnlyThatKey(table: map<int, bool>, key: int, down: bool, other: int)
    ensures HeldIn(table[key := down], key) == down
    ensures other != key ==> HeldIn(table[key := down], other) == HeldIn(table, other)
  {
  }

  class KeyStates {
    var isKeyDown: map<int, bool>

    constructor ()
      ensures isKeyDown == map[]
      ensures forall key :: !IsKeyHeldDown(key)
    {
      isKeyDown := map[];
    }

    /** A lookup that never inserts: the table is read, not changed. */
    predicate IsKeyHeldDown(key: int)
      reads this
    {
      HeldIn(isKeyDown, key)
    }

    method SetKeyPressed(key: int)
      modifies this
      ensures isKeyDown == old(isKeyDown)[key := true]
      ensures IsKeyHeldDown(key)
      ensures forall other :: other != key ==> IsKeyHeldDown(other) == old(IsKeyHeldDown(other))
    {
      isKeyDown := isKeyDown[key := true];
    }

    method SetKeyReleased(key: int)
      modifies this
      ensures isKeyDown == old(isKeyDown)[key := false]
      ensures !IsKeyHeldDown(key)
      ensures forall other :: other != key ==> IsKeyHeldDown(other) == old(IsKeyHeldDown(other))
    {
      isKeyDown := isKeyDown[key := false];
    }
  }
}
