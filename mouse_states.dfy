/**
 * The mouse state cache (Pool/MouseStates.cpp): the last cursor position in
 * window and normalized coordinates, a lock flag that freezes them, and the
 * GLFW cursor mode. MouseStates derives from KeyStates in the source; here
 * it holds its key table as a component that no cursor operation touches.
 */
module MouseInput {
  import opened Geometry
  import opened KeyTables

  /** The cursor part of the state. */
  datatype Cursor = Cursor(position: Vec2, normalizedPosition: Vec2, locked: bool)

  /** `setCursorPos`: store both positions unless the cursor is locked. */
  function CursorSet(c: Cursor, pos: Vec2, normalizedPos: Vec2): (r: Cursor)
    ensures r.locked == c.locked
    ensures c.locked ==> r == c
    ensures !c.locked ==> r.position == pos && r.normalizedPosition == normalizedPos
  {
    if c.locked then c else c.(position := pos, normalizedPosition := normalizedPos)
  }

  /** Setting a position twice is setting it once: the second call stores the same values again. */
  lemma CursorSetIdempotent(c: Cursor, pos: Vec2, normalizedPos: Vec2)
    ensures CursorSet(CursorSet(c, pos, normalizedPos), pos, normalizedPos) == CursorSet(c, pos, normalizedPos)
  {
  }

  /** While locked, any sequence of positions leaves the cache as it was. */
  lemma {:induction false} LockedIgnoresAll(c: Cursor, moves: seq<(Vec2, Vec2)>)
    requires c.locked
    ensures CursorSetAll(c, moves) == c
    decreases |moves|
  {
    if moves != [] {
      LockedIgnoresAll(CursorSet(c, moves[0].0, moves[0].1), moves[1..]);
    }
  }

  /** Unlocked, a sequence of positions leaves the last one in the cache. */
  lemma {:induction false} UnlockedKeepsLast(c: Cursor, moves: seq<(Vec2, Vec2)>)
    requires !c.locked && moves != []
    ensures CursorSetAll(c, moves).position == moves[|moves| - 1].0
    ensures CursorSetAll(c, moves).normalizedPosition == moves[|moves| - 1].1
    decreases |moves|
  {
    if |moves| > 1 {
      UnlockedKeepsLast(CursorSet(c, moves[0].0, moves[0].1), moves[1..]);
    }
  }

  /** The cache after a sequence of `setCursorPos` calls. */
  function CursorSetAll(c: Cursor, moves: seq<(Vec2, Vec2)>): Cursor
    decreases |moves|
  {
    if moves == [] then c else CursorSetAll(CursorSet(c, moves[0].0, moves[0].1), moves[1..])
  }

  class MouseStates {
    const keys: KeyStates
    var cursorPosition: Vec2
    var normalizedCursorPosition: Vec2
    var isCursorLocked: bool
    var cursorMode: int

    function CursorState(): Cursor
      reads this
    {
      Cursor(cursorPosition, normalizedCursorPosition, isCursorLocked)
    }

    /** Unlocked, with an empty key table; positions start at zero and the mode at 0. */
    constructor ()
      ensures !IsCursorLocked()
      ensures fresh(keys) && keys.isKeyDown == map[]
    {
      keys := new KeyStates();
      cursorPosition := Vec2(0.0, 0.0);
      normalizedCursorPosition := Vec2(0.0, 0.0);
      cursorMode := 0;
      isCursorLocked := false;
    }

    function GetCursorPos(): Vec2
      reads this
    {
      cursorPosition
    }

    function GetNormalizedCursorPos(): Vec2
      reads this
    {
      normalizedCursorPosition
    }

    method SetCursorPos(pos: Vec2, normalizedPos: Vec2)
      modifies this
      ensures CursorState() == CursorSet(old(CursorState()), pos, normalizedPos)
      ensures cursorMode == old(cursorMode)
      ensures keys.isKeyDown == old(keys.isKeyDown)
    {
      if !isCursorLocked {
        cursorPosition := pos;
        normalizedCursorPosition := normalizedPos;
      }
    }

    method UnlockCursor()
      modifies this
      ensures !IsCursorLocked()
      ensures GetCursorPos() == old(GetCursorPos()) && GetNormalizedCursorPos() == old(GetNormalizedCursorPos())
      ensures cursorMode == old(cursorMode)
      ensures keys.isKeyDown == old(keys.isKeyDown)
    {
      isCursorLocked := false;
    }

    method LockCursor()
      modifies this
      ensures IsCursorLocked()
      ensures GetCursorPos() == old(GetCursorPos()) && GetNormalizedCursorPos() == old(GetNormalizedCursorPos())
      ensures cursorMode == old(cursorMode)
      ensures keys.isKeyDown == old(keys.isKeyDown)
    {
      isCursorLocked := true;
    }

    predicate IsCursorLocked()
      reads this
    {
      isCursorLocked
    }

    function GetCursorMode(): int
      reads this
    {
      cursorMode
    }

    method SetCursorMode(mode: int)
      modifies this
      ensures GetCursorMode() == mode
      ensures CursorState() == old(CursorState())
      ensures keys.isKeyDown == old(keys.isKeyDown)
    {
      cursorMode := mode;
    }
  }
}
