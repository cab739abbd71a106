/**
  The pointer-drag tracker: one shared state record that the pointer-down,
  pointer-move and pointer-up listeners update in place. Positions are taken
  relative to the element's bounding box, which may be unavailable.
*/
module UseDrag {
  import opened Wrappers

  datatype Position = Position(x: real, y: real)

  /** The top-left corner of the element's bounding client rectangle. */
  datatype Box = Box(left: real, top: real)

  /** The client position relative to the box. */
  function Relative(clientX: real, clientY: real, box: Box): (p: Position)
    ensures p.x + box.left == clientX && p.y + box.top == clientY
  {
    Position(clientX - box.left, clientY - box.top)
  }

  class DragState {
    var isDragging: bool
    var origin: Position
    var current: Position
    var pointerId: int
    var button: int

    /** When no drag is in progress no pointer or button is held. */
    ghost predicate Valid()
      reads this
    {
      !isDragging ==> pointerId == -1 && button == -1
    }

    /** `useDragState`: not dragging, no pointer or button, both positions at the origin. */
    constructor ()
      ensures !isDragging && pointerId == -1 && button == -1
      ensures origin == Position(0.0, 0.0) && current == Position(0.0, 0.0)
      ensures Valid()
    {
      isDragging := false;
      origin := Position(0.0, 0.0);
      current := Position(0.0, 0.0);
      pointerId := -1;
      button := -1;
    }

    /**
      `handlePointerDown`: ignored while a drag is in progress or when the box
      is unavailable; otherwise a drag begins with this pointer and button, and
      both the origin and the current position are the relative client position.
    */
    method PointerDown(id: int, pressed: int, clientX: real, clientY: real, box: Option<Box>)
      requires Valid()
      modifies this
      ensures Valid()
      ensures old(isDragging) || box.None? ==>
                isDragging == old(isDragging) && pointerId == old(pointerId) && button == old(button)
                && origin == old(origin) && current == old(current)
      ensures !old(isDragging) && box.Some? ==>
                isDragging && pointerId == id && button == pressed
                && origin == Relative(clientX, clientY, box.value) && current == origin
    {
      if isDragging {
        return;
      }
      if box.None? {
        return;
      }
      isDragging := true;
      pointerId := id;
      button := pressed;
      origin := Relative(clientX, clientY, box.value);
      current := origin;
    }

    /**
      `handlePointerMove`: only the current position moves, and only during a
      drag by the same pointer with the box available.
    */
    method PointerMove(id: int, clientX: real, clientY: real, box: Option<Box>)
      requires Valid()
      modifies this
      ensures Valid()
      ensures isDragging == old(isDragging) && pointerId == old(pointerId) && button == old(button)
      ensures origin == old(origin)
      ensures current == if old(isDragging) && id == old(pointerId) && box.Some?
                         then Relative(clientX, clientY, box.value) else old(current)
    {
      if !isDragging || id != pointerId {
        return;
      }
      if box.None? {
        return;
      }
      current := Relative(clientX, clientY, box.value);
    }

    /**
      `handlePointerUp`: the drag by the same pointer ends, releasing the
      pointer and button and keeping both positions; any other event changes
      nothing.
    */
    method PointerUp(id: int)
      requires Valid()
      modifies this
      ensures Valid()
      ensures origin == old(origin) && current == old(current)
      ensures old(isDragging) && id == old(pointerId) ==> !isDragging && pointerId == -1 && button == -1
      ensures !(old(isDragging) && id == old(pointerId)) ==>
                isDragging == old(isDragging) && pointerId == old(pointerId) && button == old(button)
    {
      if !isDragging || id != pointerId {
        return;
      }
      isDragging := false;
      pointerId := -1;
      button := -1;
    }
  }
}
