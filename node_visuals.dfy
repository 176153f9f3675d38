/** The base of every pedigree node's graphics (AbstractNodeVisuals): where the node sits
    on the canvas and whether it is grown or selected. Drawing is done by subclasses and
    by the vector-graphics library, neither of which is part of this model. */
module NodeVisuals {
  import opened Common

  /** A completion callback passed to setPos; it counts how often it was called. */
  class Callback {
    var invocations: nat

    constructor ()
      ensures invocations == 0
    {
      invocations := 0;
    }

    method Invoke()
      modifies this
      ensures invocations == old(invocations) + 1
    {
      invocations := invocations + 1;
    }
  }

  /** The hoverbox attached to a node; the base class never creates one. */
  datatype HoverBox = HoverBox(id: nat)

  /** The menu of a node; the base class has none. */
  datatype NodeMenu = NodeMenu(id: nat)

  class AbstractNodeVisuals<Node> {
    const node: Node
    var absoluteX: real
    var absoluteY: real
    var hoverBox: Option<HoverBox>
    var grown: bool
    /** `None` until setSelected is first called: the field starts out undefined. */
    var selected: Option<bool>

    constructor (node: Node, x: real, y: real)
      ensures this.node == node
      ensures GetX() == x && GetY() == y
      ensures GetHoverBox().None? && !IsGrown() && IsSelected().None?
    {
      this.node := node;
      absoluteX := x;
      absoluteY := y;
      hoverBox := None;
      grown := false;
      selected := None;
    }

    function GetNode(): Node { node }

    function GetX(): real reads this { absoluteX }

    function GetY(): real reads this { absoluteY }

    /** The lowest point of the node's graphic; the base class has no extent below its centre. */
    function GetBottomY(): (bottom: real)
      reads this
      ensures bottom == GetY()
    {
      absoluteY
    }

    function IsGrown(): bool reads this { grown }

    function IsSelected(): Option<bool> reads this { selected }

    function GetHoverBox(): Option<HoverBox> reads this { hoverBox }

    /** The base class has no menu. */
    method GetNodeMenu() returns (menu: Option<NodeMenu>)
      ensures menu.None?
    {
      menu := None;
    }

    /** The base class covers no point of the canvas. */
    method ContainsXY(x: real, y: real) returns (contains: bool)
      ensures !contains
    {
      contains := false;
    }

    /** Moves the node and then calls the callback, if one is given, exactly once;
        `animate` has no effect in the base class. */
    method SetPos(x: real, y: real, animate: bool, callback: Callback?)
      modifies this, callback
      ensures GetX() == x && GetY() == y
      ensures IsGrown() == old(IsGrown()) && IsSelected() == old(IsSelected())
      ensures GetHoverBox() == old(GetHoverBox())
      ensures callback != null ==> callback.invocations == old(callback.invocations) + 1
    {
      absoluteX := x;
      absoluteY := y;
      if callback != null {
        callback.Invoke();
      }
    }

    method Grow()
      modifies this
      ensures IsGrown()
      ensures GetX() == old(GetX()) && GetY() == old(GetY())
      ensures IsSelected() == old(IsSelected()) && GetHoverBox() == old(GetHoverBox())
    {
      grown := true;
    }

    method Shrink()
      modifies this
      ensures !IsGrown()
      ensures GetX() == old(GetX()) && GetY() == old(GetY())
      ensures IsSelected() == old(IsSelected()) && GetHoverBox() == old(GetHoverBox())
    {
      grown := false;
    }

    method SetSelected(isSelected: bool)
      modifies this
      ensures IsSelected() == Some(isSelected)
      ensures GetX() == old(GetX()) && GetY() == old(GetY())
      ensures IsGrown() == old(IsGrown()) && GetHoverBox() == old(GetHoverBox())
    {
      selected := Some(isSelected);
    }
  }
}
