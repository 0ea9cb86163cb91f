/**
 * The visibility helpers of an Android `View`: three setters and a toggle over the view's
 * mutable visibility field.
 */
module ViewExtensions {

  /** The three values `View.setVisibility` accepts: `VISIBLE`, `INVISIBLE` and `GONE`. */
  datatype Visibility = Visible | Invisible | Gone

  /** The visibility `toggleVisibility` assigns: `GONE` when the view is `VISIBLE`, `VISIBLE` otherwise. */
  function Toggled(v: Visibility): (w: Visibility)
    ensures w != Invisible
    ensures w == Gone <==> v == Visible
  {
    if v == Visible then Gone else Visible
  }

  /** Toggling twice restores `VISIBLE` and `GONE`, but turns `INVISIBLE` into `GONE`. */
  lemma ToggleTwice(v: Visibility)
    ensures Toggled(Toggled(v)) == if v == Invisible then Gone else v
  {
  }

  /** After one toggle, toggling twice more is the identity: the toggle is a two-cycle on `{VISIBLE, GONE}`. */
  lemma ToggleCycle(v: Visibility)
    ensures Toggled(Toggled(Toggled(v))) == Toggled(v)
  {
    ToggleTwice(Toggled(v));
  }

  /** An Android view, reduced to the field these helpers touch. */
  class View {
    var visibility: Visibility

    constructor(initial: Visibility)
      ensures visibility == initial
    {
      visibility := initial;
    }

    /** `View.visible()`. */
    method SetVisible()
      modifies this`visibility
      ensures visibility == Visible
    {
      visibility := Visible;
    }

    /** `View.gone()`. */
    method SetGone()
      modifies this`visibility
      ensures visibility == Gone
    {
      visibility := Gone;
    }

    /** `View.invisible()`. */
    method SetInvisible()
      modifies this`visibility
      ensures visibility == Invisible
    {
      visibility := Invisible;
    }

    /** `View.toggleVisibility()`: assigns the toggled visibility and returns the same view. */
    method ToggleVisibility() returns (v: View)
      modifies this`visibility
      ensures v == this
      ensures visibility == Toggled(old(visibility))
      ensures visibility != Invisible
      ensures visibility == Gone <==> old(visibility) == Visible
    {
      visibility := if visibility == Visible then Gone else Visible;
      v := this;
    }
  }
}
