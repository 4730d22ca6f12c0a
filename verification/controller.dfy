/**
 * The add-mode state machine of `enableAddMode`, with the set of
 * listeners currently attached to the viewer element.
 */
module Controller {

  /**
   * The argument of `enableAddMode`, and the stored `_addMode`: any falsy
   * value, the strings `'click'`, `'rect'` and `'draw'`, or some other
   * truthy value.
   */
  datatype Mode = Off | Click | Rect | Draw | OtherTruthy {
    predicate Truthy() {
      !Off?
    }
  }

  /** The bound handlers the component attaches to its viewer element. */
  datatype Handler = OnClick | OnMouseMove | OnMouseLeave | OnRectStart | OnDrawPosition

  datatype Controller = Controller(mode: Mode, listeners: set<Handler>)

  const Initial: Controller := Controller(Off, {})

  /** Handlers one call of `enableAddMode(m)` attaches. */
  function Attaches(m: Mode): set<Handler> {
    match m
    case Click => {OnClick, OnMouseMove, OnMouseLeave}
    case Rect => {OnRectStart}
    case Draw => {OnDrawPosition}
    case _ => {}
  }

  /**
   * `enableAddMode(m)`: a falsy mode detaches every handler; a truthy one
   * only attaches its own handlers (adding a listener twice is a no-op)
   * and detaches nothing.
   */
  function EnableAddMode(c: Controller, m: Mode): (c': Controller)
    ensures c'.mode == m
    ensures !m.Truthy() ==> c'.listeners == {}
    ensures m.Truthy() ==> c'.listeners == c.listeners + Attaches(m)
  {
    if m.Truthy() then Controller(m, c.listeners + Attaches(m))
    else Controller(m, {})
  }

  /** `_onClick` acts whenever its listener is attached and the mode is truthy, whichever mode that is. */
  predicate ClickActs(c: Controller) {
    OnClick in c.listeners && c.mode.Truthy()
  }

  /** `_rectStart` acts only in rectangle mode. */
  predicate RectStartActs(c: Controller) {
    OnRectStart in c.listeners && c.mode == Rect
  }

  /** `_drawPosition` acts only in draw mode. */
  predicate DrawPositionActs(c: Controller) {
    OnDrawPosition in c.listeners && c.mode == Draw
  }

  /** With add mode off, no handler is attached. */
  predicate Quiet(c: Controller) {
    !c.mode.Truthy() ==> c.listeners == {}
  }

  lemma EnableAddModeKeepsQuiet(c: Controller, m: Mode)
    ensures Quiet(EnableAddMode(c, m))
  {
  }

  /**
   * Switching from click mode to rectangle mode leaves the click handler
   * live: a click then opens a point label editor, next to the rectangle
   * gesture.  Two gesture handlers act at once.
   */
  lemma ClickThenRectKeepsClickHandler(c: Controller)
    ensures var c' := EnableAddMode(EnableAddMode(c, Click), Rect);
            && c'.mode == Rect
            && ClickActs(c') && RectStartActs(c')
            && {OnClick, OnRectStart} <= c'.listeners
  {
  }

  /** `enableAddMode` called with each of `modes` in turn. */
  function EnableAll(c: Controller, modes: seq<Mode>): Controller
    decreases |modes|
  {
    if |modes| == 0 then c else EnableAddMode(EnableAll(c, modes[..|modes| - 1]), modes[|modes| - 1])
  }

  /** Every mode from index `i` on is truthy: no falsy call came after the `i`-th. */
  predicate TruthyFrom(modes: seq<Mode>, i: nat) {
    forall j | i <= j < |modes| :: modes[j].Truthy()
  }

  /**
   * After a sequence of `enableAddMode` calls on a fresh component, a
   * handler is attached exactly when some call attached it and no falsy
   * call followed that one.
   */
  lemma {:induction false} EnableAllListeners(modes: seq<Mode>, h: Handler)
    ensures h in EnableAll(Initial, modes).listeners
            <==> exists i | 0 <= i < |modes| :: h in Attaches(modes[i]) && TruthyFrom(modes, i)
    decreases |modes|
  {
    if |modes| > 0 {
      var n := |modes| - 1;
      var pre := modes[..n];
      var last := modes[n];
      assert forall i | 0 <= i < n :: pre[i] == modes[i];
      EnableAllListeners(pre, h);
      if !last.Truthy() {
        assert EnableAll(Initial, modes).listeners == {};
        forall i | 0 <= i < |modes|
          ensures !TruthyFrom(modes, i)
        {
          assert !modes[n].Truthy();
        }
      } else {
        assert EnableAll(Initial, modes).listeners == EnableAll(Initial, pre).listeners + Attaches(last);
        if h in EnableAll(Initial, modes).listeners {
          if h in Attaches(last) {
            assert TruthyFrom(modes, n);
          } else {
            var i :| 0 <= i < n && h in Attaches(pre[i]) && TruthyFrom(pre, i);
            assert TruthyFrom(modes, i);
          }
        } else {
          forall i | 0 <= i < |modes| && h in Attaches(modes[i])
            ensures !TruthyFrom(modes, i)
          {
            if i < n && TruthyFrom(modes, i) {
              assert TruthyFrom(pre, i);
            }
          }
        }
      }
    }
  }
}
