// The drawing and zoom state of the game screen (src/gui/game/PowderToy.cpp):
// line and rectangle snapping, the draw mode and tool strength chosen by the
// held modifier keys, the zoom window, mouse coordinate mapping and pausing.
// Point::Clamp is taken to clamp each coordinate into [min, max], and
// Point::IsInside(a, b) to test a <= p < b on both axes.
module GameView {
  import opened Defines
  import opened Geometry
  import Hud

  datatype DrawState = POINTS | LINE | RECT | FILL

  /** TOOL_PROP, the property tool (simulation/ToolNumbers.h). */
  const TOOL_PROP: int := 9

  function Abs(v: int): nat
  {
    if v < 0 then -v else v
  }

  function ClampInt(v: int, lo: int, hi: int): int
  {
    if v < lo then lo else if v > hi then hi else v
  }

  /** Point::Clamp, coordinate by coordinate. */
  function ClampPoint(p: Point, lo: Point, hi: Point): Point
  {
    Point(ClampInt(p.X, lo.X, hi.X), ClampInt(p.Y, lo.Y, hi.Y))
  }

  /** Point::IsInside: inside the box from a (included) to b (excluded). */
  predicate IsInside(p: Point, a: Point, b: Point)
  {
    a.X <= p.X < b.X && a.Y <= p.Y < b.Y
  }

  /** C's v / 2, truncated toward zero. */
  function Half(v: int): int
  {
    Hud.CDiv(v, 2)
  }

  /** Truncating division is symmetric: (-v) / 2 == -(v / 2). */
  lemma HalfNeg(v: int)
    ensures Half(-v) == -Half(v)
  {
  }

  /** The end of a snapped line: the point on the nearest horizontal,
      vertical or 45-degree line through point1. */
  function LineSnapCoords(point1: Point, point2: Point): Point
  {
    var diff := point2.Minus(point1);
    if Abs(Half(diff.X)) > Abs(diff.Y) then point1.Plus(Point(diff.X, 0))
    else if Abs(diff.X) < Abs(Half(diff.Y)) then point1.Plus(Point(0, diff.Y))
    else if diff.X * diff.Y > 0 then point1.Plus(Point(Half(diff.X + diff.Y), Half(diff.X + diff.Y)))
    else point1.Plus(Point(Half(diff.X - diff.Y), Half(diff.Y - diff.X)))
  }

  /** The far corner of a snapped rectangle: a square on the diagonal of the
      drag. */
  function RectSnapCoords(point1: Point, point2: Point): Point
  {
    var diff := point2.Minus(point1);
    if diff.X * diff.Y > 0 then point1.Plus(Point(Half(diff.X + diff.Y), Half(diff.X + diff.Y)))
    else point1.Plus(Point(Half(diff.X - diff.Y), Half(diff.Y - diff.X)))
  }

  /** A diagonal step of (v / 2, -v / 2) has legs of equal length pointing
      in opposite directions. */
  lemma AntiDiagonal(v: int)
    ensures Abs(Half(v)) == Abs(Half(-v)) && Half(v) * Half(-v) <= 0
  {
    HalfNeg(v);
  }

  /** A snapped line is horizontal, vertical or at 45 degrees; the straight
      cases keep the drag's length along their axis. */
  lemma {:induction false} LineSnapShape(point1: Point, point2: Point)
    ensures var d := LineSnapCoords(point1, point2).Minus(point1);
      var diff := point2.Minus(point1);
      (d.Y == 0 && d.X == diff.X) || (d.X == 0 && d.Y == diff.Y) || Abs(d.X) == Abs(d.Y)
  {
    var diff := point2.Minus(point1);
    AntiDiagonal(diff.X - diff.Y);
    assert diff.Y - diff.X == -(diff.X - diff.Y);
  }

  /** A snapped rectangle is a square, and it lies in the quadrant of the
      drag: down-right or up-left when the drag's legs share a sign,
      otherwise down-left or up-right. */
  lemma {:induction false} RectSnapSquare(point1: Point, point2: Point)
    ensures var d := RectSnapCoords(point1, point2).Minus(point1);
      var diff := point2.Minus(point1);
      Abs(d.X) == Abs(d.Y) &&
      (diff.X * diff.Y > 0 ==> d.X == d.Y) &&
      (diff.X * diff.Y <= 0 ==> d.X * d.Y <= 0)
  {
    var diff := point2.Minus(point1);
    AntiDiagonal(diff.X - diff.Y);
    assert diff.Y - diff.X == -(diff.X - diff.Y);
  }

  /** The draw state UpdateDrawMode picks for the held keys and the id of
      the active tool. */
  function DrawModeFor(ctrl: bool, shift: bool, toolId: int): DrawState
  {
    if ctrl && shift then
      if toolId == -1 || toolId == TOOL_PROP then FILL else POINTS
    else if ctrl then RECT
    else if shift then LINE
    else POINTS
  }

  /** Each mode belongs to exactly one combination of keys: flood fill needs
      both keys and the property tool or tool -1, a rectangle ctrl alone,
      a line shift alone. */
  lemma DrawModeKeys(ctrl: bool, shift: bool, toolId: int)
    ensures DrawModeFor(ctrl, shift, toolId) == FILL <==> ctrl && shift && (toolId == -1 || toolId == TOOL_PROP)
    ensures DrawModeFor(ctrl, shift, toolId) == RECT <==> ctrl && !shift
    ensures DrawModeFor(ctrl, shift, toolId) == LINE <==> shift && !ctrl
  {
  }

  /** The tool strength UpdateToolStrength picks: .1f is taken as 0.1. */
  function StrengthFor(shift: bool, ctrl: bool): real
  {
    if shift then 10.0 else if ctrl then 0.1 else 1.0
  }

  /** Shift strengthens the tool whatever else is held; ctrl alone weakens
      it; otherwise it is at full strength. */
  lemma StrengthKeys(shift: bool, ctrl: bool)
    ensures StrengthFor(shift, ctrl) > 1.0 <==> shift
    ensures StrengthFor(shift, ctrl) < 1.0 <==> ctrl && !shift
    ensures StrengthFor(shift, ctrl) == 1.0 <==> !shift && !ctrl
  {
  }

  /** ceil(size / 5.0f + 0.5f) for a zoom size of at least 0: size / 5 + 1/2
      is never a whole number, so the float rounding does not matter. */
  function ZoomStepScale(size: int): int
    requires size >= 0
  {
    (2 * size + 14) / 10
  }

  /** The change of zoom size for a resize by d: key shortcuts without alt
      step faster on larger scopes. */
  function ZoomStep(d: int, scaled: bool, size: int): int
    requires size >= 0
  {
    if scaled then d * ZoomStepScale(size) else d
  }

  /** The zoom factor of a zoom size: the zoomed area is at most 256 pixels
      wide, and at least 4 pixels are shown per cell. */
  lemma {:induction false} ZoomFactorRange(size: int)
    requires 2 <= size <= 60
    ensures 4 <= 256 / size <= 128 && (256 / size) * size <= 256 && (256 / size) * size > 256 - size
  {
    var f := 256 / size;
    assert f * size + 256 % size == 256;
  }

  class PowderToy {
    var ctrlHeld: bool
    var shiftHeld: bool
    var altHeld: bool
    var drawState: DrawState
    var toolStrength: real
    var placingZoom: bool
    var zoomEnabled: bool
    var zoomScopePosition: Point
    var zoomWindowPosition: Point
    var zoomMousePosition: Point
    var zoomScopeSize: int
    var zoomFactor: int
    var sysPause: bool
    var restorePreviousPause: bool
    /** The simulation's debug_currentParticle: where a partial frame stopped. */
    var debugCurrentParticle: int

    /** The zoom invariant: a scope of 2 to 60 pixels, the factor that
        fits it into 256 pixels, the scope inside the simulation area, and
        the window at the right edge or at the origin. */
    predicate Valid()
      reads this
    {
      2 <= zoomScopeSize <= 60 && zoomFactor == 256 / zoomScopeSize &&
      0 <= zoomScopePosition.X <= XRES - zoomScopeSize &&
      0 <= zoomScopePosition.Y <= YRES - zoomScopeSize &&
      (zoomWindowPosition == Point(XRES - zoomScopeSize * zoomFactor, 0) || zoomWindowPosition == Point(0, 0))
    }

    /** The constructor's initial values for the modelled fields. */
    constructor ()
      ensures Valid() && !sysPause && drawState == POINTS && toolStrength == 1.0
      ensures zoomScopeSize == 32 && zoomFactor == 8 && !zoomEnabled && !placingZoom
    {
      ctrlHeld, shiftHeld, altHeld := false, false, false;
      drawState := POINTS;
      toolStrength := 1.0;
      placingZoom, zoomEnabled := false, false;
      zoomScopePosition, zoomWindowPosition, zoomMousePosition := Point(0, 0), Point(0, 0), Point(0, 0);
      zoomScopeSize, zoomFactor := 32, 8;
      sysPause, restorePreviousPause := false, false;
      debugCurrentParticle := 0;
    }

    /** TogglePause: unpausing a frame that stopped part-way finishes it
        (the simulation step itself is not part of this model) and resets
        the debug position. */
    method TogglePause()
      modifies this
      ensures sysPause == !old(sysPause) && !restorePreviousPause
      ensures debugCurrentParticle == if old(sysPause) then 0 else old(debugCurrentParticle)
      ensures ctrlHeld == old(ctrlHeld) && shiftHeld == old(shiftHeld) && altHeld == old(altHeld)
      ensures drawState == old(drawState) && toolStrength == old(toolStrength)
      ensures placingZoom == old(placingZoom) && zoomEnabled == old(zoomEnabled)
      ensures zoomScopePosition == old(zoomScopePosition) && zoomWindowPosition == old(zoomWindowPosition)
      ensures zoomMousePosition == old(zoomMousePosition)
      ensures zoomScopeSize == old(zoomScopeSize) && zoomFactor == old(zoomFactor)
    {
      if sysPause && debugCurrentParticle != 0 {
        debugCurrentParticle := 0;
      }
      sysPause := !sysPause;
      restorePreviousPause := false;
    }

    /** SetPause: toggles only when the state differs, so afterwards the
        game is paused exactly when asked. */
    method SetPause(pause: bool)
      modifies this
      ensures sysPause == pause
      ensures pause == old(sysPause) ==> unchanged(this)
      ensures pause != old(sysPause) ==>
        !restorePreviousPause && debugCurrentParticle == (if old(sysPause) then 0 else old(debugCurrentParticle))
      ensures drawState == old(drawState) && zoomScopeSize == old(zoomScopeSize) && zoomFactor == old(zoomFactor)
      ensures zoomScopePosition == old(zoomScopePosition) && zoomWindowPosition == old(zoomWindowPosition)
    {
      if pause != sysPause {
        TogglePause();
      }
    }

    /** UpdateDrawMode, given the id of the active tool. */
    method UpdateDrawMode(toolId: int)
      modifies this`drawState
      ensures drawState == DrawModeFor(ctrlHeld, shiftHeld, toolId)
      ensures ctrlHeld == old(ctrlHeld) && shiftHeld == old(shiftHeld)
      ensures toolStrength == old(toolStrength) && sysPause == old(sysPause)
      ensures Valid() == old(Valid())
    {
      if ctrlHeld && shiftHeld {
        var tool := toolId;
        if tool == -1 || tool == TOOL_PROP {
          drawState := FILL;
        } else {
          drawState := POINTS;
        }
      } else if ctrlHeld {
        drawState := RECT;
      } else if shiftHeld {
        drawState := LINE;
      } else {
        drawState := POINTS;
      }
    }

    method UpdateToolStrength()
      modifies this`toolStrength
      ensures toolStrength == StrengthFor(shiftHeld, ctrlHeld)
      ensures ctrlHeld == old(ctrlHeld) && shiftHeld == old(shiftHeld)
      ensures drawState == old(drawState) && sysPause == old(sysPause)
      ensures Valid() == old(Valid())
    {
      if shiftHeld {
        toolStrength := 10.0;
      } else if ctrlHeld {
        toolStrength := 0.1;
      } else {
        toolStrength := 1.0;
      }
    }

    /** UpdateZoomCoordinates: centre the scope on the mouse, keep it inside
        the simulation area, and put the window on the side away from the
        mouse. */
    method UpdateZoomCoordinates(mouse: Point)
      requires 2 <= zoomScopeSize <= 60 && zoomFactor == 256 / zoomScopeSize
      modifies this
      ensures Valid()
      ensures zoomMousePosition == mouse
      ensures zoomScopePosition == ClampPoint(mouse.Minus(Point(zoomScopeSize / 2, zoomScopeSize / 2)),
        Point(0, 0), Point(XRES - zoomScopeSize, YRES - zoomScopeSize))
      ensures zoomWindowPosition == if mouse.X < XRES / 2 then Point(XRES - zoomScopeSize * zoomFactor, 0) else Point(0, 0)
      ensures zoomScopeSize == old(zoomScopeSize) && zoomFactor == old(zoomFactor)
      ensures sysPause == old(sysPause) && drawState == old(drawState) && toolStrength == old(toolStrength)
      ensures placingZoom == old(placingZoom) && zoomEnabled == old(zoomEnabled)
      ensures ctrlHeld == old(ctrlHeld) && shiftHeld == old(shiftHeld) && altHeld == old(altHeld)
    {
      zoomMousePosition := mouse;
      zoomScopePosition := mouse.Minus(Point(zoomScopeSize / 2, zoomScopeSize / 2));
      zoomScopePosition := ClampPoint(zoomScopePosition, Point(0, 0), Point(XRES - zoomScopeSize, YRES - zoomScopeSize));
      if mouse.X < XRES / 2 {
        zoomWindowPosition := Point(XRES - zoomScopeSize * zoomFactor, 0);
      } else {
        zoomWindowPosition := Point(0, 0);
      }
    }

    /** AdjustCursorSize while the zoom window is being placed: resize the
        scope by d (scaled up for key shortcuts without alt), keep it within
        2 to 60 pixels, and recompute the factor and the placement. Resizing
        the brush otherwise is not part of this model. */
    method AdjustCursorSize(d: int, keyShortcut: bool)
      requires Valid()
      modifies this
      ensures Valid()
      ensures placingZoom ==> zoomScopeSize == ClampInt(old(zoomScopeSize) + ZoomStep(d, keyShortcut && !old(altHeld), old(zoomScopeSize)), 2, 60)
      ensures placingZoom ==> zoomFactor == 256 / zoomScopeSize && zoomMousePosition == old(zoomMousePosition)
      ensures placingZoom ==> zoomScopePosition == ClampPoint(old(zoomMousePosition).Minus(Point(zoomScopeSize / 2, zoomScopeSize / 2)),
        Point(0, 0), Point(XRES - zoomScopeSize, YRES - zoomScopeSize))
      ensures placingZoom ==> zoomWindowPosition ==
                                (if old(zoomMousePosition).X < XRES / 2 then Point(XRES - zoomScopeSize * zoomFactor, 0) else Point(0, 0))
      ensures !placingZoom ==> unchanged(this)
      ensures placingZoom == old(placingZoom) && sysPause == old(sysPause) && drawState == old(drawState)
      ensures zoomEnabled == old(zoomEnabled) && toolStrength == old(toolStrength)
      ensures ctrlHeld == old(ctrlHeld) && shiftHeld == old(shiftHeld) && altHeld == old(altHeld)
    {
      if placingZoom {
        var step := d;
        if keyShortcut && !altHeld {
          step := d * ZoomStepScale(zoomScopeSize);
        }
        assert step == ZoomStep(d, keyShortcut && !altHeld, zoomScopeSize);
        zoomScopeSize := ClampInt(zoomScopeSize + step, 2, 60);
        zoomFactor := 256 / zoomScopeSize;
        UpdateZoomCoordinates(zoomMousePosition);
      }
    }

    predicate ZoomWindowShown()
      reads this
    {
      placingZoom || zoomEnabled
    }

    /** AdjustCoordinates: clamp the mouse into the simulation area and, if
        it is over the shown zoom window, map it back to the pixel it
        magnifies. */
    function AdjustCoordinates(mouse: Point): Point
      reads this
      requires Valid()
    {
      var m := ClampPoint(mouse, Point(0, 0), Point(XRES - 1, YRES - 1));
      var corner := zoomWindowPosition.Plus(Point(zoomFactor * zoomScopeSize, zoomFactor * zoomScopeSize));
      if ZoomWindowShown() && IsInside(m, zoomWindowPosition, corner) then
        Point((m.X - zoomWindowPosition.X) / zoomFactor + zoomScopePosition.X,
              (m.Y - zoomWindowPosition.Y) / zoomFactor + zoomScopePosition.Y)
      else m
    }

    /** Mapped coordinates always name a pixel of the simulation area; over
        the zoom window they name a pixel of the scope. */
    lemma AdjustCoordinatesInside(mouse: Point)
      requires Valid()
      ensures var p := AdjustCoordinates(mouse);
        0 <= p.X < XRES && 0 <= p.Y < YRES
      ensures var m := ClampPoint(mouse, Point(0, 0), Point(XRES - 1, YRES - 1));
        AdjustCoordinates(mouse) != m ==>
          zoomScopePosition.X <= AdjustCoordinates(mouse).X < zoomScopePosition.X + zoomScopeSize &&
          zoomScopePosition.Y <= AdjustCoordinates(mouse).Y < zoomScopePosition.Y + zoomScopeSize
    {
      var m := ClampPoint(mouse, Point(0, 0), Point(XRES - 1, YRES - 1));
      var corner := zoomWindowPosition.Plus(Point(zoomFactor * zoomScopeSize, zoomFactor * zoomScopeSize));
      ZoomFactorRange(zoomScopeSize);
      if ZoomWindowShown() && IsInside(m, zoomWindowPosition, corner) {
        ScaledBelow(m.X - zoomWindowPosition.X, zoomFactor, zoomScopeSize);
        ScaledBelow(m.Y - zoomWindowPosition.Y, zoomFactor, zoomScopeSize);
      }
    }
  }

  /** 0 <= v < f * s gives 0 <= v / f < s. */
  lemma {:induction false} ScaledBelow(v: int, f: int, s: int)
    requires 1 <= f && 0 <= v < f * s
    ensures 0 <= v / f < s
  {
    var q := v / f;
    assert f * q <= v;
  }
}
