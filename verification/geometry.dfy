/**
 * Unity's Vector2 and Rect over exact reals.
 *
 * A Rect is (x, y, width, height); xMin = x and xMax = x + width with no
 * normalisation, exactly as Unity stores it. `Contains` is half-open and
 * `Overlaps` is strict, as in Unity's own definitions.
 */
module Geometry {

  datatype Vec2 = Vec2(x: real, y: real)

  const Zero2 := Vec2(0.0, 0.0)

  function Add(a: Vec2, b: Vec2): Vec2 {
    Vec2(a.x + b.x, a.y + b.y)
  }

  function Neg(a: Vec2): Vec2 {
    Vec2(-a.x, -a.y)
  }

  datatype Rect = Rect(x: real, y: real, w: real, h: real) {
    function XMax(): real { x + w }
    function YMax(): real { y + h }
    function Position(): Vec2 { Vec2(x, y) }
    function Size(): Vec2 { Vec2(w, h) }
    function Center(): Vec2 { Vec2(x + w / 2.0, y + h / 2.0) }
  }

  /** `Rect.zero` and `new Rect()`. */
  const ZeroRect := Rect(0.0, 0.0, 0.0, 0.0)

  /** `new Rect(p, Vector2.one)`: the 1x1 box used for point selection. */
  function UnitAt(p: Vec2): Rect {
    Rect(p.x, p.y, 1.0, 1.0)
  }

  /** `Rect.Contains(point)`: half-open on both axes. */
  predicate Contains(r: Rect, p: Vec2) {
    r.x <= p.x < r.XMax() && r.y <= p.y < r.YMax()
  }

  /** `a.Overlaps(b)`: strict on both axes, no normalisation of negative sizes. */
  predicate Overlaps(a: Rect, b: Rect) {
    b.XMax() > a.x && b.x < a.XMax() && b.YMax() > a.y && b.y < a.YMax()
  }

  /** `rect.position += d`. */
  function Translate(r: Rect, d: Vec2): Rect {
    Rect(r.x + d.x, r.y + d.y, r.w, r.h)
  }

  /** `rect.size += d`. */
  function Grow(r: Rect, d: Vec2): Rect {
    Rect(r.x, r.y, r.w + d.x, r.h + d.y)
  }

  function Min(a: real, b: real): real { if a <= b then a else b }
  function Max(a: real, b: real): real { if a >= b then a else b }
  function Abs(a: real): real { if a < 0.0 then -a else a }

  /** The normalised box spanned by two corner points (`Mathf.Min`/`Mathf.Abs` form). */
  function FromCorners(p: Vec2, q: Vec2): (r: Rect)
    ensures r.w >= 0.0 && r.h >= 0.0
    ensures {r.x, r.XMax()} == {p.x, q.x}
    ensures {r.y, r.YMax()} == {p.y, q.y}
  {
    Rect(Min(p.x, q.x), Min(p.y, q.y), Abs(q.x - p.x), Abs(q.y - p.y))
  }

  /** Unity's `xMin` setter keeps xMax fixed. */
  function SetXMin(r: Rect, v: real): (s: Rect)
    ensures s.x == v && s.XMax() == r.XMax() && s.y == r.y && s.h == r.h
  {
    Rect(v, r.y, r.XMax() - v, r.h)
  }

  /** Unity's `yMin` setter keeps yMax fixed. */
  function SetYMin(r: Rect, v: real): (s: Rect)
    ensures s.y == v && s.YMax() == r.YMax() && s.x == r.x && s.w == r.w
  {
    Rect(r.x, v, r.w, r.YMax() - v)
  }

  /** Unity's `xMax` setter keeps xMin fixed. */
  function SetXMax(r: Rect, v: real): (s: Rect)
    ensures s.XMax() == v && s.x == r.x && s.y == r.y && s.h == r.h
  {
    Rect(r.x, r.y, v - r.x, r.h)
  }

  /** Unity's `yMax` setter keeps yMin fixed. */
  function SetYMax(r: Rect, v: real): (s: Rect)
    ensures s.YMax() == v && s.x == r.x && s.y == r.y && s.w == r.w
  {
    Rect(r.x, r.y, r.w, v - r.y)
  }

  /** A point inside a rect always overlaps the 1x1 box at that point. */
  lemma ContainsOverlapsUnit(r: Rect, p: Vec2)
    ensures Contains(r, p) ==> Overlaps(UnitAt(p), r)
  {
  }

  /** Translation is undone by the opposite translation. */
  lemma TranslateInverse(r: Rect, d: Vec2)
    ensures Translate(Translate(r, d), Neg(d)) == r
  {
  }

  /** Containment is invariant under moving both the rect and the point. */
  lemma ContainsTranslate(r: Rect, p: Vec2, d: Vec2)
    ensures Contains(Translate(r, d), Add(p, d)) <==> Contains(r, p)
  {
  }
}
