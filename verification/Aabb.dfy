/** Ray against box, and moving box against box, over the reals. */
module Aabb {
  datatype Vector = Vector(x: real, y: real, z: real)

  datatype Box = Box(min: Vector, max: Vector)

  const NO_INTERSECTION: real := 1000000000000000000000000000000.0

  ghost predicate NonEmpty(b: Box) {
    b.min.x <= b.max.x && b.min.y <= b.max.y && b.min.z <= b.max.z
  }

  // A coordinate that starts at o and moves by d from time 0 to time 1.
  function At(o: real, d: real, t: real): real {
    o + d * t
  }

  predicate Between(lo: real, v: real, hi: real) {
    lo <= v <= hi
  }

  // ---- One axis of a ray ----

  ghost predicate Hits(o: real, d: real, lo: real, hi: real, t: real) {
    Between(lo, At(o, d, t), hi)
  }

  // y is d times x. All that is needed of products is how they are ordered.
  ghost predicate Scaled(d: real, x: real, y: real) {
    y == d * x
  }

  lemma Scale(d: real, x: real, dx: real, y: real, dy: real)
    requires Scaled(d, x, dx) && Scaled(d, y, dy)
    ensures d > 0.0 ==> (x <= y <==> dx <= dy)
    ensures d < 0.0 ==> (x <= y <==> dy <= dx)
    ensures d == 0.0 ==> dx == dy == 0.0
  {
    var k := y - x;
    assert d * k == dy - dx;
    Sign(d, k);
  }

  lemma Sign(d: real, k: real)
    ensures d > 0.0 ==> (k >= 0.0 <==> d * k >= 0.0)
    ensures d < 0.0 ==> (k >= 0.0 <==> d * k <= 0.0)
  {
  }

  lemma AtScaled(o: real, d: real, t: real)
    ensures Scaled(d, t, At(o, d, t) - o)
  {
  }

  lemma Units(d: real)
    ensures Scaled(d, 0.0, 0.0) && Scaled(d, 1.0, d)
  {
  }

  lemma Quotient(a: real, d: real)
    requires d != 0.0
    ensures Scaled(d, a / d, a)
  {
  }

  // A moving coordinate that is in an interval at two times is in it in between.
  lemma Convex(o: real, d: real, lo: real, hi: real, a: real, t: real, b: real)
    requires a <= t <= b && Hits(o, d, lo, hi, a) && Hits(o, d, lo, hi, b)
    ensures Hits(o, d, lo, hi, t)
  {
    hide At, Scaled;
    AtScaled(o, d, a);
    AtScaled(o, d, t);
    AtScaled(o, d, b);
    Scale(d, a, At(o, d, a) - o, t, At(o, d, t) - o);
    Scale(d, t, At(o, d, t) - o, b, At(o, d, b) - o);
  }

  // When the coordinate first enters the interval: the near face divided by the movement, -1 when
  // it starts inside. None when the movement is too short.
  function Entry(o: real, d: real, lo: real, hi: real): (e: (bool, real)) {
    if o < lo then
      if lo - o > d then (false, 0.0) else (true, (lo - o) / d)
    else if o > hi then
      if hi - o < d then (false, 0.0) else (true, (hi - o) / d)
    else (true, -1.0)
  }

  // The coordinate enters the interval, and not after u.
  predicate EntersBy(o: real, d: real, lo: real, hi: real, u: real) {
    Entry(o, d, lo, hi).0 && Entry(o, d, lo, hi).1 <= u
  }

  lemma EntryFacts(o: real, d: real, lo: real, hi: real, u: real)
    requires lo <= hi && 0.0 <= u <= 1.0
    ensures !Entry(o, d, lo, hi).0 ==> !Hits(o, d, lo, hi, u)
    ensures Entry(o, d, lo, hi).0 ==>
              var e := Entry(o, d, lo, hi).1;
              && e <= 1.0 && (e < 0.0 <==> lo <= o <= hi)
              && (e < 0.0 ==> Hits(o, d, lo, hi, 0.0))
              && (e >= 0.0 ==> 0.0 < e && Hits(o, d, lo, hi, e) && At(o, d, e) == if o < lo then lo else hi)
              && (u < e ==> !Hits(o, d, lo, hi, u))
  {
    hide At;
    Start(o, d);
    if o < lo {
      FromBelow(o, d, lo, u);
    } else if o > hi {
      FromAbove(o, d, hi, u);
    }
  }

  lemma Start(o: real, d: real)
    ensures At(o, d, 0.0) == o
  {
  }

  lemma FromBelow(o: real, d: real, lo: real, u: real)
    requires o < lo && 0.0 <= u <= 1.0
    ensures lo - o > d ==> At(o, d, u) < lo
    ensures lo - o <= d ==>
              var e := (lo - o) / d;
              0.0 < e <= 1.0 && At(o, d, e) == lo && (u < e ==> At(o, d, u) < lo)
  {
    hide At;
    Reach(o, d, lo, u);
  }

  lemma FromAbove(o: real, d: real, hi: real, u: real)
    requires o > hi && 0.0 <= u <= 1.0
    ensures hi - o < d ==> At(o, d, u) > hi
    ensures hi - o >= d ==>
              var e := (hi - o) / d;
              0.0 < e <= 1.0 && At(o, d, e) == hi && (u < e ==> At(o, d, u) > hi)
  {
    hide At;
    Reach(o, d, hi, u);
  }

  // When the moving coordinate is at a face, compared with the other times of the movement.
  lemma Reach(o: real, d: real, face: real, u: real)
    requires 0.0 <= u <= 1.0
    ensures d >= 0.0 ==> At(o, d, u) - o <= d
    ensures d <= 0.0 ==> At(o, d, u) - o >= d
    ensures d >= 0.0 ==> At(o, d, u) >= o
    ensures d <= 0.0 ==> At(o, d, u) <= o
    ensures d != 0.0 ==> At(o, d, (face - o) / d) == face
    ensures d > 0.0 ==> ((face - o) / d <= u <==> face <= At(o, d, u)) && ((face - o) / d <= 1.0 <==> face - o <= d)
    ensures d < 0.0 ==> ((face - o) / d <= u <==> face >= At(o, d, u)) && ((face - o) / d <= 1.0 <==> face - o >= d)
    ensures d > 0.0 ==> ((face - o) / d <= 0.0 <==> face <= o)
    ensures d < 0.0 ==> ((face - o) / d <= 0.0 <==> face >= o)
  {
    var w := At(o, d, u) - o;
    AtScaled(o, d, u);
    Units(d);
    if d != 0.0 {
      var e := (face - o) / d;
      Quotient(face - o, d);
      AtScaled(o, d, e);
      SameScaled(d, e, face - o, At(o, d, e) - o);
      hide At, Scaled;
      Scale(d, e, face - o, u, w);
      Scale(d, e, face - o, 1.0, d);
      Scale(d, e, face - o, 0.0, 0.0);
    }
    hide At, Scaled;
    Scale(d, u, w, 1.0, d);
    Scale(d, 0.0, 0.0, u, w);
  }

  lemma SameScaled(d: real, x: real, y: real, z: real)
    requires Scaled(d, x, y) && Scaled(d, x, z)
    ensures y == z
  {
  }

  // A coordinate that has entered its interval and is outside of it again never comes back.
  lemma Gone(o: real, d: real, lo: real, hi: real, t: real, u: real)
    requires lo <= hi && 0.0 <= t <= u <= 1.0
    requires Entry(o, d, lo, hi).0 && Entry(o, d, lo, hi).1 <= t && !Hits(o, d, lo, hi, t)
    ensures !Hits(o, d, lo, hi, u)
  {
    EntryFacts(o, d, lo, hi, t);
    var e := Entry(o, d, lo, hi).1;
    if Hits(o, d, lo, hi, u) {
      Convex(o, d, lo, hi, if e < 0.0 then 0.0 else e, t, u);
    }
  }

  // ---- The ray ----

  // The point at time t is in the closed box.
  ghost predicate RayIn(b: Box, org: Vector, delta: Vector, t: real) {
    && Hits(org.x, delta.x, b.min.x, b.max.x, t)
    && Hits(org.y, delta.y, b.min.y, b.max.y, t)
    && Hits(org.z, delta.z, b.min.z, b.max.z, t)
  }

  lemma RayEntries(b: Box, org: Vector, delta: Vector, u: real)
    requires NonEmpty(b) && 0.0 <= u <= 1.0
    ensures RayIn(b, org, delta, u) ==>
              && EntersBy(org.x, delta.x, b.min.x, b.max.x, u)
              && EntersBy(org.y, delta.y, b.min.y, b.max.y, u)
              && EntersBy(org.z, delta.z, b.min.z, b.max.z, u)
  {
    hide Entry, Hits;
    EntryFacts(org.x, delta.x, b.min.x, b.max.x, u);
    EntryFacts(org.y, delta.y, b.min.y, b.max.y, u);
    EntryFacts(org.z, delta.z, b.min.z, b.max.z, u);
  }

  // When the ray is outside after every axis was entered, it never is inside.
  lemma RayGone(b: Box, org: Vector, delta: Vector, t: real, u: real)
    requires NonEmpty(b) && 0.0 <= t <= 1.0 && 0.0 <= u <= 1.0 && !RayIn(b, org, delta, t)
    requires var x, y, z := Entry(org.x, delta.x, b.min.x, b.max.x), Entry(org.y, delta.y, b.min.y, b.max.y),
                            Entry(org.z, delta.z, b.min.z, b.max.z);
             && x.0 && y.0 && z.0 && x.1 <= t && y.1 <= t && z.1 <= t
             && (t == x.1 || t == y.1 || t == z.1)
    ensures !RayIn(b, org, delta, u)
  {
    hide Entry, Hits;
    if u < t {
      RayEntries(b, org, delta, u);
    } else if !Hits(org.x, delta.x, b.min.x, b.max.x, t) {
      Gone(org.x, delta.x, b.min.x, b.max.x, t, u);
    } else if !Hits(org.y, delta.y, b.min.y, b.max.y, t) {
      Gone(org.y, delta.y, b.min.y, b.max.y, t, u);
    } else {
      Gone(org.z, delta.z, b.min.z, b.max.z, t, u);
    }
  }

  // rayIntersect: up to 1 if and only if the segment meets the box, and then the first time it does.
  method RayIntersect(b: Box, rayOrg: Vector, rayDelta: Vector) returns (t: real)
    requires NonEmpty(b)
    ensures t <= 1.0 ==> 0.0 <= t && RayIn(b, rayOrg, rayDelta, t)
    ensures t <= 1.0 ==> forall u :: 0.0 <= u < t ==> !RayIn(b, rayOrg, rayDelta, u)
    ensures t > 1.0 ==> t == NO_INTERSECTION && forall u :: 0.0 <= u <= 1.0 ==> !RayIn(b, rayOrg, rayDelta, u)
  {
    hide Entry, Hits, RayIn;
    forall u | 0.0 <= u <= 1.0
      ensures RayIn(b, rayOrg, rayDelta, u) ==>
                && EntersBy(rayOrg.x, rayDelta.x, b.min.x, b.max.x, u)
                && EntersBy(rayOrg.y, rayDelta.y, b.min.y, b.max.y, u)
                && EntersBy(rayOrg.z, rayDelta.z, b.min.z, b.max.z, u)
    {
      RayEntries(b, rayOrg, rayDelta, u);
    }
    var (okX, xt) := Entry(rayOrg.x, rayDelta.x, b.min.x, b.max.x);
    if !okX {
      return NO_INTERSECTION;
    }
    var (okY, yt) := Entry(rayOrg.y, rayDelta.y, b.min.y, b.max.y);
    if !okY {
      return NO_INTERSECTION;
    }
    var (okZ, zt) := Entry(rayOrg.z, rayDelta.z, b.min.z, b.max.z);
    if !okZ {
      return NO_INTERSECTION;
    }
    EntryFacts(rayOrg.x, rayDelta.x, b.min.x, b.max.x, 0.0);
    EntryFacts(rayOrg.y, rayDelta.y, b.min.y, b.max.y, 0.0);
    EntryFacts(rayOrg.z, rayDelta.z, b.min.z, b.max.z, 0.0);
    var inside := xt < 0.0 && yt < 0.0 && zt < 0.0;
    if inside {
      RayInAll(b, rayOrg, rayDelta, 0.0);
      return 0.0;
    }

    // The farthest plane is the plane of intersection.
    var which := 0;
    t := xt;
    if yt > t {
      which := 1;
      t := yt;
    }
    if zt > t {
      which := 2;
      t := zt;
    }
    RayInAll(b, rayOrg, rayDelta, t);
    var meets := MeetsFace(b, rayOrg, rayDelta, t, which);
    if !meets {
      forall u | 0.0 <= u <= 1.0
        ensures !RayIn(b, rayOrg, rayDelta, u)
      {
        RayGone(b, rayOrg, rayDelta, t, u);
      }
      return NO_INTERSECTION;
    }
  }

  lemma RayInAll(b: Box, org: Vector, delta: Vector, t: real)
    ensures RayIn(b, org, delta, t) <==>
              && Hits(org.x, delta.x, b.min.x, b.max.x, t)
              && Hits(org.y, delta.y, b.min.y, b.max.y, t)
              && Hits(org.z, delta.z, b.min.z, b.max.z, t)
  {
  }

  // The switch of rayIntersect: is the point on the plane of the face within the face?
  method MeetsFace(b: Box, rayOrg: Vector, rayDelta: Vector, t: real, which: int) returns (meets: bool)
    requires which == 0 ==> Hits(rayOrg.x, rayDelta.x, b.min.x, b.max.x, t)
    requires which == 1 ==> Hits(rayOrg.y, rayDelta.y, b.min.y, b.max.y, t)
    requires which == 2 ==> Hits(rayOrg.z, rayDelta.z, b.min.z, b.max.z, t)
    requires 0 <= which <= 2
    ensures meets <==> RayIn(b, rayOrg, rayDelta, t)
  {
    var x := rayOrg.x + rayDelta.x * t;
    var y := rayOrg.y + rayDelta.y * t;
    var z := rayOrg.z + rayDelta.z * t;
    if which == 0 {
      meets := !(y < b.min.y || y > b.max.y) && !(z < b.min.z || z > b.max.z);
    } else if which == 1 {
      meets := !(x < b.min.x || x > b.max.x) && !(z < b.min.z || z > b.max.z);
    } else {
      meets := !(x < b.min.x || x > b.max.x) && !(y < b.min.y || y > b.max.y);
    }
  }

  // ---- A moving box ----

  // The closed intervals of an axis meet at time t.
  ghost predicate AxisMeets(sMin: real, sMax: real, mMin: real, mMax: real, d: real, t: real) {
    sMin <= At(mMax, d, t) && At(mMin, d, t) <= sMax
  }

  // What intersectMovingAABB asks of an axis: without movement the overlap has to be strict.
  ghost predicate AxisTouches(sMin: real, sMax: real, mMin: real, mMax: real, d: real, t: real) {
    if d == 0.0 then sMin < mMax && mMin < sMax else AxisMeets(sMin, sMax, mMin, mMax, d, t)
  }

  function Time(distance: real, oneOverD: real): real {
    distance * oneOverD
  }

  // The times at which an axis that moves touches.
  lemma TouchInterval(sMin: real, sMax: real, mMin: real, mMax: real, d: real, t: real)
    requires sMin <= sMax && mMin <= mMax && d != 0.0
    ensures var enter, leave := Time(sMin - mMax, 1.0 / d), Time(sMax - mMin, 1.0 / d);
            var (first, last) := if enter > leave then (leave, enter) else (enter, leave);
            AxisMeets(sMin, sMax, mMin, mMax, d, t) <==> first <= t <= last
  {
    var enter, leave := Time(sMin - mMax, 1.0 / d), Time(sMax - mMin, 1.0 / d);
    Reciprocal(d, sMin - mMax);
    Reciprocal(d, sMax - mMin);
    AtScaled(mMax, d, t);
    AtScaled(mMin, d, t);
    SameScaled(d, t, At(mMax, d, t) - mMax, At(mMin, d, t) - mMin);
    hide At, Scaled, Time;
    var w := At(mMax, d, t) - mMax;
    Ordered(d, enter, sMin - mMax, leave, sMax - mMin, t, w);
  }

  lemma Reciprocal(d: real, a: real)
    requires d != 0.0
    ensures Scaled(d, Time(a, 1.0 / d), a)
  {
    assert d * (a * (1.0 / d)) == a * (d * (1.0 / d));
  }

  lemma Ordered(d: real, enter: real, e: real, leave: real, l: real, t: real, w: real)
    requires d != 0.0 && e <= l && Scaled(d, enter, e) && Scaled(d, leave, l) && Scaled(d, t, w)
    ensures var (first, last) := if enter > leave then (leave, enter) else (enter, leave);
            e <= w <= l <==> first <= t <= last
  {
    hide Scaled;
    Scale(d, enter, e, leave, l);
    Scale(d, leave, l, enter, e);
    Scale(d, enter, e, t, w);
    Scale(d, t, w, enter, e);
    Scale(d, leave, l, t, w);
    Scale(d, t, w, leave, l);
  }

  ghost predicate Touches(s: Box, m: Box, d: Vector, t: real) {
    && AxisTouches(s.min.x, s.max.x, m.min.x, m.max.x, d.x, t)
    && AxisTouches(s.min.y, s.max.y, m.min.y, m.max.y, d.y, t)
    && AxisTouches(s.min.z, s.max.z, m.min.z, m.max.z, d.z, t)
  }

  // One axis of intersectMovingAABB: the interval of times shrinks to those at which it touches.
  method ClipAxis(sMin: real, sMax: real, mMin: real, mMax: real, d: real, tEnter0: real, tLeave0: real)
    returns (tEnter: real, tLeave: real, some: bool)
    requires sMin <= sMax && mMin <= mMax && tEnter0 <= tLeave0
    ensures some ==> tEnter0 <= tEnter <= tLeave <= tLeave0
    ensures forall t :: tEnter0 <= t <= tLeave0 && AxisTouches(sMin, sMax, mMin, mMax, d, t) <==>
                        some && tEnter <= t <= tLeave
  {
    hide AxisMeets, Time;
    tEnter, tLeave := tEnter0, tLeave0;
    if d == 0.0 {
      if sMin >= mMax || sMax <= mMin {
        return tEnter, tLeave, false;
      }
      return tEnter, tLeave, true;
    }
    var oneOverD := 1.0 / d;
    var enter := Time(sMin - mMax, oneOverD);
    var leave := Time(sMax - mMin, oneOverD);
    forall t
      ensures var (first, last) := if enter > leave then (leave, enter) else (enter, leave);
              AxisMeets(sMin, sMax, mMin, mMax, d, t) <==> first <= t <= last
    {
      TouchInterval(sMin, sMax, mMin, mMax, d, t);
    }
    if enter > leave {
      enter, leave := leave, enter;
    }
    if enter > tEnter {
      tEnter := enter;
    }
    if leave < tLeave {
      tLeave := leave;
    }
    if tEnter > tLeave {
      return tEnter, tLeave, false;
    }
    some := true;
  }

  // intersectMovingAABB: up to 1 if and only if the boxes touch at some time from 0 to 1, and then
  // the first such time.
  method IntersectMovingAABB(s: Box, m: Box, d: Vector) returns (t: real)
    requires NonEmpty(s) && NonEmpty(m)
    ensures t <= 1.0 ==> 0.0 <= t && Touches(s, m, d, t) && forall u :: 0.0 <= u < t ==> !Touches(s, m, d, u)
    ensures t > 1.0 ==> t == NO_INTERSECTION && forall u :: 0.0 <= u <= 1.0 ==> !Touches(s, m, d, u)
    ensures IsFirstMeeting(s, m, d, t) <==> StillAxesOverlap(s, m, d) || NeverMeet(s, m, d)
  {
    hide AxisTouches, Meet, StillAxesOverlap;
    forall u
      ensures Touches(s, m, d, u) <==> Meet(s, m, d, u) && StillAxesOverlap(s, m, d)
    {
      TouchingIsBetween(s, m, d, u);
    }
    var tEnter, tLeave, some := ClipAxis(s.min.x, s.max.x, m.min.x, m.max.x, d.x, 0.0, 1.0);
    if !some {
      return NO_INTERSECTION;
    }
    tEnter, tLeave, some := ClipAxis(s.min.y, s.max.y, m.min.y, m.max.y, d.y, tEnter, tLeave);
    if !some {
      return NO_INTERSECTION;
    }
    tEnter, tLeave, some := ClipAxis(s.min.z, s.max.z, m.min.z, m.max.z, d.z, tEnter, tLeave);
    if !some {
      return NO_INTERSECTION;
    }
    t := tEnter;
    assert Touches(s, m, d, t);
  }

  // The interiors overlap.
  ghost predicate Overlap(s: Box, m: Box, d: Vector, t: real) {
    && s.min.x < At(m.max.x, d.x, t) && At(m.min.x, d.x, t) < s.max.x
    && s.min.y < At(m.max.y, d.y, t) && At(m.min.y, d.y, t) < s.max.y
    && s.min.z < At(m.max.z, d.z, t) && At(m.min.z, d.z, t) < s.max.z
  }

  ghost predicate Meet(s: Box, m: Box, d: Vector, t: real) {
    && AxisMeets(s.min.x, s.max.x, m.min.x, m.max.x, d.x, t)
    && AxisMeets(s.min.y, s.max.y, m.min.y, m.max.y, d.y, t)
    && AxisMeets(s.min.z, s.max.z, m.min.z, m.max.z, d.z, t)
  }

  // On every axis without movement the boxes overlap strictly.
  ghost predicate StillAxesOverlap(s: Box, m: Box, d: Vector) {
    && (d.x == 0.0 ==> s.min.x < m.max.x && m.min.x < s.max.x)
    && (d.y == 0.0 ==> s.min.y < m.max.y && m.min.y < s.max.y)
    && (d.z == 0.0 ==> s.min.z < m.max.z && m.min.z < s.max.z)
  }

  // The closed boxes do not meet from 0 to 1.
  ghost predicate NeverMeet(s: Box, m: Box, d: Vector) {
    forall u :: 0.0 <= u <= 1.0 ==> !Meet(s, m, d, u)
  }

  // What intersectMovingAABB promises of its result for the closed boxes.
  ghost predicate IsFirstMeeting(s: Box, m: Box, d: Vector, t: real) {
    if t <= 1.0 then 0.0 <= t && Meet(s, m, d, t) && forall u :: 0.0 <= u < t ==> !Meet(s, m, d, u)
    else NeverMeet(s, m, d)
  }

  // No intersection means that the interiors never overlap. The closed boxes may still meet, side
  // by side along an axis without movement, and only then: otherwise the result is the first time
  // they meet.
  lemma TouchingIsBetween(s: Box, m: Box, d: Vector, t: real)
    ensures Overlap(s, m, d, t) ==> Touches(s, m, d, t)
    ensures Touches(s, m, d, t) <==> Meet(s, m, d, t) && StillAxesOverlap(s, m, d)
  {
    assert d.x == 0.0 ==> At(m.max.x, d.x, t) == m.max.x && At(m.min.x, d.x, t) == m.min.x;
    assert d.y == 0.0 ==> At(m.max.y, d.y, t) == m.max.y && At(m.min.y, d.y, t) == m.min.y;
    assert d.z == 0.0 ==> At(m.max.z, d.z, t) == m.max.z && At(m.min.z, d.z, t) == m.min.z;
  }

  // Two unit cubes at rest that share a face meet, but are no intersection.
  lemma SharedFaceIsNoIntersection()
    ensures var zero, one := Vector(0.0, 0.0, 0.0), Vector(1.0, 1.0, 1.0);
            var s, m := Box(zero, one), Box(Vector(1.0, 0.0, 0.0), Vector(2.0, 1.0, 1.0));
            Meet(s, m, zero, 0.0) && forall u :: !Touches(s, m, zero, u)
  {
  }
}
