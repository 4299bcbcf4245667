/** The desktop's rectangles as sets of pixels, the set of dirty rectangles, and
    the stacking order (src/userland/programs/desktop/geometry.c and window.c). */
module Desktop {

  const MAX_DIRTY_RECTS := 48

  datatype Rect = Rect(x: int, y: int, w: int, h: int)

  predicate RectValid(r: Rect) {
    r.w > 0 && r.h > 0
  }

  /** point_in_rect: the pixels of a rectangle. */
  predicate PointInRect(x: int, y: int, r: Rect) {
    RectValid(r) && r.x <= x < r.x + r.w && r.y <= y < r.y + r.h
  }

  /** rect_intersects: exactly the rectangles with a pixel in common. */
  predicate RectIntersects(a: Rect, b: Rect): (r: bool)
    ensures r <==> exists x, y :: PointInRect(x, y, a) && PointInRect(x, y, b)
  {
    var common := RectIntersection(a, b);
    assert RectValid(a) && RectValid(b) && RectValid(common) ==>
             PointInRect(common.x, common.y, a) && PointInRect(common.x, common.y, b);
    && RectValid(a) && RectValid(b)
    && !(a.x + a.w <= b.x) && !(b.x + b.w <= a.x)
    && !(a.y + a.h <= b.y) && !(b.y + b.h <= a.y)
  }

  function Max(a: int, b: int): int { if a > b then a else b }

  function Min(a: int, b: int): int { if a < b then a else b }

  /** rect_intersection: exactly the common pixels. */
  function RectIntersection(a: Rect, b: Rect): (r: Rect)
    ensures forall x, y :: PointInRect(x, y, r) <==> PointInRect(x, y, a) && PointInRect(x, y, b)
  {
    var x1, y1 := Max(a.x, b.x), Max(a.y, b.y);
    var x2, y2 := Min(a.x + a.w, b.x + b.w), Min(a.y + a.h, b.y + b.h);
    Rect(x1, y1, Max(x2 - x1, 0), Max(y2 - y1, 0))
  }

  /** Every pixel of one rectangle is a pixel of the other. */
  ghost predicate Inside(a: Rect, b: Rect) {
    forall x, y :: PointInRect(x, y, a) ==> PointInRect(x, y, b)
  }

  /** rect_union: the least rectangle that covers both. */
  function RectUnion(a: Rect, b: Rect): (r: Rect)
    ensures Inside(a, r) && Inside(b, r)
    ensures RectValid(a) || RectValid(b) ==> RectValid(r)
  {
    if !RectValid(a) then b
    else if !RectValid(b) then a
    else
      var x1, y1 := Min(a.x, b.x), Min(a.y, b.y);
      var x2, y2 := Max(a.x + a.w, b.x + b.w), Max(a.y + a.h, b.y + b.h);
      Rect(x1, y1, x2 - x1, y2 - y1)
  }

  lemma UnionIsLeast(a: Rect, b: Rect, c: Rect)
    requires RectValid(a) && RectValid(b) && Inside(a, c) && Inside(b, c)
    ensures Inside(RectUnion(a, b), c)
  {
    assert PointInRect(a.x, a.y, a) && PointInRect(a.x + a.w - 1, a.y + a.h - 1, a);
    assert PointInRect(b.x, b.y, b) && PointInRect(b.x + b.w - 1, b.y + b.h - 1, b);
  }

  /** The screen. */
  function Framebuffer(width: nat, height: nat): (r: Rect)
    ensures forall x, y :: PointInRect(x, y, r) <==> 0 <= x < width && 0 <= y < height
  {
    Rect(0, 0, width, height)
  }

  function ClipToFb(width: nat, height: nat, r: Rect): Rect
  {
    RectIntersection(r, Framebuffer(width, height))
  }

  /** Rectangles that do not overlap, each with a pixel and all on the screen. */
  ghost predicate Apart(rects: seq<Rect>, width: nat, height: nat) {
    && (forall i :: 0 <= i < |rects| ==> RectValid(rects[i]) && Inside(rects[i], Framebuffer(width, height)))
    && forall i, j :: 0 <= i < j < |rects| ==> !RectIntersects(rects[i], rects[j])
  }

  ghost predicate Covered(rects: seq<Rect>, x: int, y: int) {
    exists i :: 0 <= i < |rects| && PointInRect(x, y, rects[i])
  }

  class DirtySet {
    const rects: array<Rect>
    var count: nat
    var fullRedraw: bool

    ghost predicate Valid(width: nat, height: nat)
      reads this, rects
    {
      && rects.Length == MAX_DIRTY_RECTS && count <= MAX_DIRTY_RECTS && Apart(rects[..count], width, height)
      && (fullRedraw ==> count == 0)
    }

    /** dirty_init */
    constructor ()
      ensures (forall width: nat, height: nat :: Valid(width, height)) && count == 0 && !fullRedraw && fresh(rects)
    {
      rects := new Rect[MAX_DIRTY_RECTS](_ => Rect(0, 0, 0, 0));
      count, fullRedraw := 0, false;
    }

    /** The last rectangle takes the place of a merged one. */
    method Remove(i: nat)
      requires i < count <= rects.Length
      modifies this`count, rects
      ensures count == old(count) - 1 && rects[..count] == Drop(old(rects[..count]), i)
    {
      rects[i] := rects[count - 1];
      count := count - 1;
    }

    /** dirty_add: nothing that was dirty and nothing of the visible part of the
        new rectangle is lost, unless all of the screen becomes dirty. */
    method DirtyAdd(width: nat, height: nat, r: Rect)
      requires Valid(width, height)
      modifies this, rects
      ensures Valid(width, height)
      ensures var clip := ClipToFb(width, height, r);
              && (old(fullRedraw) || !RectValid(clip) ==> fullRedraw == old(fullRedraw) && rects[..count] == old(rects[..count]))
              && (!old(fullRedraw) && RectValid(clip) ==>
                    && (fullRedraw <==> old(count) == MAX_DIRTY_RECTS && Clear(old(rects[..count]), clip))
                    && (!fullRedraw && Clear(old(rects[..count]), clip) ==> rects[..count] == old(rects[..count]) + [clip]))
      ensures !old(fullRedraw) && RectValid(ClipToFb(width, height, r)) && !fullRedraw ==>
                count > 0 && Absorbs(old(rects[..count]), rects[..count - 1], ClipToFb(width, height, r), rects[count - 1])
      ensures !fullRedraw ==> forall x, y :: Covered(old(rects[..count]), x, y) ==> Covered(rects[..count], x, y)
      ensures !fullRedraw ==>
                forall x, y :: PointInRect(x, y, r) && PointInRect(x, y, Framebuffer(width, height)) ==> Covered(rects[..count], x, y)
    {
      if fullRedraw { return; }
      var clip := ClipToFb(width, height, r);
      if !RectValid(clip) { return; }
      var merged := MergeAll(width, height, clip);
      Added(rects[..count], merged, width, height);
      if count < MAX_DIRTY_RECTS {
        rects[count] := merged;
        assert rects[..count + 1] == rects[..count] + [merged];
        count := count + 1;
        assert rects[..count - 1] == rects[..count][..count - 1];
      } else {
        fullRedraw := true;
        count := 0;
      }
    }

    /** The loop of dirty_add: every rectangle the new one touches joins it, until
        it touches none of those left. */
    method MergeAll(width: nat, height: nat, clip: Rect) returns (merged: Rect)
      requires Valid(width, height) && !fullRedraw && RectValid(clip) && Inside(clip, Framebuffer(width, height))
      modifies this`count, rects
      ensures Valid(width, height) && Merging(old(rects[..count]), rects[..count], clip, merged, width, height)
      ensures Clear(rects[..count], merged)
    {
      merged := clip;
      ghost var before := rects[..count];
      var i := 0;
      while i < count
        invariant i <= count <= MAX_DIRTY_RECTS && Merging(before, rects[..count], clip, merged, width, height)
        invariant forall j :: 0 <= j < i ==> !RectIntersects(rects[j], merged)
        decreases count, count - i
      {
        if !RectIntersects(rects[i], merged) {
          i := i + 1;
        } else {
          MergingStep(before, rects[..count], clip, merged, i, width, height);
          merged := RectUnion(rects[i], merged);
          Remove(i);
          i := 0;
        }
      }
    }
  }

  /** The dirty rectangles while a new one absorbs those it touches. */
  ghost predicate Merging(before: seq<Rect>, now: seq<Rect>, clip: Rect, merged: Rect, width: nat, height: nat) {
    && Apart(now, width, height) && RectValid(merged) && Inside(merged, Framebuffer(width, height))
    && Absorbs(before, now, clip, merged)
    && (forall x, y :: Covered(before, x, y) ==> Covered(now, x, y) || PointInRect(x, y, merged))
    && (if |now| == |before| then now == before && merged == clip else |now| < |before| && !Clear(before, clip))
  }

  lemma MergingStep(before: seq<Rect>, now: seq<Rect>, clip: Rect, merged: Rect, i: nat, width: nat, height: nat)
    requires Merging(before, now, clip, merged, width, height) && i < |now| && RectIntersects(now[i], merged)
    ensures Merging(before, Drop(now, i), clip, RectUnion(now[i], merged), width, height)
  {
    Absorbed(now, i, merged, width, height);
    AbsorbsMore(before, now, clip, merged, i, width, height);
    assert |now| == |before| ==> !Clear(before, clip);
    var less, more := Drop(now, i), RectUnion(now[i], merged);
    forall x, y | Covered(before, x, y)
      ensures Covered(less, x, y) || PointInRect(x, y, more)
    {
      assert Covered(now, x, y) || PointInRect(x, y, merged);
    }
  }

  /** No rectangle of the list touches this one. */
  ghost predicate Clear(rects: seq<Rect>, r: Rect) {
    forall i :: 0 <= i < |rects| ==> !RectIntersects(rects[i], r)
  }

  /** The list without place i, whose gap the last one fills. */
  function Drop(rects: seq<Rect>, i: nat): seq<Rect>
    requires i < |rects|
  {
    rects[i := rects[|rects| - 1]][..|rects| - 1]
  }

  /** The rectangles kept are old ones, and `merged` is the least rectangle that
      covers the new one and those not kept. */
  ghost predicate Absorbs(before: seq<Rect>, kept: seq<Rect>, clip: Rect, merged: Rect) {
    && (forall r :: r in kept ==> r in before)
    && Inside(clip, merged)
    && forall c :: Inside(clip, c) && CoversGone(before, kept, c) ==> Inside(merged, c)
  }

  ghost predicate CoversGone(before: seq<Rect>, kept: seq<Rect>, c: Rect) {
    forall r :: r in before && r !in kept ==> Inside(r, c)
  }

  lemma AbsorbsMore(before: seq<Rect>, kept: seq<Rect>, clip: Rect, merged: Rect, i: nat, width: nat, height: nat)
    requires Absorbs(before, kept, clip, merged) && Apart(kept, width, height) && i < |kept| && RectValid(merged)
    ensures Absorbs(before, Drop(kept, i), clip, RectUnion(kept[i], merged))
  {
    var less, more := Drop(kept, i), RectUnion(kept[i], merged);
    assert forall r :: r in less ==> r in kept;
    NotTwice(kept, i, width, height);
    forall c | Inside(clip, c) && CoversGone(before, less, c)
      ensures Inside(more, c)
    {
      assert CoversGone(before, kept, c) && Inside(kept[i], c);
      UnionIsLeast(kept[i], merged, c);
    }
  }

  lemma NotTwice(rects: seq<Rect>, i: nat, width: nat, height: nat)
    requires Apart(rects, width, height) && i < |rects|
    ensures rects[i] !in Drop(rects, i)
  {
    forall j | 0 <= j < |rects| && j != i
      ensures rects[j] != rects[i]
    {
      assert PointInRect(rects[i].x, rects[i].y, rects[i]);
      assert !RectIntersects(rects[if i < j then i else j], rects[if i < j then j else i]);
    }
  }

  lemma Absorbed(rects: seq<Rect>, i: nat, merged: Rect, width: nat, height: nat)
    requires Apart(rects, width, height) && i < |rects|
    requires RectValid(merged) && Inside(merged, Framebuffer(width, height))
    ensures Apart(Drop(rects, i), width, height)
    ensures RectValid(RectUnion(rects[i], merged)) && Inside(RectUnion(rects[i], merged), Framebuffer(width, height))
    ensures forall x, y :: Covered(rects, x, y) ==> Covered(Drop(rects, i), x, y) || PointInRect(x, y, RectUnion(rects[i], merged))
  {
    UnionIsLeast(rects[i], merged, Framebuffer(width, height));
    forall x, y | Covered(rects, x, y) && !PointInRect(x, y, rects[i])
      ensures Covered(Drop(rects, i), x, y)
    {
      var j :| 0 <= j < |rects| && PointInRect(x, y, rects[j]);
      assert PointInRect(x, y, Drop(rects, i)[if j == |rects| - 1 then i else j]);
    }
  }

  lemma Added(rects: seq<Rect>, merged: Rect, width: nat, height: nat)
    requires Apart(rects, width, height) && Clear(rects, merged)
    requires RectValid(merged) && Inside(merged, Framebuffer(width, height))
    ensures Apart(rects + [merged], width, height)
    ensures forall x, y :: Covered(rects + [merged], x, y) <==> Covered(rects, x, y) || PointInRect(x, y, merged)
  {
    var all := rects + [merged];
    forall x, y
      ensures Covered(all, x, y) <==> Covered(rects, x, y) || PointInRect(x, y, merged)
    {
      assert PointInRect(x, y, merged) ==> PointInRect(x, y, all[|rects|]);
      if Covered(rects, x, y) {
        var j :| 0 <= j < |rects| && PointInRect(x, y, rects[j]);
        assert PointInRect(x, y, all[j]);
      }
    }
  }

  // ----- the stacking order -----

  /** The order with the first entry for a window moved to the end. */
  function Raised(z: seq<int>, pos: nat): seq<int>
    requires pos < |z|
  {
    z[..pos] + z[pos + 1..] + [z[pos]]
  }

  /** bring_to_front */
  method BringToFront(z: array<int>, idx: int) returns (changed: bool)
    modifies z
    ensures changed <==> exists p: nat :: p < z.Length - 1 && old(z[p]) == idx
    ensures !changed ==> z[..] == old(z[..])
    ensures changed ==> exists p: nat :: p < z.Length && old(z[p]) == idx && idx !in old(z[..p]) && z[..] == Raised(old(z[..]), p)
  {
    var pos := -1;
    for i := 0 to z.Length
      invariant pos == -1 && idx !in z[..i] && z[..] == old(z[..])
    {
      if z[i] == idx {
        pos := i;
        break;
      }
    }
    if pos < 0 || pos == z.Length - 1 { return false; }
    CloseGap(z, pos);
    z[z.Length - 1] := idx;
    assert z[..] == z[..z.Length - 1] + [idx];
    return true;
  }

  /** Everything above a place moves down by one. */
  method CloseGap(z: array<int>, pos: nat)
    requires pos < z.Length
    modifies z
    ensures z[..z.Length - 1] == old(z[..pos] + z[pos + 1..])
  {
    for i := pos to z.Length - 1
      invariant forall k :: 0 <= k < pos || i <= k < z.Length ==> z[k] == old(z[k])
      invariant forall k :: pos < k <= i ==> z[k - 1] == old(z[k])
    {
      z[i] := z[i + 1];
    }
  }

  /** Raising a window loses none, puts it on top and keeps the others' order. */
  lemma RaisedOrder(z: seq<int>, pos: nat)
    requires pos < |z|
    ensures multiset(Raised(z, pos)) == multiset(z)
    ensures Raised(z, pos)[|z| - 1] == z[pos]
    ensures forall i, j :: 0 <= i < j < |z| && i != pos && j != pos ==>
              var a, b := if i < pos then i else i - 1, if j < pos then j else j - 1;
              a < b && Raised(z, pos)[a] == z[i] && Raised(z, pos)[b] == z[j]
  {
    assert z == z[..pos] + [z[pos]] + z[pos + 1..];
  }
}
