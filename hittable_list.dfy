/** `Hittable_List`: a list of surfaces that answers a query with the
    nearest hit among its members.  `ClosestHit` states the answer over the
    members' own answers to the full query; the method `Hit` is the loop of
    the source, which narrows the query as it goes. */
module HittableLists {
  import opened Reals
  import opened Options
  import opened Rays
  import opened Hittables
  import opened Spheres

  /** One step of the scan: a member's hit replaces the best so far when
      there is none yet or when it is at most as far (so on a tie the later
      member wins); a strictly farther hit, or a miss, keeps the best. */
  function Keep(best: Option<Hit>, next: Option<Hit>): (k: Option<Hit>)
    ensures k == best || k == next
    ensures k.None? <==> best.None? && next.None?
    ensures k.Some? && best.Some? ==> k.value.t <= best.value.t
    ensures next.Some? && k.Some? ==> k.value.t <= next.value.t
    ensures next.Some? && (best.None? || next.value.t <= best.value.t) ==> k == next
    ensures next.None? || (best.Some? && best.value.t < next.value.t) ==> k == best
  {
    if next.Some? && (best.None? || next.value.t <= best.value.t) then next else best
  }

  /** The scan over the members' answers, in order, kept by `Keep`; a
      reported hit is one of the answers. */
  function Nearest(answers: seq<Option<Hit>>): (h: Option<Hit>)
    ensures h.Some? ==> h in answers
  {
    if |answers| == 0 then None
    else Keep(Nearest(answers[..|answers| - 1]), answers[|answers| - 1])
  }

  /** What each member reports, on its own, for the query `[tMin, tMax]`. */
  function Answers(sqrt: real -> real, objects: seq<Sphere>, r: Ray, tMin: real, tMax: Bound): (a: seq<Option<Hit>>)
    ensures |a| == |objects|
    ensures forall k :: 0 <= k < |objects| ==> a[k] == Intersect(sqrt, objects[k], r, tMin, tMax)
  {
    seq(|objects|, k requires 0 <= k < |objects| => Intersect(sqrt, objects[k], r, tMin, tMax))
  }

  /** The hit the list reports for `[tMin, tMax]`. */
  function ClosestHit(sqrt: real -> real, objects: seq<Sphere>, r: Ray, tMin: real, tMax: Bound): (h: Option<Hit>)
    ensures h.Some? ==> InRange(h.value.t, tMin, tMax)
  {
    Nearest(Answers(sqrt, objects, r, tMin, tMax))
  }

  class HittableList {
    var objects: seq<Sphere>

    /** The empty list. */
    constructor ()
      ensures objects == []
    {
      objects := [];
    }

    /** The list holding one surface. */
    constructor Single(surface: Sphere)
      ensures objects == [surface]
    {
      objects := [];
      new;
      Add(surface);
    }

    /** `clear` */
    method Clear()
      modifies this
      ensures objects == []
    {
      objects := [];
    }

    /** `add`: appends at the end, keeping the members already there. */
    method Add(surface: Sphere)
      modifies this
      ensures objects == old(objects) + [surface]
    {
      objects := objects + [surface];
    }

    /** `Hittable_List::hit`: queries each member in turn over
        `[tMin, closestSoFar]`, narrowing the upper end to every accepted
        hit and copying that hit into `rec`.  The outcome is `ClosestHit`;
        when nothing is hit `rec` is untouched, and the list never changes. */
    method Hit(sqrt: real -> real, r: Ray, tMin: real, tMax: Bound, rec: HitRecord) returns (hitAnything: bool)
      requires IsSqrt(sqrt)
      modifies rec
      ensures hitAnything <==> ClosestHit(sqrt, objects, r, tMin, tMax).Some?
      ensures hitAnything ==> rec.Value() == ClosestHit(sqrt, objects, r, tMin, tMax).value
      ensures !hitAnything ==> rec.Value() == old(rec.Value())
    {
      var tempRec := new HitRecord(rec.Value());
      hitAnything := false;
      var closestSoFar := tMax;
      ghost var answers := Answers(sqrt, objects, r, tMin, tMax);
      for i := 0 to |objects|
        invariant hitAnything <==> Nearest(answers[..i]).Some?
        invariant hitAnything ==> rec.Value() == Nearest(answers[..i]).value
        invariant hitAnything ==> closestSoFar == Finite(Nearest(answers[..i]).value.t)
        invariant !hitAnything ==> closestSoFar == tMax && rec.Value() == old(rec.Value())
      {
        ScanPrefix(answers, i, tMin, tMax);
        ScanStep(sqrt, objects[i], r, tMin, tMax, Nearest(answers[..i]));
        var hit := HitSphere(sqrt, objects[i], r, tMin, closestSoFar, tempRec);
        if hit {
          hitAnything := true;
          closestSoFar := Finite(tempRec.t);
          rec.CopyFrom(tempRec);
        }
      }
      assert answers[..|objects|] == answers;
    }
  }

  /** One more answer extends the scan by one `Keep`; the best hit of a
      prefix lies in the query's range when every answer does. */
  lemma ScanPrefix(answers: seq<Option<Hit>>, i: nat, tMin: real, tMax: Bound)
    requires i < |answers|
    requires forall k :: 0 <= k < |answers| && answers[k].Some? ==> InRange(answers[k].value.t, tMin, tMax)
    ensures var best := Nearest(answers[..i]);
      (best.Some? ==> InRange(best.value.t, tMin, tMax)) &&
      Nearest(answers[..i + 1]) == Keep(best, answers[i])
  {
    assert answers[..i + 1][..i] == answers[..i];
  }

  /** Querying a member over `[tMin, closestSoFar]` keeps the best hit so far
      exactly as `Keep` does with the member's answer to the full query. */
  lemma ScanStep(sqrt: real -> real, s: Sphere, r: Ray, tMin: real, tMax: Bound, best: Option<Hit>)
    requires IsSqrt(sqrt)
    requires best.Some? ==> InRange(best.value.t, tMin, tMax)
    ensures var narrowed := Intersect(sqrt, s, r, tMin, if best.Some? then Finite(best.value.t) else tMax);
      Keep(best, Intersect(sqrt, s, r, tMin, tMax)) == if narrowed.Some? then narrowed else best
  {
    if best.Some? {
      NarrowedQuery(sqrt, s, r, tMin, tMax, best.value.t);
    }
  }

  /** The scan finds nothing exactly when every answer is a miss. */
  lemma {:induction false} NearestMisses(answers: seq<Option<Hit>>)
    ensures Nearest(answers).None? <==> forall k :: 0 <= k < |answers| ==> answers[k].None?
  {
    if |answers| > 0 {
      var prefix := answers[..|answers| - 1];
      NearestMisses(prefix);
      assert forall k :: 0 <= k < |prefix| ==> prefix[k] == answers[k];
    }
  }

  /** Answer `k` is `h`, no answer is nearer than `h`, and every later
      answer that is a hit is strictly farther. */
  ghost predicate IsNearestAt(answers: seq<Option<Hit>>, k: int, h: Hit)
    requires 0 <= k < |answers|
  {
    answers[k] == Some(h) &&
    (forall j :: 0 <= j < |answers| && answers[j].Some? ==> h.t <= answers[j].value.t) &&
    (forall j :: k < j < |answers| && answers[j].Some? ==> h.t < answers[j].value.t)
  }

  /** What the scan finds is the last of the nearest answers. */
  lemma {:induction false} NearestIsLastNearest(answers: seq<Option<Hit>>)
    ensures var h := Nearest(answers);
      h.Some? ==> exists k :: 0 <= k < |answers| && IsNearestAt(answers, k, h.value)
  {
    var h := Nearest(answers);
    if |answers| > 0 && h.Some? {
      var n := |answers| - 1;
      var prefix := answers[..n];
      var best := Nearest(prefix);
      var last := answers[n];
      assert forall j :: 0 <= j < n ==> prefix[j] == answers[j];
      if last.Some? && (best.None? || last.value.t <= best.value.t) {
        if best.Some? {
          NearestIsLastNearest(prefix);
          var k :| 0 <= k < n && IsNearestAt(prefix, k, best.value);
        } else {
          NearestMisses(prefix);
        }
        assert IsNearestAt(answers, n, h.value);
      } else {
        NearestIsLastNearest(prefix);
        var k :| 0 <= k < n && IsNearestAt(prefix, k, best.value);
        assert IsNearestAt(answers, k, h.value);
      }
    }
  }

  /** The list reports no hit exactly when no member hits on its own; in
      particular the empty list never hits. */
  lemma ClosestHitMisses(sqrt: real -> real, objects: seq<Sphere>, r: Ray, tMin: real, tMax: Bound)
    ensures ClosestHit(sqrt, objects, r, tMin, tMax).None? <==>
      forall k :: 0 <= k < |objects| ==> Intersect(sqrt, objects[k], r, tMin, tMax).None?
  {
    NearestMisses(Answers(sqrt, objects, r, tMin, tMax));
  }

  /** A reported hit is the hit of some member `k` on its own; no member hits
      nearer, and every member after `k` that hits does so strictly farther,
      so of several members hit at the same `t` the last one wins. */
  lemma ClosestHitIsNearest(sqrt: real -> real, objects: seq<Sphere>, r: Ray, tMin: real, tMax: Bound)
    ensures var h := ClosestHit(sqrt, objects, r, tMin, tMax);
      h.Some? ==> exists k :: 0 <= k < |objects| && IsNearestAt(Answers(sqrt, objects, r, tMin, tMax), k, h.value)
  {
    NearestIsLastNearest(Answers(sqrt, objects, r, tMin, tMax));
  }

  /** `closestSoFar` never increases: once a prefix of the answers holds a
      hit, every longer prefix yields one at most as far. */
  lemma {:induction false} ClosestSoFarNeverIncreases(answers: seq<Option<Hit>>, i: nat, j: nat)
    requires i <= j <= |answers|
    ensures var before := Nearest(answers[..i]);
      var after := Nearest(answers[..j]);
      before.Some? ==> after.Some? && after.value.t <= before.value.t
  {
    if i < j {
      ClosestSoFarNeverIncreases(answers, i, j - 1);
      assert answers[..j][..j - 1] == answers[..j - 1];
    }
  }

  /** Two members that differ only in their material hit at the same `t`,
      and the later one's material is the one reported. */
  lemma LaterTieWins(sqrt: real -> real, first: Sphere, second: Sphere, r: Ray, tMin: real, tMax: Bound)
    requires first.center == second.center && first.radius == second.radius
    ensures var h := ClosestHit(sqrt, [first, second], r, tMin, tMax);
      h.Some? ==> h.value.mat == second.mat
  {
    var h1 := Intersect(sqrt, first, r, tMin, tMax);
    var h2 := Intersect(sqrt, second, r, tMin, tMax);
    SameShapeSameRoots(sqrt, first, second, r, tMin, tMax);
    assert Answers(sqrt, [first, second], r, tMin, tMax) == [h1, h2];
    NearestOfTwo(h1, h2);
  }

  /** The scan over two answers. */
  lemma NearestOfTwo(a: Option<Hit>, b: Option<Hit>)
    ensures Nearest([a, b]) == Keep(a, b)
  {
    assert [a, b][..1] == [a];
    assert [a][..0] == [];
  }

  /** Spheres of the same centre and radius answer a query alike but for
      the material. */
  lemma SameShapeSameRoots(sqrt: real -> real, first: Sphere, second: Sphere, r: Ray, tMin: real, tMax: Bound)
    requires first.center == second.center && first.radius == second.radius
    ensures var h1, h2 := Intersect(sqrt, first, r, tMin, tMax), Intersect(sqrt, second, r, tMin, tMax);
      h1.Some? == h2.Some? && (h1.Some? ==> h1.value.t == h2.value.t && h2.value.mat == second.mat)
  {
    assert Discriminant(first, r) == Discriminant(second, r);
    assert NearRoot(sqrt, first, r) == NearRoot(sqrt, second, r);
    assert FarRoot(sqrt, first, r) == FarRoot(sqrt, second, r);
  }
}
