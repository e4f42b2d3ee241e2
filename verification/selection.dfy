/**
 The selection rule of `Scene::closest_intersection` (`src/lib.rs`), over the
 per-object intersection results in list order: keep the hit with the smallest
 distance strictly beyond `tmin`; a later hit replaces the current one only if
 it is strictly nearer, so among equally near hits the earliest object wins.
 */
module Selection {
  import opened Options

  /** A chosen hit: its distance, what the object reported, and the object's position in the list. */
  datatype Pick<I> = Pick(t: real, hit: I, index: nat)

  /** The `k`-th object reported a hit strictly beyond `tmin`. */
  predicate Qualifies<I>(hits: seq<Option<(real, I)>>, tmin: real, k: int)
    requires 0 <= k < |hits|
  {
    hits[k].Some? && hits[k].value.0 > tmin
  }

  /** The closure passed to `fold`, applied to the `k`-th object's result `h`. */
  function Step<I>(tmin: real, best: Option<Pick<I>>, k: nat, h: Option<(real, I)>): Option<Pick<I>> {
    match (best, h)
    case (None, Some((t, i))) => if t > tmin then Some(Pick(t, i, k)) else best
    case (Some(p), Some((t, i))) => if t < p.t && t > tmin then Some(Pick(t, i, k)) else best
    case _ => best
  }

  /**
   `p` is the closest qualifying hit among the first `n` results: it is what
   its object reported, lies beyond `tmin`, is no farther than any qualifying
   hit, and is strictly nearer than every qualifying hit before it.
   */
  ghost predicate IsClosestAmong<I>(hits: seq<Option<(real, I)>>, tmin: real, n: nat, p: Pick<I>)
    requires n <= |hits|
  {
    && p.index < n
    && hits[p.index] == Some((p.t, p.hit))
    && p.t > tmin
    && (forall j :: 0 <= j < n && Qualifies(hits, tmin, j) ==> p.t <= hits[j].value.0)
    && (forall j :: 0 <= j < p.index && Qualifies(hits, tmin, j) ==> p.t < hits[j].value.0)
  }

  /** The fold over the first `n` results. */
  function SelectPrefix<I(==)>(hits: seq<Option<(real, I)>>, tmin: real, n: nat): (r: Option<Pick<I>>)
    requires n <= |hits|
    ensures r.None? <==> forall j :: 0 <= j < n ==> !Qualifies(hits, tmin, j)
    ensures r.Some? ==> IsClosestAmong(hits, tmin, n, r.value)
    decreases n
  {
    if n == 0 then None
    else
      assert Qualifies(hits, tmin, n - 1) <==> hits[n - 1].Some? && hits[n - 1].value.0 > tmin;
      Step(tmin, SelectPrefix(hits, tmin, n - 1), n - 1, hits[n - 1])
  }

  /** The fold over all results, starting from no pick. */
  function Select<I(==)>(hits: seq<Option<(real, I)>>, tmin: real): (r: Option<Pick<I>>)
    ensures r.None? <==> forall j :: 0 <= j < |hits| ==> !Qualifies(hits, tmin, j)
    ensures r.Some? ==> IsClosestAmong(hits, tmin, |hits|, r.value)
  {
    SelectPrefix(hits, tmin, |hits|)
  }

  /** At most one pick satisfies the closest-hit description. */
  lemma ClosestIsUnique<I>(hits: seq<Option<(real, I)>>, tmin: real, n: nat, p: Pick<I>, q: Pick<I>)
    requires n <= |hits|
    requires IsClosestAmong(hits, tmin, n, p) && IsClosestAmong(hits, tmin, n, q)
    ensures p == q
  {
    assert Qualifies(hits, tmin, p.index) && Qualifies(hits, tmin, q.index);
  }

  /** The fold returns exactly the pick the closest-hit description singles out. */
  lemma SelectIsClosest<I>(hits: seq<Option<(real, I)>>, tmin: real, p: Pick<I>)
    ensures Select(hits, tmin) == Some(p) <==> IsClosestAmong(hits, tmin, |hits|, p)
  {
    var r := Select(hits, tmin);
    if IsClosestAmong(hits, tmin, |hits|, p) {
      assert Qualifies(hits, tmin, p.index);
      ClosestIsUnique(hits, tmin, |hits|, r.value, p);
    }
  }

  /** Later objects cannot displace an earlier hit at the same distance. */
  lemma TieGoesToEarliest<I>(hits: seq<Option<(real, I)>>, tmin: real, i: nat, j: nat)
    requires i < j < |hits|
    requires Qualifies(hits, tmin, i) && Qualifies(hits, tmin, j)
    requires hits[i].value.0 == hits[j].value.0
    ensures Select(hits, tmin).Some? && Select(hits, tmin).value.index != j
  {
  }
}
