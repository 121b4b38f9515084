/** How many buffers there are at places of a kind. */
module HandOverCounts {
  import opened HandOver

  // ----- counting places

  function Count(place: seq<Place>, where: Place -> bool): nat {
    if place == [] then 0
    else Count(place[..|place| - 1], where) + if where(place[|place| - 1]) then 1 else 0
  }

  lemma {:induction false} CountMove(place: seq<Place>, b: Buffer, p: Place, where: Place -> bool)
    requires b < |place|
    ensures Count(place[b := p], where) + (if where(place[b]) then 1 else 0)
         == Count(place, where) + (if where(p) then 1 else 0)
  {
    var last := |place| - 1;
    if b == last {
      assert place[b := p][..last] == place[..last];
    } else {
      CountMove(place[..last], b, p, where);
      assert place[b := p][..last] == place[..last][b := p];
    }
  }

  lemma CountMore(place: seq<Place>, p: Place, where: Place -> bool)
    ensures Count(place + [p], where) == Count(place, where) + if where(p) then 1 else 0
  {
    assert (place + [p])[..|place|] == place;
  }

  ghost predicate Lists(q: seq<Buffer>, place: seq<Place>, where: Place -> bool) {
    NoDuplicates(q) && forall b: Buffer :: b in q <==> b < |place| && where(place[b])
  }

  lemma HasFirst(q: seq<Buffer>)
    requires q != []
    ensures exists b: Buffer :: b in q
  {
    assert q[0] in q;
  }

  /** A list that names each buffer of a kind once is as long as there are such buffers. */
  lemma {:induction false} CountIsLength(place: seq<Place>, where: Place -> bool, q: seq<Buffer>)
    requires Lists(q, place, where)
    ensures Count(place, where) == |q|
    decreases |place|
  {
    if place == [] {
      if q != [] { HasFirst(q); }
    } else {
      var last := |place| - 1;
      if where(place[last]) {
        assert last in q;
        var i :| 0 <= i < |q| && q[i] == last;
        var rest := q[..i] + q[i + 1..];
        assert forall b: Buffer :: b in q <==> b in rest || b == last;
        assert last !in rest;
        assert Lists(rest, place[..last], where) by {
          forall b: Buffer
            ensures b in rest <==> b < last && where(place[..last][b])
          {
          }
        }
        CountIsLength(place[..last], where, rest);
      } else {
        assert Lists(q, place[..last], where) by {
          forall b: Buffer
            ensures b in q <==> b < last && where(place[..last][b])
          {
          }
        }
        CountIsLength(place[..last], where, q);
      }
    }
  }

  // ----- where a buffer can be

  predicate WithReceiver(p: Place) { p == Hand(Receiver) }
  predicate InMasterRing(p: Place) { p.InRing? && p.r.ToMaster? }
  predicate WithMaster(p: Place) { p.Hand? && p.t.Master? }
  predicate InWorkerRing(p: Place) { p.InRing? && p.r.ToWorker? }
  predicate WithWorker(p: Place) { p.Hand? && p.t.Worker? }
  predicate IsFreed(p: Place) { p.Freed? }
  predicate IsSetAside(p: Place) { p.SetAside? }

  lemma {:induction false} CountsAddUp(place: seq<Place>)
    ensures |place| == Count(place, WithReceiver) + Count(place, InMasterRing) + Count(place, WithMaster)
                     + Count(place, InWorkerRing) + Count(place, WithWorker)
                     + Count(place, IsFreed) + Count(place, IsSetAside)
  {
    if place != [] { CountsAddUp(place[..|place| - 1]); }
  }

  function FreedBy(t: Thread): Place -> bool {
    (p: Place) => p == Freed(t)
  }
}
