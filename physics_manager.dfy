/** The collision pass of PhysicsManager::update: collect the entities that have a polygon and
    a transform, test every pair once, gather two callback records per intersecting pair, then
    invoke the records in order.

    The polygon's own overlap test and its callback are not part of this model: they are the
    parameters `intersects` and `handler`. The component store is two maps keyed by entity id,
    and the entity list is given in the store's iteration order. */
module PhysicsManager {

  /** One candidate: an entity with its polygon and its transform. */
  datatype Object<S, T> = Object(entity: nat, shape: S, transform: T)

  /** A collected record: the entity whose callback runs, the entity it hit, and the callback. */
  datatype Callback<C> = Callback(entity: nat, other: nat, handler: C)

  /** The entities that have both a polygon and a transform, in iteration order, each with the
      polygon and transform the store holds for it. */
  function Candidates<S, T>(entities: seq<nat>, shapes: map<nat, S>, transforms: map<nat, T>)
    : (objects: seq<Object<S, T>>)
    ensures |objects| <= |entities|
    ensures forall k :: 0 <= k < |objects| ==>
              objects[k].entity in shapes && objects[k].shape == shapes[objects[k].entity] &&
              objects[k].entity in transforms && objects[k].transform == transforms[objects[k].entity]
  {
    if entities == [] then []
    else
      var e := entities[0];
      var rest := Candidates(entities[1..], shapes, transforms);
      if e in shapes && e in transforms then [Object(e, shapes[e], transforms[e])] + rest else rest
  }

  /** No two entries of `s` are equal. */
  ghost predicate Distinct<X>(s: seq<X>)
  {
    forall i, j :: 0 <= i < j < |s| ==> s[i] != s[j]
  }

  function Entities<S, T>(objects: seq<Object<S, T>>): (ids: seq<nat>)
    ensures |ids| == |objects|
    ensures forall k :: 0 <= k < |objects| ==> ids[k] == objects[k].entity
  {
    seq(|objects|, k requires 0 <= k < |objects| => objects[k].entity)
  }

  /** An entity is a candidate exactly when it is in the entity list and has both a polygon
      and a transform. */
  lemma {:induction false} CandidatesMembers<S, T>(entities: seq<nat>, shapes: map<nat, S>, transforms: map<nat, T>)
    ensures forall e :: e in Entities(Candidates(entities, shapes, transforms)) <==>
              e in entities && e in shapes && e in transforms
  {
    if entities != [] {
      var e := entities[0];
      CandidatesMembers(entities[1..], shapes, transforms);
      var rest := Candidates(entities[1..], shapes, transforms);
      assert entities == [e] + entities[1..];
      if e in shapes && e in transforms {
        assert Entities(Candidates(entities, shapes, transforms)) == [e] + Entities(rest);
      }
    }
  }

  /** Distinct entity ids (the keys of the entity store) give candidates with distinct ids. */
  lemma {:induction false} CandidatesDistinct<S, T>(entities: seq<nat>, shapes: map<nat, S>, transforms: map<nat, T>)
    requires Distinct(entities)
    ensures Distinct(Entities(Candidates(entities, shapes, transforms)))
  {
    if entities != [] {
      var rest := Candidates(entities[1..], shapes, transforms);
      assert Distinct(entities[1..]) by {
        forall i, j | 0 <= i < j < |entities[1..]| ensures entities[1..][i] != entities[1..][j] {
          assert entities[1..][i] == entities[i + 1] && entities[1..][j] == entities[j + 1];
        }
      }
      CandidatesDistinct(entities[1..], shapes, transforms);
      var e := entities[0];
      assert e !in entities[1..] by {
        forall j | 0 <= j < |entities[1..]| ensures entities[1..][j] != e {
          assert entities[1..][j] == entities[j + 1];
        }
      }
      CandidatesMembers(entities[1..], shapes, transforms);
      var ids, restIds := Entities(Candidates(entities, shapes, transforms)), Entities(rest);
      if e in shapes && e in transforms {
        assert ids == [e] + restIds;
        forall i, j | 0 <= i < j < |ids| ensures ids[i] != ids[j] {
          if i == 0 {
            assert ids[j] == restIds[j - 1] && ids[j] in restIds;
          } else {
            assert ids[i] == restIds[i - 1] && ids[j] == restIds[j - 1];
          }
        }
      } else {
        assert ids == restIds;
      }
    }
  }

  /** The pairs (b, a) for a below b with a < j: popped object b against the remaining
      objects 0 .. j - 1, in scan order. */
  function Row(b: nat, j: nat): (row: seq<(nat, nat)>)
    ensures |row| == j
  {
    if j == 0 then [] else Row(b, j - 1) + [(b, j - 1)]
  }

  /** The index pairs (popped, remaining) that the loop tests on `n` objects, in order: the last
      object against all before it, then the one before it, and so on. */
  function TestOrder(n: nat): seq<(nat, nat)>
  {
    if n == 0 then [] else Row(n - 1, n - 1) + TestOrder(n - 1)
  }

  /** The test the loop applies to one pair: the popped object's polygon against the other's. */
  predicate Tested<S, T>(objects: seq<Object<S, T>>, intersects: (S, T, S, T) -> bool, pair: (nat, nat))
  {
    pair.0 < |objects| && pair.1 < |objects| &&
    var a, b := objects[pair.0], objects[pair.1];
    intersects(a.shape, a.transform, b.shape, b.transform)
  }

  /** The two records of an intersecting pair: first the popped object's, then the other's. */
  function Records<S, T, C>(objects: seq<Object<S, T>>, handler: S -> C, pair: (nat, nat)): seq<Callback<C>>
    requires pair.0 < |objects| && pair.1 < |objects|
  {
    var a, b := objects[pair.0], objects[pair.1];
    [Callback(a.entity, b.entity, handler(a.shape)), Callback(b.entity, a.entity, handler(b.shape))]
  }

  /** The records gathered while testing `pairs` in order. */
  function Emit<S, T, C>(objects: seq<Object<S, T>>, pairs: seq<(nat, nat)>,
                         intersects: (S, T, S, T) -> bool, handler: S -> C): seq<Callback<C>>
  {
    if pairs == [] then []
    else
      var last := pairs[|pairs| - 1];
      Emit(objects, pairs[..|pairs| - 1], intersects, handler) +
      (if Tested(objects, intersects, last) then Records(objects, handler, last) else [])
  }

  /** The pairs among `pairs` that test as intersecting, in order. */
  function Hits<S, T>(objects: seq<Object<S, T>>, pairs: seq<(nat, nat)>, intersects: (S, T, S, T) -> bool)
    : seq<(nat, nat)>
  {
    if pairs == [] then []
    else
      var last := pairs[|pairs| - 1];
      Hits(objects, pairs[..|pairs| - 1], intersects) +
      (if Tested(objects, intersects, last) then [last] else [])
  }

  lemma {:induction false} TestOrderInRange(n: nat)
    ensures forall k :: 0 <= k < |TestOrder(n)| ==> TestOrder(n)[k].1 < TestOrder(n)[k].0 < n
  {
    if n > 0 {
      TestOrderInRange(n - 1);
      var row := Row(n - 1, n - 1);
      RowContents(n - 1, n - 1);
      forall k | 0 <= k < |TestOrder(n)| ensures TestOrder(n)[k].1 < TestOrder(n)[k].0 < n {
        if k >= |row| {
          assert TestOrder(n)[k] == TestOrder(n - 1)[k - |row|];
        }
      }
    }
  }

  lemma {:induction false} RowContents(b: nat, j: nat)
    ensures forall k :: 0 <= k < j ==> Row(b, j)[k] == (b, k)
  {
    if j > 0 {
      RowContents(b, j - 1);
    }
  }

  /** Every pair (b, a) of distinct objects with a < b is tested. */
  lemma {:induction false} TestOrderComplete(n: nat)
    ensures forall a, b :: 0 <= a < b < n ==> (b, a) in TestOrder(n)
  {
    if n > 0 {
      var row, rest := Row(n - 1, n - 1), TestOrder(n - 1);
      TestOrderComplete(n - 1);
      RowContents(n - 1, n - 1);
      forall a, b | 0 <= a < b < n ensures (b, a) in TestOrder(n) {
        if b == n - 1 {
          assert TestOrder(n)[a] == row[a] == (b, a);
        } else {
          assert (b, a) in rest;
        }
      }
    }
  }

  /** No pair is tested twice, and there are n * (n - 1) / 2 tests. */
  lemma {:induction false} TestOrderDistinct(n: nat)
    ensures Distinct(TestOrder(n))
    ensures 2 * |TestOrder(n)| == n * (n - 1)
  {
    if n > 0 {
      var row, rest := Row(n - 1, n - 1), TestOrder(n - 1);
      TestOrderDistinct(n - 1);
      TestOrderInRange(n - 1);
      RowContents(n - 1, n - 1);
      forall i, j | 0 <= i < j < |TestOrder(n)| ensures TestOrder(n)[i] != TestOrder(n)[j] {
        if j >= |row| && i < |row| {
          assert TestOrder(n)[j] == rest[j - |row|];
        } else if i >= |row| {
          assert TestOrder(n)[i] == rest[i - |row|] && TestOrder(n)[j] == rest[j - |row|];
        }
      }
    }
  }

  /** The loop tests no object against itself, every pair of distinct objects once, and nothing
      else: (b, a) occurs exactly when a < b < n, and no pair occurs twice. There are
      n * (n - 1) / 2 tests. */
  lemma TestOrderExactlyOnce(n: nat)
    ensures forall k :: 0 <= k < |TestOrder(n)| ==> TestOrder(n)[k].1 < TestOrder(n)[k].0 < n
    ensures forall a, b :: 0 <= a < b < n ==> (b, a) in TestOrder(n)
    ensures Distinct(TestOrder(n))
    ensures 2 * |TestOrder(n)| == n * (n - 1)
  {
    TestOrderInRange(n);
    TestOrderComplete(n);
    TestOrderDistinct(n);
  }

  /** Testing a concatenation gathers the records of each part, in order. */
  lemma {:induction false} EmitAppend<S, T, C>(objects: seq<Object<S, T>>, p: seq<(nat, nat)>, q: seq<(nat, nat)>,
                                                intersects: (S, T, S, T) -> bool, handler: S -> C)
    ensures Emit(objects, p + q, intersects, handler) ==
            Emit(objects, p, intersects, handler) + Emit(objects, q, intersects, handler)
  {
    if q != [] {
      var q' := q[..|q| - 1];
      EmitAppend(objects, p, q', intersects, handler);
      assert (p + q)[..|p + q| - 1] == p + q';
      assert (p + q)[|p + q| - 1] == q[|q| - 1];
      assert q[..|q| - 1] == q';
    } else {
      assert p + q == p;
    }
  }

  /** The gathered records are the intersecting pairs, two records each and in test order:
      records 2k and 2k + 1 are (a, b, a's callback) and (b, a, b's callback) for the k-th
      intersecting pair (a, b). */
  lemma {:induction false} EmitIsRecordsOfHits<S, T, C>(objects: seq<Object<S, T>>, pairs: seq<(nat, nat)>,
                                                         intersects: (S, T, S, T) -> bool, handler: S -> C)
    ensures |Emit(objects, pairs, intersects, handler)| == 2 * |Hits(objects, pairs, intersects)|
    ensures forall k :: 0 <= k < |Hits(objects, pairs, intersects)| ==>
              Tested(objects, intersects, Hits(objects, pairs, intersects)[k]) &&
              Emit(objects, pairs, intersects, handler)[2 * k .. 2 * k + 2] ==
              Records(objects, handler, Hits(objects, pairs, intersects)[k])
  {
    if pairs != [] {
      var init, last := pairs[..|pairs| - 1], pairs[|pairs| - 1];
      EmitIsRecordsOfHits(objects, init, intersects, handler);
      var e0, h0 := Emit(objects, init, intersects, handler), Hits(objects, init, intersects);
      var e, h := Emit(objects, pairs, intersects, handler), Hits(objects, pairs, intersects);
      forall k | 0 <= k < |h|
        ensures Tested(objects, intersects, h[k]) && e[2 * k .. 2 * k + 2] == Records(objects, handler, h[k])
      {
        if k < |h0| {
          assert e[2 * k .. 2 * k + 2] == e0[2 * k .. 2 * k + 2];
          assert h[k] == h0[k];
        } else {
          assert e[2 * k .. 2 * k + 2] == Records(objects, handler, last);
        }
      }
    }
  }

  /** Two records per intersecting pair. */
  lemma EmitLength<S, T, C>(objects: seq<Object<S, T>>, pairs: seq<(nat, nat)>,
                            intersects: (S, T, S, T) -> bool, handler: S -> C)
    ensures |Emit(objects, pairs, intersects, handler)| == 2 * |Hits(objects, pairs, intersects)|
  {
    EmitIsRecordsOfHits(objects, pairs, intersects, handler);
  }

  /** A pair is among the hits exactly when it is tested and intersects; hits keep the order of
      the tested pairs, so distinct tested pairs give distinct hits. */
  lemma {:induction false} HitsMembers<S, T>(objects: seq<Object<S, T>>, pairs: seq<(nat, nat)>,
                                             intersects: (S, T, S, T) -> bool)
    ensures forall x :: x in Hits(objects, pairs, intersects) <==> x in pairs && Tested(objects, intersects, x)
    ensures Distinct(pairs) ==> Distinct(Hits(objects, pairs, intersects))
  {
    if pairs != [] {
      var init, last := pairs[..|pairs| - 1], pairs[|pairs| - 1];
      HitsMembers(objects, init, intersects);
      assert pairs == init + [last];
      if Distinct(pairs) {
        assert Distinct(init) by {
          forall i, j | 0 <= i < j < |init| ensures init[i] != init[j] {
            assert init[i] == pairs[i] && init[j] == pairs[j];
          }
        }
        assert last !in init by {
          forall i | 0 <= i < |init| ensures init[i] != last {
            assert init[i] == pairs[i];
          }
        }
      }
    }
  }

  /** A sequence without repeats has as many elements as its set. */
  lemma {:induction false} DistinctCard<X>(s: seq<X>)
    requires Distinct(s)
    ensures |set x | x in s| == |s|
  {
    if s != [] {
      var init := s[..|s| - 1];
      assert Distinct(init) by {
        forall i, j | 0 <= i < j < |init| ensures init[i] != init[j] {
          assert init[i] == s[i] && init[j] == s[j];
        }
      }
      DistinctCard(init);
      assert s[|s| - 1] !in init by {
        forall i | 0 <= i < |init| ensures init[i] != s[|s| - 1] {
          assert init[i] == s[i];
        }
      }
      assert (set x | x in s) == (set x | x in init) + {s[|s| - 1]} by {
        assert s == init + [s[|s| - 1]];
      }
    }
  }

  /** The unordered pairs of distinct objects that intersect, each written (popped, other) with
      the later object first, as the loop tests it. */
  ghost function IntersectingPairs<S, T>(objects: seq<Object<S, T>>, intersects: (S, T, S, T) -> bool): set<(nat, nat)>
  {
    set b, a | 0 <= a < b < |objects| && Tested(objects, intersects, (b, a)) :: (b, a)
  }

  /** The number of gathered records is twice the number of intersecting pairs. */
  lemma CallbackCount<S, T, C>(objects: seq<Object<S, T>>, intersects: (S, T, S, T) -> bool, handler: S -> C)
    ensures |Emit(objects, TestOrder(|objects|), intersects, handler)| ==
            2 * |IntersectingPairs(objects, intersects)|
  {
    var n := |objects|;
    TestOrderExactlyOnce(n);
    var hits := Hits(objects, TestOrder(n), intersects);
    EmitIsRecordsOfHits(objects, TestOrder(n), intersects, handler);
    HitsMembers(objects, TestOrder(n), intersects);
    DistinctCard(hits);
    assert (set x | x in hits) == IntersectingPairs(objects, intersects);
  }

  /** The k-th intersecting pair (b, a) has a < b and gives records 2k and 2k + 1: first
      (b, a, b's callback), then (a, b, a's callback). */
  lemma RecordPair<S, T, C>(objects: seq<Object<S, T>>, intersects: (S, T, S, T) -> bool, handler: S -> C, k: nat)
    requires k < |Hits(objects, TestOrder(|objects|), intersects)|
    ensures var e := Emit(objects, TestOrder(|objects|), intersects, handler);
            var p := Hits(objects, TestOrder(|objects|), intersects)[k];
            p.1 < p.0 < |objects| && Tested(objects, intersects, p) && 2 * k + 1 < |e| &&
            e[2 * k] == Callback(objects[p.0].entity, objects[p.1].entity, handler(objects[p.0].shape)) &&
            e[2 * k + 1] == Callback(objects[p.1].entity, objects[p.0].entity, handler(objects[p.1].shape))
  {
    var pairs := TestOrder(|objects|);
    var e, hits := Emit(objects, pairs, intersects, handler), Hits(objects, pairs, intersects);
    EmitIsRecordsOfHits(objects, pairs, intersects, handler);
    HitsMembers(objects, pairs, intersects);
    TestOrderInRange(|objects|);
    var p := hits[k];
    assert p in pairs;
    var m :| 0 <= m < |pairs| && pairs[m] == p;
    assert e[2 * k] == e[2 * k .. 2 * k + 2][0];
    assert e[2 * k + 1] == e[2 * k .. 2 * k + 2][1];
  }

  /** With distinct entity ids, the two records of the k-th intersecting pair name two
      different entities, each record the other's mirror image. */
  lemma RecordPairMirror<S, T, C>(objects: seq<Object<S, T>>, intersects: (S, T, S, T) -> bool, handler: S -> C,
                                  k: nat)
    requires Distinct(Entities(objects))
    requires k < |Hits(objects, TestOrder(|objects|), intersects)|
    ensures var e := Emit(objects, TestOrder(|objects|), intersects, handler);
            2 * k + 1 < |e| &&
            e[2 * k].entity != e[2 * k].other && e[2 * k + 1].entity != e[2 * k + 1].other &&
            e[2 * k + 1].entity == e[2 * k].other && e[2 * k + 1].other == e[2 * k].entity
  {
    RecordPair(objects, intersects, handler, k);
    var p := Hits(objects, TestOrder(|objects|), intersects)[k];
    assert Entities(objects)[p.1] != Entities(objects)[p.0];
  }

  /** With distinct entity ids no record names an entity together with itself, and the
      records come in mirror-image pairs: if a's callback is gathered for hitting b, then b's
      callback is gathered for hitting a, right after it. */
  lemma RecordsSymmetric<S, T, C>(objects: seq<Object<S, T>>, intersects: (S, T, S, T) -> bool, handler: S -> C)
    requires Distinct(Entities(objects))
    ensures var e := Emit(objects, TestOrder(|objects|), intersects, handler);
            (forall i :: 0 <= i < |e| ==> e[i].entity != e[i].other) &&
            (forall k :: 0 <= k && 2 * k < |e| ==>
               2 * k + 1 < |e| && e[2 * k + 1].entity == e[2 * k].other && e[2 * k + 1].other == e[2 * k].entity)
  {
    var pairs := TestOrder(|objects|);
    var e, hits := Emit(objects, pairs, intersects, handler), Hits(objects, pairs, intersects);
    EmitLength(objects, pairs, intersects, handler);
    forall k | 0 <= k < |hits|
      ensures e[2 * k].entity != e[2 * k].other && e[2 * k + 1].entity != e[2 * k + 1].other
      ensures e[2 * k + 1].entity == e[2 * k].other && e[2 * k + 1].other == e[2 * k].entity
    {
      RecordPairMirror(objects, intersects, handler, k);
    }
    PairedRecords(e, |hits|);
  }

  /** Facts about each pair of records 2k, 2k + 1 carry over to every single record. */
  lemma PairedRecords<C>(e: seq<Callback<C>>, m: nat)
    requires |e| == 2 * m
    requires forall k :: 0 <= k < m ==>
               e[2 * k].entity != e[2 * k].other && e[2 * k + 1].entity != e[2 * k + 1].other &&
               e[2 * k + 1].entity == e[2 * k].other && e[2 * k + 1].other == e[2 * k].entity
    ensures forall i :: 0 <= i < |e| ==> e[i].entity != e[i].other
    ensures forall k :: 0 <= k && 2 * k < |e| ==>
              2 * k + 1 < |e| && e[2 * k + 1].entity == e[2 * k].other && e[2 * k + 1].other == e[2 * k].entity
  {
    forall i | 0 <= i < |e| ensures e[i].entity != e[i].other {
      var k := i / 2;
      assert e[2 * k].entity != e[2 * k].other && e[2 * k + 1].entity != e[2 * k + 1].other;
      assert i == 2 * k || i == 2 * k + 1;
    }
  }

  /** Some record names `e` as the entity whose callback runs and `o` as the one it hit. */
  ghost predicate Recorded<C>(records: seq<Callback<C>>, e: nat, o: nat)
  {
    exists r :: 0 <= r < |records| && records[r].entity == e && records[r].other == o
  }

  /** Some later candidate i, tested against an earlier one j, intersects it, and the two
      carry the entity ids e and o in either order. */
  ghost predicate HitBetween<S, T>(objects: seq<Object<S, T>>, intersects: (S, T, S, T) -> bool, e: nat, o: nat)
  {
    exists i, j :: 0 <= j < i < |objects| && Tested(objects, intersects, (i, j)) &&
      ((objects[i].entity == e && objects[j].entity == o) || (objects[i].entity == o && objects[j].entity == e))
  }

  /** An intersecting pair gets a record in each direction. */
  lemma RecordsOfHit<S, T, C>(objects: seq<Object<S, T>>, intersects: (S, T, S, T) -> bool, handler: S -> C,
                              i: nat, j: nat)
    requires j < i < |objects| && Tested(objects, intersects, (i, j))
    ensures var e := Emit(objects, TestOrder(|objects|), intersects, handler);
            Recorded(e, objects[i].entity, objects[j].entity) && Recorded(e, objects[j].entity, objects[i].entity)
  {
    var pairs := TestOrder(|objects|);
    var e, hits := Emit(objects, pairs, intersects, handler), Hits(objects, pairs, intersects);
    TestOrderExactlyOnce(|objects|);
    HitsMembers(objects, pairs, intersects);
    assert (i, j) in hits;
    var k :| 0 <= k < |hits| && hits[k] == (i, j);
    RecordPair(objects, intersects, handler, k);
    assert e[2 * k].entity == objects[i].entity && e[2 * k].other == objects[j].entity;
    assert e[2 * k + 1].entity == objects[j].entity && e[2 * k + 1].other == objects[i].entity;
  }

  /** Every record comes from an intersecting pair. */
  lemma HitOfRecord<S, T, C>(objects: seq<Object<S, T>>, intersects: (S, T, S, T) -> bool, handler: S -> C, r: nat)
    requires r < |Emit(objects, TestOrder(|objects|), intersects, handler)|
    ensures var e := Emit(objects, TestOrder(|objects|), intersects, handler);
            HitBetween(objects, intersects, e[r].entity, e[r].other)
  {
    var pairs := TestOrder(|objects|);
    var e, hits := Emit(objects, pairs, intersects, handler), Hits(objects, pairs, intersects);
    EmitLength(objects, pairs, intersects, handler);
    var k := r / 2;
    RecordPair(objects, intersects, handler, k);
    var p := hits[k];
    assert r == 2 * k || r == 2 * k + 1;
  }

  /** Which entities get records: a record names e hitting o exactly when a later candidate
      and an earlier one with the ids e and o, in either order, intersect under the test as
      the loop applies it, the later candidate first. */
  lemma RecordedExactly<S, T, C>(objects: seq<Object<S, T>>, intersects: (S, T, S, T) -> bool, handler: S -> C)
    ensures forall e, o ::
              Recorded(Emit(objects, TestOrder(|objects|), intersects, handler), e, o) <==>
              HitBetween(objects, intersects, e, o)
  {
    var records := Emit(objects, TestOrder(|objects|), intersects, handler);
    forall e, o | Recorded(records, e, o) ensures HitBetween(objects, intersects, e, o) {
      var r :| 0 <= r < |records| && records[r].entity == e && records[r].other == o;
      HitOfRecord(objects, intersects, handler, r);
    }
    forall e, o | HitBetween(objects, intersects, e, o) ensures Recorded(records, e, o) {
      var i, j :| 0 <= j < i < |objects| && Tested(objects, intersects, (i, j)) &&
        ((objects[i].entity == e && objects[j].entity == o) || (objects[i].entity == o && objects[j].entity == e));
      RecordsOfHit(objects, intersects, handler, i, j);
    }
  }

  /** Scanning one more remaining object adds that pair's records, if it intersects. */
  lemma EmitRowStep<S, T, C>(objects: seq<Object<S, T>>, intersects: (S, T, S, T) -> bool, handler: S -> C,
                             b: nat, j: nat)
    ensures Emit(objects, Row(b, j + 1), intersects, handler) ==
            Emit(objects, Row(b, j), intersects, handler) +
            (if Tested(objects, intersects, (b, j)) then Records(objects, handler, (b, j)) else [])
  {
    assert Row(b, j + 1)[..j] == Row(b, j);
  }

  /** Popping object n: its row of tests comes before the tests of the objects below it. */
  lemma EmitPopStep<S, T, C>(objects: seq<Object<S, T>>, intersects: (S, T, S, T) -> bool, handler: S -> C, n: nat)
    ensures Emit(objects, TestOrder(n + 1), intersects, handler) ==
            Emit(objects, Row(n, n), intersects, handler) + Emit(objects, TestOrder(n), intersects, handler)
  {
    EmitAppend(objects, Row(n, n), TestOrder(n), intersects, handler);
  }

  /** The inner loop of the pair loop: tests the popped object `a` against each object still in
      the list, front to back, and returns the records of the pairs that intersect. `a` is
      object `n` of the candidates and `remaining` the `n` objects before it. */
  method TestPopped<S, T, C>(a: Object<S, T>, remaining: seq<Object<S, T>>, intersects: (S, T, S, T) -> bool,
                             handler: S -> C, ghost candidates: seq<Object<S, T>>, ghost n: nat)
    returns (found: seq<Callback<C>>)
    requires n < |candidates| && a == candidates[n] && remaining == candidates[..n]
    ensures found == Emit(candidates, Row(n, n), intersects, handler)
  {
    found := [];
    for j := 0 to |remaining|
      invariant found == Emit(candidates, Row(n, j), intersects, handler)
    {
      var b := remaining[j];
      EmitRowStep(candidates, intersects, handler, n, j);
      assert b == candidates[j];
      if intersects(a.shape, a.transform, b.shape, b.transform) {
        found := found + [Callback(a.entity, b.entity, handler(a.shape)),
                          Callback(b.entity, a.entity, handler(b.shape))];
      }
    }
  }

  /** The pair loop of PhysicsManager::update: repeatedly pops the last candidate and tests it
      against each candidate still in the list, appending two records for every pair that
      intersects. */
  method CollectCallbacks<S, T, C>(candidates: seq<Object<S, T>>, intersects: (S, T, S, T) -> bool, handler: S -> C)
    returns (callbacks: seq<Callback<C>>)
    ensures callbacks == Emit(candidates, TestOrder(|candidates|), intersects, handler)
  {
    ghost var all := Emit(candidates, TestOrder(|candidates|), intersects, handler);
    var objects := candidates;
    callbacks := [];
    while |objects| > 0
      invariant objects == candidates[..|objects|]
      invariant callbacks + Emit(candidates, TestOrder(|objects|), intersects, handler) == all
      decreases |objects|
    {
      var a := objects[|objects| - 1];
      objects := objects[..|objects| - 1];
      var found := TestPopped(a, objects, intersects, handler, candidates, |objects|);
      EmitPopStep(candidates, intersects, handler, |objects|);
      callbacks := callbacks + found;
    }
  }

  /** The invocation loop: calls the records in order and stops with an error at the first one
      whose callback cannot be borrowed. `invoked` is the sequence of calls made. */
  method Dispatch<C>(callbacks: seq<Callback<C>>, borrowable: C -> bool) returns (invoked: seq<Callback<C>>, ok: bool)
    ensures invoked <= callbacks
    ensures ok <==> forall k :: 0 <= k < |callbacks| ==> borrowable(callbacks[k].handler)
    ensures ok ==> invoked == callbacks
    ensures !ok ==> |invoked| < |callbacks| && !borrowable(callbacks[|invoked|].handler)
    ensures forall i :: 0 <= i < |invoked| ==> borrowable(invoked[i].handler)
  {
    invoked := [];
    for k := 0 to |callbacks|
      invariant invoked == callbacks[..k]
      invariant forall i :: 0 <= i < k ==> borrowable(callbacks[i].handler)
    {
      if !borrowable(callbacks[k].handler) {
        return invoked, false;
      }
      invoked := invoked + [callbacks[k]];
    }
    return invoked, true;
  }

  /** PhysicsManager::update: all records are gathered before any callback runs, and the
      callbacks run in the order gathered until one cannot be borrowed. */
  method Update<S, T, C>(entities: seq<nat>, shapes: map<nat, S>, transforms: map<nat, T>,
                         intersects: (S, T, S, T) -> bool, handler: S -> C, borrowable: C -> bool)
    returns (invoked: seq<Callback<C>>, ok: bool)
    ensures var objects := Candidates(entities, shapes, transforms);
            var gathered := Emit(objects, TestOrder(|objects|), intersects, handler);
            invoked <= gathered &&
            (forall i :: 0 <= i < |invoked| ==> borrowable(invoked[i].handler)) &&
            (ok <==> forall k :: 0 <= k < |gathered| ==> borrowable(gathered[k].handler)) &&
            (ok ==> invoked == gathered) &&
            (!ok ==> |invoked| < |gathered| && !borrowable(gathered[|invoked|].handler))
  {
    var objects := Candidates(entities, shapes, transforms);
    var callbacks := CollectCallbacks(objects, intersects, handler);
    invoked, ok := Dispatch(callbacks, borrowable);
  }
}
