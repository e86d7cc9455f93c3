/**
 * The augmenting-path search finds a maximum matching: every failed search leaves a closed region
 * of bases, which no later search disturbs and which bounds the size of any matching.
 */
module LayerMatching {
  import TextOrder
  import opened AugmentingSearch

  // ---------------------------------------------------- one augmentation

  /** A failed search changes nothing, and everything it visited is taken and leads nowhere new. */
  lemma {:induction false} FailedSearch(edges: set<Edge>, layer: Layer, bases: seq<string>, m: Match,
                                        visited: set<string>)
    requires forall b :: b in bases ==> b in Bases(edges)
    requires !TryBases(edges, layer, bases, m, visited).found
    ensures var r := TryBases(edges, layer, bases, m, visited);
            && r.matched == m
            && (forall b :: b in bases ==> b in r.visited)
            && (forall b :: b in r.visited - visited ==> b in m && Neighbours(edges, m[b]) <= r.visited)
    decreases |Bases(edges) - visited|, |bases|
  {
    if bases != [] {
      var b := bases[0];
      if b in visited {
        FailedSearch(edges, layer, bases[1..], m, visited);
      } else {
        var seen := visited + {b};
        assert Bases(edges) - seen < Bases(edges) - visited by { assert b in Bases(edges) - visited; }
        ProperSubsetIsSmaller(Bases(edges) - seen, Bases(edges) - visited);
        NeighboursAreBases(edges, m[b]);
        FailedSearch(edges, m[b], TextOrder.Sorted(Neighbours(edges, m[b])), m, seen);
        var inner := Augmented(edges, m[b], m, seen);
        SubsetIsNoLarger(Bases(edges) - inner.visited, Bases(edges) - seen);
        FailedSearch(edges, layer, bases[1..], m, inner.visited);
      }
    }
  }

  /** `after` is `m` with the layers shifted along one path whose first basis `head` went to `layer`;
      bases in `visited` are as before, and away from `head` the same layers are served, each once. */
  ghost predicate Shifted(edges: set<Edge>, m: Match, after: Match, visited: set<string>, head: string, layer: Layer) {
    && (forall b :: b in visited ==> (b in after <==> b in m) && (b in m ==> after[b] == m[b]))
    && m.Keys < after.Keys
    && |after.Keys| == |m.Keys| + 1
    && head in after && head !in visited && after[head] == layer
    && (forall b :: b in after ==> (after[b], b) in edges)
    && Injective(after - {head})
    && (after - {head}).Values == m.Values
  }

  lemma {:induction false} FoundSearch(edges: set<Edge>, layer: Layer, bases: seq<string>, m: Match,
                                       visited: set<string>)
    returns (head: string)
    requires forall b :: b in bases ==> b in Bases(edges) && b in Neighbours(edges, layer)
    requires IsMatching(edges, m)
    requires TryBases(edges, layer, bases, m, visited).found
    ensures Shifted(edges, m, TryBases(edges, layer, bases, m, visited).matched, visited, head, layer)
    decreases |Bases(edges) - visited|, |bases|
  {
    var b := bases[0];
    if b in visited {
      head := FoundSearch(edges, layer, bases[1..], m, visited);
    } else {
      var seen := visited + {b};
      ProperSubsetIsSmaller(Bases(edges) - seen, Bases(edges) - visited);
      if b !in m {
        head := b;
        TakeFreeBasis(edges, m, b, visited, layer);
      } else {
        NeighboursAreBases(edges, m[b]);
        var others := TextOrder.Sorted(Neighbours(edges, m[b]));
        var inner := Augmented(edges, m[b], m, seen);
        if inner.found {
          var tail := FoundSearch(edges, m[b], others, m, seen);
          head := b;
          ReplaceHead(edges, m, inner.matched, b, tail, visited, layer);
        } else {
          FailedSearch(edges, m[b], others, m, seen);
          SubsetIsNoLarger(Bases(edges) - inner.visited, Bases(edges) - seen);
          head := FoundSearch(edges, layer, bases[1..], m, inner.visited);
          ShiftedForFewer(edges, m, TryBases(edges, layer, bases[1..], m, inner.visited).matched, inner.visited,
                          visited, head, layer);
        }
      }
    }
  }

  lemma ShiftedForFewer(edges: set<Edge>, m: Match, after: Match, visited: set<string>, fewer: set<string>,
                        head: string, layer: Layer)
    requires Shifted(edges, m, after, visited, head, layer)
    requires fewer <= visited
    ensures Shifted(edges, m, after, fewer, head, layer)
  {}

  lemma TakeFreeBasis(edges: set<Edge>, m: Match, b: string, visited: set<string>, layer: Layer)
    requires IsMatching(edges, m)
    requires b !in m && b !in visited && (layer, b) in edges
    ensures Shifted(edges, m, m[b := layer], visited, b, layer)
  {
    assert m[b := layer] - {b} == m;
    assert m[b := layer].Keys == m.Keys + {b};
  }

  /** The layer that held `b` has moved on to `tail`, so `b` can be handed to `layer`. */
  lemma ReplaceHead(edges: set<Edge>, m: Match, moved: Match, b: string, tail: string, visited: set<string>,
                    layer: Layer)
    requires b in m && b !in visited && (layer, b) in edges
    requires Shifted(edges, m, moved, visited + {b}, tail, m[b])
    ensures Shifted(edges, m, moved[b := layer], visited, b, layer)
  {
    var after := moved[b := layer];
    assert b in visited + {b};
    assert after.Keys == moved.Keys;
    SwapTwins(moved, b, tail);
    assert after - {b} == moved - {b};
  }

  /** If `b` and `tail` hold the same layer, dropping one or the other leaves the same layers served, once each. */
  lemma SwapTwins(moved: Match, b: string, tail: string)
    requires b in moved && tail in moved && b != tail && moved[b] == moved[tail]
    requires Injective(moved - {tail})
    ensures Injective(moved - {b})
    ensures (moved - {b}).Values == (moved - {tail}).Values
  {
    var rest, rest0 := moved - {b}, moved - {tail};
    assert rest[tail] == rest0[b];
    forall l ensures l in rest.Values <==> l in rest0.Values {
      if l != moved[b] {
        if k :| k in moved && k != b && k != tail && moved[k] == l {
          assert rest[k] == l && rest0[k] == l;
        }
      }
    }
    forall x, y | x in rest && y in rest && rest[x] == rest[y] ensures x == y {
      var x0 := if x == tail then b else x;
      var y0 := if y == tail then b else y;
      assert rest0[x0] == rest0[y0];
    }
  }

  /** No search gets out of a closed region: it leaves the region's matches alone, and fails when it only tries bases
      inside. */
  lemma {:induction false} ClosedRegionStays(edges: set<Edge>, layer: Layer, bases: seq<string>, m: Match,
                                             visited: set<string>,
                                             region: set<string>)
    requires forall b :: b in bases ==> b in Bases(edges)
    requires Closed(edges, m, region)
    ensures var r := TryBases(edges, layer, bases, m, visited);
            && (forall b :: b in region ==> b in r.matched && r.matched[b] == m[b])
            && ((forall b :: b in bases ==> b in region) ==> !r.found)
    decreases |Bases(edges) - visited|, |bases|
  {
    if bases != [] {
      var b := bases[0];
      if b in visited {
        ClosedRegionStays(edges, layer, bases[1..], m, visited, region);
      } else {
        var seen := visited + {b};
        assert Bases(edges) - seen < Bases(edges) - visited by { assert b in Bases(edges) - visited; }
        ProperSubsetIsSmaller(Bases(edges) - seen, Bases(edges) - visited);
        if b in m {
          NeighboursAreBases(edges, m[b]);
          var others := TextOrder.Sorted(Neighbours(edges, m[b]));
          ClosedRegionStays(edges, m[b], others, m, seen, region);
          var inner := Augmented(edges, m[b], m, seen);
          if !inner.found {
            FailedSearch(edges, m[b], others, m, seen);
            SubsetIsNoLarger(Bases(edges) - inner.visited, Bases(edges) - seen);
            ClosedRegionStays(edges, layer, bases[1..], m, inner.visited, region);
          }
        }
      }
    }
  }

  // ------------------------------------------------------- the whole run

  /** What holds after processing `done`: a matching, and a closed region holding all the neighbours of every layer left
      over. */
  ghost predicate RunInvariant(edges: set<Edge>, m: Match, region: set<string>, done: set<Layer>) {
    && IsMatching(edges, m)
    && Closed(edges, m, region)
    && m.Values <= done
    && forall l :: l in done ==> l in m.Values || Neighbours(edges, l) <= region
  }

  /** What a successful top-level search does to a matching: one more basis and one more layer, nobody unmatched. */
  lemma ShiftedIsMatching(edges: set<Edge>, m: Match, after: Match, head: string, layer: Layer)
    requires IsMatching(edges, m) && layer !in m.Values
    requires Shifted(edges, m, after, {}, head, layer)
    ensures IsMatching(edges, after)
    ensures after.Values == m.Values + {layer}
  {
    var rest := after - {head};
    forall l | l in after.Values ensures l in rest.Values + {layer} {
      var k :| k in after && after[k] == l;
      assert k != head ==> rest[k] == l;
    }
    forall l | l in rest.Values ensures l in after.Values {
      var k :| k in rest && rest[k] == l;
      assert after[k] == l;
    }
    forall a, b | a in after && b in after && after[a] == after[b] ensures a == b {
      assert a != head ==> after[a] == rest[a] && rest[a] in rest.Values;
      assert b != head ==> after[b] == rest[b] && rest[b] in rest.Values;
    }
  }

  /** One call of `augment` on a layer not matched yet: it either matches the layer, keeping every basis and layer
      matched so far, or changes nothing. */
  lemma AugmentGrows(edges: set<Edge>, layer: Layer, m: Match)
    requires IsMatching(edges, m) && layer !in m.Values
    ensures var r := Augmented(edges, layer, m, {});
            if r.found then
              && IsMatching(edges, r.matched)
              && m.Keys < r.matched.Keys
              && r.matched.Values == m.Values + {layer}
            else
              r.matched == m
  {
    var bases := TextOrder.Sorted(Neighbours(edges, layer));
    NeighboursAreBases(edges, layer);
    var r := Augmented(edges, layer, m, {});
    if r.found {
      var head := FoundSearch(edges, layer, bases, m, {});
      ShiftedIsMatching(edges, m, r.matched, head, layer);
    } else {
      FailedSearch(edges, layer, bases, m, {});
    }
  }

  /** A closed region stays closed; after a failure it also takes in all that was visited, the layer's neighbours among
      it. */
  lemma AugmentClosed(edges: set<Edge>, layer: Layer, m: Match, region: set<string>) returns (region': set<string>)
    requires Closed(edges, m, region)
    ensures var r := Augmented(edges, layer, m, {});
            && Closed(edges, r.matched, region')
            && region <= region'
            && (!r.found ==> r.matched == m && Neighbours(edges, layer) <= region')
  {
    var bases := TextOrder.Sorted(Neighbours(edges, layer));
    NeighboursAreBases(edges, layer);
    ClosedRegionStays(edges, layer, bases, m, {}, region);
    var r := Augmented(edges, layer, m, {});
    region' := region;
    if !r.found {
      FailedSearch(edges, layer, bases, m, {});
      LargerRegion(edges, m, region, r.visited);
      region' := region + r.visited;
    } else {
      SameHolders(edges, m, r.matched, region);
    }
    hide Closed, TryBases;
  }

  lemma LargerRegion(edges: set<Edge>, m: Match, region: set<string>, visited: set<string>)
    requires Closed(edges, m, region)
    requires forall b :: b in visited ==> b in m && Neighbours(edges, m[b]) <= visited
    ensures Closed(edges, m, region + visited)
  {
    hide Neighbours;
  }

  lemma SameHolders(edges: set<Edge>, m: Match, after: Match, region: set<string>)
    requires Closed(edges, m, region) && forall b :: b in region ==> b in after && after[b] == m[b]
    ensures Closed(edges, after, region)
  {
    hide Neighbours;
  }

  /** One turn of the loop over layers. */
  lemma AugmentStep(edges: set<Edge>, layer: Layer, m: Match, region: set<string>, done: set<Layer>)
    returns (region': set<string>)
    requires RunInvariant(edges, m, region, done)
    requires layer !in done
    ensures RunInvariant(edges, Augmented(edges, layer, m, {}).matched, region', done + {layer})
  {
    AugmentGrows(edges, layer, m);
    region' := AugmentClosed(edges, layer, m, region);
  }

  lemma {:induction false} RunKeepsInvariant(edges: set<Edge>, layers: seq<Layer>, m: Match, region: set<string>,
                                             done: set<Layer>)
    returns (region': set<string>)
    requires RunInvariant(edges, m, region, done)
    requires Distinct(layers)
    requires forall l :: l in layers ==> l !in done
    ensures RunInvariant(edges, MatchLayers(edges, layers, m), region', done + Elements(layers))
    decreases |layers|
  {
    if layers == [] {
      region' := region;
      assert done + Elements(layers) == done;
    } else {
      ElementsStep(layers, done);
      var region1 := AugmentStep(edges, layers[0], m, region, done);
      var m1 := Augmented(edges, layers[0], m, {}).matched;
      region' := RunKeepsInvariant(edges, layers[1..], m1, region1, done + {layers[0]});
    }
  }

  function Elements(layers: seq<Layer>): set<Layer> { set l | l in layers }

  lemma ElementsStep(layers: seq<Layer>, done: set<Layer>)
    requires layers != []
    ensures done + Elements(layers) == done + {layers[0]} + Elements(layers[1..])
  {
    assert layers == [layers[0]] + layers[1..];
  }

  lemma {:induction false} SortByDistinct<T(!new)>(order: seq<T>, layers: set<T>)
    requires Distinct(order)
    ensures Distinct(SortBy(order, layers))
  {
    if order != [] {
      SortByDistinct(order[1..], layers);
    }
  }

  lemma {:induction false} InjectiveSizes(m: Match)
    requires Injective(m)
    ensures |m.Values| == |m.Keys|
    decreases |m|
  {
    if m == map[] {
      assert m.Values == {};
    } else {
      var b :| b in m;
      var rest := m - {b};
      assert m.Keys == rest.Keys + {b};
      assert forall k :: k in rest ==> k in m && rest[k] == m[k] && k != b;
      assert m[b] !in rest.Values;
      assert m.Values == rest.Values + {m[b]} by {
        forall l | l in m.Values ensures l in rest.Values + {m[b]} {
          var k :| k in m && m[k] == l;
          if k != b {
            assert rest[k] == l;
          }
        }
      }
      assert Injective(rest) by {
        assert forall k :: k in rest ==> k in m && rest[k] == m[k];
      }
      InjectiveSizes(rest);
    }
  }

  /** A matching that serves only some layers. */
  ghost predicate MatchingOf(edges: set<Edge>, layers: set<Layer>, m: Match) {
    IsMatching(edges, m) && m.Values <= layers
  }

  /** Koenig's bound: every edge of a processed layer has its basis in the closed region or its layer matched outside
      it, so no matching of those layers is larger. */
  lemma NoneIsLargerSoFar(edges: set<Edge>, m: Match, region: set<string>, done: set<Layer>, other: Match)
    requires RunInvariant(edges, m, region, done)
    requires MatchingOf(edges, done, other)
    ensures |other.Keys| <= |m.Keys|
  {
    var outside := other - region;
    var free := m - region;
    OutsideLayersAreFree(edges, m, region, done, other);
    SubsetIsNoLarger(outside.Values, free.Values);
    InjectiveSizes(outside);
    InjectiveSizes(free);
    PartsSize(other.Keys, region);
    PartsSize(m.Keys, region);
    assert outside.Keys == other.Keys - region && free.Keys == m.Keys - region;
    assert m.Keys * region == region;
    SubsetIsNoLarger(other.Keys * region, region);
  }

  lemma NoMatchingIsLarger(edges: set<Edge>, m: Match, region: set<string>, other: Match)
    requires RunInvariant(edges, m, region, LayersOf(edges))
    requires IsMatching(edges, other)
    ensures |other.Keys| <= |m.Keys|
  {
    ServedHaveEdges(edges, other);
    NoneIsLargerSoFar(edges, m, region, LayersOf(edges), other);
  }

  lemma ServedHaveEdges(edges: set<Edge>, m: Match)
    requires IsMatching(edges, m)
    ensures m.Values <= LayersOf(edges)
  {
    forall l | l in m.Values ensures l in LayersOf(edges) {
      var b :| b in m && m[b] == l;
      assert (l, b) in edges;
    }
  }

  lemma PartsSize<T>(a: set<T>, b: set<T>)
    ensures |a| == |a * b| + |a - b|
  {
    assert a == a * b + (a - b);
  }

  lemma OutsideLayersAreFree(edges: set<Edge>, m: Match, region: set<string>, done: set<Layer>, other: Match)
    requires RunInvariant(edges, m, region, done)
    requires MatchingOf(edges, done, other)
    ensures (other - region).Values <= (m - region).Values
    ensures Injective(other - region) && Injective(m - region)
  {
    var outside := other - region;
    var free := m - region;
    forall l | l in outside.Values ensures l in free.Values {
      var b :| b in outside && outside[b] == l;
      assert other[b] in other.Values;
      assert (l, b) in edges && b in Neighbours(edges, l);
      var c :| c in m && m[c] == l;
      assert c in free && free[c] == l;
    }
    assert forall k :: k in outside ==> outside[k] == other[k];
    assert forall k :: k in free ==> free[k] == m[k];
  }

  /** The matching found is a maximum matching: no matching of layers to bases is larger. */
  lemma FinalMatchIsMaximum(edges: set<Edge>)
    ensures IsMatching(edges, FinalMatch(edges))
    ensures forall other :: IsMatching(edges, other) ==> |other.Keys| <= |FinalMatch(edges).Keys|
    ensures |MaxIndependentLayers(edges)| == |FinalMatch(edges).Keys|
  {
    var m, region := FinalMatchInvariant(edges);
    hide RunInvariant, IsMatching, LayersOf;
    forall other | IsMatching(edges, other) ensures |other.Keys| <= |FinalMatch(edges).Keys| {
      NoMatchingIsLarger(edges, m, region, other);
    }
  }

  lemma FinalMatchInvariant(edges: set<Edge>) returns (m: Match, region: set<string>)
    ensures m == FinalMatch(edges)
    ensures RunInvariant(edges, m, region, LayersOf(edges))
    ensures IsMatching(edges, m)
    ensures |MaxIndependentLayers(edges)| == |m.Keys|
  {
    var layers := SortLayers(LayersOf(edges));
    EveryLayerIsOrdered();
    SortByDistinct(LAYER_ORDER, LayersOf(edges));
    assert RunInvariant(edges, map[], {}, {});
    hide RunInvariant, Augmented;
    region := RunKeepsInvariant(edges, layers, map[], {}, {});
    m := FinalMatch(edges);
    assert {} + Elements(layers) == LayersOf(edges);
    RunInvariantIsMatching(edges, m, region, LayersOf(edges));
    InjectiveSizes(m);
  }

  lemma RunInvariantIsMatching(edges: set<Edge>, m: Match, region: set<string>, done: set<Layer>)
    requires RunInvariant(edges, m, region, done)
    ensures IsMatching(edges, m) && Injective(m)
  {}

  /** A layer whose `augment` fails is in no matching of the run from then on, and there is a Hall certificate for it:
      a set of layers one larger than the set of all their neighbours. */
  lemma FailedLayerCertificate(edges: set<Edge>, layer: Layer, m: Match, region: set<string>, done: set<Layer>)
    returns (layers: set<Layer>, neighbourhood: set<string>)
    requires RunInvariant(edges, m, region, done)
    requires layer !in done
    requires !Augmented(edges, layer, m, {}).found
    ensures layer in layers
    ensures forall l :: l in layers ==> Neighbours(edges, l) <= neighbourhood
    ensures |layers| == |neighbourhood| + 1
  {
    RunInvariantIsMatching(edges, m, region, done);
    var region' := AugmentClosed(edges, layer, m, region);
    layers, neighbourhood := HallCertificate(edges, m, region', layer);
  }

  lemma HallCertificate(edges: set<Edge>, m: Match, region: set<string>, layer: Layer)
    returns (layers: set<Layer>, neighbourhood: set<string>)
    requires Closed(edges, m, region) && Injective(m)
    requires layer !in m.Values && Neighbours(edges, layer) <= region
    ensures layer in layers
    ensures forall l :: l in layers ==> Neighbours(edges, l) <= neighbourhood
    ensures |layers| == |neighbourhood| + 1
  {
    var held := map b | b in region :: m[b];
    assert held.Keys == region;
    assert Injective(held);
    InjectiveSizes(held);
    layers, neighbourhood := held.Values + {layer}, region;
    forall l | l in held.Values ensures Neighbours(edges, l) <= neighbourhood && l != layer {
      var b :| b in held && held[b] == l;
      assert m[b] in m.Values;
    }
  }

  /** A layer left out by its own `augment` is still left out at the end of the run. */
  lemma FailedLayerStaysOut(edges: set<Edge>, layer: Layer, rest: seq<Layer>, m: Match, region: set<string>,
                            done: set<Layer>)
    requires RunInvariant(edges, m, region, done)
    requires Distinct([layer] + rest)
    requires forall l :: l in [layer] + rest ==> l !in done
    requires !Augmented(edges, layer, m, {}).found
    ensures layer !in MatchLayers(edges, [layer] + rest, m).Values
  {
    var region1 := AugmentStep(edges, layer, m, region, done);
    AugmentGrows(edges, layer, m);
    assert ([layer] + rest)[1..] == rest;
    forall l | l in rest ensures l !in done + {layer} {
      var i :| 0 <= i < |rest| && rest[i] == l;
      assert ([layer] + rest)[i + 1] == l && l in [layer] + rest;
    }
    LeftOutLayers(edges, rest, m, region1, done + {layer}, layer);
  }

  lemma {:induction false} LeftOutLayers(edges: set<Edge>, layers: seq<Layer>, m: Match, region: set<string>,
                                         done: set<Layer>, out: Layer)
    requires RunInvariant(edges, m, region, done)
    requires Distinct(layers)
    requires forall l :: l in layers ==> l !in done
    requires out in done && out !in m.Values
    ensures out !in MatchLayers(edges, layers, m).Values
    decreases |layers|
  {
    if layers != [] {
      var region1 := AugmentStep(edges, layers[0], m, region, done);
      AugmentGrows(edges, layers[0], m);
      LeftOutLayers(edges, layers[1..], Augmented(edges, layers[0], m, {}).matched, region1, done + {layers[0]}, out);
    }
  }
}
