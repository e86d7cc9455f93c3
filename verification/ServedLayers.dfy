/** Which layers are served, not only how many: a layer is returned exactly when it lets the layers before it be
    matched together with it. So the answer does not depend on the order in which bases are tried. */
module ServedLayers {
  import opened AugmentingSearch
  import opened LayerMatching

  /** `done` and one layer more can be matched better than `done`. */
  ghost predicate Helps(edges: set<Edge>, done: set<Layer>, layer: Layer) {
    exists m :: MatchingOf(edges, done + {layer}, m)
                && forall other :: MatchingOf(edges, done, other) ==> |other.Keys| < |m.Keys|
  }

  lemma ServedIffHelpsNow(edges: set<Edge>, layer: Layer, m: Match, region: set<string>, done: set<Layer>)
    requires RunInvariant(edges, m, region, done) && layer !in done
    ensures Augmented(edges, layer, m, {}).found <==> Helps(edges, done, layer)
  {
    var r := Augmented(edges, layer, m, {});
    var region' := AugmentStep(edges, layer, m, region, done);
    AugmentGrows(edges, layer, m);
    InvariantIsMatching(edges, m, region, done);
    InvariantIsMatching(edges, r.matched, region', done + {layer});
    hide RunInvariant;
    if r.found {
      FewerKeys(m, r.matched);
      forall other | MatchingOf(edges, done, other) ensures |other.Keys| < |r.matched.Keys| {
        NoneIsLargerSoFar(edges, m, region, done, other);
      }
    } else if better :| MatchingOf(edges, done + {layer}, better)
                        && forall other :: MatchingOf(edges, done, other) ==> |other.Keys| < |better.Keys| {
      NoneIsLargerSoFar(edges, m, region', done + {layer}, better);
    }
  }

  lemma FewerKeys(a: Match, b: Match)
    requires a.Keys < b.Keys
    ensures |a.Keys| < |b.Keys|
  {
    ProperSubsetIsSmaller(a.Keys, b.Keys);
  }

  lemma InvariantIsMatching(edges: set<Edge>, m: Match, region: set<string>, done: set<Layer>)
    requires RunInvariant(edges, m, region, done)
    ensures MatchingOf(edges, done, m)
  {}

  /** Over the rest of the loop, a layer is served at the end exactly when it was before, or helps at its turn. */
  lemma {:induction false} ServedAtTheEnd(edges: set<Edge>, layers: seq<Layer>, m: Match, region: set<string>,
                                          done: set<Layer>, i: nat)
    requires RunInvariant(edges, m, region, done) && Distinct(layers) && i < |layers|
    requires forall l :: l in layers ==> l !in done
    ensures layers[i] in MatchLayers(edges, layers, m).Values <==> Helps(edges, done + Elements(layers[..i]), layers[i])
    decreases |layers|
  {
    hide *;
    var first, rest := layers[0], layers[1..];
    assert first in layers;
    var m1 := Augmented(edges, first, m, {}).matched;
    var region1 := AugmentStep(edges, first, m, region, done);
    RestIsNew(layers, done);
    LoopTurn(edges, layers, m);
    if i == 0 {
      NothingBefore(layers, done);
      FirstIsServed(edges, first, m, region, done);
      ServedStays(edges, rest, m1, region1, done + {first}, first);
    } else {
      OneMoreBefore(layers, done, i);
      ServedAtTheEnd(edges, rest, m1, region1, done + {first}, i - 1);
    }
  }

  lemma LoopTurn(edges: set<Edge>, layers: seq<Layer>, m: Match)
    requires layers != []
    ensures MatchLayers(edges, layers, m)
         == MatchLayers(edges, layers[1..], Augmented(edges, layers[0], m, {}).matched)
  {
    hide Augmented;
  }

  lemma FirstIsServed(edges: set<Edge>, layer: Layer, m: Match, region: set<string>, done: set<Layer>)
    requires RunInvariant(edges, m, region, done) && layer !in done
    ensures layer in Augmented(edges, layer, m, {}).matched.Values <==> Helps(edges, done, layer)
  {
    AugmentGrows(edges, layer, m);
    ServedIffHelpsNow(edges, layer, m, region, done);
    hide Helps, Augmented;
  }

  lemma NothingBefore(layers: seq<Layer>, done: set<Layer>)
    ensures done + Elements(layers[..0]) == done
  {}

  lemma OneMoreBefore(layers: seq<Layer>, done: set<Layer>, i: nat)
    requires 0 < i < |layers|
    ensures layers[1..][i - 1] == layers[i]
    ensures done + Elements(layers[..i]) == (done + {layers[0]}) + Elements(layers[1..][..i - 1])
  {
    assert layers[..i] == [layers[0]] + layers[1..][..i - 1];
  }

  lemma RestIsNew(layers: seq<Layer>, done: set<Layer>)
    requires layers != [] && Distinct(layers) && forall l :: l in layers ==> l !in done
    ensures Distinct(layers[1..]) && forall l :: l in layers[1..] ==> l !in done + {layers[0]}
  {
    forall l | l in layers[1..] ensures l !in done + {layers[0]} {
      var k :| 0 <= k < |layers[1..]| && layers[1..][k] == l;
      assert layers[k + 1] == l;
    }
  }

  /** A layer processed already is served at the end exactly when it is served now. */
  lemma {:induction false} ServedStays(edges: set<Edge>, layers: seq<Layer>, m: Match, region: set<string>,
                                       done: set<Layer>, layer: Layer)
    requires RunInvariant(edges, m, region, done) && Distinct(layers) && layer in done
    requires forall l :: l in layers ==> l !in done
    ensures layer in MatchLayers(edges, layers, m).Values <==> layer in m.Values
    decreases |layers|
  {
    if layers != [] {
      var r := Augmented(edges, layers[0], m, {});
      var region1 := AugmentStep(edges, layers[0], m, region, done);
      AugmentGrows(edges, layers[0], m);
      RestIsNew(layers, done);
      assert layers[0] in layers;
      hide RunInvariant, Distinct;
      ServedStays(edges, layers[1..], r.matched, region1, done + {layers[0]}, layer);
    }
  }

  /** The layers that come before one in the order of wire values. */
  function Before(layer: Layer): set<Layer> {
    match layer
    case Absorption => {}
    case Citation => {Absorption}
    case Discovery => {Absorption, Citation}
    case Prominence => {Absorption, Citation, Discovery}
    case Referral => {Absorption, Citation, Discovery, Prominence}
  }

  /** A layer is returned exactly when the layers before it can be matched better together with it than without it. */
  lemma ServedIffItHelps(edges: set<Edge>, layer: Layer)
    ensures layer in MaxIndependentLayers(edges) <==> Helps(edges, Before(layer), layer)
  {
    if layer in LayersOf(edges) {
      ServedIfItHasEdges(edges, layer);
      hide Helps, MaxIndependentLayers, LayersOf;
    } else {
      FinalMatchIsMaximum(edges);
      ServedHaveEdges(edges, FinalMatch(edges));
      NoEdgeNoHelp(edges, Before(layer), layer);
      hide Helps, LayersOf, FinalMatch;
    }
  }

  lemma ServedIfItHasEdges(edges: set<Edge>, layer: Layer)
    requires layer in LayersOf(edges)
    ensures layer in MaxIndependentLayers(edges) <==> Helps(edges, Before(layer), layer)
  {
    RunStarts(edges);
    LayersAreSorted(edges, layer);
    hide *;
    var layers := SortLayers(LayersOf(edges));
    var i :| 0 <= i < |layers| && layers[i] == layer;
    ServedAtTheEnd(edges, layers, map[], {}, {}, i);
    SortedBefore(LayersOf(edges), i);
    var done := Elements(layers[..i]);
    assert {} + done == done;
    SameHelp(edges, done, Before(layer), layer);
  }

  lemma RunStarts(edges: set<Edge>)
    ensures RunInvariant(edges, map[], {}, {})
    ensures Distinct(SortLayers(LayersOf(edges)))
    ensures forall l :: l in MaxIndependentLayers(edges) <==>
              l in MatchLayers(edges, SortLayers(LayersOf(edges)), map[]).Values
  {
    EveryLayerIsOrdered();
    SortByDistinct(LAYER_ORDER, LayersOf(edges));
    NothingDone(edges);
    hide RunInvariant, MatchLayers, LAYER_ORDER, LayersOf, SortBy, Distinct;
  }

  lemma LayersAreSorted(edges: set<Edge>, layer: Layer)
    requires layer in LayersOf(edges)
    ensures layer in SortLayers(LayersOf(edges))
  {}

  lemma NothingDone(edges: set<Edge>)
    ensures RunInvariant(edges, map[], {}, {})
  {}

  /** The place of a layer in the order of wire values. */
  function Place(l: Layer): nat {
    match l
    case Absorption => 0
    case Citation => 1
    case Discovery => 2
    case Prominence => 3
    case Referral => 4
  }

  ghost predicate InPlace(layers: seq<Layer>) {
    forall i, j :: 0 <= i < j < |layers| ==> Place(layers[i]) < Place(layers[j])
  }

  lemma {:induction false} SortedInPlace(order: seq<Layer>, s: set<Layer>)
    requires InPlace(order)
    ensures InPlace(SortBy(order, s))
  {
    hide Place;
    if order != [] {
      var rest := SortBy(order[1..], s);
      SortedInPlace(order[1..], s);
      forall j | 0 <= j < |rest| ensures Place(order[0]) < Place(rest[j]) {
        assert rest[j] in order[1..];
        var k :| 0 <= k < |order[1..]| && order[1..][k] == rest[j];
        assert order[k + 1] == rest[j];
      }
    }
  }

  lemma OrderInPlace()
    ensures InPlace(LAYER_ORDER)
  {
    var o := LAYER_ORDER;
    assert o[0] == Absorption && o[1] == Citation && o[2] == Discovery && o[3] == Prominence && o[4] == Referral;
  }

  lemma PlacesBefore(l: Layer, x: Layer)
    ensures x in Before(l) <==> Place(x) < Place(l)
  {}

  lemma SortedBefore(s: set<Layer>, i: nat)
    requires i < |SortLayers(s)|
    ensures Elements(SortLayers(s)[..i]) == Before(SortLayers(s)[i]) * s
  {
    var layers := SortLayers(s);
    OrderInPlace();
    SortedInPlace(LAYER_ORDER, s);
    hide SortBy, Place, Before;
    forall x ensures x in Elements(layers[..i]) <==> x in Before(layers[i]) * s {
      PlacesBefore(layers[i], x);
      if x in s {
        var k :| 0 <= k < |layers| && layers[k] == x;
        assert k < i ==> layers[..i][k] == x;
      }
    }
  }

  lemma EdgesOnly(edges: set<Edge>, layers: set<Layer>, m: Match)
    ensures MatchingOf(edges, layers, m) <==> MatchingOf(edges, layers * LayersOf(edges), m)
  {
    if MatchingOf(edges, layers, m) {
      forall l | l in m.Values ensures l in LayersOf(edges) {
        var b :| b in m && m[b] == l;
        assert (l, b) in edges;
      }
    }
  }

  lemma SameHelp(edges: set<Edge>, done: set<Layer>, before: set<Layer>, layer: Layer)
    requires done == before * LayersOf(edges) && layer in LayersOf(edges)
    ensures Helps(edges, done, layer) <==> Helps(edges, before, layer)
  {
    forall m ensures MatchingOf(edges, done, m) <==> MatchingOf(edges, before, m) { EdgesOnly(edges, before, m); }
    forall m ensures MatchingOf(edges, done + {layer}, m) <==> MatchingOf(edges, before + {layer}, m) {
      EdgesOnly(edges, before + {layer}, m);
      assert (before + {layer}) * LayersOf(edges) == done + {layer};
    }
  }

  lemma NoEdgeNoHelp(edges: set<Edge>, done: set<Layer>, layer: Layer)
    requires layer !in LayersOf(edges)
    ensures !Helps(edges, done, layer)
  {
    forall m | MatchingOf(edges, done + {layer}, m) ensures MatchingOf(edges, done, m) {
      EdgesOnly(edges, done + {layer}, m);
    }
  }
}
