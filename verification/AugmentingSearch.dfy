/**
 * Kuhn's augmenting-path search for a matching of outcome layers to evidence bases, as functions
 * of the matching and the visited set.
 */
module AugmentingSearch {
  import TextOrder

  datatype Layer = Discovery | Citation | Absorption | Prominence | Referral

  type Edge = (Layer, string)

  /** basis -> the layer it currently serves */
  type Match = map<string, Layer>

  // ---------------------------------------------------------------- graph

  function Bases(edges: set<Edge>): set<string> {
    set e | e in edges :: e.1
  }

  function Neighbours(edges: set<Edge>, layer: Layer): set<string> {
    set e | e in edges && e.0 == layer :: e.1
  }

  /** The layers in the order of their wire values. */
  const LAYER_ORDER: seq<Layer> := [Absorption, Citation, Discovery, Prominence, Referral]

  /** The members of `s` in the order given. */
  function SortBy<T(==,!new)>(order: seq<T>, s: set<T>): (r: seq<T>)
    ensures forall x :: x in r <==> x in s && x in order
  {
    if order == [] then [] else
      (if order[0] in s then [order[0]] else []) + SortBy(order[1..], s)
  }

  /** `_sorted_layers` */
  function SortLayers(layers: set<Layer>): (r: seq<Layer>)
    ensures forall l :: l in r <==> l in layers
    ensures |r| == |layers|
  {
    EveryLayerIsOrdered();
    SortByLength(LAYER_ORDER, layers);
    assert layers == set l | l in layers && l in LAYER_ORDER;
    SortBy(LAYER_ORDER, layers)
  }

  lemma EveryLayerIsOrdered()
    ensures forall l: Layer :: l in LAYER_ORDER
    ensures Distinct(LAYER_ORDER)
  {
    forall l: Layer ensures l in LAYER_ORDER {
      assert LAYER_ORDER[0] == Absorption && LAYER_ORDER[1] == Citation && LAYER_ORDER[2] == Discovery
          && LAYER_ORDER[3] == Prominence && LAYER_ORDER[4] == Referral;
      match l case Absorption => case Citation => case Discovery => case Prominence => case Referral =>
    }
  }

  ghost predicate Distinct<T>(s: seq<T>) {
    forall i, j :: 0 <= i < j < |s| ==> s[i] != s[j]
  }

  lemma {:induction false} SortByLength<T(!new)>(order: seq<T>, layers: set<T>)
    requires Distinct(order)
    ensures |SortBy(order, layers)| == |set l | l in layers && l in order|
  {
    if order == [] {
      assert (set l | l in layers && l in order) == {};
    } else {
      SortByLength(order[1..], layers);
      var rest := set l | l in layers && l in order[1..];
      assert order[0] !in rest;
      assert (set l | l in layers && l in order) == if order[0] in layers then rest + {order[0]} else rest;
    }
  }

  // ------------------------------------------------------------ matchings

  ghost predicate IsMatching(edges: set<Edge>, m: Match) {
    && (forall b :: b in m ==> (m[b], b) in edges)
    && Injective(m)
  }

  ghost predicate Injective(m: Match) {
    forall a, b :: a in m && b in m && m[a] == m[b] ==> a == b
  }

  /** Every basis in `region` is taken, and the layers holding it have no neighbour outside `region`. */
  ghost predicate Closed(edges: set<Edge>, m: Match, region: set<string>) {
    && region <= m.Keys
    && forall b :: b in region ==> Neighbours(edges, m[b]) <= region
  }

  // ------------------------------------------- the search, as a function

  datatype Attempt = Attempt(found: bool, matched: Match, visited: set<string>)

  /** The loop of `augment` over the bases still to try. */
  function TryBases(edges: set<Edge>, layer: Layer, bases: seq<string>, m: Match, visited: set<string>): (r: Attempt)
    requires forall b :: b in bases ==> b in Bases(edges)
    ensures visited <= r.visited
    decreases |Bases(edges) - visited|, |bases|
  {
    if bases == [] then
      Attempt(false, m, visited)
    else
      var b := bases[0];
      if b in visited then
        TryBases(edges, layer, bases[1..], m, visited)
      else
        var seen := visited + {b};
        assert Bases(edges) - seen < Bases(edges) - visited by { assert b in Bases(edges) - visited; }
        ProperSubsetIsSmaller(Bases(edges) - seen, Bases(edges) - visited);
        if b !in m then
          Attempt(true, m[b := layer], seen)
        else
          var inner := Augmented(edges, m[b], m, seen);
          if inner.found then
            Attempt(true, inner.matched[b := layer], inner.visited)
          else
            SubsetIsNoLarger(Bases(edges) - inner.visited, Bases(edges) - seen);
            TryBases(edges, layer, bases[1..], inner.matched, inner.visited)
  }

  /** `augment(layer, visited)` */
  function Augmented(edges: set<Edge>, layer: Layer, m: Match, visited: set<string>): (r: Attempt)
    ensures visited <= r.visited
    decreases |Bases(edges) - visited|, |Neighbours(edges, layer)| + 1
  {
    NeighboursAreBases(edges, layer);
    TryBases(edges, layer, TextOrder.Sorted(Neighbours(edges, layer)), m, visited)
  }

  lemma NeighboursAreBases(edges: set<Edge>, layer: Layer)
    ensures Neighbours(edges, layer) <= Bases(edges)
  {}

  lemma SubsetIsNoLarger<T>(a: set<T>, b: set<T>)
    requires a <= b
    ensures |a| <= |b|
  {
    assert b == a + (b - a);
  }

  lemma ProperSubsetIsSmaller<T>(a: set<T>, b: set<T>)
    requires a < b
    ensures |a| < |b|
  {
    var x :| x in b && x !in a;
    SubsetIsNoLarger(a, b - {x});
  }

  /** The loop of `_max_independent_layers` over the layers still to process. */
  function MatchLayers(edges: set<Edge>, layers: seq<Layer>, m: Match): Match {
    if layers == [] then m
    else MatchLayers(edges, layers[1..], Augmented(edges, layers[0], m, {}).matched)
  }

  function LayersOf(edges: set<Edge>): set<Layer> {
    set e | e in edges :: e.0
  }

  function FinalMatch(edges: set<Edge>): Match {
    MatchLayers(edges, SortLayers(LayersOf(edges)), map[])
  }

  /** `_max_independent_layers` */
  function MaxIndependentLayers(edges: set<Edge>): seq<Layer> {
    SortLayers(FinalMatch(edges).Values)
  }
}
