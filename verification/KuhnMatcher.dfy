/** The program: the search with its matching and visited set updated in place, proved to compute the search
    functions. */
module KuhnMatcher {
  import TextOrder
  import opened AugmentingSearch

  lemma OneMoreVisited(edges: set<Edge>, before: set<string>, visited: set<string>, basis: string)
    requires before <= visited && basis in Bases(edges) && basis !in visited
    ensures |Bases(edges) - (visited + {basis})| < |Bases(edges) - before|
  {
    assert basis in Bases(edges) - before;
    ProperSubsetIsSmaller(Bases(edges) - (visited + {basis}), Bases(edges) - before);
  }

  class LayerMatcher {
    const edges: set<Edge>
    var basisMatch: Match
    var visited: set<string>

    constructor (edges: set<Edge>)
      ensures this.edges == edges && basisMatch == map[] && visited == {}
    {
      this.edges := edges;
      basisMatch := map[];
      visited := {};
    }

    method Augment(layer: Layer) returns (found: bool)
      modifies this
      ensures Augmented(edges, layer, old(basisMatch), old(visited)) == Attempt(found, basisMatch, visited)
      decreases |Bases(edges) - visited|
    {
      hide Bases, Neighbours, TextOrder.Leq;
      NeighboursAreBases(edges, layer);
      var bases := TextOrder.Sorted(Neighbours(edges, layer));
      var i := 0;
      while i < |bases|
        invariant 0 <= i <= |bases|
        invariant old(visited) <= visited
        invariant TryBases(edges, layer, bases, old(basisMatch), old(visited))
               == TryBases(edges, layer, bases[i..], basisMatch, visited)
      {
        var basis := bases[i];
        assert bases[i..][1..] == bases[i + 1..];
        i := i + 1;
        if basis !in visited {
          OneMoreVisited(edges, old(visited), visited, basis);
          visited := visited + {basis};
          if basis !in basisMatch {
            basisMatch := basisMatch[basis := layer];
            return true;
          }
          var moved := Augment(basisMatch[basis]);
          if moved {
            basisMatch := basisMatch[basis := layer];
            return true;
          }
        }
      }
      found := false;
    }
  }

  /** `_max_independent_layers` */
  method FindMaxIndependentLayers(edges: set<Edge>) returns (layers: seq<Layer>)
    ensures layers == MaxIndependentLayers(edges)
  {
    var matcher := new LayerMatcher(edges);
    var order := SortLayers(LayersOf(edges));
    for i := 0 to |order|
      invariant matcher.edges == edges
      invariant MatchLayers(edges, order, map[]) == MatchLayers(edges, order[i..], matcher.basisMatch)
    {
      assert order[i..][1..] == order[i + 1..];
      matcher.visited := {};
      var _ := matcher.Augment(order[i]);
    }
    layers := SortLayers(matcher.basisMatch.Values);
  }
}
