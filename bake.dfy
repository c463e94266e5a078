/** The connection de-duplication of `Board::bake` (src/board.cpp): every
    listed edge `from -> to` stands for the unordered pair `minmax(from, to)`,
    and one line is baked per pair. */
module Baking {
  import opened Routes

  /** `std::minmax(a, b)`: the smaller first. */
  function MinMax(a: int, b: int): (r: (int, int))
    ensures r.0 <= r.1
    ensures (r.0 == a && r.1 == b) || (r.0 == b && r.1 == a)
  {
    if b < a then (b, a) else (a, b)
  }

  /** The pairs of the edges listed under the node ids in `keys`. */
  ghost function PairsFrom(adj: Adjacency, keys: set<int>): set<(int, int)> {
    set u, v | u in keys && u in adj && v in adj[u] :: MinMax(u, v)
  }

  /** The pairs of the edges from `from` to each of `tos`. */
  ghost function PairsOf(from: int, tos: seq<int>): set<(int, int)> {
    set v | v in tos :: MinMax(from, v)
  }

  /** The pairs of all edges of the graph. */
  ghost function Pairs(adj: Adjacency): set<(int, int)> {
    PairsFrom(adj, adj.Keys)
  }

  /** The baked connections: one entry per pair of the graph, none twice. */
  ghost predicate Baked(adj: Adjacency, baked: seq<(int, int)>) {
    Distinct(baked) && forall p :: p in baked <==> p in Pairs(adj)
  }

  /** Finishing the list of one more node adds that node's pairs. */
  lemma PairsFromAdd(adj: Adjacency, keys: set<int>, from: int)
    requires from in adj
    ensures PairsFrom(adj, keys + {from}) == PairsFrom(adj, keys) + PairsOf(from, adj[from])
  {
    var both := PairsFrom(adj, keys) + PairsOf(from, adj[from]);
    forall p | p in PairsFrom(adj, keys + {from}) ensures p in both {
      var u, v :| u in keys + {from} && u in adj && v in adj[u] && p == MinMax(u, v);
      if u !in keys {
        assert v in adj[from];
      }
    }
  }

  /** One more entry of a neighbour list adds its pair. */
  lemma PairsOfStep(from: int, tos: seq<int>, j: nat)
    requires j < |tos|
    ensures PairsOf(from, tos[..j + 1]) == PairsOf(from, tos[..j]) + {MinMax(from, tos[j])}
  {
    assert tos[..j + 1] == tos[..j] + [tos[j]];
  }

  /** Listing `to` under `from` and `from` under `to` adds exactly the pair of
      the two ends, whatever was listed before. */
  lemma ConnectPairs(adj: Adjacency, from: int, to: int)
    ensures Pairs(Connect(adj, from, to)) == Pairs(adj) + {MinMax(from, to)}
  {
    var r := Connect(adj, from, to);
    var want := Pairs(adj) + {MinMax(from, to)};
    forall p | p in Pairs(r) ensures p in want {
      var u, v :| u in r && v in r[u] && p == MinMax(u, v);
      if u == from || u == to {
        if v in Neighbours(adj, u) {
          assert u in adj && v in adj[u];
        } else {
          assert p == MinMax(from, to);
        }
      } else {
        assert u in adj && v in adj[u];
      }
    }
    forall p | p in want ensures p in Pairs(r) {
      if p == MinMax(from, to) {
        assert from in r && to in r[from];
      } else {
        var u, v :| u in adj && v in adj[u] && p == MinMax(u, v);
        assert u in r && v in r[u];
      }
    }
  }

  /** A connection listed twice, or in both directions, is baked once:
      repeating `addConnection(a, b)` or adding `addConnection(b, a)` leaves
      the pairs unchanged. */
  lemma RepeatedConnectionBakedOnce(adj: Adjacency, a: int, b: int)
    ensures Pairs(Connect(Connect(adj, a, b), a, b)) == Pairs(Connect(adj, a, b))
    ensures Pairs(Connect(Connect(adj, a, b), b, a)) == Pairs(Connect(adj, a, b))
  {
    ConnectPairs(adj, a, b);
    ConnectPairs(Connect(adj, a, b), a, b);
    ConnectPairs(Connect(adj, a, b), b, a);
  }
}
