/**
 The DGL variant of the co-authorship builder: the distinct display names of one work
 are numbered 0..n-1, the graph gets n nodes, and a directed edge is added for every
 ordered pair of authorship positions whose names differ.
 */
module Adept {
  import opened CoAuthorship

  /** A directed edge between two node ids, source first. */
  type Edge = (nat, nat)

  /** A DGL graph as this code uses it: node ids 0..numNodes-1 and its edges in insertion order. */
  class DglGraph {
    var numNodes: nat
    var edges: seq<Edge>

    /** `dgl.DGLGraph()`: no nodes and no edges. */
    constructor ()
      ensures numNodes == 0 && edges == []
    {
      numNodes := 0;
      edges := [];
    }

    /** `add_nodes(n)`: `n` more nodes, numbered after the existing ones. */
    method AddNodes(n: nat)
      modifies this
      ensures numNodes == old(numNodes) + n && edges == old(edges)
    {
      numNodes := numNodes + n;
    }

    /**
     `add_edges(u, v)`: one more edge from `u` to `v`, kept even if an equal edge is
     already there; end nodes beyond the current node count are added first.
     */
    method AddEdges(u: nat, v: nat)
      modifies this
      ensures edges == old(edges) + [(u, v)]
      ensures numNodes == if u < old(numNodes) && v < old(numNodes) then old(numNodes)
                          else if u < v then v + 1 else u + 1
    {
      if u >= numNodes || v >= numNodes {
        numNodes := if u < v then v + 1 else u + 1;
      }
      edges := edges + [(u, v)];
    }
  }

  /** No name occurs twice. */
  predicate Distinct(order: seq<Name>)
  {
    forall i, j :: 0 <= i < j < |order| ==> order[i] != order[j]
  }

  /**
   Iterating over a set: every element exactly once, in an order nothing here
   specifies (Python's set iteration order is an implementation detail).
   */
  method Enumerate(authors: set<Name>) returns (order: seq<Name>)
    ensures Names(order) == authors
    ensures Distinct(order) && |order| == |authors|
  {
    order := [];
    var rest := authors;
    while rest != {}
      invariant Names(order) + rest == authors && Names(order) !! rest
      invariant Distinct(order) && |order| + |rest| == |authors|
      decreases |rest|
    {
      var a :| a in rest;
      assert a !in order;
      order := order + [a];
      rest := rest - {a};
    }
  }

  /**
   `{author: i for i, author in enumerate(authors)}`: each name of the enumeration is
   mapped to its position.
   */
  function IdMap(order: seq<Name>): (ids: map<Name, nat>)
    requires Distinct(order)
    ensures ids.Keys == Names(order)
    ensures forall i :: 0 <= i < |order| ==> ids[order[i]] == i
    ensures forall a :: a in ids ==> ids[a] < |order|
  {
    map i | 0 <= i < |order| :: order[i] := i
  }

  /** No two names share an id. */
  ghost predicate Injective(ids: map<Name, nat>)
  {
    forall a, b :: a in ids && b in ids && a != b ==> ids[a] != ids[b]
  }

  /** `ids` numbers the names of `authors` one to one onto 0..|authors|-1. */
  ghost predicate IsIdMap(ids: map<Name, nat>, authors: set<Name>)
  {
    && ids.Keys == authors
    && (forall v: nat :: v in ids.Values <==> v < |authors|)
    && Injective(ids)
  }

  /** The numbering of any enumeration of a set is a bijection onto 0..n-1. */
  lemma IdMapIsBijection(order: seq<Name>, authors: set<Name>)
    requires Distinct(order) && Names(order) == authors && |order| == |authors|
    ensures IsIdMap(IdMap(order), authors)
  {
    var ids := IdMap(order);
    forall a | a in ids
      ensures exists i :: 0 <= i < |order| && order[i] == a && ids[a] == i
    {
      var i :| 0 <= i < |order| && order[i] == a;
    }
    forall v: nat | v < |authors|
      ensures v in ids.Values
    {
      var i := v;
      assert order[i] in ids && ids[order[i]] == i;
    }
  }

  /** The edges the inner loop adds for `author`: one to each differing name of `others`, in order. */
  function RowEdges(ids: map<Name, nat>, author: Name, others: Record): (row: seq<Edge>)
    requires author in ids && Names(others) <= ids.Keys
    ensures |row| <= |others|
    ensures forall e :: e in row ==> e.0 == ids[author]
    decreases |others|
  {
    if others == [] then []
    else
      var last := others[|others| - 1];
      assert Names(others[..|others| - 1]) <= Names(others);
      RowEdges(ids, author, others[..|others| - 1])
        + (if last != author then [(ids[author], ids[last])] else [])
  }

  /** The edges the outer loop adds for the authors of `authors`, in order. */
  function AllEdges(ids: map<Name, nat>, authors: Record, others: Record): (edges: seq<Edge>)
    requires Names(authors) <= ids.Keys && Names(others) <= ids.Keys
    ensures |edges| <= |authors| * |others|
    decreases |authors|
  {
    if authors == [] then []
    else
      assert Names(authors[..|authors| - 1]) <= Names(authors);
      MulSucc(|authors| - 1, |others|);
      AllEdges(ids, authors[..|authors| - 1], others) + RowEdges(ids, authors[|authors| - 1], others)
  }

  /** Every name of a prefix is a name of the whole record. */
  lemma NamesOfPrefix(s: Record, j: nat)
    requires j <= |s|
    ensures Names(s[..j]) <= Names(s)
  {
  }

  /** Scanning one more name extends the row by at most one edge. */
  lemma RowEdgesSnoc(ids: map<Name, nat>, author: Name, s: Record, j: nat)
    requires author in ids && Names(s) <= ids.Keys && j < |s|
    ensures Names(s[..j]) <= ids.Keys && Names(s[..j + 1]) <= ids.Keys
    ensures RowEdges(ids, author, s[..j + 1])
      == RowEdges(ids, author, s[..j]) + (if s[j] != author then [(ids[author], ids[s[j]])] else [])
  {
    NamesOfPrefix(s, j);
    NamesOfPrefix(s, j + 1);
    assert s[..j + 1][..j] == s[..j];
  }

  /** Visiting one more author appends that author's row. */
  lemma AllEdgesSnoc(ids: map<Name, nat>, s: Record, i: nat)
    requires Names(s) <= ids.Keys && i < |s|
    ensures Names(s[..i]) <= ids.Keys && Names(s[..i + 1]) <= ids.Keys
    ensures AllEdges(ids, s[..i + 1], s) == AllEdges(ids, s[..i], s) + RowEdges(ids, s[i], s)
  {
    NamesOfPrefix(s, i);
    NamesOfPrefix(s, i + 1);
    assert s[..i + 1][..i] == s[..i];
  }

  /** The loop that gathers the authorships' names into a set. */
  method CollectAuthors(authorships: Record) returns (authors: set<Name>)
    ensures authors == Names(authorships)
  {
    authors := {};
    for i := 0 to |authorships|
      invariant authors == Names(authorships[..i])
    {
      assert authorships[..i + 1] == authorships[..i] + [authorships[i]];
      authors := authors + {authorships[i]};
    }
    assert authorships[..|authorships|] == authorships;
  }

  /**
   The inner loop for one author: an edge from the author's id to the id of every name
   of the work that differs from the author, in order. All ids already name nodes, so
   the node count does not change.
   */
  method AddRow(graph: DglGraph, ids: map<Name, nat>, author: Name, authorships: Record)
    requires author in ids && Names(authorships) <= ids.Keys
    requires forall a :: a in ids ==> ids[a] < graph.numNodes
    modifies graph
    ensures graph.numNodes == old(graph.numNodes)
    ensures graph.edges == old(graph.edges) + RowEdges(ids, author, authorships)
  {
    var authorId := ids[author];
    for j := 0 to |authorships|
      invariant graph.numNodes == old(graph.numNodes)
      invariant Names(authorships[..j]) <= ids.Keys
      invariant graph.edges == old(graph.edges) + RowEdges(ids, author, authorships[..j])
    {
      var otherAuthor := authorships[j];
      var otherAuthorId := ids[otherAuthor];
      RowEdgesSnoc(ids, author, authorships, j);
      if otherAuthor != author {
        graph.AddEdges(authorId, otherAuthorId);
      }
    }
    assert authorships[..|authorships|] == authorships;
  }

  /**
   `add_authorsip_data(work_json)`: collects the distinct names, numbers them, adds one
   node per name and one edge per ordered pair of positions with different names. The
   numbering is the one the set's iteration happened to produce; it is returned as a
   ghost value so that the edges can be stated.
   */
  method AddAuthorsipData(authorships: Record) returns (graph: DglGraph, ghost authorToId: map<Name, nat>)
    ensures fresh(graph)
    ensures IsIdMap(authorToId, Names(authorships))
    ensures graph.numNodes == |Names(authorships)|
    ensures graph.edges == AllEdges(authorToId, authorships, authorships)
    ensures authorships == [] ==> graph.numNodes == 0 && graph.edges == []
  {
    graph := new DglGraph();
    var authors := CollectAuthors(authorships);
    var order := Enumerate(authors);
    var ids := IdMap(order);
    graph.AddNodes(|authors|);
    for i := 0 to |authorships|
      invariant graph.numNodes == |authors|
      invariant Names(authorships[..i]) <= ids.Keys
      invariant graph.edges == AllEdges(ids, authorships[..i], authorships)
    {
      AllEdgesSnoc(ids, authorships, i);
      AddRow(graph, ids, authorships[i], authorships);
    }
    assert authorships[..|authorships|] == authorships;
    authorToId := ids;
    IdMapIsBijection(order, authors);
  }

  /**
   In the row of `author`, the edge from `a` to `b` occurs once per occurrence of `b`
   in `others` when `author` is `a` and the names differ, and never otherwise.
   */
  lemma {:induction false} RowEdgeCount(ids: map<Name, nat>, author: Name, others: Record, a: Name, b: Name)
    requires Injective(ids) && author in ids && Names(others) <= ids.Keys && a in ids && b in ids
    ensures multiset(RowEdges(ids, author, others))[(ids[a], ids[b])]
      == if author == a && a != b then multiset(others)[b] else 0
    decreases |others|
  {
    if others != [] {
      var init, last := others[..|others| - 1], others[|others| - 1];
      assert others == init + [last];
      RowEdgeCount(ids, author, init, a, b);
    }
  }

  /**
   The edge from `a`'s id to `b`'s id is added count(a) * count(b) times when the names
   differ, so repeated names give parallel edges, and never when they are equal.
   */
  lemma {:induction false} EdgeCount(ids: map<Name, nat>, authors: Record, others: Record, a: Name, b: Name)
    requires Injective(ids) && Names(authors) <= ids.Keys && Names(others) <= ids.Keys
    requires a in ids && b in ids
    ensures multiset(AllEdges(ids, authors, others))[(ids[a], ids[b])]
      == if a != b then multiset(authors)[a] * multiset(others)[b] else 0
    decreases |authors|
  {
    if authors != [] {
      var init, last := authors[..|authors| - 1], authors[|authors| - 1];
      EdgeCount(ids, init, others, a, b);
      RowEdgeCount(ids, last, others, a, b);
      var e := (ids[a], ids[b]);
      var c := multiset(init)[a];
      var m := multiset(others)[b];
      assert AllEdges(ids, authors, others) == AllEdges(ids, init, others) + RowEdges(ids, last, others);
      CountSnoc(authors, a);
      if last == a && a != b {
        MulSucc(c, m);
      }
    }
  }

  /** Counting in a non-empty sequence: the count in its front plus one if its last element matches. */
  lemma CountSnoc(s: Record, a: Name)
    requires s != []
    ensures multiset(s)[a] == multiset(s[..|s| - 1])[a] + (if s[|s| - 1] == a then 1 else 0)
  {
    assert s == s[..|s| - 1] + [s[|s| - 1]];
  }

  lemma MulSucc(c: nat, m: nat)
    ensures (c + 1) * m == c * m + m
  {
  }

  /** Every edge joins two different names' ids, both below the node count. */
  lemma {:induction false} EdgeEndpoints(ids: map<Name, nat>, authors: Record, others: Record, n: nat)
    requires Injective(ids) && Names(authors) <= ids.Keys && Names(others) <= ids.Keys
    requires forall a :: a in ids ==> ids[a] < n
    ensures forall e :: e in AllEdges(ids, authors, others) ==> e.0 != e.1 && e.0 < n && e.1 < n
    decreases |authors|
  {
    if authors != [] {
      var init, last := authors[..|authors| - 1], authors[|authors| - 1];
      EdgeEndpoints(ids, init, others, n);
      RowEndpoints(ids, last, others, n);
    }
  }

  lemma {:induction false} RowEndpoints(ids: map<Name, nat>, author: Name, others: Record, n: nat)
    requires Injective(ids) && author in ids && Names(others) <= ids.Keys
    requires forall a :: a in ids ==> ids[a] < n
    ensures forall e :: e in RowEdges(ids, author, others) ==> e.0 != e.1 && e.0 < n && e.1 < n
    decreases |others|
  {
    if others != [] {
      RowEndpoints(ids, author, others[..|others| - 1], n);
    }
  }

  /**
   The multigraph built for a work is symmetric: for any two ids, the edge one way
   occurs exactly as often as the edge the other way.
   */
  lemma EdgesSymmetric(ids: map<Name, nat>, authorships: Record, u: nat, v: nat)
    requires IsIdMap(ids, Names(authorships))
    ensures multiset(AllEdges(ids, authorships, authorships))[(u, v)]
      == multiset(AllEdges(ids, authorships, authorships))[(v, u)]
  {
    var n := |Names(authorships)|;
    var edges := AllEdges(ids, authorships, authorships);
    if u < n && v < n {
      assert u in ids.Values && v in ids.Values;
      var a :| a in ids && ids[a] == u;
      var b :| b in ids && ids[b] == v;
      EdgeCount(ids, authorships, authorships, a, b);
      EdgeCount(ids, authorships, authorships, b, a);
    } else {
      forall a | a in ids
        ensures ids[a] < n
      {
        assert ids[a] in ids.Values;
      }
      EdgeEndpoints(ids, authorships, authorships, n);
      assert (u, v) !in edges && (v, u) !in edges;
    }
  }
}
