/**
 The script that builds the co-authorship graph of an institution's works: the work
 ids of a search become API URLs, each work's authorships are added to one dictionary
 in URL order, and the nodes are ranked by degree.
 */
module AuthorshipGraph {
  import opened CoAuthorship
  import UrlRewrite
  import DegreeRanking

  /** The dictionary `graph` that the builder fills in place. */
  class AuthorGraph {
    var adjacency: Adjacency

    constructor ()
      ensures adjacency == map[]
    {
      adjacency := map[];
    }

    /**
     `add_authorship_data(graph, data)`: for each authorship of the work, in order, the
     author's entry is reset to an empty list and every name of the work that differs
     from the author is appended to it.
     */
    method AddAuthorshipData(record: Record)
      modifies this
      ensures adjacency == AddRecord(old(adjacency), record)
    {
      var i := 0;
      while i < |record|
        invariant 0 <= i <= |record|
        invariant adjacency == Resets(old(adjacency), record, record[..i])
      {
        var author := record[i];
        ghost var before := adjacency;
        adjacency := adjacency[author := []];
        var j := 0;
        while j < |record|
          invariant 0 <= j <= |record|
          invariant adjacency == before[author := Without(record[..j], author)]
        {
          var other := record[j];
          WithoutSnoc(record, j, author);
          if other != author {
            adjacency := adjacency[author := adjacency[author] + [other]];
          }
          j := j + 1;
        }
        assert record[..|record|] == record;
        assert record[..i + 1][..i] == record[..i];
        i := i + 1;
      }
      assert record[..|record|] == record;
      ResetsIsAddRecord(old(adjacency), record);
    }
  }

  /**
   `create_graph(urls)` up to the conversion into a graph-library object: starting from
   an empty dictionary, the authorships of each fetched work are added in URL order.
   `fetched[i]` is what the API returned for the i-th URL. The result is the left fold
   of the builder and is well formed: no author lists itself and every listed co-author
   has an entry.
   */
  method CreateGraph(fetched: seq<Record>) returns (adjacency: Adjacency)
    ensures adjacency == Fold(map[], fetched)
    ensures WellFormed(adjacency)
  {
    var graph := new AuthorGraph();
    for i := 0 to |fetched|
      invariant graph.adjacency == Fold(map[], fetched[..i])
    {
      assert fetched[..i + 1][..i] == fetched[..i];
      graph.AddAuthorshipData(fetched[i]);
    }
    assert fetched[..|fetched|] == fetched;
    adjacency := graph.adjacency;
    FoldWellFormed(map[], fetched);
  }

  /**
   `test_workflow` without its I/O: the result ids become API URLs, the works fetched
   from them are folded into the dictionary, and the degree items the graph library
   reports are ranked. The most connected node is the head of the ranking, and asking
   for it on an empty degree dictionary is an error.
   */
  method TestWorkflow(resultIds: seq<string>, fetched: seq<Record>, degrees: seq<DegreeRanking.Item>)
    returns (urls: seq<string>, adjacency: Adjacency, ranking: seq<DegreeRanking.Item>,
             mostConnected: DegreeRanking.Result<string>)
    requires |fetched| == |resultIds|
    ensures urls == UrlRewrite.ApiUrls(resultIds)
    ensures |urls| == |resultIds| && forall i :: 0 <= i < |urls| ==> UrlRewrite.WebUrl(urls[i]) == resultIds[i]
    ensures adjacency == Fold(map[], fetched)
    ensures ranking == DegreeRanking.SortByDegree(degrees) && mostConnected == DegreeRanking.MaxDegreeKey(degrees)
    ensures multiset(ranking) == multiset(degrees) && DegreeRanking.NonIncreasing(ranking)
    ensures mostConnected.ValueError? <==> degrees == []
    ensures mostConnected.Ok? ==> ranking != [] && mostConnected.value == ranking[0].0
  {
    urls := UrlRewrite.ApiUrls(resultIds);
    adjacency := CreateGraph(fetched);
    ranking := DegreeRanking.SortByDegree(degrees);
    mostConnected := DegreeRanking.MaxDegreeKey(degrees);
    if degrees != [] {
      DegreeRanking.MaxIsHeadOfRanking(degrees);
    }
  }
}
