/**
 The notebook that crawls an institution's works into a co-authorship dictionary. Its
 cells share global variables, so the notebook is modelled as an object whose fields
 are those globals (`urls`, `graph`) and whose methods are the cells that rebind or
 update them, in the order the notebook runs them.
 */
module FraudDetector {
  import opened CoAuthorship
  import UrlRewrite
  import DegreeRanking

  class Notebook {
    /** The global list of API URLs. */
    var urls: seq<string>
    /** The global co-authorship dictionary. */
    var graph: Adjacency

    constructor ()
      ensures urls == [] && graph == map[]
    {
      urls := [];
      graph := map[];
    }

    /**
     The cell that collects the id of every search result by appending, in order, and
     then rebinds `urls` to the ids rewritten to API URLs.
     */
    method CollectUrls(resultIds: seq<string>)
      modifies this`urls
      ensures urls == UrlRewrite.ApiUrls(resultIds)
    {
      urls := [];
      for i := 0 to |resultIds|
        invariant urls == resultIds[..i]
      {
        urls := urls + [resultIds[i]];
      }
      assert urls == resultIds;
      urls := UrlRewrite.ApiUrls(urls);
    }

    /** The cells that rebind `graph` to a fresh empty dictionary. */
    method ResetGraph()
      modifies this`graph
      ensures graph == map[]
    {
      graph := map[];
    }

    /**
     `add_data_to_graph(graph, data)`: the same builder as the script's, applied to the
     global dictionary: each author of the work is reset to an empty list that then
     receives every other name of the work.
     */
    method AddDataToGraph(record: Record)
      modifies this`graph
      ensures graph == AddRecord(old(graph), record)
    {
      var i := 0;
      while i < |record|
        invariant 0 <= i <= |record|
        invariant graph == Resets(old(graph), record, record[..i])
      {
        var author := record[i];
        ghost var before := graph;
        graph := graph[author := []];
        var j := 0;
        while j < |record|
          invariant 0 <= j <= |record|
          invariant graph == before[author := Without(record[..j], author)]
        {
          var otherAuthor := record[j];
          WithoutSnoc(record, j, author);
          if otherAuthor != author {
            graph := graph[author := graph[author] + [otherAuthor]];
          }
          j := j + 1;
        }
        assert record[..|record|] == record;
        assert record[..i + 1][..i] == record[..i];
        i := i + 1;
      }
      assert record[..|record|] == record;
      ResetsIsAddRecord(old(graph), record);
    }

    /**
     The crawl cell: for every index of `urls`, the work fetched from that URL is added
     to the global dictionary. `fetched[i]` is what the API returned for `urls[i]`.
     */
    method AddAllFetched(fetched: seq<Record>)
      requires |fetched| == |urls|
      modifies this`graph
      ensures graph == Fold(old(graph), fetched)
    {
      for i := 0 to |urls|
        invariant graph == Fold(old(graph), fetched[..i])
      {
        assert fetched[..i + 1][..i] == fetched[..i];
        AddDataToGraph(fetched[i]);
      }
      assert fetched[..|fetched|] == fetched;
    }

    /**
     The two hand-inlined cells: `graph` is rebound to an empty dictionary, then the
     builder's loop body is run on the first work and again on the second. They give
     the same dictionary as folding the builder over the two works.
     */
    method InlinedCells(first: Record, second: Record)
      modifies this`graph
      ensures graph == AddRecord(AddRecord(map[], first), second)
      ensures graph == Fold(map[], [first, second])
    {
      ResetGraph();
      AddDataToGraph(first);
      AddDataToGraph(second);
      FoldTwo(map[], first, second);
    }

    /**
     The notebook run top to bottom, I/O and plots left out. The crawl's dictionary is
     discarded when the inlined cells rebind `graph`, so what is finally drawn and
     ranked is the dictionary of the two hand-picked works; the degree items of the
     graph drawn from it are an input.
     */
    method RunNotebook(resultIds: seq<string>, fetched: seq<Record>, first: Record, second: Record,
                       degrees: seq<DegreeRanking.Item>)
      returns (ranking: seq<DegreeRanking.Item>, mostConnected: DegreeRanking.Result<string>)
      requires |fetched| == |resultIds|
      modifies this
      ensures urls == UrlRewrite.ApiUrls(resultIds)
      ensures graph == AddRecord(AddRecord(map[], first), second)
      ensures ranking == DegreeRanking.SortByDegree(degrees) && mostConnected == DegreeRanking.MaxDegreeKey(degrees)
      ensures multiset(ranking) == multiset(degrees) && DegreeRanking.NonIncreasing(ranking)
      ensures mostConnected.ValueError? <==> degrees == []
      ensures mostConnected.Ok? ==> ranking != [] && mostConnected.value == ranking[0].0
    {
      CollectUrls(resultIds);
      ResetGraph();
      AddAllFetched(fetched);
      InlinedCells(first, second);
      ranking := DegreeRanking.SortByDegree(degrees);
      mostConnected := DegreeRanking.MaxDegreeKey(degrees);
      if degrees != [] {
        DegreeRanking.MaxIsHeadOfRanking(degrees);
      }
    }
  }

  /**
   What the inlined cells leave for each author: an author of the second work has the
   second work's other names, an author of only the first work keeps the first work's,
   and nobody else has an entry.
   */
  lemma InlinedCellsEntries(first: Record, second: Record, a: Name)
    ensures a in second ==>
      (a in Fold(map[], [first, second]) && Fold(map[], [first, second])[a] == Without(second, a))
    ensures a in first && a !in second ==>
      (a in Fold(map[], [first, second]) && Fold(map[], [first, second])[a] == Without(first, a))
    ensures a !in first && a !in second ==> a !in Fold(map[], [first, second])
  {
    var works := [first, second];
    if a in second {
      LastRecordWins(map[], works, 1, a);
    } else if a in first {
      LastRecordWins(map[], works, 0, a);
    } else {
      FoldKeys(map[], works, a);
    }
  }
}
