# Co-authorship graph builders, modelled in Dafny

The repository crawls the works of one institution from the OpenAlex API and builds a
co-authorship graph. Each work's `authorships` list becomes a list of display names.
Authors who share a work are linked, and the nodes are ranked by degree to spot
outliers. Three files build this graph, each in its own way:

- `authorship-graph.py` is a script.
  - `add_authorship_data` fills a dictionary `author -> [co-authors]` in place.
  - `create_graph` folds that builder over the works of a URL list.
  - `test_workflow` makes the URL list from search results by rewriting every id's
    `https://` to `https://api.`. It then builds the graph, sorts the degree items in
    descending order and takes the node of maximal degree.
- `fraud_detector.py` is a notebook that does the same with global variables.
  - It collects the URLs.
  - It crawls them into the global `graph` with `add_data_to_graph`.
  - It then rebinds `graph` to `{}` and repeats the builder's statements, inlined, on
    two hand-picked works.
  - It ranks the degrees of the graph drawn from that dictionary.
- `adept.py` builds a DGL multigraph for one work (`add_authorsip_data`).
  - It collects the distinct names into a set and numbers them in the set's iteration
    order.
  - It adds one node per name.
  - It adds one directed edge for every ordered pair of authorship positions whose
    names differ.

## How the model is laid out

- `coauthorship.dfy` (module `CoAuthorship`) is the specification shared by the
  dictionary builders.
  - `AddRecord` is what one work does to the dictionary. `Fold` is what a sequence of
    works does.
  - It holds their lemmas: entries, frame, idempotence, well-formedness,
    "the last work wins", and a concrete asymmetry.
- `authorship_graph.dfy` models the script.
  - `AuthorGraph` is a class whose `adjacency` field is the dictionary. Its
    `AddAuthorshipData` runs the source's nested loops and is proved equal to
    `AddRecord`.
  - `CreateGraph` and `TestWorkflow` model the pipeline.
- `fraud_detector.dfy` models the notebook.
  - `Notebook` is a class whose fields are the globals `urls` and `graph`. Each cell
    is a method.
  - `AddDataToGraph` has the same loops and the same specification.
- `adept.dfy` models the DGL builder.
  - `DglGraph` is a class with a node count and an edge sequence.
  - The builder is proved to give the specification functions `RowEdges` and
    `AllEdges`, under a numbering that is a bijection. The multigraph's edge counts
    and symmetry are proved about those functions.
- `url_rewrite.dfy` (module `UrlRewrite`) models Python's `str.replace` and proves the
  round trip for the URL rewrite.
- `degree_ranking.dfy` (module `DegreeRanking`) covers the ranking.
  - The stable descending sort and CPython's `max` scan (first maximal key, ValueError
    when empty) are modelled.
  - The lemma `MaxIsHeadOfRanking` proves that the two outlier reports agree.

`graph[author] = []` discards an author's earlier co-authors whenever a later work
mentions that author. The dictionary can therefore be asymmetric and can lose links
(`LastRecordWins`, `AsymmetryExample`); the model keeps this behaviour as written. Ties
in the ranking are decided by the code: `sorted` is stable and `max` returns the first
maximal key, and the model proves exactly these two orders.

## Model

| member | source | states |
|---|---|---|
| CoAuthorship.Without | authorship-graph.py:35-38 | the list the inner loop builds for an author is never longer than the work (its contents are stated by the lemmas below) |
| CoAuthorship.WithoutCounts | authorship-graph.py:35-38 | the list built for an author holds every other name of the work as often as the work lists it, and no occurrence of the author |
| CoAuthorship.WithoutMembers | authorship-graph.py:35-38 | a name is in an author's list iff it is in the work and differs from the author; the author never lists themself |
| CoAuthorship.WithoutAppend | authorship-graph.py:35-38 | the filter that drops the author keeps relative order: it distributes over concatenation |
| CoAuthorship.WithoutAbsent | authorship-graph.py:35-38 | a work that does not mention the author is copied unchanged, in order |
| CoAuthorship.ResetsVisited | authorship-graph.py:32-38 | while the outer loop runs, exactly the authors visited so far are keys with the work-minus-author list, and every other key keeps its old list |
| CoAuthorship.ResetsIsAddRecord | authorship-graph.py:32-38 | visiting every authorship in order leaves the dictionary that `AddRecord` specifies, whatever the repetitions |
| CoAuthorship.AddRecord | authorship-graph.py:32-38 | after one work is added, the keys are the old keys plus every name of the work, and an empty work leaves the dictionary as it was |
| CoAuthorship.AddRecordAuthors | authorship-graph.py:32-38 | after a work is added, every one of its authors is a key whose list is the work without that author: no self-loop, other names with their multiplicities |
| CoAuthorship.AddRecordFrame | authorship-graph.py:32-38 | names the work does not mention are neither added, removed nor changed |
| CoAuthorship.AddRecordSymmetric | authorship-graph.py:32-38 | right after a work is added, any two distinct authors of it list each other |
| CoAuthorship.AddRecordIdempotent | authorship-graph.py:32-38 | adding the same work twice in a row gives the same dictionary as adding it once |
| CoAuthorship.AddRecordWellFormed | authorship-graph.py:32-38 | adding a work keeps the dictionary well formed: nobody lists themself and every listed co-author is a key |
| CoAuthorship.Fold | authorship-graph.py:51-54 | adding the works one after another in order never removes a key |
| CoAuthorship.FoldTwo | fraud_detector.py:55-76 | folding over two works adds the first and then the second |
| CoAuthorship.FoldAppend | authorship-graph.py:51-54 | folding over two batches of works is the same as folding over the first and continuing from its result with the second |
| CoAuthorship.FoldKeys | authorship-graph.py:51-54 | after the fold, a name is a key iff it was a key at the start or some work mentions it |
| CoAuthorship.LastRecordWins | authorship-graph.py:34 | an author's final list is the last work mentioning them minus themself; co-authors from earlier works are lost |
| CoAuthorship.FoldUntouched | authorship-graph.py:51-54 | an author no work mentions keeps their starting entry, or stays absent |
| CoAuthorship.FoldWellFormed | authorship-graph.py:51-54 | every fold from a well-formed dictionary, including the empty one, is well formed |
| CoAuthorship.AsymmetryExample | authorship-graph.py:34 | after the works [A, B] and [A, C], B lists A but A lists only C, so the dictionary is asymmetric |
| UrlRewrite.ReplaceAll | authorship-graph.py:139 | `str.replace` with a non-empty pattern, scanning left to right without overlaps, never shortens the string when the replacement is at least as long as the pattern |
| UrlRewrite.ReplaceAllAbsent | authorship-graph.py:139 | `str.replace` leaves a string unchanged when the pattern occurs nowhere in it |
| UrlRewrite.CopiedPrefix | authorship-graph.py:139 | the rewrite inserts an 'h' only where it writes "https://api."; any prefix of the output without an 'h' was copied unchanged from the input |
| UrlRewrite.ApiUrlRoundTrip | authorship-graph.py:139 | rewriting "https://api." back to "https://" recovers every id exactly, so the rewrite loses no information |
| UrlRewrite.ApiUrl | authorship-graph.py:139 | one id's API URL is never shorter than the id, since "https://" grows to "https://api." |
| UrlRewrite.ApiUrls | authorship-graph.py:138-141 | the URL list has one entry per search result, in order, and each rewrites back to its id |
| DegreeRanking.Insert | authorship-graph.py:147 | insertion grows the list by one, puts the new item or the old head first, and keeps the list in non-increasing degree order |
| DegreeRanking.InsertCounts | authorship-graph.py:147 | insertion adds exactly one occurrence of the item and loses nothing |
| DegreeRanking.SortByDegree | authorship-graph.py:147 | the ranking is a permutation of the degree items, in non-increasing degree order |
| DegreeRanking.InsertStable | authorship-graph.py:147 | insertion puts the new item ahead of the items of its own degree and does not reorder them |
| DegreeRanking.SortStable | authorship-graph.py:147 | the sort is stable: for each degree, the items of that degree keep their dictionary order |
| DegreeRanking.FirstMaxFrom | authorship-graph.py:151 | the `max` scan returns a position of maximal degree before which every degree is strictly smaller |
| DegreeRanking.MaxDegreeKey | authorship-graph.py:151 | `max` raises ValueError iff there are no items; otherwise it returns the key of the first item of maximal degree |
| DegreeRanking.FirstWithDegree | authorship-graph.py:147 | in any list, the first item of a given degree is the head of the items of that degree, taken in order |
| DegreeRanking.HeadHasMaxDegree | authorship-graph.py:147 | the head of the ranking carries the largest degree |
| DegreeRanking.MaxIsHeadOfRanking | authorship-graph.py:146-151 | the most connected node is exactly the node at the head of the ranking |
| AuthorshipGraph.AuthorGraph.constructor | authorship-graph.py:51 | a new dictionary is empty |
| AuthorshipGraph.AuthorGraph.AddAuthorshipData | authorship-graph.py:21-38 | the nested loops leave the dictionary that `AddRecord` specifies for the old dictionary and the work |
| AuthorshipGraph.CreateGraph | authorship-graph.py:41-55 | the dictionary built from the fetched works is the left fold of the builder from the empty dictionary, and it is well formed |
| AuthorshipGraph.TestWorkflow | authorship-graph.py:128-152 | the URLs are the rewritten result ids and round-trip to them; the dictionary is the fold; the ranking is the stable descending sort of the degree items and the maximum is the first maximal key, so it is ValueError iff there are no degrees and otherwise the head of the ranking |
| FraudDetector.Notebook.constructor | fraud_detector.py:13 | the notebook starts with no URLs and an empty dictionary |
| FraudDetector.Notebook.CollectUrls | fraud_detector.py:13-17 | `urls` becomes the result ids in order, each rewritten to its API URL |
| FraudDetector.Notebook.ResetGraph | fraud_detector.py:21 | the global dictionary is rebound to an empty one |
| FraudDetector.Notebook.AddDataToGraph | fraud_detector.py:30-37 | the nested loops leave the dictionary that `AddRecord` specifies; the URL list is untouched |
| FraudDetector.Notebook.AddAllFetched | fraud_detector.py:40-42 | crawling every URL in index order leaves the fold of the builder over the fetched works |
| FraudDetector.Notebook.InlinedCells | fraud_detector.py:55-76 | the two inlined cells give the fold over the two hand-picked works, starting from an empty dictionary |
| FraudDetector.InlinedCellsEntries | fraud_detector.py:55-76 | after the inlined cells, an author of the second work has that work's other names, an author of only the first work has the first work's, and nobody else has an entry |
| FraudDetector.Notebook.RunNotebook | fraud_detector.py:13-124 | after the cells run in order, the crawl's dictionary has been discarded and only the two works remain; the URLs are the rewritten ids; the ranking is the stable descending sort and the maximum the first maximal key, ValueError iff there are no degrees and otherwise the head of the ranking |
| Adept.DglGraph.constructor | adept.py:34 | a new DGL graph has no nodes and no edges |
| Adept.DglGraph.AddNodes | adept.py:41 | `add_nodes(n)` adds n nodes and no edges |
| Adept.DglGraph.AddEdges | adept.py:49 | `add_edges(u, v)` appends one edge, even a duplicate, and grows the node count to cover both ends |
| Adept.Enumerate | adept.py:40 | iterating a set yields each of its names exactly once, in an unspecified order |
| Adept.IdMap | adept.py:40 | the comprehension maps each enumerated name to its position: its keys are the names, and every id is below their number |
| Adept.IdMapIsBijection | adept.py:40 | the numbering is one to one, from the distinct names onto 0..n-1 |
| Adept.CollectAuthors | adept.py:36-39 | the set gathered is exactly the set of names of the work |
| Adept.AddRow | adept.py:43-49 | the inner loop appends the author's row of edges, one per differing name, in order, and adds no nodes |
| Adept.RowEdges | adept.py:45-49 | the edges the inner loop adds for one author all start at that author's id, and there is at most one per authorship |
| Adept.AllEdges | adept.py:42-49 | the edges the nested loops add number at most one per ordered pair of authorship positions |
| Adept.RowEdgesSnoc | adept.py:45-49 | scanning one more authorship extends the row by one edge iff its name differs from the author |
| Adept.AllEdgesSnoc | adept.py:42-49 | visiting one more authorship appends that author's row |
| Adept.AddAuthorsipData | adept.py:24-50 | the graph has one node per distinct name, under a numbering that is a bijection onto 0..n-1, and exactly the edges the nested loops specify, in order; an empty work gives an empty graph |
| Adept.RowEdgeCount | adept.py:45-49 | in an author's row, the edge to b's id occurs once per occurrence of b when b is not the author, and never otherwise |
| Adept.EdgeCount | adept.py:42-49 | the edge from a's id to b's id occurs count(a) * count(b) times when a and b differ, and never when they are equal: repeated names give parallel edges and no self-loops |
| Adept.EdgeEndpoints | adept.py:42-49 | every edge joins two different ids, both below the node count |
| Adept.RowEndpoints | adept.py:45-49 | every edge of one author's row joins two different ids below the node count |
| Adept.EdgesSymmetric | adept.py:42-49 | the multigraph is symmetric: for any two ids, the edge one way occurs exactly as often as the edge the other way |

## Left out

- HTTP retrieval (`get_data`, `load_work_data`, the search request) is not modelled; what the API returns for each URL is an input (`fetched`, `resultIds`, `first`, `second`).
- The JSON projection `authorship["author"]["display_name"]` is left out: a work is given as its list of display names. A missing key (KeyError) is the retrieval side's failure and is not modelled.
- The conversion `nx.Graph(graph)` and `graph.degree()` belong to networkx, which is not part of this model. The degree items are an input, in the dictionary's iteration order.
- Plotting (`plot_graph`, the notebook's plotly and matplotlib cells) and printing are output only.
- The notebook's GCN cells (torch, torch_geometric) are left out: they refer to names that are never defined.
- The notebook cell `add_data_to_graph()` (fraud_detector.py:48) always raises TypeError. `RunNotebook` runs the cells as if that cell were skipped, as a re-run past it would.
- The cells that only display `urls` or `graph` change nothing.
- `UrlRewrite.ReplaceAll`: Python's `str.replace` with an empty pattern is not modelled; the code only ever uses "https://".
- `FraudDetector.Notebook.InlinedCells`: the two inlined cells are modelled as calls to `AddDataToGraph` on the global dictionary, because they are the same statements on the same variable.
- `Adept.AddAuthorsipData`: the numbering is returned as a ghost value, because DGL does not keep it. The order in which Python iterates a set is left arbitrary.
- `create_graph.py` is not part of this model.
- `CoAuthorship.AddRecord`: the dictionary is a Dafny `map`, so the key insertion order of a Python dict is not modelled. Resetting an existing key keeps its place in that order, and the order fixes the node order of `nx.Graph(graph)` and so the order of the degree items. The degree items are an input here, in that order, so nothing proved depends on it.
