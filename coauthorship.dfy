/**
 The co-authorship adjacency that the scripts build: a dictionary from an author's
 display name to the list of names that shared a work with that author. This module
 holds the specification shared by every builder: what one record does to the
 dictionary (`AddRecord`), what a sequence of records does (`Fold`), and the
 properties of both, including the ones that make the dictionary lopsided.
 */
module CoAuthorship {

  /** An author's display name; two authorships are the same author iff the names are equal. */
  type Name = string

  /** The display names of one work's authorships, in the order the work lists them. */
  type Record = seq<Name>

  /** The dictionary the builders update in place: author -> co-author names. */
  type Adjacency = map<Name, seq<Name>>

  /** The set of names occurring in a record. */
  function Names(record: Record): set<Name>
  {
    set n | n in record
  }

  /** `names` in its own order with every occurrence of `a` dropped. */
  function Without(names: Record, a: Name): (r: Record)
    ensures |r| <= |names|
    decreases |names|
  {
    if names == [] then []
    else
      var last := names[|names| - 1];
      Without(names[..|names| - 1], a) + (if last != a then [last] else [])
  }

  /** Scanning one more name of the record extends the filtered prefix by that name, unless it is `a`. */
  lemma WithoutSnoc(names: Record, j: nat, a: Name)
    requires j < |names|
    ensures names[j] != a ==> Without(names[..j + 1], a) == Without(names[..j], a) + [names[j]]
    ensures names[j] == a ==> Without(names[..j + 1], a) == Without(names[..j], a)
  {
    assert names[..j + 1][..j] == names[..j];
    assert Without(names[..j], a) + [] == Without(names[..j], a);
  }

  /** Dropping `a` keeps the multiplicity of every other name and removes `a` entirely. */
  lemma {:induction false} WithoutCounts(names: Record, a: Name)
    ensures multiset(Without(names, a)) == multiset(names)[a := 0]
    decreases |names|
  {
    if names != [] {
      var init, last := names[..|names| - 1], names[|names| - 1];
      WithoutCounts(init, a);
      assert names == init + [last];
    }
  }

  /** The names left are exactly the names of the record other than `a`; `a` itself is gone. */
  lemma WithoutMembers(names: Record, a: Name)
    ensures a !in Without(names, a)
    ensures forall n :: n in Without(names, a) <==> n in names && n != a
  {
    WithoutCounts(names, a);
    forall n
      ensures n in Without(names, a) <==> n in names && n != a
    {
      assert n in Without(names, a) <==> n in multiset(Without(names, a));
      assert n in names <==> n in multiset(names);
    }
    assert a !in multiset(Without(names, a));
  }

  /** Dropping a name distributes over concatenation, so relative order is kept. */
  lemma {:induction false} WithoutAppend(s: Record, t: Record, a: Name)
    ensures Without(s + t, a) == Without(s, a) + Without(t, a)
    decreases |t|
  {
    if t == [] {
      assert s + t == s;
    } else {
      var init, last := t[..|t| - 1], t[|t| - 1];
      assert (s + t)[..|s + t| - 1] == s + init;
      WithoutAppend(s, init, a);
    }
  }

  /** A record that never mentions `a` comes back unchanged. */
  lemma {:induction false} WithoutAbsent(names: Record, a: Name)
    requires a !in names
    ensures Without(names, a) == names
    decreases |names|
  {
    if names != [] {
      WithoutAbsent(names[..|names| - 1], a);
    }
  }

  /**
   The dictionary after one record has been added: every name of the record is (re)set
   to the record minus that name; every other key keeps its old list.
   */
  function AddRecord(g: Adjacency, record: Record): (r: Adjacency)
    ensures r.Keys == g.Keys + Names(record)
    ensures record == [] ==> r == g
  {
    map k | k in g.Keys + Names(record) :: if k in record then Without(record, k) else g[k]
  }

  /**
   The builder's outer loop as it runs: each author visited, in order, has its entry
   reset to the record minus that author (a second visit of the same author redoes it).
   */
  function Resets(g: Adjacency, record: Record, visited: seq<Name>): Adjacency
    decreases |visited|
  {
    if visited == [] then g
    else
      var a := visited[|visited| - 1];
      Resets(g, record, visited[..|visited| - 1])[a := Without(record, a)]
  }

  /** After visiting some authors, exactly those have been reset; every other key is untouched. */
  lemma {:induction false} ResetsVisited(g: Adjacency, record: Record, visited: seq<Name>, k: Name)
    ensures k in Resets(g, record, visited) <==> k in g || k in visited
    ensures k in visited ==> Resets(g, record, visited)[k] == Without(record, k)
    ensures k in g && k !in visited ==> Resets(g, record, visited)[k] == g[k]
    decreases |visited|
  {
    if visited != [] {
      var init, a := visited[..|visited| - 1], visited[|visited| - 1];
      ResetsVisited(g, record, init, k);
      assert visited == init + [a];
      assert k in visited <==> k in init || k == a;
    }
  }

  /** Visiting every author of the record, in order, yields `AddRecord`. */
  lemma ResetsIsAddRecord(g: Adjacency, record: Record)
    ensures Resets(g, record, record) == AddRecord(g, record)
  {
    var done, spec := Resets(g, record, record), AddRecord(g, record);
    forall k
      ensures k in done <==> k in spec
      ensures k in done ==> done[k] == spec[k]
    {
      ResetsVisited(g, record, record, k);
    }
  }

  /**
   Every author of the record becomes a key whose list is the record with that author
   removed (order and multiplicity of the others kept), so no author lists itself.
   */
  lemma AddRecordAuthors(g: Adjacency, record: Record)
    ensures forall a :: a in record ==> a in AddRecord(g, record)
    ensures forall a :: a in record ==>
      AddRecord(g, record)[a] == Without(record, a)
      && a !in AddRecord(g, record)[a]
      && multiset(AddRecord(g, record)[a]) == multiset(record)[a := 0]
  {
    forall a | a in record
      ensures a in AddRecord(g, record) && AddRecord(g, record)[a] == Without(record, a)
      ensures a !in AddRecord(g, record)[a]
      ensures multiset(AddRecord(g, record)[a]) == multiset(record)[a := 0]
    {
      WithoutMembers(record, a);
      WithoutCounts(record, a);
    }
  }

  /** Keys that the record does not mention are neither added, removed nor changed. */
  lemma AddRecordFrame(g: Adjacency, record: Record, k: Name)
    requires k !in record
    ensures k in AddRecord(g, record) <==> k in g
    ensures k in g ==> AddRecord(g, record)[k] == g[k]
  {
  }

  /** Right after a record, co-authorship among its authors is symmetric. */
  lemma AddRecordSymmetric(g: Adjacency, record: Record, a: Name, b: Name)
    requires a in record && b in record && a != b
    ensures b in AddRecord(g, record)[a] && a in AddRecord(g, record)[b]
  {
    WithoutMembers(record, a);
    WithoutMembers(record, b);
  }

  /** Adding the same record twice gives the same dictionary as adding it once. */
  lemma AddRecordIdempotent(g: Adjacency, record: Record)
    ensures AddRecord(AddRecord(g, record), record) == AddRecord(g, record)
  {
    var once := AddRecord(g, record);
    var twice := AddRecord(once, record);
    assert twice.Keys == once.Keys;
    forall k | k in once
      ensures twice[k] == once[k]
    {
    }
  }

  /** Well-formed dictionary: no author lists itself, and every listed co-author is a key. */
  ghost predicate WellFormed(g: Adjacency)
  {
    forall k :: k in g ==> k !in g[k] && forall n :: n in g[k] ==> n in g
  }

  /** Adding a record keeps the dictionary well formed. */
  lemma AddRecordWellFormed(g: Adjacency, record: Record)
    requires WellFormed(g)
    ensures WellFormed(AddRecord(g, record))
  {
    var r := AddRecord(g, record);
    forall k | k in r
      ensures k !in r[k] && forall n :: n in r[k] ==> n in r
    {
      if k in record {
        WithoutMembers(record, k);
      }
    }
  }

  /** Adding the records one after the other, in order, starting from `g`. */
  function Fold(g: Adjacency, records: seq<Record>): (r: Adjacency)
    ensures g.Keys <= r.Keys
    decreases |records|
  {
    if records == [] then g
    else AddRecord(Fold(g, records[..|records| - 1]), records[|records| - 1])
  }

  /** Folding over two records adds the first, then the second. */
  lemma FoldTwo(g: Adjacency, first: Record, second: Record)
    ensures Fold(g, [first, second]) == AddRecord(AddRecord(g, first), second)
  {
    assert [first, second][..1] == [first];
    assert [first][..0] == [];
    assert Fold(g, [first][..0]) == g;
  }

  /** Folding over two batches of records is folding over the first, then the second. */
  lemma {:induction false} FoldAppend(g: Adjacency, first: seq<Record>, second: seq<Record>)
    ensures Fold(g, first + second) == Fold(Fold(g, first), second)
    decreases |second|
  {
    if second == [] {
      assert first + second == first;
    } else {
      var init := second[..|second| - 1];
      assert (first + second)[..|first + second| - 1] == first + init;
      FoldAppend(g, first, init);
    }
  }

  /** The keys after the fold are the starting keys plus every name of every record. */
  lemma {:induction false} FoldKeys(g: Adjacency, records: seq<Record>, a: Name)
    ensures a in Fold(g, records) <==> a in g || exists i :: 0 <= i < |records| && a in records[i]
    decreases |records|
  {
    if records != [] {
      var init := records[..|records| - 1];
      FoldKeys(g, init, a);
      if exists i :: 0 <= i < |records| && a in records[i] {
        var i :| 0 <= i < |records| && a in records[i];
        if i < |init| {
          assert a in init[i];
        }
      }
    }
  }

  /**
   An author's list depends only on the LAST record that mentions the author: every
   earlier record's co-authors are discarded.
   */
  lemma {:induction false} LastRecordWins(g: Adjacency, records: seq<Record>, j: nat, a: Name)
    requires j < |records| && a in records[j]
    requires forall i :: j < i < |records| ==> a !in records[i]
    ensures a in Fold(g, records) && Fold(g, records)[a] == Without(records[j], a)
    decreases |records|
  {
    var init, last := records[..|records| - 1], records[|records| - 1];
    if j == |records| - 1 {
      AddRecordAuthors(Fold(g, init), last);
    } else {
      LastRecordWins(g, init, j, a);
      AddRecordFrame(Fold(g, init), last, a);
    }
  }

  /** An author no record mentions keeps the starting entry (or stays absent). */
  lemma {:induction false} FoldUntouched(g: Adjacency, records: seq<Record>, a: Name)
    requires forall i :: 0 <= i < |records| ==> a !in records[i]
    ensures a in Fold(g, records) <==> a in g
    ensures a in g ==> Fold(g, records)[a] == g[a]
    decreases |records|
  {
    if records != [] {
      var init := records[..|records| - 1];
      FoldUntouched(g, init, a);
      AddRecordFrame(Fold(g, init), records[|records| - 1], a);
    }
  }

  /** Every fold from a well-formed start (the empty dictionary is one) is well formed. */
  lemma {:induction false} FoldWellFormed(g: Adjacency, records: seq<Record>)
    requires WellFormed(g)
    ensures WellFormed(Fold(g, records))
    decreases |records|
  {
    if records != [] {
      FoldWellFormed(g, records[..|records| - 1]);
      AddRecordWellFormed(Fold(g, records[..|records| - 1]), records[|records| - 1]);
    }
  }

  /**
   The overwrite makes the dictionary asymmetric: after the works [A, B] and [A, C],
   B still lists A, but A's list was reset to [C] and no longer mentions B.
   */
  lemma AsymmetryExample()
    ensures var g := Fold(map[], [["A", "B"], ["A", "C"]]);
      "B" in g && g["B"] == ["A"] && g["A"] == ["C"] && "B" !in g["A"]
  {
    var r1: Record := ["A", "B"];
    var r2: Record := ["A", "C"];
    var records := [r1, r2];
    assert records[..1] == [r1];
    assert [r1][..0] == [];
    assert Fold(map[], [r1][..0]) == map[];
    var g1 := Fold(map[], [r1]);
    assert g1 == AddRecord(map[], r1);
    assert "B" in r1 && Without(r1, "B") == ["A"] by {
      assert r1[..1] == ["A"];
      assert ["A"][..0] == [];
    }
    assert "B" in g1 && g1["B"] == ["A"];
    var g2 := Fold(map[], records);
    assert g2 == AddRecord(g1, r2);
    assert Without(r2, "A") == ["C"] by {
      assert r2[..1] == ["A"];
      assert ["A"][..0] == [];
    }
    assert "B" !in r2;
  }
}
