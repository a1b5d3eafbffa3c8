/**
 The dedup-and-accept step over the tiles visible after one scroll: a tile
 becomes a record only when its name is non-empty and not yet among the
 names seen, and its name joins the seen names at that moment.
 */
module Ledger {
  import opened Optional
  import opened Fields

  /** The names records contribute to the seen-names set: the non-empty ones. */
  function NameSet(ps: seq<Product>): set<string>
  {
    set p | p in ps && p.name != "" :: p.name
  }

  /** The non-empty names shown by a sequence of tiles. */
  function ItemNames(items: seq<RawItem>): set<string>
  {
    set it | it in items && it.name.Some? && it.name.value != "" :: it.name.value
  }

  /** A tile is taken when its name is present, non-empty and not yet seen. */
  predicate Admits(seen: set<string>, it: RawItem)
  {
    it.name.Some? && it.name.value != "" && it.name.value !in seen
  }

  /**
   The records appended while walking `items` in order, starting from the
   seen names `seen`; each accepted name is seen by the tiles after it.
   */
  function NewRecords(seen: set<string>, items: seq<RawItem>): (r: seq<Product>)
    ensures |r| <= |items|
    decreases |items|
  {
    if items == [] then []
    else
      var prev := NewRecords(seen, items[..|items| - 1]);
      var it := items[|items| - 1];
      if Admits(seen + NameSet(prev), it) then prev + [Extract(it.name.value, it)] else prev
  }

  /**
   A run of appended records is fresh with respect to `seen` when every
   name is non-empty, was not seen before, and occurs only once in the run.
   */
  predicate Fresh(seen: set<string>, run: seq<Product>)
  {
    (forall i :: 0 <= i < |run| ==> run[i].name != "" && run[i].name !in seen) &&
    (forall i, j :: 0 <= i < j < |run| ==> run[i].name != run[j].name)
  }

  lemma NameSetAppend(ps: seq<Product>, p: Product)
    requires p.name != ""
    ensures NameSet(ps + [p]) == NameSet(ps) + {p.name}
  {
    assert forall q :: q in ps + [p] <==> q in ps || q == p;
  }

  lemma NameSetConcat(a: seq<Product>, b: seq<Product>)
    ensures NameSet(a + b) == NameSet(a) + NameSet(b)
  {
    assert forall q :: q in a + b <==> q in a || q in b;
  }

  /** Fresh runs compose: a run fresh after the first one extends it freshly. */
  lemma FreshConcat(seen: set<string>, a: seq<Product>, b: seq<Product>)
    requires Fresh(seen, a) && Fresh(seen + NameSet(a), b)
    ensures Fresh(seen, a + b)
  {
    forall i, j | 0 <= i < j < |a + b| ensures (a + b)[i].name != (a + b)[j].name {
      if j >= |a| && i < |a| {
        assert a[i] in a;
        assert (a + b)[j] == b[j - |a|];
      }
    }
  }

  /** The records appended by one walk never repeat a name or reuse a seen one. */
  lemma {:induction false} NewRecordsFresh(seen: set<string>, items: seq<RawItem>)
    ensures Fresh(seen, NewRecords(seen, items))
    decreases |items|
  {
    if items != [] {
      var prev := NewRecords(seen, items[..|items| - 1]);
      var it := items[|items| - 1];
      NewRecordsFresh(seen, items[..|items| - 1]);
      if Admits(seen + NameSet(prev), it) {
        var p := Extract(it.name.value, it);
        assert Fresh(seen + NameSet(prev), [p]);
        FreshConcat(seen, prev, [p]);
      }
    }
  }

  /**
   The names the walk appends are exactly the tiles' non-empty names that
   were not seen before: none is lost and none is invented.
   */
  lemma {:induction false} NewRecordsNames(seen: set<string>, items: seq<RawItem>)
    ensures NameSet(NewRecords(seen, items)) == ItemNames(items) - seen
    decreases |items|
  {
    if items == [] {
    } else {
      var init := items[..|items| - 1];
      var prev := NewRecords(seen, init);
      var it := items[|items| - 1];
      NewRecordsNames(seen, init);
      assert items == init + [it];
      assert forall x :: x in items <==> x in init || x == it;
      if Admits(seen + NameSet(prev), it) {
        NameSetAppend(prev, Extract(it.name.value, it));
      }
    }
  }

  /** Walking tiles whose names have all been seen appends nothing. */
  lemma {:induction false} NothingNewWhenAllSeen(seen: set<string>, items: seq<RawItem>)
    requires ItemNames(items) <= seen
    ensures NewRecords(seen, items) == []
    decreases |items|
  {
    if items != [] {
      var init := items[..|items| - 1];
      assert forall x :: x in init ==> x in items;
      assert ItemNames(init) <= ItemNames(items);
      NothingNewWhenAllSeen(seen, init);
      assert NameSet([]) == {};
      assert items[|items| - 1] in items;
    }
  }

  /**
   Re-walking the same tiles after a walk appends nothing: accepting an
   item a second time leaves the records as they are.
   */
  lemma Reharvest(seen: set<string>, items: seq<RawItem>)
    ensures NewRecords(seen + NameSet(NewRecords(seen, items)), items) == []
  {
    NewRecordsNames(seen, items);
    NothingNewWhenAllSeen(seen + NameSet(NewRecords(seen, items)), items);
  }

  /** A fresh run has one name per record. */
  lemma {:induction false} FreshRunSize(seen: set<string>, run: seq<Product>)
    requires Fresh(seen, run)
    ensures |NameSet(run)| == |run|
    decreases |run|
  {
    if run != [] {
      var init := run[..|run| - 1];
      var p := run[|run| - 1];
      assert Fresh(seen, init);
      FreshRunSize(seen, init);
      assert run == init + [p];
      NameSetAppend(init, p);
      forall q | q in init && q.name != "" ensures q.name != p.name {
        var i :| 0 <= i < |init| && init[i] == q;
        assert run[i] == q;
      }
    }
  }

  /**
   One walk appends exactly one record per distinct non-empty name shown
   that had not been seen: resuming with N records and finding M new names
   leaves N + M records.
   */
  lemma NewRecordsCount(seen: set<string>, items: seq<RawItem>)
    ensures |NewRecords(seen, items)| == |ItemNames(items) - seen|
  {
    NewRecordsFresh(seen, items);
    FreshRunSize(seen, NewRecords(seen, items));
    NewRecordsNames(seen, items);
  }

  /**
   The walk keeps tile order: walking `a` then `b` appends the records of
   `a`, then those of `b` as seen after `a`'s names were added.
   */
  lemma {:induction false} NewRecordsSplit(seen: set<string>, a: seq<RawItem>, b: seq<RawItem>)
    ensures NewRecords(seen, a + b) ==
      NewRecords(seen, a) + NewRecords(seen + NameSet(NewRecords(seen, a)), b)
    decreases |b|
  {
    var ra := NewRecords(seen, a);
    var seen2 := seen + NameSet(ra);
    if b == [] {
      assert a + b == a;
    } else {
      var init := b[..|b| - 1];
      var it := b[|b| - 1];
      assert (a + b)[..|a + b| - 1] == a + init && (a + b)[|a + b| - 1] == it;
      NewRecordsSplit(seen, a, init);
      var rb := NewRecords(seen2, init);
      NameSetConcat(ra, rb);
      assert seen + NameSet(ra + rb) == seen2 + NameSet(rb);
    }
  }

  /**
   The first tile carrying a name is the one recorded: a tile whose name is
   unseen and not shown by any earlier tile yields a record, built from
   that tile. Later tiles with the same name yield nothing, since the
   records' names are distinct (`NewRecordsFresh`).
   */
  lemma {:induction false} NewRecordsFirstWins(seen: set<string>, items: seq<RawItem>, i: nat)
    requires i < |items| && Admits(seen, items[i])
    requires forall j :: 0 <= j < i ==> items[j].name != items[i].name
    ensures Extract(items[i].name.value, items[i]) in NewRecords(seen, items)
    decreases |items|
  {
    var init := items[..|items| - 1];
    var prev := NewRecords(seen, init);
    if i == |items| - 1 {
      NewRecordsNames(seen, init);
      assert items[i].name.value !in ItemNames(init);
    } else {
      NewRecordsFirstWins(seen, init, i);
    }
  }

  /** The record for a name is exactly the extraction of the first tile showing it. */
  lemma NewRecordsFirstOnly(seen: set<string>, items: seq<RawItem>, i: nat)
    requires i < |items| && Admits(seen, items[i])
    requires forall j :: 0 <= j < i ==> items[j].name != items[i].name
    ensures forall p :: p in NewRecords(seen, items) && p.name == items[i].name.value ==>
      p == Extract(items[i].name.value, items[i])
  {
    var run := NewRecords(seen, items);
    var first := Extract(items[i].name.value, items[i]);
    NewRecordsFirstWins(seen, items, i);
    NewRecordsFresh(seen, items);
    forall p | p in run && p.name == items[i].name.value ensures p == first {
      var k :| 0 <= k < |run| && run[k] == p;
      var m :| 0 <= m < |run| && run[m] == first;
      assert k == m;
    }
  }

  /** Every appended record is the extraction of one of the tiles walked. */
  lemma {:induction false} NewRecordsExtracted(seen: set<string>, items: seq<RawItem>)
    ensures forall p :: p in NewRecords(seen, items) ==>
      exists it :: it in items && it.name.Some? && p == Extract(it.name.value, it)
    decreases |items|
  {
    if items != [] {
      var init := items[..|items| - 1];
      NewRecordsExtracted(seen, init);
      assert forall x :: x in init ==> x in items;
      assert items[|items| - 1] in items;
    }
  }
}
