/**
 The harvest loop: resume from the partial-results file, then scroll until
 the stall counter reaches its limit, appending each new product as it is
 seen and saving the whole list every 20 new products and once at the end.
 */
module Harvest {
  import opened Optional
  import opened Fields
  import opened Ledger
  import opened Progress

  /** A save is due once this many products were added since the last one. */
  const SaveInterval: nat := 20

  /** What the partial-results file holds when the harvest starts. */
  datatype CheckpointFile = Missing | Corrupt | Stored(records: seq<Product>)

  /**
   `load_previous_data`: the stored list, or an empty list when the file
   does not exist or its JSON cannot be decoded. `Corrupt` stands for a
   JSON decode error only: a file that cannot be opened or is not valid
   UTF-8 raises out of the load instead.
   */
  function LoadPrevious(file: CheckpointFile): (r: seq<Product>)
    ensures file.Stored? ==> r == file.records
    ensures !file.Stored? ==> r == []
  {
    match file
    case Stored(records) => records
    case _ => []
  }

  /**
   The dedup invariant: the loaded records are kept as they were, the
   seen-names set holds exactly the non-empty names of the list, the
   records appended in this run have fresh, distinct names, and the saved
   list `checkpoint` is a prefix of the list missing at most the
   `sinceSave` unsaved records.
   */
  ghost predicate LedgerHolds(loaded: seq<Product>, products: seq<Product>, names: set<string>,
                              sinceSave: nat, checkpoint: seq<Product>)
  {
    |loaded| <= |products| && products[..|loaded|] == loaded &&
    names == NameSet(products) &&
    Fresh(NameSet(loaded), products[|loaded|..]) &&
    sinceSave <= |products| - |loaded| &&
    |products| - sinceSave <= |checkpoint| <= |products| &&
    checkpoint == products[..|checkpoint|]
  }

  /** Appending a record with a new non-empty name, and counting it as unsaved, keeps the invariant. */
  lemma AppendKeepsLedger(loaded: seq<Product>, products: seq<Product>, names: set<string>,
                          sinceSave: nat, checkpoint: seq<Product>, p: Product)
    requires LedgerHolds(loaded, products, names, sinceSave, checkpoint)
    requires p.name != "" && p.name !in names
    ensures LedgerHolds(loaded, products + [p], names + {p.name}, sinceSave + 1, checkpoint)
  {
    var run := products[|loaded|..];
    var next := products + [p];
    NameSetAppend(products, p);
    NameSetConcat(loaded, run);
    assert products == loaded + run;
    assert next[..|loaded|] == loaded;
    assert next[|loaded|..] == run + [p];
    FreshConcat(NameSet(loaded), run, [p]);
    assert next[..|checkpoint|] == products[..|checkpoint|];
  }

  /**
   One more tile of the walk: if the list and the set so far are those of
   the first `i` tiles, the tile's own contribution extends them to those
   of the first `i + 1`.
   */
  lemma WalkStep(base: seq<Product>, seen: set<string>, items: seq<RawItem>, i: nat,
                 products: seq<Product>, names: set<string>)
    requires i < |items|
    requires products == base + NewRecords(seen, items[..i])
    requires names == seen + NameSet(NewRecords(seen, items[..i]))
    ensures var it := items[i];
      products + (if Admits(names, it) then [Extract(it.name.value, it)] else []) ==
        base + NewRecords(seen, items[..i + 1]) &&
      names + (if Admits(names, it) then {it.name.value} else {}) ==
        seen + NameSet(NewRecords(seen, items[..i + 1]))
  {
    var prev := NewRecords(seen, items[..i]);
    var it := items[i];
    assert items[..i + 1][..i] == items[..i];
    if Admits(names, it) {
      var p := Extract(it.name.value, it);
      NameSetAppend(prev, p);
      assert products + [p] == base + (prev + [p]);
    }
  }

  /**
   The state of one harvest: the record list and the seen-names set it
   mutates, the unsaved-records counter, the previous scroll's snapshot and
   the stall counter. The ghost fields record what was loaded, every list
   written to the partial-results file, and every snapshot observed.
   */
  class Harvester {
    var products: seq<Product>
    var names: set<string>
    var sinceSave: nat
    var lastHeight: int
    var lastCount: int
    var noChange: nat
    var stopped: bool

    ghost var loaded: seq<Product>
    ghost var saves: seq<seq<Product>>
    ghost var start: Snapshot
    ghost var fed: seq<Snapshot>

    /** What a restart would load: the last list saved, or what was loaded. */
    ghost function Checkpointed(): seq<Product>
      reads this`loaded, this`saves
    {
      if saves == [] then loaded else saves[|saves| - 1]
    }

    /** The dedup invariant of `LedgerHolds`, on this harvest's fields. */
    ghost predicate LedgerValid()
      reads this`products, this`names, this`sinceSave, this`loaded, this`saves
    {
      LedgerHolds(loaded, products, names, sinceSave, Checkpointed())
    }

    /**
     The stall invariant: the counter is the run of unchanged snapshots at
     the end of those observed, the loop has stopped once it reached the
     limit, and until then the previous snapshot is the last one observed.
     */
    ghost predicate ProgressValid()
      reads this`noChange, this`start, this`fed, this`stopped, this`lastHeight, this`lastCount
    {
      noChange == StallCount(0, start, fed) && noChange <= MaxNoChangeScrolls &&
      (noChange == MaxNoChangeScrolls ==> stopped) &&
      (!stopped ==> Snapshot(lastHeight, lastCount) == Prior(start, fed, |fed|))
    }

    /** The invariant between scrolls: both of the above, and fewer than 20 unsaved records. */
    ghost predicate Valid()
      reads this
    {
      LedgerValid() && sinceSave < SaveInterval && ProgressValid()
    }

    /**
     Starts a harvest: loads the partial-results file, builds the seen-names
     set from it, and takes the page's first height and tile count.
     */
    constructor (file: CheckpointFile, height: int, count: int)
      ensures Valid() && !stopped
      ensures products == LoadPrevious(file) && loaded == products
      ensures names == NameSet(products)
      ensures sinceSave == 0 && saves == [] && noChange == 0
      ensures lastHeight == height && lastCount == count
      ensures start == Snapshot(height, count) && fed == []
    {
      products := LoadPrevious(file);
      loaded := LoadPrevious(file);
      names := NameSet(LoadPrevious(file));
      sinceSave := 0;
      lastHeight, lastCount := height, count;
      noChange := 0;
      stopped := false;
      saves := [];
      start := Snapshot(height, count);
      fed := [];
    }

    /**
     One visible tile: appended, with its name added to the set and the
     unsaved counter bumped, exactly when its name is non-empty and new.
     */
    method Accept(it: RawItem)
      requires LedgerValid()
      modifies this`products, this`names, this`sinceSave
      ensures LedgerValid()
      ensures products == old(products) +
        (if Admits(old(names), it) then [Extract(it.name.value, it)] else [])
      ensures names == old(names) + (if Admits(old(names), it) then {it.name.value} else {})
      ensures sinceSave == old(sinceSave) + (|products| - |old(products)|)
    {
      var name := it.name;
      if name.Some? && name.value != "" && name.value !in names {
        var p := Extract(name.value, it);
        AppendKeepsLedger(loaded, products, names, sinceSave, Checkpointed(), p);
        names := names + {name.value};
        products := products + [p];
        sinceSave := sinceSave + 1;
      }
    }

    /**
     The walk over the visible tiles, in order: the records it appends are
     `NewRecords` of the names seen before it, their names join the set,
     and the unsaved counter grows by one per record.
     */
    method WalkTiles(items: seq<RawItem>)
      requires LedgerValid()
      modifies this`products, this`names, this`sinceSave
      ensures LedgerValid()
      ensures products == old(products) + NewRecords(old(names), items)
      ensures names == old(names) + NameSet(NewRecords(old(names), items))
      ensures sinceSave == old(sinceSave) + |NewRecords(old(names), items)|
    {
      ghost var p0, seen := products, names;
      ghost var s0 := sinceSave;
      var i := 0;
      while i < |items|
        invariant 0 <= i <= |items|
        invariant LedgerValid()
        invariant products == p0 + NewRecords(seen, items[..i])
        invariant names == seen + NameSet(NewRecords(seen, items[..i]))
        invariant sinceSave == s0 + |NewRecords(seen, items[..i])|
      {
        WalkStep(p0, seen, items, i, products, names);
        Accept(items[i]);
        i := i + 1;
      }
      assert items[..i] == items;
    }

    /**
     Compares the snapshot taken after a scroll with the previous one: the
     stall counter grows when height and tile count are both unchanged and
     drops to zero otherwise; reaching the limit stops the loop, and any
     other outcome makes this snapshot the previous one.
     */
    method Observe(height: int, count: int) returns (stop: bool)
      requires ProgressValid() && !stopped
      modifies this`noChange, this`fed, this`stopped, this`lastHeight, this`lastCount
      ensures ProgressValid() && start == old(start)
      ensures fed == old(fed) + [Snapshot(height, count)]
      ensures noChange ==
        StallStep(old(noChange), Snapshot(old(lastHeight), old(lastCount)), Snapshot(height, count))
      ensures stop == stopped && (stop <==> noChange == MaxNoChangeScrolls)
      ensures stop ==> lastHeight == old(lastHeight) && lastCount == old(lastCount)
      ensures !stop ==> lastHeight == height && lastCount == count
    {
      var snap := Snapshot(height, count);
      assert (fed + [snap])[..|fed|] == fed;
      fed := fed + [snap];
      if height == lastHeight && count == lastCount {
        noChange := noChange + 1;
        if noChange >= MaxNoChangeScrolls {
          stopped := true;
          return true;
        }
      } else {
        noChange := 0;
      }
      lastHeight, lastCount := height, count;
      stop := false;
    }

    /**
     The save at the end of a pass: due once 20 or more products are
     unsaved, it writes the whole list and resets the counter.
     */
    method SaveIfDue()
      requires LedgerValid()
      modifies this`saves, this`sinceSave
      ensures LedgerValid() && sinceSave < SaveInterval
      ensures old(sinceSave) >= SaveInterval ==> saves == old(saves) + [products] && sinceSave == 0
      ensures old(sinceSave) < SaveInterval ==> saves == old(saves) && sinceSave == old(sinceSave)
    {
      if sinceSave >= SaveInterval {
        saves := saves + [products];
        sinceSave := 0;
      }
    }

    /**
     The part of a pass after a scroll that did not stall: the tiles are
     walked in order, then the list is saved if 20 or more products are
     unsaved.
     */
    method Collect(items: seq<RawItem>)
      requires LedgerValid() && sinceSave < SaveInterval
      modifies this`products, this`names, this`sinceSave, this`saves
      ensures LedgerValid() && sinceSave < SaveInterval
      ensures var added := NewRecords(old(names), items);
        products == old(products) + added && names == old(names) + NameSet(added) &&
        if old(sinceSave) + |added| >= SaveInterval
        then saves == old(saves) + [products] && sinceSave == 0
        else saves == old(saves) && sinceSave == old(sinceSave) + |added|
    {
      WalkTiles(items);
      SaveIfDue();
    }

    /**
     One pass of the scroll loop, given the height and the tiles the page
     shows after the scroll. An unchanged height and tile count bumps the
     stall counter, any change resets it; when it reaches the limit the
     loop ends before any tile is read. Otherwise the tiles are walked in
     order and a save happens once 20 products are unsaved.
     */
    method Tick(height: int, items: seq<RawItem>) returns (stop: bool)
      requires Valid() && !stopped
      modifies this
      ensures Valid()
      ensures loaded == old(loaded) && start == old(start)
      ensures fed == old(fed) + [Snapshot(height, |items|)]
      ensures noChange ==
        StallStep(old(noChange), Snapshot(old(lastHeight), old(lastCount)), Snapshot(height, |items|))
      ensures stop == stopped && (stop <==> noChange == MaxNoChangeScrolls)
      ensures stop ==>
        products == old(products) && names == old(names) && sinceSave == old(sinceSave) &&
        saves == old(saves) && lastHeight == old(lastHeight) && lastCount == old(lastCount)
      ensures !stop ==>
        lastHeight == height && lastCount == |items| &&
        var added := NewRecords(old(names), items);
        products == old(products) + added && names == old(names) + NameSet(added) &&
        if old(sinceSave) + |added| >= SaveInterval
        then saves == old(saves) + [products] && sinceSave == 0
        else saves == old(saves) && sinceSave == old(sinceSave) + |added|
    {
      stop := Observe(height, |items|);
      if stop {
        return;
      }
      Collect(items);
    }

    /**
     An error raised by the page during the loop: the current list is
     saved and the loop ends (the unsaved counter is left as it was).
     */
    method OnError()
      requires Valid() && !stopped
      modifies this`saves, this`stopped
      ensures Valid() && stopped
      ensures saves == old(saves) + [products]
    {
      saves := saves + [products];
      stopped := true;
    }

    /**
     The final save after the loop: it happens only when some product was
     added since the last save, and afterwards everything harvested is
     what a restart would load.
     */
    method Finish()
      requires Valid() && stopped
      modifies this`saves
      ensures Valid()
      ensures saves == if old(sinceSave) > 0 then old(saves) + [products] else old(saves)
      ensures Checkpointed() == products
    {
      if sinceSave > 0 {
        saves := saves + [products];
      }
    }
  }
}
