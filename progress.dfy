/**
 The stall counter of the scroll loop: after every scroll the page height
 and the number of visible product tiles are compared with the previous
 scroll's; the counter grows when both are unchanged, drops to zero on any
 change (a decrease too), and the loop ends when it reaches the limit.
 */
module Progress {

  /** How many consecutive unchanged scrolls end the loop. */
  const MaxNoChangeScrolls: nat := 5

  /** What one scroll observes: the page's scroll height and the visible tile count. */
  datatype Snapshot = Snapshot(height: int, count: int)

  /** One scroll's update of the counter. */
  function StallStep(n: nat, prev: Snapshot, cur: Snapshot): (r: nat)
    ensures r == n + 1 <==> cur == prev
    ensures r != n + 1 ==> r == 0
  {
    if cur.height == prev.height && cur.count == prev.count then n + 1 else 0
  }

  /** The snapshot that `snaps[j]` is compared with. */
  function Prior(start: Snapshot, snaps: seq<Snapshot>, j: nat): Snapshot
    requires j <= |snaps|
  {
    if j == 0 then start else snaps[j - 1]
  }

  /** The counter after the scrolls `snaps`, from counter `n` and first sample `start`. */
  function StallCount(n: nat, start: Snapshot, snaps: seq<Snapshot>): nat
    decreases |snaps|
  {
    if snaps == [] then n
    else
      var k := |snaps| - 1;
      StallStep(StallCount(n, start, snaps[..k]), Prior(start, snaps, k), snaps[k])
  }

  /** `snaps[j]` repeats the snapshot before it. */
  predicate Repeats(start: Snapshot, snaps: seq<Snapshot>, j: nat)
    requires j < |snaps|
  {
    snaps[j] == Prior(start, snaps, j)
  }

  /**
   The counter is the length of the run of repeated snapshots at the end:
   it has grown by one per scroll when every scroll repeated its
   predecessor; otherwise it counts the repeats after the last change, and
   that change is where the run starts.
   */
  lemma {:induction false} StallCountIsRunLength(n: nat, start: Snapshot, snaps: seq<Snapshot>)
    ensures var c := StallCount(n, start, snaps);
      c <= n + |snaps| &&
      (c == n + |snaps| <==> forall j :: 0 <= j < |snaps| ==> Repeats(start, snaps, j)) &&
      (c < n + |snaps| ==>
         c < |snaps| && !Repeats(start, snaps, |snaps| - 1 - c) &&
         forall j :: |snaps| - c <= j < |snaps| ==> Repeats(start, snaps, j))
    decreases |snaps|
  {
    if snaps != [] {
      var k := |snaps| - 1;
      var init := snaps[..k];
      StallCountIsRunLength(n, start, init);
      assert forall j :: 0 <= j < k ==> Repeats(start, init, j) == Repeats(start, snaps, j);
      var c0 := StallCount(n, start, init);
      assert StallCount(n, start, snaps) == if Repeats(start, snaps, k) then c0 + 1 else 0;
      if Repeats(start, snaps, k) && c0 < n + k {
        assert !Repeats(start, snaps, k - 1 - c0);
      }
    }
  }

  /**
   The loop ends exactly when the last five scrolls each repeated the
   snapshot before them (counting from a fresh counter).
   */
  lemma StopIffFiveRepeats(start: Snapshot, snaps: seq<Snapshot>)
    ensures StallCount(0, start, snaps) >= MaxNoChangeScrolls <==>
      |snaps| >= MaxNoChangeScrolls &&
      forall j :: |snaps| - MaxNoChangeScrolls <= j < |snaps| ==> Repeats(start, snaps, j)
  {
    StallCountIsRunLength(0, start, snaps);
    var c := StallCount(0, start, snaps);
    if c >= MaxNoChangeScrolls {
      assert c <= |snaps|;
      forall j | 0 <= |snaps| - MaxNoChangeScrolls <= j < |snaps| ensures Repeats(start, snaps, j) {
        if c < |snaps| {
          assert |snaps| - c <= j;
        }
      }
    } else if |snaps| >= MaxNoChangeScrolls {
      assert c < |snaps|;
      assert |snaps| - MaxNoChangeScrolls <= |snaps| - 1 - c;
      assert !Repeats(start, snaps, |snaps| - 1 - c);
    }
  }

  /** Five unchanged scrolls after a first one end the loop. */
  lemma FiveRepeatsStop(s: Snapshot)
    ensures StallCount(0, s, [s, s, s, s, s]) == MaxNoChangeScrolls
  {
    StopIffFiveRepeats(s, [s, s, s, s, s]);
    StallCountIsRunLength(0, s, [s, s, s, s, s]);
  }

  /**
   A change on the fourth scroll (growth, or a shrink just the same)
   restarts the count, so the fifth does not end the loop.
   */
  lemma ChangeOnFourthResets(s: Snapshot, t: Snapshot)
    requires t != s
    ensures StallCount(0, s, [s, s, s, t, t]) == 1
  {
    var snaps := [s, s, s, t, t];
    assert snaps[..4][..3] == [s, s, s] && snaps[..4] == [s, s, s, t];
    assert [s, s, s][..2] == [s, s] && [s, s][..1] == [s] && [s][..0] == [];
  }
}
