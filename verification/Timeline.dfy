/**
 The window deque of the timeline (storage/isolation_manager.rs, `Timeline`, `TimelineWindow`):
 which windows are in memory, how a number is resolved to a window, how windows are created and freed.
 */
module TimelineWindows {
  import opened Options

  const WINDOW_SIZE: nat := 100

  datatype Window = Window(start: nat, readers: nat) {
    function End(): nat {
      start + WINDOW_SIZE
    }
  }

  /* The deque is never empty and its windows follow one another without gaps. */
  ghost predicate Contiguous(ws: seq<Window>) {
    && |ws| > 0
    && (forall k :: 0 <= k < |ws| ==> ws[k].start == ws[0].start + k * WINDOW_SIZE)
  }

  function BackEnd(ws: seq<Window>): nat
    requires |ws| > 0
  {
    ws[|ws| - 1].End()
  }

  function Resolve(ws: seq<Window>, n: nat): (index: Option<nat>)
    requires |ws| > 0
  {
    if ws[0].start <= n < BackEnd(ws) then Some((n - ws[0].start) / WINDOW_SIZE) else None
  }

  /* A window has a hundred slots. */
  lemma HundredSlots(ws: seq<Window>, k: nat)
    requires Contiguous(ws) && k < |ws|
    ensures ws[k].End() == ws[k].start + 100 && ws[k].start == ws[0].start + 100 * k
    ensures BackEnd(ws) == ws[0].start + 100 * |ws|
  {
    assert ws[|ws| - 1].start == ws[0].start + (|ws| - 1) * WINDOW_SIZE;
  }

  /* The computed index names the window that holds the number, whenever any window does. */
  lemma ResolveNamesTheWindow(ws: seq<Window>, n: nat)
    requires Contiguous(ws)
    ensures Resolve(ws, n).Some? ==>
      var k := Resolve(ws, n).value;
      k < |ws| && ws[k].start <= n < ws[k].End()
    ensures Resolve(ws, n).None? ==> forall k :: 0 <= k < |ws| ==> !(ws[k].start <= n < ws[k].End())
  {
    if Resolve(ws, n).None? {
      forall k | 0 <= k < |ws| ensures !(ws[k].start <= n < ws[k].End()) {
        assert ws[k].start == ws[0].start + k * WINDOW_SIZE;
        assert ws[|ws| - 1].start == ws[0].start + (|ws| - 1) * WINDOW_SIZE;
      }
    } else {
      var k := Resolve(ws, n).value;
      assert ws[|ws| - 1].start == ws[0].start + (|ws| - 1) * WINDOW_SIZE;
      assert k < |ws|;
      assert ws[k].start == ws[0].start + k * WINDOW_SIZE;
    }
  }

  /* Two windows of one deque never hold the same number. */
  lemma WindowOfIsUnique(ws: seq<Window>, n: nat, k: nat)
    requires Contiguous(ws) && k < |ws| && ws[k].start <= n < ws[k].End()
    ensures Resolve(ws, n) == Some(k)
  {
    assert ws[k].start == ws[0].start + k * WINDOW_SIZE;
    assert ws[|ws| - 1].start == ws[0].start + (|ws| - 1) * WINDOW_SIZE;
  }

  /******* Creating windows *******/

  function Extended(ws: seq<Window>, n: nat): (r: seq<Window>)
    requires |ws| > 0
    ensures |ws| <= |r| && r[..|ws|] == ws
    ensures n < BackEnd(r)
    decreases n + 1 - BackEnd(ws)
  {
    if n < BackEnd(ws) then ws else Extended(ws + [Window(BackEnd(ws), 0)], n)
  }

  /* Windows are added without readers and without gaps, and only until the number fits. */
  lemma {:induction false} ExtendedIsContiguous(ws: seq<Window>, n: nat)
    requires Contiguous(ws)
    ensures Contiguous(Extended(ws, n))
    ensures Extended(ws, n) == ws || Extended(ws, n)[|Extended(ws, n)| - 1].start <= n
    ensures forall k :: |ws| <= k < |Extended(ws, n)| ==> Extended(ws, n)[k].readers == 0
    decreases n + 1 - BackEnd(ws)
  {
    if n >= BackEnd(ws) {
      var more := ws + [Window(BackEnd(ws), 0)];
      assert more[0] == ws[0];
      assert Contiguous(more);
      ExtendedIsContiguous(more, n);
      assert Extended(ws, n)[|ws|] == more[|ws|];
    }
  }

  /******* Freeing windows *******/

  /* How many windows the popping loop frees, of which the first i are already known to go. */
  function FreeFrom(ws: seq<Window>, watermark: nat, i: nat): (c: nat)
    requires i <= |ws|
    ensures i <= c <= |ws|
    ensures forall k :: i <= k < c ==> ws[k].End() <= watermark && ws[k].readers == 0
    ensures c < |ws| ==> watermark < ws[c].End() || ws[c].readers > 0
    decreases |ws| - i
  {
    if i < |ws| && watermark >= ws[i].End() && ws[i].readers == 0 then FreeFrom(ws, watermark, i + 1) else i
  }

  function Freed(ws: seq<Window>, watermark: nat): (r: seq<Window>)
  {
    ws[FreeFrom(ws, watermark, 0)..]
  }

  /* Only windows behind the watermark without readers are freed, and at least one window stays. */
  lemma FreedKeepsTheRest(ws: seq<Window>, watermark: nat)
    requires Contiguous(ws) && watermark < BackEnd(ws)
    ensures var c := FreeFrom(ws, watermark, 0);
            && c < |ws|
            && (forall k :: 0 <= k < c ==> ws[k].End() <= watermark && ws[k].readers == 0)
            && Contiguous(Freed(ws, watermark))
            && BackEnd(Freed(ws, watermark)) == BackEnd(ws)
            && (Freed(ws, watermark) == ws || Freed(ws, watermark)[0].start <= watermark)
  {
    var c := FreeFrom(ws, watermark, 0);
    assert c < |ws|;
    if c > 0 {
      assert ws[c - 1].End() <= watermark;
      assert ws[c].start == ws[0].start + c * WINDOW_SIZE;
      assert ws[c - 1].start == ws[0].start + (c - 1) * WINDOW_SIZE;
    }
    var r := Freed(ws, watermark);
    forall k | 0 <= k < |r| ensures r[k].start == r[0].start + k * WINDOW_SIZE {
      assert ws[c + k].start == ws[0].start + (c + k) * WINDOW_SIZE;
      assert ws[c].start == ws[0].start + c * WINDOW_SIZE;
    }
  }

  /******* The windows a validation walks over *******/

  /* The starts of windows first..=last; empty when last precedes first. */
  function Starts(ws: seq<Window>, first: nat, last: nat): (r: seq<nat>)
    requires first < |ws| && last < |ws|
    ensures |r| == if first <= last then last + 1 - first else 0
    ensures forall k :: 0 <= k < |r| ==> r[k] == ws[first + k].start
  {
    if first > last then []
    else seq<nat>(last + 1 - first, k requires 0 <= k < last + 1 - first => ws[first + k].start)
  }

  function FirstConcurrent(ws: seq<Window>, open: nat): nat
    requires |ws| > 0
  {
    Resolve(ws, open + 1).UnwrapOr(0)
  }

  function LastConcurrent(ws: seq<Window>, commit: nat): nat
    requires |ws| > 0 && commit > 0
  {
    Resolve(ws, commit - 1).UnwrapOr(0)
  }

  /* The collected windows follow one another and reach up to the commit and no further, and the first of them starts
     at or before the number after `open`, unless that number is no longer in memory. */
  lemma CollectedWindowsCover(ws: seq<Window>, open: nat, commit: nat)
    requires Contiguous(ws) && open < commit && ws[0].start <= commit < BackEnd(ws)
    ensures FirstConcurrent(ws, open) < |ws| && LastConcurrent(ws, commit) < |ws|
    ensures var first := ws[FirstConcurrent(ws, open)].start;
            var held := Starts(ws, FirstConcurrent(ws, open), LastConcurrent(ws, commit));
            && (forall k :: 0 <= k < |held| ==> held[k] == first + k * WINDOW_SIZE)
            && commit <= first + |held| * WINDOW_SIZE
            && first <= commit
            && (open + 1 < first ==> first == ws[0].start)
            && open + 1 < first + WINDOW_SIZE
            && (|held| > 1 ==> held[|held| - 1] < commit)
            && (ws[0].start < commit <= first ==> held == [])
  {
    ResolveNamesTheWindow(ws, open + 1);
    ResolveNamesTheWindow(ws, commit - 1);
    var first := FirstConcurrent(ws, open);
    var last := LastConcurrent(ws, commit);
    assert ws[first].start == ws[0].start + first * WINDOW_SIZE;
    assert ws[last].start == ws[0].start + last * WINDOW_SIZE;
    var held := Starts(ws, first, last);
    forall k | 0 <= k < |held| ensures held[k] == ws[first].start + k * WINDOW_SIZE {
      assert ws[first + k].start == ws[0].start + (first + k) * WINDOW_SIZE;
    }
    if first > last {
      assert commit <= ws[last].End() <= ws[first].start;
    }
  }
}
