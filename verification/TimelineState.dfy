/**
 The timeline's methods in their imperative form (storage/isolation_manager.rs, `impl Timeline`): the
 loops that create, free, collect and advance, each against the function that the commit protocol uses
 for one of its steps.
 */
module TimelineState {
  import opened Options
  import opened TimelineWindows
  import opened IsolationProtocol

  /* The watermark has left the window that holds n. */
  ghost predicate Passed(ws: seq<Window>, n: nat, watermark: nat) {
    exists k :: 0 <= k < |ws| && ws[k].start <= n < ws[k].start + 100 <= watermark
  }

  lemma PassedIff(ws: seq<Window>, n: nat, watermark: nat)
    requires Contiguous(ws)
    ensures var k := Resolve(ws, n); Passed(ws, n, watermark) <==> k.Some? && watermark >= ws[k.value].End()
    ensures Resolve(ws, n).Some? ==> Resolve(ws, n).value < |ws|
  {
    ResolveNamesTheWindow(ws, n);
    if k: nat :| k < |ws| && ws[k].start <= n < ws[k].start + 100 <= watermark {
      WindowOfIsUnique(ws, n, k);
    }
  }

  class Timeline {
    var windows: seq<Window>
    var watermark: nat
    var markers: map<nat, Marker> // the slots of the windows; a missing number is an empty slot

    ghost predicate Valid()
      reads this
    {
      && Contiguous(windows)
      && windows[0].start <= watermark + 1
      && watermark < BackEnd(windows)
      && (forall n :: n in markers && Finished(markers[n]) ==> n < BackEnd(windows))
    }

    constructor (next: nat)
      requires next > 0
      ensures Valid()
      ensures windows == [Window(next, 0)] && watermark == next - 1 && markers == map[]
    {
      windows := [Window(next, 0)];
      watermark := next - 1;
      markers := map[];
    }

    predicate SlotFinished(n: nat)
      reads this`markers
    {
      n in markers && Finished(markers[n])
    }

    method TryGetWindow(n: nat) returns (k: Option<nat>)
      requires Valid()
      ensures k == Resolve(windows, n)
      ensures k.Some? ==> k.value < |windows| && windows[k.value].start <= n < windows[k.value].End()
      ensures k.None? ==> !(windows[0].start <= n < BackEnd(windows))
    {
      k := Resolve(windows, n);
      ResolveNamesTheWindow(windows, n);
    }

    method CreateWindowsTo(n: nat)
      requires Valid()
      modifies this`windows
      ensures Valid()
      ensures windows == Extended(old(windows), n)
    {
      ghost var before := windows;
      while n >= BackEnd(windows)
        invariant |windows| > 0
        invariant Extended(windows, n) == Extended(before, n)
        decreases n + 1 - BackEnd(windows)
      {
        windows := windows + [Window(BackEnd(windows), 0)];
      }
      ExtendedIsContiguous(before, n);
      assert windows[|before| - 1] == before[|before| - 1];
      assert windows[|before| - 1].start == windows[0].start + (|before| - 1) * WINDOW_SIZE;
      assert windows[|windows| - 1].start == windows[0].start + (|windows| - 1) * WINDOW_SIZE;
    }

    /* The window of a number beyond the watermark can always be had. */
    method GetOrCreateWindow(n: nat) returns (k: nat)
      requires Valid() && watermark < n
      modifies this`windows
      ensures Valid()
      ensures windows == Extended(old(windows), n)
      ensures k < |windows| && windows[k].start <= n < windows[k].End()
    {
      if n >= BackEnd(windows) {
        CreateWindowsTo(n);
      }
      assert windows[0] == old(windows)[0];
      var found: Option<nat> := TryGetWindow(n);
      k := found.value;
    }

    method MayFreeWindows()
      requires Valid()
      modifies this`windows
      ensures Valid()
      ensures windows == Freed(old(windows), watermark)
    {
      ghost var before := windows;
      FreedKeepsTheRest(before, watermark);
      assert |windows| > 0;
      hide Contiguous;
      if windows[0].readers == 0 && watermark >= windows[0].End() {
        ghost var popped := 0;
        while watermark >= windows[0].End() && windows[0].readers == 0
          invariant 0 <= popped < |before|
          invariant windows == before[popped..]
          invariant FreeFrom(before, watermark, 0) == FreeFrom(before, watermark, popped)
          decreases |windows|
        {
          windows := windows[1..];
          popped := popped + 1;
        }
      }
    }

    method RecordReader(n: nat)
      requires Valid()
      modifies this`windows
      ensures Valid()
      ensures var k := Resolve(old(windows), n);
              windows == if k.Some? then WithReaders(old(windows), k.value, old(windows)[k.value].readers + 1)
                         else old(windows)
    {
      var k: Option<nat> := TryGetWindow(n);
      if k.Some? {
        windows := WithReaders(windows, k.value, windows[k.value].readers + 1);
      }
    }

    /* Closing undoes opening; when the window's last reader goes, whatever it kept in memory is freed. */
    method RemoveReaderAt(n: nat)
      requires Valid()
      modifies this`windows
      ensures Valid()
      ensures var k, r := Resolve(old(windows), n), RemoveReader(old(windows), n);
              windows == if k.Some? && k.value < |r| && r[k.value].readers == 0 then Freed(r, watermark) else r
    {
      var k: Option<nat> := TryGetWindow(n);
      if k.Some? {
        windows := RemoveReader(windows, n);
        if windows[k.value].readers == 0 {
          MayFreeWindows();
        }
      }
    }

    method CollectConcurrentWindows(open: nat, commit: nat) returns (held: seq<nat>, first: nat)
      requires Valid() && open < commit && windows[0].start <= commit < BackEnd(windows)
      ensures forall k :: 0 <= k < |held| ==> held[k] == first + k * WINDOW_SIZE
      ensures first <= commit <= first + |held| * WINDOW_SIZE
      ensures open + 1 < first ==> first == windows[0].start
      ensures open + 1 < first + WINDOW_SIZE
      ensures |held| > 1 ==> held[|held| - 1] < commit
      ensures windows[0].start < commit <= first ==> held == []
      ensures held == Starts(windows, FirstConcurrent(windows, open), LastConcurrent(windows, commit))
    {
      CollectedWindowsCover(windows, open, commit);
      var i := FirstConcurrent(windows, open);
      var last := LastConcurrent(windows, commit);
      first := windows[i].start;
      held := [];
      ghost var from := i;
      while i <= last
        invariant from <= i && (from <= last ==> i <= last + 1) && (from > last ==> i == from)
        invariant |held| == i - from && i <= |windows|
        invariant forall k :: 0 <= k < |held| ==> held[k] == windows[from + k].start
        decreases last + 1 - i
      {
        held := held + [windows[i].start];
        i := i + 1;
      }
    }

    /* Without interference: if the finished number is the one after the watermark, the watermark moves to
       the end of the run of finished slots in memory; otherwise it stays. */
    method MayIncrementWatermark(n: nat)
      requires Valid() && n > 0
      modifies this`watermark, this`windows
      ensures Valid()
      ensures old(watermark) <= watermark
      ensures forall p :: old(watermark) < p <= watermark ==> SlotFinished(p)
      ensures old(watermark) != n - 1 ==> watermark == old(watermark) && windows == old(windows)
      ensures old(watermark) == n - 1 ==> !SlotFinished(watermark + 1)
      ensures windows == if old(watermark) == n - 1 && Passed(old(windows), n - 1, watermark)
                         then Freed(old(windows), watermark) else old(windows)
    {
      if watermark != n - 1 {
        return;
      }
      AdvanceFrom(n);
      PassedIff(windows, n - 1, watermark);
      hide Contiguous, Freed, Passed;
      var previous: Option<nat> := TryGetWindow(n - 1);
      if previous.Some? && watermark >= windows[previous.value].End() {
        MayFreeWindows();
      }
    }

    /* The compare-and-swap loop. */
    method AdvanceFrom(n: nat)
      requires Valid() && n > 0 && watermark == n - 1
      modifies this`watermark
      ensures Valid()
      ensures old(watermark) <= watermark
      ensures forall p :: old(watermark) < p <= watermark ==> SlotFinished(p)
      ensures !SlotFinished(watermark + 1)
    {
      var candidate := n;
      var window: Option<nat> := TryGetWindow(candidate);
      while window.Some?
        invariant candidate == watermark + 1 && n <= candidate
        invariant Valid()
        invariant forall p :: n <= p < candidate ==> SlotFinished(p)
        invariant window.Some? ==>
          window.value < |windows| && windows[window.value].start <= candidate < windows[window.value].End()
        invariant window.None? ==> candidate >= BackEnd(windows)
        decreases BackEnd(windows) - candidate, window.Some?
      {
        if SlotFinished(candidate) {
          watermark := candidate;
          candidate := candidate + 1;
          if candidate >= windows[window.value].End() {
            window := TryGetWindow(candidate);
          }
        } else {
          break;
        }
      }
    }
  }
}
