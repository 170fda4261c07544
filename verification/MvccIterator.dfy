/**
 The range iterator over versioned keys (storage/iterator.rs, `MVCCRangeIterator`): a lazy filter over raw
 versions that agrees with the simple view of the latest visible version of each key.
 */
module MvccIterator {
  import opened Bytes
  import opened LexOrder
  import opened MvccKeys
  import opened Numerals
  import opened Options

  datatype Item = Item(key: ByteString, value: ByteString)

  /******* The simple view *******/

  /* The newest version of the key at or below the open number. */
  function Latest(versions: seq<Version>, key: ByteString, open: nat): (r: Option<Version>) {
    if versions == [] then None
    else
      var before, v := Latest(versions[..|versions| - 1], key, open), versions[|versions| - 1];
      if v.key == key && v.number <= open && (before.None? || before.value.number < v.number) then Some(v) else before
  }

  /* Sorted by key, and for one key newest first. */
  ghost predicate Sorted(versions: seq<Version>) {
    forall i, j :: 0 <= i < j < |versions| ==> Precedes(versions[i], versions[j])
  }

  ghost predicate AllNumbers(versions: seq<Version>) {
    forall i :: 0 <= i < |versions| ==> IsNumber(versions[i].number)
  }

  predicate Precedes(v: Version, w: Version) {
    LexLess(v.key, w.key) || (v.key == w.key && v.number > w.number)
  }

  /* A filter over the versions: what is produced when `last` is the last key already decided. */
  function Scan(versions: seq<Version>, open: nat, last: Option<ByteString>): (items: seq<Item>) {
    if versions == [] then []
    else
      var v, rest := versions[0], versions[1..];
      if v.number <= open && last != Some(v.key) then
        if v.operation == Insert then [Item(v.key, v.value)] + Scan(rest, open, Some(v.key))
        else Scan(rest, open, Some(v.key))
      else Scan(rest, open, last)
  }

  ghost predicate KeysAscend(items: seq<Item>) {
    forall i, j :: 0 <= i < j < |items| ==> LexLess(items[i].key, items[j].key)
  }

  /* No version belongs to a key before this one. */
  ghost predicate NoneBelow(versions: seq<Version>, key: ByteString) {
    forall i :: 0 <= i < |versions| ==> !LexLess(versions[i].key, key)
  }

  ghost predicate AfterLast(versions: seq<Version>, last: Option<ByteString>) {
    last.Some? ==> NoneBelow(versions, last.value)
  }

  lemma SortedRest(versions: seq<Version>)
    requires Sorted(versions) && versions != []
    ensures Sorted(versions[1..]) && NoneBelow(versions[1..], versions[0].key)
  {
    forall i | 0 <= i < |versions[1..]| ensures !LexLess(versions[1..][i].key, versions[0].key) {
      assert Precedes(versions[0], versions[i + 1]);
      if LexLess(versions[0].key, versions[i + 1].key) {
        LexLessIsAsymmetric(versions[0].key, versions[i + 1].key);
      } else {
        LexLessIsIrreflexive(versions[0].key);
      }
    }
  }

  lemma NoneBelowFirst(versions: seq<Version>)
    requires Sorted(versions) && versions != []
    ensures NoneBelow(versions, versions[0].key)
  {
    SortedRest(versions);
    LexLessIsIrreflexive(versions[0].key);
    assert versions == [versions[0]] + versions[1..];
  }

  /* Everything produced lies after the last key and comes in ascending key order, once per key. */
  lemma {:induction false} ScanAscends(versions: seq<Version>, open: nat, last: Option<ByteString>)
    requires Sorted(versions) && AfterLast(versions, last)
    ensures var items := Scan(versions, open, last);
            && KeysAscend(items)
            && (last.Some? ==> forall i :: 0 <= i < |items| ==> LexLess(last.value, items[i].key))
            && (forall key: ByteString :: NoneBelow(versions, key) ==>
                  forall i :: 0 <= i < |items| ==> !LexLess(items[i].key, key))
  {
    if versions != [] {
      var v, rest := versions[0], versions[1..];
      SortedRest(versions);
      if v.number <= open && last != Some(v.key) {
        ScanAscends(rest, open, Some(v.key));
        var later := Scan(rest, open, Some(v.key));
        if last.Some? {
          LexLessIsTotal(last.value, v.key);
          forall i | 0 <= i < |later| ensures LexLess(last.value, later[i].key) {
            LexLessIsTransitive(last.value, v.key, later[i].key);
          }
        }
      } else {
        ScanAscends(rest, open, last);
      }
      forall key: ByteString | NoneBelow(versions, key) ensures NoneBelow(rest, key) && !LexLess(v.key, key) {
      }
    }
  }

  /******* The filter agrees with the view *******/

  ghost predicate Absent(versions: seq<Version>, key: ByteString, open: nat) {
    forall i :: 0 <= i < |versions| ==> !(versions[i].key == key && versions[i].number <= open)
  }

  lemma {:induction false} LatestOfAbsent(versions: seq<Version>, key: ByteString, open: nat)
    requires Absent(versions, key, open)
    ensures Latest(versions, key, open) == None
  {
    if versions != [] {
      LatestOfAbsent(versions[..|versions| - 1], key, open);
    }
  }

  /* In sorted versions the first visible version of a key is its latest. */
  lemma {:induction false} FirstVisibleIsLatest(versions: seq<Version>, open: nat, n: nat)
    requires Sorted(versions) && 0 < n <= |versions| && versions[0].number <= open
    ensures Latest(versions[..n], versions[0].key, open) == Some(versions[0])
    decreases n
  {
    assert versions[..n][..n - 1] == versions[..n - 1];
    if n == 1 {
      assert versions[..n - 1] == [];
    } else {
      FirstVisibleIsLatest(versions, open, n - 1);
      assert Precedes(versions[0], versions[n - 1]);
      LexLessIsIrreflexive(versions[0].key);
    }
  }

  lemma {:induction false} LatestSkipsFirst(versions: seq<Version>, key: ByteString, open: nat, n: nat)
    requires 0 < n <= |versions| && !(versions[0].key == key && versions[0].number <= open)
    ensures Latest(versions[..n], key, open) == Latest(versions[1..][..n - 1], key, open)
    decreases n
  {
    assert versions[..n][..n - 1] == versions[..n - 1];
    if n > 1 {
      LatestSkipsFirst(versions, key, open, n - 1);
      assert versions[1..][..n - 1][..n - 2] == versions[1..][..n - 2];
    }
  }

  ghost predicate Shows(versions: seq<Version>, open: nat, item: Item) {
    var latest := Latest(versions, item.key, open);
    latest.Some? && latest.value.operation == Insert && latest.value.value == item.value
  }

  /* Beyond the last decided key there are no more versions of it. */
  lemma LastIsBehind(versions: seq<Version>, last: ByteString, open: nat)
    requires Sorted(versions) && versions != [] && NoneBelow(versions, last) && versions[0].key != last
    ensures Absent(versions[1..], last, open)
  {
    SortedRest(versions);
    LexLessIsTotal(last, versions[0].key);
    forall i | 0 <= i < |versions[1..]| ensures versions[1..][i].key != last {
      assert !LexLess(versions[1..][i].key, versions[0].key);
    }
  }

  /* What is produced is exactly what the view shows of the keys not decided yet. */
  lemma {:induction false} ScanIsTheView(versions: seq<Version>, open: nat, last: Option<ByteString>, item: Item)
    requires Sorted(versions) && AfterLast(versions, last)
    ensures item in Scan(versions, open, last) <==> last != Some(item.key) && Shows(versions, open, item)
  {
    if versions != [] {
      var v, rest, n := versions[0], versions[1..], |versions|;
      SortedRest(versions);
      assert versions[..n] == versions && rest[..n - 1] == rest;
      var next := if v.number <= open && last != Some(v.key) then Some(v.key) else last;
      ScanIsTheView(rest, open, next, item);
      if v.key == item.key && v.number <= open {
        FirstVisibleIsLatest(versions, open, n);
      } else {
        LatestSkipsFirst(versions, item.key, open, n);
        if last == Some(item.key) && v.key != item.key {
          LastIsBehind(versions, item.key, open);
          LatestOfAbsent(rest, item.key, open);
        }
      }
    }
  }

  /* The i-th version is of this key, and no version of the key up to the open number is newer. */
  ghost predicate NewestAt(versions: seq<Version>, key: ByteString, open: nat, i: nat) {
    && i < |versions| && versions[i].key == key && versions[i].number <= open
    && forall j :: 0 <= j < |versions| && versions[j].key == key && versions[j].number <= open ==>
         versions[j].number <= versions[i].number
  }

  lemma {:induction false} LatestIsNewest(versions: seq<Version>, key: ByteString, open: nat)
    ensures Latest(versions, key, open).None? <==> Absent(versions, key, open)
    ensures Latest(versions, key, open).Some? ==>
              exists i: nat :: NewestAt(versions, key, open, i) && Latest(versions, key, open) == Some(versions[i])
  {
    if versions != [] {
      var n := |versions| - 1;
      var before, v := versions[..n], versions[n];
      LatestIsNewest(before, key, open);
      OneMoreVersion(versions, key, open);
      hide NewestAt, Absent;
      if Latest(before, key, open).Some? {
        var i: nat :| NewestAt(before, key, open, i) && Latest(before, key, open) == Some(before[i]);
        NewestOfMore(versions, key, open, i);
      } else if v.key == key && v.number <= open {
        OnlyIsNewest(versions, key, open);
      }
    }
  }

  lemma OneMoreVersion(versions: seq<Version>, key: ByteString, open: nat)
    requires versions != []
    ensures var n := |versions| - 1;
            Absent(versions, key, open) <==>
            Absent(versions[..n], key, open) && !(versions[n].key == key && versions[n].number <= open)
  {
    assert forall j :: 0 <= j < |versions| - 1 ==> versions[..|versions| - 1][j] == versions[j];
  }

  lemma NewestOfMore(versions: seq<Version>, key: ByteString, open: nat, i: nat)
    requires versions != [] && NewestAt(versions[..|versions| - 1], key, open, i)
    ensures var n := |versions| - 1;
            var v := versions[n];
            var newer := v.key == key && v.number <= open && versions[i].number < v.number;
            NewestAt(versions, key, open, if newer then n else i) && versions[..n][i] == versions[i]
  {
    assert forall j :: 0 <= j < |versions| - 1 ==> versions[..|versions| - 1][j] == versions[j];
  }

  lemma OnlyIsNewest(versions: seq<Version>, key: ByteString, open: nat)
    requires versions != [] && Absent(versions[..|versions| - 1], key, open)
    requires versions[|versions| - 1].key == key && versions[|versions| - 1].number <= open
    ensures NewestAt(versions, key, open, |versions| - 1)
  {
    assert forall j :: 0 <= j < |versions| - 1 ==> versions[..|versions| - 1][j] == versions[j];
  }

  lemma NewestIsUnique(versions: seq<Version>, key: ByteString, open: nat, i: nat, j: nat)
    requires Sorted(versions) && NewestAt(versions, key, open, i) && NewestAt(versions, key, open, j)
    ensures i == j
  {
    LexLessIsIrreflexive(key);
  }

  /* Said on the versions themselves: an item is produced if and only if some version of its key numbered at most
     `open` is an insert of its value and no version of the key numbered at most `open` is newer. */
  lemma ProducedIffNewestIsInsert(versions: seq<Version>, open: nat, item: Item)
    requires Sorted(versions)
    ensures item in Scan(versions, open, None) <==>
            exists i: nat :: (
              && NewestAt(versions, item.key, open, i)
              && versions[i].operation == Insert && versions[i].value == item.value)
  {
    ScanIsTheView(versions, open, None, item);
    LatestIsNewest(versions, item.key, open);
    hide Latest, Sorted;
    if i: nat :| NewestAt(versions, item.key, open, i) && versions[i].operation == Insert &&
                 versions[i].value == item.value {
      var j: nat :| NewestAt(versions, item.key, open, j) && Latest(versions, item.key, open) == Some(versions[j]);
      NewestIsUnique(versions, item.key, open, i, j);
    }
  }

  /* Opened afresh, the iterator produces in key order and once per key exactly the keys whose newest version
     at or below the open number is an insert, with that version's value. */
  lemma IteratorShowsLatestVersions(versions: seq<Version>, open: nat)
    requires Sorted(versions)
    ensures KeysAscend(Scan(versions, open, None))
    ensures forall item :: item in Scan(versions, open, None) <==> Shows(versions, open, item)
  {
    ScanAscends(versions, open, None);
    forall item ensures item in Scan(versions, open, None) <==> Shows(versions, open, item) {
      ScanIsTheView(versions, open, None, item);
    }
  }

  /******* Seeking *******/

  function DropBelow(items: seq<Item>, key: ByteString): (r: seq<Item>) {
    if items == [] then []
    else if LexLess(items[0].key, key) then DropBelow(items[1..], key)
    else [items[0]] + DropBelow(items[1..], key)
  }

  lemma {:induction false} DropsNothing(items: seq<Item>, key: ByteString)
    requires forall i :: 0 <= i < |items| ==> !LexLess(items[i].key, key)
    ensures DropBelow(items, key) == items
  {
    if items != [] {
      DropsNothing(items[1..], key);
    }
  }

  /* The raw seek: versions that are stored before the target are passed over. */
  function Seeked(versions: seq<Version>, target: ByteString): (r: seq<Version>)
    requires AllNumbers(versions)
    ensures |r| <= |versions| && r == versions[|versions| - |r|..]
  {
    if versions != [] && LexLess(Encoded(versions[0].key, versions[0].number, versions[0].operation), target)
    then Seeked(versions[1..], target) else versions
  }

  ghost predicate Below(last: Option<ByteString>, key: ByteString) {
    last.Some? ==> LexLess(last.value, key)
  }

  /* Keys decided below the target do not matter above it. */
  lemma {:induction false} LastBelowIsIrrelevant(versions: seq<Version>, open: nat, a: Option<ByteString>,
                                                 b: Option<ByteString>, key: ByteString)
    requires Below(a, key) && Below(b, key)
    ensures DropBelow(Scan(versions, open, a), key) == DropBelow(Scan(versions, open, b), key)
  {
    if versions != [] {
      var v, rest := versions[0], versions[1..];
      LastBelowIsIrrelevant(rest, open, a, b, key);
      if LexLess(v.key, key) {
        LastBelowIsIrrelevant(rest, open, Some(v.key), a, key);
        LastBelowIsIrrelevant(rest, open, Some(v.key), b, key);
        DropFirst(Item(v.key, v.value), Scan(rest, open, Some(v.key)), key);
      }
    }
  }

  lemma DropFirst(item: Item, items: seq<Item>, key: ByteString)
    requires LexLess(item.key, key)
    ensures DropBelow([item] + items, key) == DropBelow(items, key)
  {
    assert ([item] + items)[1..] == items;
  }

  /* Passing over versions of smaller keys loses nothing at or above the target. */
  lemma {:induction false} SeekedKeepsTheRest(versions: seq<Version>, open: nat, last: Option<ByteString>,
                                              target: ByteString)
    requires AllNumbers(versions)
    requires Below(last, target)
    ensures DropBelow(Scan(Seeked(versions, target), open, last), target) ==
            DropBelow(Scan(versions, open, last), target)
  {
    if versions != [] {
      var v, rest := versions[0], versions[1..];
      if LexLess(Encoded(v.key, v.number, v.operation), target) {
        ExtensionIsNotLess(v.key, Suffix(v.number, v.operation));
        NotLessTransitively(v.key, Encoded(v.key, v.number, v.operation), target);
        SeekedKeepsTheRest(rest, open, last, target);
        LastBelowIsIrrelevant(rest, open, Some(v.key), last, target);
        DropFirst(Item(v.key, v.value), Scan(rest, open, Some(v.key)), target);
      }
    }
  }

  /* The target does not fall among the stored versions of any key. */
  ghost predicate CleanTarget(versions: seq<Version>, target: ByteString) {
    forall i :: 0 <= i < |versions| ==> !FallsAmongVersions(versions[i].key, target)
  }

  lemma {:induction false} SeekedIsAboveTarget(versions: seq<Version>, target: ByteString)
    requires AllNumbers(versions)
    requires Sorted(versions) && CleanTarget(versions, target)
    ensures NoneBelow(Seeked(versions, target), target)
  {
    if versions != [] {
      var v, rest := versions[0], versions[1..];
      SortedRest(versions);
      VersionBelowTarget(v.key, v.number, v.operation, target);
      if LexLess(v.key, target) {
        SeekedIsAboveTarget(rest, target);
      } else {
        forall i | 0 <= i < |versions| ensures !LexLess(versions[i].key, target) {
          if LexLess(versions[i].key, target) {
            assert i > 0 && !LexLess(rest[i - 1].key, v.key);
            NotLessTransitively(v.key, versions[i].key, target);
          }
        }
      }
    }
  }

  /* A seek drops exactly what lies below the target. */
  lemma SeekDropsExactlyBelow(versions: seq<Version>, open: nat, last: Option<ByteString>, target: ByteString)
    requires AllNumbers(versions)
    requires Sorted(versions) && AfterLast(versions, last) && Below(last, target) && CleanTarget(versions, target)
    ensures Scan(Seeked(versions, target), open, last) == DropBelow(Scan(versions, open, last), target)
  {
    var kept := Seeked(versions, target);
    SeekedKeepsTheRest(versions, open, last, target);
    SeekedIsAboveTarget(versions, target);
    SuffixIsSorted(versions, |versions| - |kept|, last);
    ScanAscends(kept, open, last);
    DropsNothing(Scan(kept, open, last), target);
  }

  /* Apart from the last decided key, these versions show no key below the target. */
  ghost predicate ShowsNothingBelow(versions: seq<Version>, open: nat, last: Option<ByteString>, target: ByteString) {
    forall item: Item :: LexLess(item.key, target) && last != Some(item.key) ==> !Shows(versions, open, item)
  }

  lemma {:induction false} DroppedIsAbove(items: seq<Item>, key: ByteString, item: Item)
    requires item in DropBelow(items, key)
    ensures !LexLess(item.key, key)
  {
    if item != items[0] || LexLess(items[0].key, key) {
      DroppedIsAbove(items[1..], key, item);
    }
  }

  /* A seek drops exactly what lies below the target if and only if the versions stored at or after the target
     show no key below it that was not decided before. */
  lemma SeekIsExactIff(versions: seq<Version>, open: nat, last: Option<ByteString>, target: ByteString)
    requires AllNumbers(versions)
    requires Sorted(versions) && AfterLast(versions, last) && Below(last, target)
    ensures Scan(Seeked(versions, target), open, last) == DropBelow(Scan(versions, open, last), target) <==>
            ShowsNothingBelow(Seeked(versions, target), open, last, target)
  {
    hide Sorted, AfterLast, Scan, Seeked, DropBelow, Shows, LexLess, Below, Encoded;
    var kept := Seeked(versions, target);
    SuffixIsSorted(versions, |versions| - |kept|, last);
    SeekedKeepsTheRest(versions, open, last, target);
    var items := Scan(kept, open, last);
    if items == DropBelow(items, target) {
      forall item: Item | LexLess(item.key, target) && last != Some(item.key) ensures !Shows(kept, open, item) {
        ScanIsTheView(kept, open, last, item);
        if item in items {
          DroppedIsAbove(items, target, item);
        }
      }
    }
    if ShowsNothingBelow(kept, open, last, target) {
      forall i | 0 <= i < |items| ensures !LexLess(items[i].key, target) {
        ScanIsTheView(kept, open, last, items[i]);
      }
      DropsNothing(items, target);
    }
  }

  /* What is left of the versions once the next one to be produced has been taken. */
  function AfterNext(versions: seq<Version>, open: nat, last: Option<ByteString>): (r: seq<Version>)
    ensures |r| <= |versions| && r == versions[|versions| - |r|..]
  {
    if versions == [] then []
    else
      var v, rest := versions[0], versions[1..];
      if v.number <= open && last != Some(v.key) then
        if v.operation == Insert then rest else AfterNext(rest, open, Some(v.key))
      else AfterNext(rest, open, last)
  }

  /* One version of the filter. */
  lemma ScanStep(versions: seq<Version>, open: nat, last: Option<ByteString>)
    requires versions != []
    ensures var v, rest := versions[0], versions[1..];
            if v.number <= open && last != Some(v.key) then
              if v.operation == Insert then
                && Scan(versions, open, last) == [Item(v.key, v.value)] + Scan(rest, open, Some(v.key))
                && AfterNext(versions, open, last) == rest
              else
                && Scan(versions, open, last) == Scan(rest, open, Some(v.key))
                && AfterNext(versions, open, last) == AfterNext(rest, open, Some(v.key))
            else
              && Scan(versions, open, last) == Scan(rest, open, last)
              && AfterNext(versions, open, last) == AfterNext(rest, open, last)
  {
  }

  lemma NothingToScan(open: nat, last: Option<ByteString>)
    ensures Scan([], open, last) == [] && AfterNext([], open, last) == []
  {
  }

  lemma CleanSuffix(versions: seq<Version>, from: nat, target: ByteString)
    requires from <= |versions|
    ensures CleanTarget(versions, target) ==> CleanTarget(versions[from..], target)
  {
    hide FallsAmongVersions;
  }

  lemma NothingToDrop(target: ByteString)
    ensures DropBelow([], target) == []
  {
  }

  lemma SuffixIsSorted(versions: seq<Version>, from: nat, last: Option<ByteString>)
    requires Sorted(versions) && AfterLast(versions, last) && from <= |versions|
    ensures Sorted(versions[from..]) && AfterLast(versions[from..], last)
    ensures AllNumbers(versions) ==> AllNumbers(versions[from..])
  {
    hide Precedes, LexLess, IsNumber;
  }

  /* From a fresh iterator over two stored keys: the target extends the second, and the seek leaves it. */
  lemma SeekMayLeaveSmallerKeys(v: Version, w: Version)
    requires v == Version([0], 1, Insert, []) && w == Version([1], 1, Insert, [])
    ensures AllNumbers([w]) && Sorted([v, w]) && LexLess(v.key, [1, 0]) && LexLess(w.key, [1, 0])
    ensures Scan([v, w], 1, None) == [Item(v.key, []), Item(w.key, [])]
    ensures DropBelow(Scan([v, w], 1, None), [1, 0]) == []
    ensures AfterNext([v, w], 1, None) == [w] && Scan(Seeked([w], [1, 0]), 1, Some(v.key)) == [Item(w.key, [])]
  {
    TwoKeys(v, w);
    TwoKeysScanned(v, w);
    hide LexLess, Scan, DropBelow, Encoded, IsNumber;
    OneInverted();
    ScanOfOne(w, Some(v.key));
    NotBelowTarget();
    assert Seeked([w], [1, 0]) == [w];
  }

  lemma TwoKeys(v: Version, w: Version)
    requires v == Version([0], 1, Insert, []) && w == Version([1], 1, Insert, [])
    ensures Sorted([v, w]) && LexLess(v.key, [1, 0]) && LexLess(w.key, [1, 0])
  {
    var target: ByteString := [1, 0];
    assert LexLess(w.key, target) by {
      assert target[1..] == [0] && w.key[1..] == [];
    }
    assert LexLess(v.key, w.key);
  }

  lemma TwoKeysScanned(v: Version, w: Version)
    requires v == Version([0], 1, Insert, []) && w == Version([1], 1, Insert, [])
    ensures Scan([v, w], 1, None) == [Item(v.key, []), Item(w.key, [])]
    ensures DropBelow(Scan([v, w], 1, None), [1, 0]) == [] && AfterNext([v, w], 1, None) == [w]
  {
    TwoKeys(v, w);
    hide LexLess, Scan, DropBelow, Sorted;
    var target: ByteString := [1, 0];
    var first, second := Item(v.key, []), Item(w.key, []);
    ScanStep([v, w], 1, None);
    assert [v, w][1..] == [w];
    assert v.key[0] != w.key[0];
    ScanOfOne(w, Some(v.key));
    assert [first] + [second] == [first, second] && [second] + [] == [second];
    DropFirst(first, [second], target);
    DropFirst(second, [], target);
    NothingToDrop(target);
  }

  lemma ScanOfOne(v: Version, last: Option<ByteString>)
    requires v.number == 1 && v.operation == Insert && last != Some(v.key)
    ensures Scan([v], 1, last) == [Item(v.key, v.value)]
  {
    hide Scan;
    ScanStep([v], 1, last);
    assert [v][1..] == [];
    NothingToScan(1, Some(v.key));
  }

  lemma NotBelowTarget()
    requires IsNumber(1)
    ensures !LexLess(Encoded([1], 1, Insert), [1, 0])
  {
    OneInverted();
    var stored, suffix := Encoded([1], 1, Insert), Suffix(1, Insert);
    hide Pow, Digits, Suffix;
    assert stored[1..] == suffix && [1, 0][1..] == [0];
    assert suffix[0] == 255 by {
      OneSuffix();
    }
    assert !LexLess(suffix, [0]);
  }

  lemma OneSuffix()
    requires IsNumber(1)
    ensures Suffix(1, Insert)[0] == 255
  {
    OneInverted();
  }

  lemma OneInverted()
    ensures IsNumber(1) && Digits(Inverted(1), 256, NUMBER_BYTES)[0] == 255
  {
    TopDigit(Inverted(1), NUMBER_BYTES);
  }

  /* A number that is at most one below the greatest begins with the greatest digit. */
  lemma {:induction false} TopDigit(n: nat, len: nat)
    requires len >= 2 && n < Pow(256, len) && n + 2 >= Pow(256, len)
    ensures Digits(n, 256, len)[0] == 255
    decreases len
  {
    var q, r := Quotient(n, 256), Remainder(n, 256);
    DivisionIsExact(n, 256);
    QuotientIsSmaller(n, 256, Pow(256, len - 1));
    assert q + 1 >= Pow(256, len - 1);
    if len == 2 {
      assert Pow(256, 1) == 256 * Pow(256, 0);
      assert Digits(q, 256, 1) == Digits(Quotient(q, 256), 256, 0) + [Remainder(q, 256)];
    } else {
      TopDigit(q, len - 1);
    }
  }

  /******* The iterator *******/

  class MvccRangeIterator {
    const openNumber: nat
    var raw: seq<Version>
    var lastVisibleKey: Option<ByteString>
    var item: Option<Item>

    /* What is still to be produced. */
    ghost function Contents(): (r: seq<Item>)
      reads this
    {
      (if item.Some? then [item.value] else []) + Scan(raw, openNumber, lastVisibleKey)
    }

    ghost predicate Valid()
      reads this
    {
      && Sorted(raw) && AfterLast(raw, lastVisibleKey)
      && AllNumbers(raw)
      && (item.Some? ==> lastVisibleKey == Some(item.value.key))
    }

    constructor (versions: seq<Version>, openNumber: nat)
      requires Sorted(versions) && AllNumbers(versions)
      ensures Valid() && Contents() == Scan(versions, openNumber, None)
    {
      this.openNumber := openNumber;
      raw, lastVisibleKey, item := versions, None, None;
      new;
      assert [] + Scan(raw, openNumber, None) == Scan(raw, openNumber, None);
    }

    /* Skips to the next version that is to be produced and leaves it in front. */
    method FindNextState() returns (found: bool)
      requires Valid() && item.None?
      modifies this`raw, this`lastVisibleKey
      ensures Valid()
      ensures found <==> old(Scan(raw, openNumber, lastVisibleKey)) != []
      ensures found ==> raw != [] && lastVisibleKey == Some(raw[0].key) &&
                        old(Scan(raw, openNumber, lastVisibleKey)) ==
                        [Item(raw[0].key, raw[0].value)] + Scan(raw[1..], openNumber, lastVisibleKey)
      ensures !found ==> raw == []
      ensures (if found then raw[1..] else raw) == old(AfterNext(raw, openNumber, lastVisibleKey))
    {
      hide Sorted, LexLess, NoneBelow, Scan, AfterNext, AllNumbers;
      while raw != []
        invariant Valid() && item.None?
        invariant Scan(raw, openNumber, lastVisibleKey) == old(Scan(raw, openNumber, lastVisibleKey))
        invariant AfterNext(raw, openNumber, lastVisibleKey) == old(AfterNext(raw, openNumber, lastVisibleKey))
        decreases |raw|
      {
        var v := raw[0];
        SortedRest(raw);
        SuffixIsSorted(raw, 1, lastVisibleKey);
        ScanStep(raw, openNumber, lastVisibleKey);
        if v.number <= openNumber && lastVisibleKey != Some(v.key) {
          lastVisibleKey := Some(v.key);
          match v.operation {
            case Insert =>
              NoneBelowFirst(raw);
              return true;
            case Delete =>
              raw := raw[1..];
          }
        } else {
          raw := raw[1..];
        }
      }
      NothingToScan(openNumber, lastVisibleKey);
      found := false;
    }

    method Next() returns (r: Option<Item>)
      requires Valid()
      modifies this
      ensures Valid() && item.None?
      ensures r.None? <==> old(Contents()) == []
      ensures r.None? ==> Contents() == []
      ensures r.Some? ==> old(Contents()) == [r.value] + Contents() && lastVisibleKey == Some(r.value.key)
      ensures raw == old(if item.Some? then raw else AfterNext(raw, openNumber, lastVisibleKey))
    {
      hide Sorted, AfterLast, Scan, AfterNext, AllNumbers;
      if item.Some? {
        r := item;
        item := None;
        assert Contents() == Scan(raw, openNumber, lastVisibleKey);
      } else {
        assert Contents() == Scan(raw, openNumber, lastVisibleKey);
        var found := FindNextState();
        if found {
          var v := raw[0];
          SuffixIsSorted(raw, 1, lastVisibleKey);
          r := Some(Item(v.key, v.value));
          raw := raw[1..];
        } else {
          NothingToScan(openNumber, lastVisibleKey);
          r := None;
        }
        assert Contents() == Scan(raw, openNumber, lastVisibleKey);
      }
    }

    method Peek() returns (r: Option<Item>)
      requires Valid()
      modifies this
      ensures Valid() && item == r && Contents() == old(Contents())
      ensures r == if Contents() == [] then None else Some(Contents()[0])
      ensures raw == old(if item.Some? then raw else AfterNext(raw, openNumber, lastVisibleKey))
    {
      hide Sorted, AfterLast, Scan, AfterNext;
      if item.None? {
        item := Next();
      }
      r := item;
    }

    /* The versions stored at or after the target, beyond the next item. */
    ghost function Beyond(target: ByteString): seq<Version>
      reads this
      requires Valid()
    {
      Seeked(if item.Some? then raw else AfterNext(raw, openNumber, lastVisibleKey), target)
    }

    /* Whether a seek passes over exactly what lies below the target: it does unless the next item is below the
       target and some other key below it is shown by the versions stored at or after it. */
    ghost predicate SeeksExactly(target: ByteString)
      reads this
      requires Valid()
    {
      Contents() != [] && LexLess(Contents()[0].key, target) ==>
        ShowsNothingBelow(Beyond(target), openNumber, Some(Contents()[0].key), target)
    }

    /* Nothing at or above the target is lost, and exactly what lies below it is dropped if and only if
       `SeeksExactly`, which holds whenever the target does not fall among the stored versions of a key. */
    method Seek(target: ByteString)
      requires Valid()
      modifies this
      ensures Valid()
      ensures Contents() == if old(Contents()) == [] || !LexLess(old(Contents())[0].key, target) then old(Contents())
                            else Scan(old(Beyond(target)), openNumber, Some(old(Contents())[0].key))
      ensures DropBelow(Contents(), target) == DropBelow(old(Contents()), target)
      ensures Contents() == DropBelow(old(Contents()), target) <==> old(SeeksExactly(target))
      ensures CleanTarget(old(raw), target) ==> Contents() == DropBelow(old(Contents()), target)
    {
      hide Scan, Seeked, Sorted, AfterLast, CleanTarget, DropBelow, LexLess, ShowsNothingBelow, AfterNext;
      var peeked := Peek();
      CleanSuffix(old(raw), |old(raw)| - |raw|, target);
      assert peeked.None? ==> DropBelow(Contents(), target) == Contents() by {
        NothingToDrop(target);
      }
      if peeked.Some? {
        assert Contents()[0] == peeked.value;
        SeekFrom(raw, openNumber, peeked.value, target);
        if LexLess(peeked.value.key, target) {
          item := None;
          raw := Seeked(raw, target);
          assert Contents() == Scan(raw, openNumber, lastVisibleKey);
        }
      }
    }

    static lemma SeekFrom(versions: seq<Version>, open: nat, first: Item, target: ByteString)
      requires Sorted(versions) && AfterLast(versions, Some(first.key))
      requires AllNumbers(versions)
      ensures var items, kept := Scan(versions, open, Some(first.key)), Seeked(versions, target);
              var left := Scan(kept, open, Some(first.key));
              if LexLess(first.key, target) then
                && Sorted(kept) && AfterLast(kept, Some(first.key))
                && DropBelow(left, target) == DropBelow([first] + items, target)
                && (left == DropBelow([first] + items, target) <==>
                    ShowsNothingBelow(kept, open, Some(first.key), target))
                && (CleanTarget(versions, target) ==> left == DropBelow([first] + items, target))
              else DropBelow([first] + items, target) == [first] + items
    {
      hide Scan, Seeked, Sorted, NoneBelow, CleanTarget, DropBelow, LexLess, Encoded, ShowsNothingBelow;
      var last, kept := Some(first.key), Seeked(versions, target);
      var items := Scan(versions, open, last);
      if LexLess(first.key, target) {
        DropFirst(first, items, target);
        SeekedKeepsTheRest(versions, open, last, target);
        SeekIsExactIff(versions, open, last, target);
        SuffixIsSorted(versions, |versions| - |kept|, last);
        if CleanTarget(versions, target) {
          SeekDropsExactlyBelow(versions, open, last, target);
        }
      } else {
        ScanAscends(versions, open, last);
        forall i | 0 <= i < |items| ensures !LexLess(items[i].key, target) {
          if LexLess(items[i].key, target) {
            LexLessIsTransitive(first.key, items[i].key, target);
          }
        }
        DropsNothing([first] + items, target);
      }
    }
  }
}
