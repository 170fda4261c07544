/**
 Commit records and the dependency between a commit and a concurrent predecessor
 (storage/isolation_manager.rs, `CommitRecord::compute_dependency`).
 */
module CommitRecords {
  import opened Bytes
  import opened Options

  type Key = ByteString

  /* The kind of a buffered write. The reinsert flag of a Put is shared, mutable state; it is kept
     apart, in a map from the Put's location to its current value. */
  datatype Write = Insert(value: ByteString) | Put(value: ByteString, knownToExist: bool) | Delete

  datatype Lock = Unmodifiable | Exclusive

  datatype IsolationConflict = DeletingRequiredKey | RequireDeletedKey | ExclusiveLock

  /* A BTreeMap: `order` is the order in which its keys are visited. */
  datatype OrderedMap<V> = OrderedMap(order: seq<Key>, entries: map<Key, V>) {
    ghost predicate Valid() {
      forall k :: k in order <==> k in entries
    }
  }

  datatype CommitRecord = CommitRecord(buffers: seq<OrderedMap<Write>>, locks: OrderedMap<Lock>, open: nat) {
    ghost predicate Valid() {
      && (forall b :: 0 <= b < |buffers| ==> buffers[b].Valid())
      && locks.Valid()
    }
  }

  /* Where a buffered write lives: its keyspace's buffer and its key. */
  datatype Location = Location(buffer: nat, key: Key)

  datatype DependentPut = Deleted(at: Location) | Inserted(at: Location)

  datatype CommitDependency =
    | Independent
    | DependentPuts(puts: seq<DependentPut>)
    | Conflict(conflict: IsolationConflict)

  type ReinsertFlags = map<Location, bool>

  /******* What counts as a conflict *******/

  function ZippedBuffers(c: CommitRecord, p: CommitRecord): (n: nat)
    ensures n <= |c.buffers| && n <= |p.buffers|
    ensures n == |c.buffers| || n == |p.buffers|
  {
    if |c.buffers| <= |p.buffers| then |c.buffers| else |p.buffers|
  }

  predicate Deletes(writes: OrderedMap<Write>, key: Key) {
    key in writes.entries && writes.entries[key].Delete?
  }

  predicate Holds(locks: OrderedMap<Lock>, key: Key, lock: Lock) {
    key in locks.entries && locks.entries[key] == lock
  }

  /* `deleter` deletes, in buffer b, a key that `holder` requires to stay. */
  ghost predicate DeletesRequired(deleter: CommitRecord, holder: CommitRecord, b: nat)
    requires b < |deleter.buffers|
  {
    exists key :: Deletes(deleter.buffers[b], key) && Holds(holder.locks, key, Unmodifiable)
  }

  ghost predicate ShareExclusive(c: CommitRecord, p: CommitRecord) {
    exists key :: Holds(c.locks, key, Exclusive) && Holds(p.locks, key, Exclusive)
  }

  ghost predicate BufferConflict(c: CommitRecord, p: CommitRecord, b: nat)
    requires b < ZippedBuffers(c, p)
  {
    DeletesRequired(c, p, b) || DeletesRequired(p, c, b)
  }

  ghost predicate Conflicts(c: CommitRecord, p: CommitRecord) {
    || (exists b: nat :: b < ZippedBuffers(c, p) && BufferConflict(c, p, b))
    || ShareExclusive(c, p)
  }

  /* The reason reported for a conflict: the first buffer with one decides, and within it a delete
     of a required key is looked for before a requirement on a deleted key. */
  ghost function ConflictFrom(c: CommitRecord, p: CommitRecord, b: nat): IsolationConflict
    requires b <= ZippedBuffers(c, p)
    decreases ZippedBuffers(c, p) - b
  {
    if b == ZippedBuffers(c, p) then ExclusiveLock
    else if DeletesRequired(c, p, b) then DeletingRequiredKey
    else if DeletesRequired(p, c, b) then RequireDeletedKey
    else ConflictFrom(c, p, b + 1)
  }

  /******* Dependent puts *******/

  /* The put at `at` in c overwrites a key that p also writes. */
  predicate Overlaps(c: CommitRecord, p: CommitRecord, at: Location) {
    && at.buffer < ZippedBuffers(c, p)
    && at.key in c.buffers[at.buffer].entries
    && c.buffers[at.buffer].entries[at.key].Put?
    && at.key in p.buffers[at.buffer].entries
  }

  function PutAt(c: CommitRecord, p: CommitRecord, at: Location): (puts: seq<DependentPut>) {
    if !Overlaps(c, p, at) then []
    else if p.buffers[at.buffer].entries[at.key].Delete? then [Deleted(at)]
    else [Inserted(at)]
  }

  /* The dependent puts among the first n keys of buffer b. */
  function PutsAmong(c: CommitRecord, p: CommitRecord, b: nat, n: nat): (puts: seq<DependentPut>)
    requires b < ZippedBuffers(c, p) && n <= |c.buffers[b].order|
  {
    if n == 0 then []
    else PutsAmong(c, p, b, n - 1) + PutAt(c, p, Location(b, c.buffers[b].order[n - 1]))
  }

  /* The dependent puts of the first b buffers. */
  function PutsUpTo(c: CommitRecord, p: CommitRecord, b: nat): (puts: seq<DependentPut>)
    requires b <= ZippedBuffers(c, p)
  {
    if b == 0 then []
    else PutsUpTo(c, p, b - 1) + PutsAmong(c, p, b - 1, |c.buffers[b - 1].order|)
  }

  ghost function Dependency(c: CommitRecord, p: CommitRecord): CommitDependency {
    var puts := PutsUpTo(c, p, ZippedBuffers(c, p));
    if Conflicts(c, p) then Conflict(ConflictFrom(c, p, 0))
    else if puts == [] then Independent
    else DependentPuts(puts)
  }

  /******* compute_dependency *******/

  ghost predicate NoConflictBefore(c: CommitRecord, p: CommitRecord, b: nat)
    requires b <= ZippedBuffers(c, p)
  {
    b == 0 || (NoConflictBefore(c, p, b - 1) && !BufferConflict(c, p, b - 1))
  }

  lemma {:induction false} NoConflictAt(c: CommitRecord, p: CommitRecord, b: nat, b': nat)
    requires b' < b <= ZippedBuffers(c, p) && NoConflictBefore(c, p, b)
    ensures !BufferConflict(c, p, b')
  {
    if b' < b - 1 {
      NoConflictAt(c, p, b - 1, b');
    }
  }

  lemma {:induction false} ConflictSkipsCleanBuffers(c: CommitRecord, p: CommitRecord, b: nat)
    requires b <= ZippedBuffers(c, p) && NoConflictBefore(c, p, b)
    ensures ConflictFrom(c, p, 0) == ConflictFrom(c, p, b)
  {
    if b > 0 {
      ConflictSkipsCleanBuffers(c, p, b - 1);
    }
  }

  lemma FirstConflictDecides(c: CommitRecord, p: CommitRecord, b: nat)
    requires b < ZippedBuffers(c, p) && NoConflictBefore(c, p, b) && BufferConflict(c, p, b)
    ensures Dependency(c, p) ==
            Conflict(if DeletesRequired(c, p, b) then DeletingRequiredKey else RequireDeletedKey)
  {
    ConflictSkipsCleanBuffers(c, p, b);
  }

  lemma WithoutBufferConflicts(c: CommitRecord, p: CommitRecord)
    requires NoConflictBefore(c, p, ZippedBuffers(c, p))
    ensures Dependency(c, p) ==
            if ShareExclusive(c, p) then Conflict(ExclusiveLock)
            else if PutsUpTo(c, p, ZippedBuffers(c, p)) == [] then Independent
            else DependentPuts(PutsUpTo(c, p, ZippedBuffers(c, p)))
  {
    ConflictSkipsCleanBuffers(c, p, ZippedBuffers(c, p));
    forall b: nat | b < ZippedBuffers(c, p) ensures !BufferConflict(c, p, b) {
      NoConflictAt(c, p, ZippedBuffers(c, p), b);
    }
  }

  method ComputeDependency(c: CommitRecord, p: CommitRecord) returns (d: CommitDependency)
    requires c.Valid() && p.Valid()
    ensures d == Dependency(c, p)
  {
    var conflict, puts := ScanBuffers(c, p);
    if conflict.Some? {
      return Conflict(conflict.value);
    }
    var shareExclusive := ScanExclusive(c, p);
    WithoutBufferConflicts(c, p);
    d := if shareExclusive then Conflict(ExclusiveLock)
         else if puts == [] then Independent
         else DependentPuts(puts);
  }

  /* The outer loop, over pairs of buffers of the same keyspace: stops at the first conflict. */
  method ScanBuffers(c: CommitRecord, p: CommitRecord)
    returns (conflict: Option<IsolationConflict>, puts: seq<DependentPut>)
    requires c.Valid() && p.Valid()
    ensures conflict.Some? ==> Dependency(c, p) == Conflict(conflict.value)
    ensures conflict.None? ==> NoConflictBefore(c, p, ZippedBuffers(c, p))
    ensures conflict.None? ==> puts == PutsUpTo(c, p, ZippedBuffers(c, p))
  {
    hide BufferConflict, PutsAmong, Dependency;
    puts := [];
    var b := 0;
    while b < ZippedBuffers(c, p)
      invariant b <= ZippedBuffers(c, p)
      invariant puts == PutsUpTo(c, p, b)
      invariant NoConflictBefore(c, p, b)
    {
      var found;
      conflict, found := ScanBuffer(c, p, b);
      if conflict.Some? {
        FirstConflictDecides(c, p, b);
        return;
      }
      puts := puts + found;
      b := b + 1;
    }
    conflict := None;
  }

  /* One pass of the outer loop, over a pair of buffers of the same keyspace. */
  method ScanBuffer(c: CommitRecord, p: CommitRecord, b: nat)
    returns (conflict: Option<IsolationConflict>, puts: seq<DependentPut>)
    requires c.Valid() && p.Valid() && b < ZippedBuffers(c, p)
    ensures conflict.Some? <==> BufferConflict(c, p, b)
    ensures conflict.Some? ==>
      conflict.value == if DeletesRequired(c, p, b) then DeletingRequiredKey else RequireDeletedKey
    ensures conflict.None? ==> puts == PutsAmong(c, p, b, |c.buffers[b].order|)
  {
    var deletesRequired, found := ScanWrites(c, p, b);
    if deletesRequired {
      return Some(DeletingRequiredKey), [];
    }
    var requiresDeleted := ScanLocks(c, p, b);
    if requiresDeleted {
      return Some(RequireDeletedKey), [];
    }
    return None, found;
  }

  /* The loop over one buffer's writes: stops at the first deletion of a required key. */
  method ScanWrites(c: CommitRecord, p: CommitRecord, b: nat) returns (conflict: bool, puts: seq<DependentPut>)
    requires c.Valid() && p.Valid() && b < ZippedBuffers(c, p)
    ensures conflict <==> DeletesRequired(c, p, b)
    ensures !conflict ==> puts == PutsAmong(c, p, b, |c.buffers[b].order|)
  {
    var writes := c.buffers[b];
    puts := [];
    for n := 0 to |writes.order|
      invariant puts == PutsAmong(c, p, b, n)
      invariant forall n' :: 0 <= n' < n ==>
        !(Deletes(writes, writes.order[n']) && Holds(p.locks, writes.order[n'], Unmodifiable))
    {
      var key := writes.order[n];
      var write := writes.entries[key];
      if key in p.buffers[b].entries && write.Put? {
        var predecessorWrite := p.buffers[b].entries[key];
        puts := puts + [if predecessorWrite.Delete? then Deleted(Location(b, key)) else Inserted(Location(b, key))];
      }
      if write.Delete? && Holds(p.locks, key, Unmodifiable) {
        assert Deletes(writes, key);
        return true, puts;
      }
    }
    conflict := false;
    forall key | Deletes(writes, key) ensures !Holds(p.locks, key, Unmodifiable) {
      var n :| 0 <= n < |writes.order| && writes.order[n] == key;
    }
  }

  /* The loop over all locks for one predecessor buffer. */
  method ScanLocks(c: CommitRecord, p: CommitRecord, b: nat) returns (conflict: bool)
    requires c.Valid() && p.Valid() && b < ZippedBuffers(c, p)
    ensures conflict <==> DeletesRequired(p, c, b)
  {
    for k := 0 to |c.locks.order|
      invariant forall k' :: 0 <= k' < k ==>
        !(Holds(c.locks, c.locks.order[k'], Unmodifiable) && Deletes(p.buffers[b], c.locks.order[k']))
    {
      var key := c.locks.order[k];
      if Holds(c.locks, key, Unmodifiable) && Deletes(p.buffers[b], key) {
        return true;
      }
    }
    conflict := false;
    forall key | Holds(c.locks, key, Unmodifiable) ensures !Deletes(p.buffers[b], key) {
      var k :| 0 <= k < |c.locks.order| && c.locks.order[k] == key;
    }
  }

  /* The final loop, over exclusive locks. */
  method ScanExclusive(c: CommitRecord, p: CommitRecord) returns (conflict: bool)
    requires c.Valid() && p.Valid()
    ensures conflict <==> ShareExclusive(c, p)
  {
    for k := 0 to |c.locks.order|
      invariant forall k' :: 0 <= k' < k ==>
        !(Holds(c.locks, c.locks.order[k'], Exclusive) && Holds(p.locks, c.locks.order[k'], Exclusive))
    {
      var key := c.locks.order[k];
      if Holds(c.locks, key, Exclusive) && Holds(p.locks, key, Exclusive) {
        return true;
      }
    }
    conflict := false;
    forall key | Holds(c.locks, key, Exclusive) ensures !Holds(p.locks, key, Exclusive) {
      var k :| 0 <= k < |c.locks.order| && c.locks.order[k] == key;
    }
  }

  /* The record deletes the key in keyspace b; it requires the key to stay; it locks the key exclusively. Said on the
     maps themselves. */
  predicate DeletesKey(c: CommitRecord, b: nat, key: Key) {
    b < |c.buffers| && key in c.buffers[b].entries && c.buffers[b].entries[key] == Delete
  }

  predicate RequiresKey(c: CommitRecord, key: Key) {
    key in c.locks.entries && c.locks.entries[key] == Unmodifiable
  }

  predicate LocksKey(c: CommitRecord, key: Key) {
    key in c.locks.entries && c.locks.entries[key] == Exclusive
  }

  /* One deletes, in a keyspace that both have, a key that the other requires; or both lock a key exclusively. Any
     other pair of records does not conflict, whatever keys both write. */
  lemma ConflictIffKeysClash(c: CommitRecord, p: CommitRecord)
    ensures Dependency(c, p).Conflict? <==>
            || (exists b: nat, key :: b < |p.buffers| && DeletesKey(c, b, key) && RequiresKey(p, key))
            || (exists b: nat, key :: b < |c.buffers| && DeletesKey(p, b, key) && RequiresKey(c, key))
            || (exists key :: LocksKey(c, key) && LocksKey(p, key))
  {
    if Conflicts(c, p) {
      if key :| Holds(c.locks, key, Exclusive) && Holds(p.locks, key, Exclusive) {
        assert LocksKey(c, key) && LocksKey(p, key);
      } else {
        var b: nat :| b < ZippedBuffers(c, p) && BufferConflict(c, p, b);
        if key :| Deletes(c.buffers[b], key) && Holds(p.locks, key, Unmodifiable) {
          assert DeletesKey(c, b, key) && RequiresKey(p, key);
        } else {
          var key :| Deletes(p.buffers[b], key) && Holds(c.locks, key, Unmodifiable);
          assert DeletesKey(p, b, key) && RequiresKey(c, key);
        }
      }
    }
    if b: nat, key :| b < |p.buffers| && DeletesKey(c, b, key) && RequiresKey(p, key) {
      assert Deletes(c.buffers[b], key) && Holds(p.locks, key, Unmodifiable);
      assert BufferConflict(c, p, b);
    }
    if b: nat, key :| b < |c.buffers| && DeletesKey(p, b, key) && RequiresKey(c, key) {
      assert Deletes(p.buffers[b], key) && Holds(c.locks, key, Unmodifiable);
      assert BufferConflict(c, p, b);
    }
    if key :| LocksKey(c, key) && LocksKey(p, key) {
      assert Holds(c.locks, key, Exclusive) && Holds(p.locks, key, Exclusive);
    }
  }

  lemma {:induction false} ReasonOf(c: CommitRecord, p: CommitRecord, b: nat)
    requires b <= ZippedBuffers(c, p)
    ensures ConflictFrom(c, p, b) == DeletingRequiredKey ==>
              exists k: nat, key :: k < |p.buffers| && DeletesKey(c, k, key) && RequiresKey(p, key)
    ensures ConflictFrom(c, p, b) == RequireDeletedKey ==>
              exists k: nat, key :: k < |c.buffers| && DeletesKey(p, k, key) && RequiresKey(c, key)
    ensures ConflictFrom(c, p, b) == ExclusiveLock ==>
              forall k: nat :: b <= k < ZippedBuffers(c, p) ==> !BufferConflict(c, p, k)
    decreases ZippedBuffers(c, p) - b
  {
    if b < ZippedBuffers(c, p) {
      if key :| Deletes(c.buffers[b], key) && Holds(p.locks, key, Unmodifiable) {
        assert DeletesKey(c, b, key) && RequiresKey(p, key);
      } else if key :| Deletes(p.buffers[b], key) && Holds(c.locks, key, Unmodifiable) {
        assert DeletesKey(p, b, key) && RequiresKey(c, key);
      } else {
        ReasonOf(c, p, b + 1);
      }
    }
  }

  /* The reason given is a real one: this side deletes a key the predecessor requires, or requires a key it deletes,
     or both lock a key exclusively. */
  lemma ReasonIsReal(c: CommitRecord, p: CommitRecord)
    ensures Dependency(c, p) == Conflict(DeletingRequiredKey) ==>
              exists b: nat, key :: b < |p.buffers| && DeletesKey(c, b, key) && RequiresKey(p, key)
    ensures Dependency(c, p) == Conflict(RequireDeletedKey) ==>
              exists b: nat, key :: b < |c.buffers| && DeletesKey(p, b, key) && RequiresKey(c, key)
    ensures Dependency(c, p) == Conflict(ExclusiveLock) ==> exists key :: LocksKey(c, key) && LocksKey(p, key)
  {
    ReasonOf(c, p, 0);
    if Dependency(c, p) == Conflict(ExclusiveLock) {
      var key :| Holds(c.locks, key, Exclusive) && Holds(p.locks, key, Exclusive);
      assert LocksKey(c, key) && LocksKey(p, key);
    }
  }

  /* Whether two records conflict does not depend on which came first. */
  lemma ConflictIsSymmetric(c: CommitRecord, p: CommitRecord)
    requires |c.buffers| == |p.buffers|
    ensures Dependency(c, p).Conflict? <==> Dependency(p, c).Conflict?
  {
    assert forall b: nat :: b < ZippedBuffers(c, p) ==> (BufferConflict(c, p, b) <==> BufferConflict(p, c, b));
    assert ShareExclusive(c, p) <==> ShareExclusive(p, c);
    if Conflicts(c, p) && !ShareExclusive(c, p) {
      var b: nat :| b < ZippedBuffers(c, p) && BufferConflict(c, p, b);
      assert BufferConflict(p, c, b);
    }
    if Conflicts(p, c) && !ShareExclusive(c, p) {
      var b: nat :| b < ZippedBuffers(p, c) && BufferConflict(p, c, b);
      assert BufferConflict(c, p, b);
    }
  }

  /******* Which puts are listed *******/

  lemma {:induction false} PutsAmongAreOverlaps(c: CommitRecord, p: CommitRecord, b: nat, n: nat, put: DependentPut)
    requires b < ZippedBuffers(c, p) && n <= |c.buffers[b].order|
    ensures put in PutsAmong(c, p, b, n) <==>
            put.at.buffer == b && put.at.key in c.buffers[b].order[..n] && put in PutAt(c, p, put.at)
  {
    if n > 0 {
      PutsAmongAreOverlaps(c, p, b, n - 1, put);
      assert c.buffers[b].order[..n] == c.buffers[b].order[..n - 1] + [c.buffers[b].order[n - 1]];
    }
  }

  /* The order of a valid buffer lists the keys it writes. */
  lemma PutsOfBufferAreOverlaps(c: CommitRecord, p: CommitRecord, b: nat, put: DependentPut)
    requires c.Valid() && b < ZippedBuffers(c, p)
    ensures put in PutsAmong(c, p, b, |c.buffers[b].order|) <==> put.at.buffer == b && put in PutAt(c, p, put.at)
  {
    hide PutsAmong;
    var order := c.buffers[b].order;
    PutsAmongAreOverlaps(c, p, b, |order|, put);
    assert order[..|order|] == order;
    assert c.buffers[b].Valid();
  }

  lemma {:induction false} PutsUpToAreOverlaps(c: CommitRecord, p: CommitRecord, b: nat, put: DependentPut)
    requires c.Valid() && b <= ZippedBuffers(c, p)
    ensures put in PutsUpTo(c, p, b) <==> put.at.buffer < b && put in PutAt(c, p, put.at)
  {
    hide PutsAmong, PutAt;
    if b > 0 {
      PutsUpToAreOverlaps(c, p, b - 1, put);
      PutsOfBufferAreOverlaps(c, p, b - 1, put);
    }
  }

  /* The record puts the key, and the predecessor writes it too, in the same keyspace. */
  predicate PutsKey(c: CommitRecord, at: Location) {
    && at.buffer < |c.buffers| && at.key in c.buffers[at.buffer].entries
    && c.buffers[at.buffer].entries[at.key].Put?
  }

  predicate WritesKey(p: CommitRecord, at: Location) {
    at.buffer < |p.buffers| && at.key in p.buffers[at.buffer].entries
  }

  /* Without a conflict, the dependency lists exactly the puts whose key the predecessor writes too,
     each with the kind of the predecessor's write. */
  lemma DependencyListsOverlappingPuts(c: CommitRecord, p: CommitRecord, at: Location)
    requires c.Valid() && !Dependency(c, p).Conflict?
    ensures var d, both := Dependency(c, p), PutsKey(c, at) && WritesKey(p, at);
            && (d.Independent? ==> !both)
            && (d.DependentPuts? ==>
                  && d.puts != []
                  && (Deleted(at) in d.puts <==> both && p.buffers[at.buffer].entries[at.key] == Delete)
                  && (Inserted(at) in d.puts <==> both && p.buffers[at.buffer].entries[at.key] != Delete))
  {
    PutsUpToAreOverlaps(c, p, ZippedBuffers(c, p), Deleted(at));
    PutsUpToAreOverlaps(c, p, ZippedBuffers(c, p), Inserted(at));
  }

  /******* Applying dependent puts to the reinsert flags *******/

  function ApplyPut(flags: ReinsertFlags, put: DependentPut): (r: ReinsertFlags) {
    flags[put.at := put.Deleted?]
  }

  function ApplyPuts(flags: ReinsertFlags, puts: seq<DependentPut>): (r: ReinsertFlags) {
    if puts == [] then flags
    else ApplyPut(ApplyPuts(flags, puts[..|puts| - 1]), puts[|puts| - 1])
  }

  /* The effect a committed predecessor is meant to have on each flag. */
  function FlagsAfter(flags: ReinsertFlags, c: CommitRecord, p: CommitRecord): (r: ReinsertFlags)
    ensures r.Keys == flags.Keys
  {
    map at | at in flags ::
      if Overlaps(c, p, at) then p.buffers[at.buffer].entries[at.key].Delete? else flags[at]
  }

  /* There is a flag for every Put of the record, and for nothing else. */
  ghost predicate FlagsFor(flags: ReinsertFlags, c: CommitRecord) {
    forall at: Location :: at in flags <==>
      && at.buffer < |c.buffers|
      && at.key in c.buffers[at.buffer].entries
      && c.buffers[at.buffer].entries[at.key].Put?
  }

  lemma {:induction false} ApplyPutsAt(flags: ReinsertFlags, puts: seq<DependentPut>, at: Location)
    requires !(Deleted(at) in puts && Inserted(at) in puts)
    ensures at in ApplyPuts(flags, puts) <==> at in flags || Deleted(at) in puts || Inserted(at) in puts
    ensures Deleted(at) in puts ==> ApplyPuts(flags, puts)[at]
    ensures Inserted(at) in puts ==> !ApplyPuts(flags, puts)[at]
    ensures at in flags && Deleted(at) !in puts && Inserted(at) !in puts ==> ApplyPuts(flags, puts)[at] == flags[at]
  {
    if puts != [] {
      var init, last := puts[..|puts| - 1], puts[|puts| - 1];
      assert puts == init + [last];
      ApplyPutsAt(flags, init, at);
    }
  }

  lemma FlagAfterPuts(flags: ReinsertFlags, c: CommitRecord, p: CommitRecord, at: Location)
    requires c.Valid() && FlagsFor(flags, c)
    ensures var applied := ApplyPuts(flags, PutsUpTo(c, p, ZippedBuffers(c, p)));
            && (at in applied <==> at in flags)
            && (at in flags ==> applied[at] == FlagsAfter(flags, c, p)[at])
  {
    var puts := PutsUpTo(c, p, ZippedBuffers(c, p));
    PutsUpToAreOverlaps(c, p, ZippedBuffers(c, p), Deleted(at));
    PutsUpToAreOverlaps(c, p, ZippedBuffers(c, p), Inserted(at));
    ApplyPutsAt(flags, puts, at);
  }

  /* Storing the listed flags one by one has exactly the intended effect. */
  lemma ApplyingPutsUpdatesFlags(flags: ReinsertFlags, c: CommitRecord, p: CommitRecord)
    requires c.Valid() && FlagsFor(flags, c)
    ensures ApplyPuts(flags, PutsUpTo(c, p, ZippedBuffers(c, p))) == FlagsAfter(flags, c, p)
  {
    var applied, after := ApplyPuts(flags, PutsUpTo(c, p, ZippedBuffers(c, p))), FlagsAfter(flags, c, p);
    forall at: Location
      ensures at in applied <==> at in after
      ensures at in after ==> applied[at] == after[at]
    {
      FlagAfterPuts(flags, c, p, at);
    }
  }

  /* An independent predecessor leaves every flag alone. */
  lemma IndependentKeepsFlags(flags: ReinsertFlags, c: CommitRecord, p: CommitRecord)
    requires c.Valid() && FlagsFor(flags, c) && Dependency(c, p).Independent?
    ensures FlagsAfter(flags, c, p) == flags
  {
    ApplyingPutsUpdatesFlags(flags, c, p);
  }
}
