/**
 * The buffer pool's page-granular lock table: for each locked page, the
 * list of (transaction, kind) grants in the order they were made. The
 * functions below are the sequential decision rules; the class
 * `LockManager` keeps the table in a mutable field and applies them with
 * the loops the source uses.
 */
module LockManagers {
  import opened Wrappers
  import opened Ids

  datatype LockType = SharedLock | ExclusiveLock

  /** One grant: a transaction and the kind of lock it holds. */
  datatype Lock = Lock(tid: TransactionId, lockType: LockType)

  /** Page -> its grants; a page without grants has no entry. */
  type LockTable = map<PageId, seq<Lock>>

  // ---------------------------------------------------------------------
  // Grant lists

  /** The position of `tid`'s first grant in `ls`, if it has one. */
  function IndexOfTid(ls: seq<Lock>, tid: TransactionId): (r: Option<nat>)
    ensures r.Some? ==> r.value < |ls| && ls[r.value].tid == tid
    ensures r.Some? ==> forall j :: 0 <= j < r.value ==> ls[j].tid != tid
    ensures r.None? <==> forall j :: 0 <= j < |ls| ==> ls[j].tid != tid
  {
    if ls == [] then None
    else if ls[0].tid == tid then Some(0)
    else
      match IndexOfTid(ls[1..], tid)
      case None => None
      case Some(i) => Some(i + 1)
  }

  /** `tid` has a grant in `ls`. */
  predicate InList(ls: seq<Lock>, tid: TransactionId) {
    exists i :: 0 <= i < |ls| && ls[i].tid == tid
  }

  /** `ls` with every grant of `tid` removed, the others in order. */
  function Without(ls: seq<Lock>, tid: TransactionId): (r: seq<Lock>)
    ensures |r| <= |ls|
    ensures forall i :: 0 <= i < |r| ==> r[i] in ls && r[i].tid != tid
    ensures forall i :: 0 <= i < |ls| && ls[i].tid != tid ==> ls[i] in r
  {
    if ls == [] then []
    else if ls[|ls| - 1].tid == tid then Without(ls[..|ls| - 1], tid)
    else Without(ls[..|ls| - 1], tid) + [ls[|ls| - 1]]
  }

  predicate DistinctTids(ls: seq<Lock>) {
    forall i, j :: 0 <= i < j < |ls| ==> ls[i].tid != ls[j].tid
  }

  /** An exclusive grant is the only grant on its page. */
  predicate ExclusiveAlone(ls: seq<Lock>) {
    forall i :: 0 <= i < |ls| && ls[i].lockType == ExclusiveLock ==> |ls| == 1
  }

  predicate WellFormedList(ls: seq<Lock>) {
    ls != [] && DistinctTids(ls) && ExclusiveAlone(ls)
  }

  /**
   * The lock-table invariant: every recorded page has at least one grant,
   * at most one per transaction, and an exclusive grant never shares its
   * page.
   */
  predicate WellFormed(table: LockTable) {
    forall p :: p in table ==> WellFormedList(table[p])
  }

  /** `holdsLock(pid, tid)`. */
  predicate Holds(table: LockTable, pid: PageId, tid: TransactionId) {
    pid in table && InList(table[pid], tid)
  }

  // ---------------------------------------------------------------------
  // acquireLock

  /**
   * `acquireLock(pid, lock)`: whether the grant succeeds and the table
   * afterwards. The requester's first grant on the page decides; a
   * sole shared holder asking for exclusive is upgraded in place; a
   * newcomer joins only with a shared request behind a shared first grant.
   */
  function Acquire(table: LockTable, pid: PageId, lock: Lock): (bool, LockTable)
    requires pid in table ==> table[pid] != []
  {
    if pid !in table then (true, table[pid := [lock]])
    else
      var ls := table[pid];
      match IndexOfTid(ls, lock.tid)
      case Some(i) =>
        if ls[i].lockType == lock.lockType || ls[i].lockType == ExclusiveLock then (true, table)
        else if |ls| == 1 then (true, table[pid := ls[i := ls[i].(lockType := ExclusiveLock)]])
        else (false, table)
      case None =>
        if lock.lockType == SharedLock && ls[0].lockType == SharedLock then (true, table[pid := ls + [lock]])
        else (false, table)
  }

  /** No grant in `ls` is exclusive. */
  predicate AllShared(ls: seq<Lock>) {
    forall i :: 0 <= i < |ls| ==> ls[i].lockType == SharedLock
  }

  /**
   * When a request is compatible with the grants already on the page: the
   * page is free; or the requester already holds exclusive, asks only for
   * shared, or is the sole holder (and may upgrade); or it holds nothing,
   * asks for shared, and nobody holds exclusive.
   */
  predicate Compatible(table: LockTable, pid: PageId, lock: Lock) {
    pid !in table
    || (exists i :: 0 <= i < |table[pid]| && table[pid][i].tid == lock.tid &&
          (table[pid][i].lockType == ExclusiveLock || lock.lockType == SharedLock || |table[pid]| == 1))
    || (!InList(table[pid], lock.tid) && lock.lockType == SharedLock && AllShared(table[pid]))
  }

  /** Under the invariant, the first grant is shared exactly when all grants are. */
  lemma FirstSharedIffAllShared(ls: seq<Lock>)
    requires WellFormedList(ls)
    ensures ls[0].lockType == SharedLock <==> AllShared(ls)
  {
  }

  /** `acquireLock` grants exactly the compatible requests. */
  lemma {:induction false} AcquireGrantsIffCompatible(table: LockTable, pid: PageId, lock: Lock)
    requires WellFormed(table)
    ensures Acquire(table, pid, lock).0 <==> Compatible(table, pid, lock)
  {
    if pid in table {
      var ls := table[pid];
      FirstSharedIffAllShared(ls);
      match IndexOfTid(ls, lock.tid)
      case Some(i) =>
        assert InList(ls, lock.tid);
        assert forall j :: 0 <= j < |ls| && ls[j].tid == lock.tid ==> j == i;
      case None =>
    }
  }

  /** The requester's strongest present grant covers the request. */
  predicate Covers(held: LockType, requested: LockType) {
    held == ExclusiveLock || requested == SharedLock
  }

  /** The requester of `lock` holds a grant on `pid` that covers it. */
  predicate HoldsCovering(table: LockTable, pid: PageId, lock: Lock) {
    pid in table &&
    exists i :: 0 <= i < |table[pid]| && table[pid][i].tid == lock.tid && Covers(table[pid][i].lockType, lock.lockType)
  }

  /**
   * A successful `acquireLock` leaves the requester with a grant on the
   * page that covers the request, and a refused one changes nothing. A
   * request the requester's grant already covers is granted with no
   * change, so an exclusive holder asking for shared keeps its lock.
   */
  lemma AcquireEffect(table: LockTable, pid: PageId, lock: Lock)
    requires WellFormed(table)
    ensures var (granted, after) := Acquire(table, pid, lock);
      (granted ==> HoldsCovering(after, pid, lock)) &&
      (!granted ==> after == table)
    ensures HoldsCovering(table, pid, lock) ==> Acquire(table, pid, lock) == (true, table)
  {
    var (granted, after) := Acquire(table, pid, lock);
    if HoldsCovering(table, pid, lock) {
      var ls := table[pid];
      var j :| 0 <= j < |ls| && ls[j].tid == lock.tid && Covers(ls[j].lockType, lock.lockType);
      assert IndexOfTid(ls, lock.tid) == Some(j);
    }
    if pid !in table {
      assert after[pid][0] == lock;
    } else if granted {
      match IndexOfTid(table[pid], lock.tid)
      case Some(i) =>
        assert after[pid][i].tid == lock.tid && Covers(after[pid][i].lockType, lock.lockType);
      case None =>
        assert after[pid][|table[pid]|] == lock;
    }
  }

  /**
   * `acquireLock` touches only the requested page, and on that page only
   * the requester's grant: every other transaction keeps exactly the
   * grants it had, in the same order.
   */
  lemma AcquireKeepsOthers(table: LockTable, pid: PageId, lock: Lock)
    requires WellFormed(table)
    ensures var after := Acquire(table, pid, lock).1;
      (forall p :: p != pid ==> (p in after <==> p in table) && (p in table ==> after[p] == table[p])) &&
      pid in after &&
      (pid in table ==> Without(after[pid], lock.tid) == Without(table[pid], lock.tid))
  {
    var after := Acquire(table, pid, lock).1;
    if pid in table {
      var ls := table[pid];
      match IndexOfTid(ls, lock.tid)
      case Some(i) =>
        if !(ls[i].lockType == lock.lockType || ls[i].lockType == ExclusiveLock) && |ls| == 1 {
          assert after[pid] == [ls[0].(lockType := ExclusiveLock)];
          assert ls == [ls[0]];
          assert Without(ls[..0], lock.tid) == [];
        }
      case None =>
        if lock.lockType == SharedLock && ls[0].lockType == SharedLock {
          assert (ls + [lock])[..|ls|] == ls;
        }
    }
  }

  /** `acquireLock` preserves the lock-table invariant. */
  lemma AcquirePreservesWellFormed(table: LockTable, pid: PageId, lock: Lock)
    requires WellFormed(table)
    ensures WellFormed(Acquire(table, pid, lock).1)
  {
    var after := Acquire(table, pid, lock).1;
    if pid in table {
      var ls := table[pid];
      FirstSharedIffAllShared(ls);
      match IndexOfTid(ls, lock.tid)
      case Some(i) =>
      case None =>
        if lock.lockType == SharedLock && ls[0].lockType == SharedLock {
          assert WellFormedList(ls + [lock]);
        }
    }
  }

  /**
   * A concrete run of the compatibility rules: two readers share a page,
   * a writer is then refused, and a sole reader may upgrade.
   */
  lemma SharedThenExclusiveScenario(pid: PageId, t1: TransactionId, t2: TransactionId)
    requires t1 != t2
    ensures var a1 := map[pid := [Lock(t1, SharedLock)]];
      var a2 := map[pid := [Lock(t1, SharedLock), Lock(t2, SharedLock)]];
      Acquire(map[], pid, Lock(t1, SharedLock)) == (true, a1) &&
      Acquire(a1, pid, Lock(t2, SharedLock)) == (true, a2) &&
      Acquire(a2, pid, Lock(t2, ExclusiveLock)) == (false, a2) &&
      Acquire(a1, pid, Lock(t1, ExclusiveLock)) == (true, map[pid := [Lock(t1, ExclusiveLock)]])
  {
    var one := [Lock(t1, SharedLock)];
    var two := [Lock(t1, SharedLock), Lock(t2, SharedLock)];
    assert one[1..] == [];
    assert IndexOfTid(one, t2) == None;
    assert one + [Lock(t2, SharedLock)] == two;
    assert two[1..] == [Lock(t2, SharedLock)];
    assert IndexOfTid(two, t2) == Some(1);
    assert IndexOfTid(one, t1) == Some(0);
    assert map[pid := one][pid := one + [Lock(t2, SharedLock)]] == map[pid := two];
    assert one[0 := Lock(t1, ExclusiveLock)] == [Lock(t1, ExclusiveLock)];
    assert map[pid := one][pid := [Lock(t1, ExclusiveLock)]] == map[pid := [Lock(t1, ExclusiveLock)]];
  }

  // ---------------------------------------------------------------------
  // releaseLock(pid, tid)

  /**
   * `releaseLock(pid, tid)`: the assertion that the page is locked fails
   * on a page without grants; otherwise `tid`'s first grant is removed
   * (and the page's entry with it once empty) and the result says whether
   * there was one.
   */
  function Release(table: LockTable, pid: PageId, tid: TransactionId): (Result<bool>, LockTable) {
    if pid !in table then (Err(Assertion), table)
    else
      var ls := table[pid];
      match IndexOfTid(ls, tid)
      case None => (Ok(false), table)
      case Some(i) =>
        var rest := ls[..i] + ls[i + 1..];
        (Ok(true), if rest == [] then table - {pid} else table[pid := rest])
  }

  /** Removing element `i < n` of `ls[..n] + [ls[n]]` commutes with appending `ls[n]`. */
  lemma RemoveBeforeLast<T>(ls: seq<T>, i: nat)
    requires i < |ls| - 1
    ensures ls[..i] + ls[i + 1..] == (ls[..|ls| - 1][..i] + ls[..|ls| - 1][i + 1..]) + [ls[|ls| - 1]]
  {
    var n := |ls| - 1;
    var init := ls[..n];
    var tail := init[i + 1..] + [ls[n]];
    assert |ls[i + 1..]| == |tail|;
    forall k | 0 <= k < n - i ensures ls[i + 1..][k] == tail[k] {
      if k < n - i - 1 {
        assert tail[k] == init[i + 1 + k];
      }
    }
    assert ls[i + 1..] == tail;
    assert ls[..i] == init[..i];
  }

  /** A prefix of a list with distinct transactions has distinct transactions. */
  lemma DistinctPrefix(ls: seq<Lock>, n: nat)
    requires DistinctTids(ls) && n <= |ls|
    ensures DistinctTids(ls[..n])
  {
    var init := ls[..n];
    forall a, b | 0 <= a < b < n ensures init[a].tid != init[b].tid {
      assert init[a] == ls[a] && init[b] == ls[b];
    }
  }

  /** With distinct transactions, removing `tid`'s first grant removes all of them. */
  lemma {:induction false} RemoveFirstIsWithout(ls: seq<Lock>, tid: TransactionId, i: nat)
    requires DistinctTids(ls)
    requires i < |ls| && ls[i].tid == tid
    ensures ls[..i] + ls[i + 1..] == Without(ls, tid)
    decreases |ls|
  {
    var n := |ls| - 1;
    var init := ls[..n];
    if i == n {
      assert !InList(init, tid) by {
        forall j | 0 <= j < n ensures init[j].tid != tid {
          assert init[j] == ls[j];
        }
      }
      NotInListWithout(init, tid);
      assert ls[..i] + ls[i + 1..] == init;
    } else {
      assert ls[n].tid != tid;
      DistinctPrefix(ls, n);
      assert init[i] == ls[i];
      RemoveFirstIsWithout(init, tid, i);
      RemoveBeforeLast(ls, i);
    }
  }

  /** Removing a transaction without grants changes nothing. */
  lemma {:induction false} NotInListWithout(ls: seq<Lock>, tid: TransactionId)
    requires !InList(ls, tid)
    ensures Without(ls, tid) == ls
    decreases |ls|
  {
    if ls != [] {
      var n := |ls| - 1;
      assert !InList(ls[..n], tid) by {
        forall j | 0 <= j < n ensures ls[..n][j].tid != tid {
          assert ls[..n][j] == ls[j];
        }
      }
      NotInListWithout(ls[..n], tid);
      assert ls[..n] + [ls[n]] == ls;
    }
  }

  /** Dropping grants keeps the transactions of a grant list distinct. */
  lemma {:induction false} WithoutKeepsDistinct(ls: seq<Lock>, tid: TransactionId)
    requires DistinctTids(ls)
    ensures DistinctTids(Without(ls, tid))
    decreases |ls|
  {
    if ls != [] {
      var n := |ls| - 1;
      var init := ls[..n];
      assert DistinctTids(init);
      WithoutKeepsDistinct(init, tid);
      if ls[n].tid != tid {
        var r := Without(ls, tid);
        assert r == Without(init, tid) + [ls[n]];
        forall i | 0 <= i < |r| - 1 ensures r[i].tid != ls[n].tid {
          assert r[i] in init;
        }
      }
    }
  }

  /** Dropping grants keeps the invariant of a grant list (when some remain). */
  lemma WithoutKeepsWellFormed(ls: seq<Lock>, tid: TransactionId)
    requires WellFormedList(ls)
    ensures DistinctTids(Without(ls, tid)) && ExclusiveAlone(Without(ls, tid))
  {
    WithoutKeepsDistinct(ls, tid);
    var r := Without(ls, tid);
    if |ls| == 1 {
      assert ls[..0] == [];
      assert r == [] || r == ls;
    } else {
      forall i | 0 <= i < |r| ensures r[i].lockType == SharedLock {
        assert r[i] in ls;
      }
    }
  }

  /**
   * `releaseLock(pid, tid)` preserves the invariant and removes exactly
   * `tid`'s grant: afterwards `tid` holds nothing on the page and every
   * other grant on every page is as before.
   */
  lemma ReleaseEffect(table: LockTable, pid: PageId, tid: TransactionId)
    requires WellFormed(table)
    ensures var (r, after) := Release(table, pid, tid);
      WellFormed(after) &&
      (r == Err(Assertion) <==> pid !in table) &&
      (r == Ok(true) <==> Holds(table, pid, tid)) &&
      !Holds(after, pid, tid) &&
      (forall p :: p != pid ==> (p in after <==> p in table) && (p in table ==> after[p] == table[p])) &&
      (pid in table ==> (pid in after ==> after[pid] == Without(table[pid], tid)) &&
                        (pid !in after ==> Without(table[pid], tid) == []))
  {
    var (r, after) := Release(table, pid, tid);
    if pid in table {
      var ls := table[pid];
      match IndexOfTid(ls, tid)
      case None =>
        NotInListWithout(ls, tid);
      case Some(i) =>
        RemoveFirstIsWithout(ls, tid, i);
        WithoutKeepsWellFormed(ls, tid);
        assert InList(ls, tid);
    }
  }

  // ---------------------------------------------------------------------
  // releaseLock(tid)

  /** `releaseLock(tid)`: every grant of `tid` removed, emptied pages dropped. */
  function ReleaseAllOf(table: LockTable, tid: TransactionId): LockTable {
    map p | p in table && Without(table[p], tid) != [] :: Without(table[p], tid)
  }

  /** After `releaseLock(tid)` the transaction holds nothing, and everyone else's grants stand. */
  lemma ReleaseAllEffect(table: LockTable, tid: TransactionId)
    requires WellFormed(table)
    ensures var after := ReleaseAllOf(table, tid);
      WellFormed(after) &&
      (forall p :: !Holds(after, p, tid)) &&
      (forall p, t :: t != tid ==> (Holds(after, p, t) <==> Holds(table, p, t)))
  {
    var after := ReleaseAllOf(table, tid);
    forall p | p in after ensures WellFormedList(after[p]) {
      WithoutKeepsWellFormed(table[p], tid);
    }
    forall p, t | t != tid ensures Holds(after, p, t) <==> Holds(table, p, t) {
      if Holds(table, p, t) {
        var i :| 0 <= i < |table[p]| && table[p][i].tid == t;
        assert table[p][i] in Without(table[p], tid);
        var j :| 0 <= j < |Without(table[p], tid)| && Without(table[p], tid)[j] == table[p][i];
        assert after[p][j].tid == t;
      }
      if Holds(after, p, t) {
        var j :| 0 <= j < |after[p]| && after[p][j].tid == t;
        assert after[p][j] in table[p];
      }
    }
  }

  /**
   * The table part-way through `releaseLock(tid)`: the pages in `done`
   * have been released, the others are as they were.
   */
  function PartlyReleased(table: LockTable, tid: TransactionId, done: set<PageId>): LockTable {
    map p | p in table && (p !in done || Without(table[p], tid) != []) ::
      if p in done then Without(table[p], tid) else table[p]
  }

  /** Before the first page and after the last. */
  lemma PartlyReleasedEnds(table: LockTable, tid: TransactionId)
    requires WellFormed(table)
    ensures PartlyReleased(table, tid, {}) == table
    ensures PartlyReleased(table, tid, table.Keys) == ReleaseAllOf(table, tid)
  {
    var none := PartlyReleased(table, tid, {});
    assert forall q :: q in none <==> q in table;
  }

  /** Every partly released table keeps the invariant. */
  lemma PartlyReleasedWellFormed(table: LockTable, tid: TransactionId, done: set<PageId>)
    requires WellFormed(table)
    ensures WellFormed(PartlyReleased(table, tid, done))
  {
    var cur := PartlyReleased(table, tid, done);
    forall p | p in cur ensures WellFormedList(cur[p]) {
      if p in done {
        WithoutKeepsWellFormed(table[p], tid);
      }
    }
  }

  /** Releasing one more page from which `tid` holds nothing changes nothing. */
  lemma PartlyReleasedSkip(table: LockTable, tid: TransactionId, done: set<PageId>, p: PageId)
    requires WellFormed(table) && p in table && p !in done && !InList(table[p], tid)
    ensures PartlyReleased(table, tid, done) == PartlyReleased(table, tid, done + {p})
  {
    NotInListWithout(table[p], tid);
    var cur := PartlyReleased(table, tid, done);
    var next := PartlyReleased(table, tid, done + {p});
    assert forall q :: q in cur <==> q in next;
    assert forall q :: q in cur ==> cur[q] == next[q];
  }

  /** Marking one more page released replaces its grants by the others' grants, or drops it. */
  lemma PartlyReleasedAdd(table: LockTable, tid: TransactionId, done: set<PageId>, p: PageId)
    requires p in table && p !in done
    ensures var cur := PartlyReleased(table, tid, done);
      var w := Without(table[p], tid);
      p in cur && cur[p] == table[p] &&
      PartlyReleased(table, tid, done + {p}) == if w == [] then cur - {p} else cur[p := w]
  {
    var cur := PartlyReleased(table, tid, done);
    var next := PartlyReleased(table, tid, done + {p});
    var w := Without(table[p], tid);
    var after := if w == [] then cur - {p} else cur[p := w];
    forall q ensures (q in after <==> q in next) && (q in after ==> after[q] == next[q]) {
      if q != p {
        assert (q in done + {p}) == (q in done);
      }
    }
    assert after == next;
  }

  /** Releasing `tid`'s grant on one more page: the step the loop of `releaseLock(tid)` takes. */
  lemma PartlyReleasedStep(table: LockTable, tid: TransactionId, done: set<PageId>, p: PageId, i: nat)
    requires WellFormed(table) && p in table && p !in done
    requires i < |table[p]| && table[p][i].tid == tid && IndexOfTid(table[p], tid) == Some(i)
    ensures Release(PartlyReleased(table, tid, done), p, tid).1 == PartlyReleased(table, tid, done + {p})
  {
    PartlyReleasedAdd(table, tid, done, p);
    RemoveFirstIsWithout(table[p], tid, i);
  }

  // ---------------------------------------------------------------------
  // The mutable lock table

  class LockManager {
    var pageLocks: LockTable

    ghost predicate Valid()
      reads this
    {
      WellFormed(pageLocks)
    }

    constructor ()
      ensures pageLocks == map[] && Valid()
    {
      pageLocks := map[];
    }

    /**
     * `acquireLock(pid, lock)`: scans the page's grants for the
     * requester's, then applies the rule its kind selects. Never blocks.
     */
    method AcquireLock(pid: PageId, lock: Lock) returns (granted: bool)
      requires Valid()
      modifies this
      ensures (granted, pageLocks) == Acquire(old(pageLocks), pid, lock)
      ensures Valid()
    {
      AcquirePreservesWellFormed(pageLocks, pid, lock);
      if pid !in pageLocks {
        pageLocks := pageLocks[pid := [lock]];
        return true;
      }
      var locks := pageLocks[pid];
      var i := 0;
      while i < |locks|
        invariant 0 <= i <= |locks|
        invariant forall j :: 0 <= j < i ==> locks[j].tid != lock.tid
      {
        var l := locks[i];
        if l.tid == lock.tid {
          assert IndexOfTid(locks, lock.tid) == Some(i);
          if l.lockType == lock.lockType {
            return true;
          } else if l.lockType == ExclusiveLock {
            return true;
          } else {
            if |locks| == 1 {
              pageLocks := pageLocks[pid := locks[i := l.(lockType := ExclusiveLock)]];
              return true;
            }
            return false;
          }
        }
        i := i + 1;
      }
      if lock.lockType == SharedLock && locks[0].lockType == SharedLock {
        pageLocks := pageLocks[pid := locks + [lock]];
        return true;
      }
      return false;
    }

    /** `holdsLock(pid, tid)`: a read-only scan of the page's grants. */
    method HoldsLock(pid: PageId, tid: TransactionId) returns (held: bool)
      ensures held == Holds(pageLocks, pid, tid)
    {
      if pid !in pageLocks {
        return false;
      }
      var locks := pageLocks[pid];
      for i := 0 to |locks|
        invariant forall j :: 0 <= j < i ==> locks[j].tid != tid
      {
        if locks[i].tid == tid {
          return true;
        }
      }
      return false;
    }

    /** `releaseLock(pid, tid)`. */
    method ReleaseLock(pid: PageId, tid: TransactionId) returns (r: Result<bool>)
      requires Valid()
      modifies this
      ensures (r, pageLocks) == Release(old(pageLocks), pid, tid)
      ensures Valid()
    {
      if pid !in pageLocks {
        return Err(Assertion);
      }
      var locks := pageLocks[pid];
      for i := 0 to |locks|
        invariant forall j :: 0 <= j < i ==> locks[j].tid != tid
      {
        if locks[i].tid == tid {
          assert IndexOfTid(locks, tid) == Some(i);
          var rest := locks[..i] + locks[i + 1..];
          RemoveFirstIsWithout(locks, tid, i);
          WithoutKeepsWellFormed(locks, tid);
          if |rest| == 0 {
            pageLocks := pageLocks - {pid};
          } else {
            pageLocks := pageLocks[pid := rest];
          }
          return Ok(true);
        }
      }
      return Ok(false);
    }

    /**
     * `releaseLock(tid)`: for each locked page on which `tid` holds a
     * grant, release it. Each inner release succeeds, since the page is
     * locked and `tid` holds a grant on it, so the result is always true.
     */
    method ReleaseAll(tid: TransactionId) returns (ok: bool)
      requires Valid()
      modifies this
      ensures ok
      ensures pageLocks == ReleaseAllOf(old(pageLocks), tid)
      ensures Valid()
    {
      ghost var table := pageLocks;
      var todo := pageLocks.Keys;
      PartlyReleasedEnds(table, tid);
      assert table.Keys - todo == {};
      while todo != {}
        invariant todo <= table.Keys
        invariant pageLocks == PartlyReleased(table, tid, table.Keys - todo)
        invariant Valid()
        decreases |todo|
      {
        var p :| p in todo;
        ghost var done := table.Keys - todo;
        PartlyReleasedWellFormed(table, tid, done + {p});
        assert pageLocks[p] == table[p];
        var held := HoldsLock(p, tid);
        if held {
          PartlyReleasedStep(table, tid, done, p, IndexOfTid(table[p], tid).value);
          var res := ReleaseLock(p, tid);
        } else {
          PartlyReleasedSkip(table, tid, done, p);
        }
        todo := todo - {p};
        assert table.Keys - todo == done + {p};
      }
      assert table.Keys - todo == table.Keys;
      return true;
    }
  }
}
