/**
 * The buffer pool: a bounded cache of pages keyed by an integer hash of
 * the page id, backed by the table files, with the lock manager deciding
 * which transaction may fetch which page.
 */
module BufferPools {
  import opened Wrappers
  import opened Ids
  import opened Types
  import opened Permissions
  import opened LockManagers
  import opened Catalogs
  import opened Tuples

  /** A cached page: its id, its contents and the transaction that dirtied it, if any. */
  datatype Page = Page(id: PageId, data: seq<byte>, dirty: Option<TransactionId>)

  /** `markDirty(true, tid)`. */
  function Dirtied(p: Page, tid: TransactionId): (q: Page)
    ensures q.id == p.id && q.data == p.data && q.dirty == Some(tid)
  {
    p.(dirty := Some(tid))
  }

  /** `markDirty(false, null)`. */
  function Cleaned(p: Page): (q: Page)
    ensures q.id == p.id && q.data == p.data && q.dirty == None
  {
    p.(dirty := None)
  }

  /** `a` is `b` with some entries removed. */
  predicate SubMap(a: map<int, Page>, b: map<int, Page>) {
    forall k :: k in a ==> k in b && a[k] == b[k]
  }

  /** Some element of a non-empty set of keys (the source's choice is random). */
  method AnyOf(keys: set<int>) returns (k: int)
    requires keys != {}
    ensures k in keys
  {
    // Without this witness step the verifier does not see that `keys` has an element.
    if forall x :: x !in keys {
      assert false;
    }
    k :| k in keys;
  }

  /** The page `q` is cached in `m` under its key. */
  predicate ResidentIn(m: map<int, Page>, keyOf: PageId -> int, q: PageId) {
    keyOf(q) in m && m[keyOf(q)].id == q
  }

  /**
   * Part-way through `updateBufferPool`, a cached page was either cached
   * before or is one of the pages already put.
   */
  lemma ResidentWasCachedOrTouched(cur: map<int, Page>, orig: map<int, Page>, touched: seq<Page>, i: nat,
                                   keyOf: PageId -> int, tid: TransactionId, q: PageId)
    requires i <= |touched|
    requires forall k :: k in cur && LastTouched(touched, i, keyOf, k).Some? ==>
      cur[k] == Dirtied(touched[LastTouched(touched, i, keyOf, k).value], tid)
    requires forall k :: k in cur && LastTouched(touched, i, keyOf, k).None? ==>
      k in orig && cur[k] == orig[k]
    requires ResidentIn(cur, keyOf, q)
    ensures ResidentIn(orig, keyOf, q) || exists j :: 0 <= j < i && touched[j].id == q
  {
    var last := LastTouched(touched, i, keyOf, keyOf(q));
    if last.Some? {
      assert touched[last.value].id == q;
    }
  }

  /**
   * One step of `updateBufferPool` keeps its picture of the cache: after
   * the dirtied `touched[i]` is put under its key and nothing else is
   * added, each key still holds the dirtied last touched page with that
   * key, or its original page when no touched page has it.
   */
  lemma PutKeepsLastTouched(pre: map<int, Page>, preImages: map<PageId, seq<byte>>,
                            post: map<int, Page>, postImages: map<PageId, seq<byte>>,
                            orig: map<int, Page>, origImages: map<PageId, seq<byte>>,
                            touched: seq<Page>, i: nat, keyOf: PageId -> int, tid: TransactionId)
    requires i < |touched|
    requires Tracked(pre, preImages, orig, origImages, touched, i, keyOf, tid)
    requires PutEffect(pre, preImages, post, postImages, Dirtied(touched[i], tid), keyOf)
    ensures forall k :: k in post && LastTouched(touched, i + 1, keyOf, k).Some? ==>
      post[k] == Dirtied(touched[LastTouched(touched, i + 1, keyOf, k).value], tid)
    ensures forall k :: k in post && LastTouched(touched, i + 1, keyOf, k).None? ==>
      k in orig && post[k] == orig[k]
  {
    forall k | k in post
      ensures LastTouched(touched, i + 1, keyOf, k).Some? ==>
        post[k] == Dirtied(touched[LastTouched(touched, i + 1, keyOf, k).value], tid)
      ensures LastTouched(touched, i + 1, keyOf, k).None? ==> k in orig && post[k] == orig[k]
    {
      if k != keyOf(touched[i].id) {
        assert k in post - {keyOf(touched[i].id)};
        assert LastTouched(touched, i + 1, keyOf, k) == LastTouched(touched, i, keyOf, k);
      }
    }
  }

  /**
   * What `updateBufferPool` knows after caching the first `i` touched
   * pages, as cache `cur` and images `curImages`, relative to the cache
   * `orig` and images `origImages` it began with. Each key a touched page
   * has holds the dirtied last such page while cached, and that page's
   * contents are on disk once it is evicted. Every other key holds its
   * original page: with the original image while cached, and with the
   * page's contents on disk once evicted. Pages neither cached nor touched
   * keep their images.
   */
  ghost predicate Tracked(cur: map<int, Page>, curImages: map<PageId, seq<byte>>,
                          orig: map<int, Page>, origImages: map<PageId, seq<byte>>,
                          touched: seq<Page>, i: nat, keyOf: PageId -> int, tid: TransactionId)
    requires i <= |touched|
  {
    (forall k :: k in orig ==> keyOf(orig[k].id) == k) &&
    (forall k :: k in cur && LastTouched(touched, i, keyOf, k).Some? ==>
      cur[k] == Dirtied(touched[LastTouched(touched, i, keyOf, k).value], tid)) &&
    (forall k :: k in cur && LastTouched(touched, i, keyOf, k).None? ==> k in orig && cur[k] == orig[k]) &&
    (forall q :: !ResidentIn(orig, keyOf, q) && (forall j :: 0 <= j < i ==> touched[j].id != q) ==>
      ImageIn(curImages, q) == ImageIn(origImages, q)) &&
    (forall k :: k in orig && k !in cur && LastTouched(touched, i, keyOf, k).None? ==>
      ImageIn(curImages, orig[k].id) == orig[k].data) &&
    (forall k :: k !in cur && LastTouched(touched, i, keyOf, k).Some? ==>
      ImageIn(curImages, touched[LastTouched(touched, i, keyOf, k).value].id) ==
      touched[LastTouched(touched, i, keyOf, k).value].data) &&
    (forall k :: k in cur && LastTouched(touched, i, keyOf, k).None? ==>
      ImageIn(curImages, cur[k].id) == ImageIn(origImages, cur[k].id))
  }

  /** The last of the first `n` touched pages sits dirtied under its key. */
  ghost predicate LastCached(cur: map<int, Page>, touched: seq<Page>, n: nat, keyOf: PageId -> int, tid: TransactionId)
    requires 0 < n <= |touched|
  {
    keyOf(touched[n - 1].id) in cur && cur[keyOf(touched[n - 1].id)] == Dirtied(touched[n - 1], tid)
  }

  /**
   * What caching `page` did to cache `pre` and images `preImages`, giving
   * `post` and `postImages`: it now sits under its key and no other key was
   * added, every page that left was written back first, and images changed
   * only for pages that left or were not cached.
   */
  ghost predicate PutEffect(pre: map<int, Page>, preImages: map<PageId, seq<byte>>,
                            post: map<int, Page>, postImages: map<PageId, seq<byte>>,
                            page: Page, keyOf: PageId -> int)
  {
    (forall k :: k in pre ==> keyOf(pre[k].id) == k) &&
    keyOf(page.id) in post && post[keyOf(page.id)] == page &&
    SubMap(post - {keyOf(page.id)}, pre) &&
    (forall k :: k in pre && k !in post ==> ImageIn(postImages, pre[k].id) == pre[k].data) &&
    (forall k :: k in post ==> ImageIn(postImages, post[k].id) == ImageIn(preImages, post[k].id)) &&
    (forall q :: !ResidentIn(pre, keyOf, q) ==> ImageIn(postImages, q) == ImageIn(preImages, q))
  }

  /** Caching the dirtied `touched[i]` as `PutEffect` says keeps `Tracked`. */
  lemma PutKeepsTracked(pre: map<int, Page>, preImages: map<PageId, seq<byte>>,
                        post: map<int, Page>, postImages: map<PageId, seq<byte>>,
                        orig: map<int, Page>, origImages: map<PageId, seq<byte>>,
                        touched: seq<Page>, i: nat, keyOf: PageId -> int, tid: TransactionId)
    requires i < |touched|
    requires Tracked(pre, preImages, orig, origImages, touched, i, keyOf, tid)
    requires PutEffect(pre, preImages, post, postImages, Dirtied(touched[i], tid), keyOf)
    ensures Tracked(post, postImages, orig, origImages, touched, i + 1, keyOf, tid)
  {
    PutKeepsLastTouched(pre, preImages, post, postImages, orig, origImages, touched, i, keyOf, tid);
    PutKeepsUntouchedImages(pre, preImages, post, postImages, orig, origImages, touched, i, keyOf, tid);
    PutKeepsEvictedImages(pre, preImages, post, postImages, orig, origImages, touched, i, keyOf, tid);
    PutKeepsCachedImages(pre, preImages, post, postImages, orig, origImages, touched, i, keyOf, tid);
  }

  /** A page neither originally cached nor touched keeps its original image. */
  lemma PutKeepsUntouchedImages(pre: map<int, Page>, preImages: map<PageId, seq<byte>>,
                                post: map<int, Page>, postImages: map<PageId, seq<byte>>,
                                orig: map<int, Page>, origImages: map<PageId, seq<byte>>,
                                touched: seq<Page>, i: nat, keyOf: PageId -> int, tid: TransactionId)
    requires i < |touched|
    requires Tracked(pre, preImages, orig, origImages, touched, i, keyOf, tid)
    requires PutEffect(pre, preImages, post, postImages, Dirtied(touched[i], tid), keyOf)
    ensures forall q :: !ResidentIn(orig, keyOf, q) && (forall j :: 0 <= j < i + 1 ==> touched[j].id != q) ==>
      ImageIn(postImages, q) == ImageIn(origImages, q)
  {
    forall q | ResidentIn(pre, keyOf, q) ensures ResidentIn(orig, keyOf, q) || exists j :: 0 <= j < i && touched[j].id == q {
      ResidentWasCachedOrTouched(pre, orig, touched, i, keyOf, tid, q);
    }
  }

  /** A key that has left the cache has its last page's contents on disk. */
  lemma PutKeepsEvictedImages(pre: map<int, Page>, preImages: map<PageId, seq<byte>>,
                              post: map<int, Page>, postImages: map<PageId, seq<byte>>,
                              orig: map<int, Page>, origImages: map<PageId, seq<byte>>,
                              touched: seq<Page>, i: nat, keyOf: PageId -> int, tid: TransactionId)
    requires i < |touched|
    requires Tracked(pre, preImages, orig, origImages, touched, i, keyOf, tid)
    requires PutEffect(pre, preImages, post, postImages, Dirtied(touched[i], tid), keyOf)
    ensures forall k :: k in orig && k !in post && LastTouched(touched, i + 1, keyOf, k).None? ==>
      ImageIn(postImages, orig[k].id) == orig[k].data
    ensures forall k :: k !in post && LastTouched(touched, i + 1, keyOf, k).Some? ==>
      ImageIn(postImages, touched[LastTouched(touched, i + 1, keyOf, k).value].id) ==
      touched[LastTouched(touched, i + 1, keyOf, k).value].data
  {
    forall k | k in orig && k !in post && LastTouched(touched, i + 1, keyOf, k).None?
      ensures ImageIn(postImages, orig[k].id) == orig[k].data
    {
      assert LastTouched(touched, i, keyOf, k).None?;
      if k !in pre {
        assert !ResidentIn(pre, keyOf, orig[k].id);
      }
    }
    forall k | k !in post && LastTouched(touched, i + 1, keyOf, k).Some?
      ensures ImageIn(postImages, touched[LastTouched(touched, i + 1, keyOf, k).value].id) ==
              touched[LastTouched(touched, i + 1, keyOf, k).value].data
    {
      assert LastTouched(touched, i + 1, keyOf, k) == LastTouched(touched, i, keyOf, k);
      var j := LastTouched(touched, i, keyOf, k).value;
      if k !in pre {
        assert !ResidentIn(pre, keyOf, touched[j].id);
      } else {
        assert pre[k] == Dirtied(touched[j], tid);
      }
    }
  }

  /** A page still cached under a key no touched page has keeps its original image. */
  lemma PutKeepsCachedImages(pre: map<int, Page>, preImages: map<PageId, seq<byte>>,
                             post: map<int, Page>, postImages: map<PageId, seq<byte>>,
                             orig: map<int, Page>, origImages: map<PageId, seq<byte>>,
                             touched: seq<Page>, i: nat, keyOf: PageId -> int, tid: TransactionId)
    requires i < |touched|
    requires Tracked(pre, preImages, orig, origImages, touched, i, keyOf, tid)
    requires PutEffect(pre, preImages, post, postImages, Dirtied(touched[i], tid), keyOf)
    ensures forall k :: k in post && LastTouched(touched, i + 1, keyOf, k).None? ==>
      ImageIn(postImages, post[k].id) == ImageIn(origImages, post[k].id)
  {
    forall k | k in post && LastTouched(touched, i + 1, keyOf, k).None?
      ensures ImageIn(postImages, post[k].id) == ImageIn(origImages, post[k].id)
    {
      assert LastTouched(touched, i, keyOf, k).None?;
      assert k in post - {keyOf(touched[i].id)};
    }
  }

  /**
   * The position of the last of the first `n` touched pages whose id has
   * cache key `k`: the page `updateBufferPool` leaves under that key.
   */
  function LastTouched(touched: seq<Page>, n: nat, keyOf: PageId -> int, k: int): (r: Option<nat>)
    requires n <= |touched|
    ensures r.Some? ==> r.value < n && keyOf(touched[r.value].id) == k
    ensures r.Some? ==> forall j :: r.value < j < n ==> keyOf(touched[j].id) != k
    ensures r.None? <==> forall j :: 0 <= j < n ==> keyOf(touched[j].id) != k
  {
    if n == 0 then None
    else if keyOf(touched[n - 1].id) == k then Some(n - 1)
    else LastTouched(touched, n - 1, keyOf, k)
  }

  /** A page's image in a map of images (empty for a page never written). */
  function ImageIn(images: map<PageId, seq<byte>>, pid: PageId): seq<byte> {
    if pid in images then images[pid] else []
  }

  /**
   * The table files as the buffer pool sees them: each page id's on-disk
   * image, read and written whole. The logs record the ids read and
   * written, in order.
   */
  class TableFiles {
    var images: map<PageId, seq<byte>>
    var readLog: seq<PageId>
    var writeLog: seq<PageId>

    constructor (images: map<PageId, seq<byte>>)
      ensures this.images == images && readLog == [] && writeLog == []
    {
      this.images := images;
      readLog := [];
      writeLog := [];
    }

    /** The on-disk image of a page (empty for a page never written). */
    function Image(pid: PageId): seq<byte>
      reads this
    {
      ImageIn(images, pid)
    }

    /** `readPage(pid)`: a clean page holding the on-disk image. */
    method ReadPage(pid: PageId) returns (p: Page)
      modifies this
      ensures p == Page(pid, old(Image(pid)), None)
      ensures images == old(images) && readLog == old(readLog) + [pid] && writeLog == old(writeLog)
    {
      p := Page(pid, Image(pid), None);
      readLog := readLog + [pid];
    }

    /** `writePage(p)`: the page's contents become its on-disk image. */
    method WritePage(p: Page)
      modifies this
      ensures Image(p.id) == p.data
      ensures forall q :: q != p.id ==> Image(q) == old(Image(q))
      ensures readLog == old(readLog) && writeLog == old(writeLog) + [p.id]
    {
      images := images[p.id := p.data];
      writeLog := writeLog + [p.id];
    }
  }

  /** `getPage`'s lock request for a permission. */
  function LockKindFor(perm: Permission): (kind: LockType)
    ensures kind == SharedLock <==> perm == ReadOnly
  {
    if perm == ReadOnly then SharedLock else ExclusiveLock
  }

  /**
   * What `getPage` comes to: the page, a refused lock (where the source
   * waits on the page's monitor), or an exception.
   */
  datatype Fetch = Got(page: Page) | Blocked | Failed(error: Exception)

  class BufferPool {
    /** The maximum number of cached pages. */
    const numPages: int
    /** `pid.hashCode()`, the cache key; not assumed injective. */
    const keyOf: PageId -> int
    var pages: map<int, Page>
    const lockManager: LockManager
    const files: TableFiles

    /**
     * Every cached page sits under its own id's key, the cache holds at
     * most `numPages` pages (none when `numPages <= 0`), every clean cached
     * page holds its on-disk image, and the lock table is well formed.
     */
    ghost predicate Valid()
      reads this, lockManager, files
    {
      lockManager.Valid() &&
      (forall k :: k in pages ==> keyOf(pages[k].id) == k) &&
      (|pages| == 0 || |pages| <= numPages) &&
      (forall k :: k in pages && pages[k].dirty.None? ==> pages[k].data == files.Image(pages[k].id))
    }

    /** The page `pid` is cached (under its key). */
    predicate Resident(pid: PageId)
      reads this
    {
      ResidentIn(pages, keyOf, pid)
    }

    /** `new BufferPool(numPages)`, over the given table files and hash function. */
    constructor (numPages: int, keyOf: PageId -> int, files: TableFiles)
      ensures this.numPages == numPages && this.keyOf == keyOf && this.files == files
      ensures pages == map[] && fresh(lockManager) && lockManager.pageLocks == map[]
      ensures Valid()
    {
      this.numPages := numPages;
      this.keyOf := keyOf;
      this.files := files;
      pages := map[];
      lockManager := new LockManager();
    }

    /**
     * `flushPage(pid)`: the page cached under `pid`'s key is written out if
     * it is dirty, then marked clean; it stays cached. With nothing cached
     * under the key, the source dereferences null.
     */
    method FlushPage(pid: PageId) returns (r: Outcome)
      requires Valid()
      modifies this, files
      ensures r.Fail? <==> keyOf(pid) !in old(pages)
      ensures r.Fail? ==> r.error == NullPointer && pages == old(pages) && files.images == old(files.images)
      ensures r.Pass? ==> var p := old(pages)[keyOf(pid)];
        pages == old(pages)[keyOf(pid) := Cleaned(p)] &&
        files.Image(p.id) == p.data &&
        (forall q :: q != p.id ==> files.Image(q) == old(files.Image(q))) &&
        files.writeLog == old(files.writeLog) + (if p.dirty.Some? then [p.id] else [])
      ensures files.readLog == old(files.readLog)
      ensures Valid()
    {
      var key := keyOf(pid);
      if key !in pages {
        return Fail(NullPointer);
      }
      var page := pages[key];
      if page.dirty.Some? {
        files.WritePage(page);
        pages := pages[key := Cleaned(page)];
      } else {
        pages := pages[key := Cleaned(page)];
      }
      return Pass;
    }

    /** `discardPage(pid)`: only `pid`'s key leaves the cache; nothing is written. */
    method DiscardPage(pid: PageId)
      requires Valid()
      modifies this
      ensures pages == old(pages) - {keyOf(pid)}
      ensures !Resident(pid)
      ensures Valid()
    {
      pages := pages - {keyOf(pid)};
    }

    /**
     * `evictPage`: an arbitrary cached page (the source picks one at
     * random) is flushed and discarded, so its on-disk image then holds
     * its contents. With an empty cache, `Random.nextInt(0)` throws.
     */
    method EvictPage() returns (r: Outcome, ghost victim: int)
      requires Valid()
      modifies this, files
      ensures r.Fail? <==> |old(pages)| == 0
      ensures r.Fail? ==> r.error == IllegalArgument && pages == old(pages) && files.images == old(files.images)
      ensures r.Pass? ==> victim in old(pages) && pages == old(pages) - {victim}
      ensures r.Pass? ==> files.Image(old(pages)[victim].id) == old(pages)[victim].data
      ensures r.Pass? ==> forall q :: q != old(pages)[victim].id ==> files.Image(q) == old(files.Image(q))
      ensures files.readLog == old(files.readLog)
      ensures Valid()
    {
      if |pages| == 0 {
        return Fail(IllegalArgument), 0;
      }
      assert |pages.Keys| == |pages|;
      var key := AnyOf(pages.Keys);
      victim := key;
      var evictPid := pages[key].id;
      var f := FlushPage(evictPid);
      DiscardPage(evictPid);
      return Pass, victim;
    }

    /**
     * `flushAllPages`: every cached page is flushed. Afterwards every
     * cached page is clean and on disk, and pages not cached keep their
     * on-disk images.
     */
    method FlushAllPages()
      requires Valid()
      modifies this, files
      ensures pages.Keys == old(pages).Keys
      ensures forall k :: k in pages ==> pages[k] == Cleaned(old(pages)[k])
      ensures forall k :: k in pages ==> files.Image(pages[k].id) == pages[k].data
      ensures forall q :: !old(Resident(q)) ==> files.Image(q) == old(files.Image(q))
      ensures files.readLog == old(files.readLog)
      ensures Valid()
    {
      ghost var before := pages;
      var todo := pages.Keys;
      while todo != {}
        invariant todo <= pages.Keys
        invariant pages.Keys == before.Keys
        invariant forall k :: k in todo ==> pages[k] == before[k]
        invariant forall k :: k in pages && k !in todo ==> pages[k] == Cleaned(before[k])
        invariant forall q :: !old(Resident(q)) ==> files.Image(q) == old(files.Image(q))
        invariant forall q :: keyOf(q) in todo ==> files.Image(q) == old(files.Image(q))
        invariant files.readLog == old(files.readLog)
        invariant Valid()
        decreases |todo|
      {
        var k := AnyOf(todo);
        var p := pages[k];
        assert keyOf(p.id) == k && old(Resident(p.id));
        ghost var pre := pages;
        var r := FlushPage(p.id);
        assert pages == pre[k := Cleaned(p)];
        todo := todo - {k};
      }
    }

    /**
     * Evicts until there is room for one more page: the loop both
     * `getPage` and `updateBufferPool` run before caching a new key.
     * Fails, leaving an empty cache as it was, when there is never room.
     */
    method MakeRoom(key: int) returns (r: Outcome)
      requires Valid() && key !in pages
      modifies this, files
      ensures r.Fail? <==> numPages <= 0
      ensures r.Fail? ==> r.error == IllegalArgument && pages == old(pages) && files.images == old(files.images)
      ensures old(|pages|) < numPages ==> pages == old(pages) && files.images == old(files.images)
      ensures r.Pass? && old(|pages|) >= numPages ==> |pages| == numPages - 1
      ensures r.Pass? ==> |pages| < numPages
      ensures SubMap(pages, old(pages)) && key !in pages
      ensures forall k :: k in old(pages) && k !in pages ==> files.Image(old(pages)[k].id) == old(pages)[k].data
      ensures forall k, q :: k in pages && pages[k].id == q ==> files.Image(q) == old(files.Image(q))
      ensures forall q :: !old(Resident(q)) ==> files.Image(q) == old(files.Image(q))
      ensures files.readLog == old(files.readLog)
      ensures Valid()
    {
      while |pages| >= numPages
        invariant SubMap(pages, old(pages)) && key !in pages
        invariant forall k :: k in old(pages) && k !in pages ==> files.Image(old(pages)[k].id) == old(pages)[k].data
        invariant forall k, q :: k in pages && pages[k].id == q ==> files.Image(q) == old(files.Image(q))
        invariant |pages| <= old(|pages|)
        invariant old(|pages|) < numPages ==> pages == old(pages)
        invariant old(|pages|) >= numPages ==> |pages| >= numPages - 1
        invariant pages == old(pages) ==> files.images == old(files.images)
        invariant forall q :: !old(Resident(q)) ==> files.Image(q) == old(files.Image(q))
        invariant files.readLog == old(files.readLog)
        invariant Valid()
        decreases |pages|
      {
        ghost var before := pages;
        var o, victim := EvictPage();
        if o.Fail? {
          return o;
        }
        assert before[victim] == old(pages)[victim];
        assert |pages| == |before| - 1;
        assert victim !in pages;
      }
      return Pass;
    }

    /**
     * `getPage(tid, pid, perm)`: requests the lock `perm` calls for; once
     * granted, returns the cached page under `pid`'s key, or reads the page
     * from its table's file into the cache, evicting as needed. A table the
     * catalog does not know fails after the lock is taken.
     */
    method GetPage(tid: TransactionId, pid: PageId, perm: Permission, catalog: Catalog) returns (r: Fetch)
      requires Valid()
      modifies this, lockManager, files
      ensures var (granted, table) := Acquire(old(lockManager.pageLocks), pid, Lock(tid, LockKindFor(perm)));
        lockManager.pageLocks == table && (r.Blocked? <==> !granted)
      ensures r.Blocked? ==> pages == old(pages) && files.images == old(files.images) && files.readLog == old(files.readLog)
      ensures !r.Blocked? && keyOf(pid) in old(pages) ==>
        r == Got(old(pages)[keyOf(pid)]) && pages == old(pages) &&
        files.images == old(files.images) && files.readLog == old(files.readLog)
      ensures !r.Blocked? && keyOf(pid) !in old(pages) && catalog.GetDatabaseFile(pid.tableId).Err? ==>
        r == Failed(NoSuchElement) && pages == old(pages) &&
        files.images == old(files.images) && files.readLog == old(files.readLog)
      ensures !r.Blocked? && keyOf(pid) !in old(pages) && catalog.GetDatabaseFile(pid.tableId).Ok? ==>
        if numPages <= 0 then
          r == Failed(IllegalArgument) && pages == old(pages) &&
          files.images == old(files.images) && files.readLog == old(files.readLog)
        else
          r == Got(Page(pid, old(files.Image(pid)), None)) && keyOf(pid) in pages && pages[keyOf(pid)] == r.page &&
          SubMap(pages - {keyOf(pid)}, old(pages)) &&
          |pages| == (if old(|pages|) < numPages then old(|pages|) + 1 else numPages) &&
          (old(|pages|) < numPages ==> pages == old(pages)[keyOf(pid) := r.page] && files.images == old(files.images)) &&
          (forall q :: !old(Resident(q)) ==> files.Image(q) == old(files.Image(q))) &&
          files.readLog == old(files.readLog) + [pid]
      ensures forall k :: k in old(pages) && k !in pages ==> files.Image(old(pages)[k].id) == old(pages)[k].data
      ensures forall k, q :: k in pages && pages[k].id == q ==> files.Image(q) == old(files.Image(q))
      ensures Valid()
    {
      var granted := lockManager.AcquireLock(pid, Lock(tid, LockKindFor(perm)));
      if !granted {
        return Blocked;
      }
      var key := keyOf(pid);
      if key !in pages {
        var dbFile := catalog.GetDatabaseFile(pid.tableId);
        if dbFile.Err? {
          return Failed(dbFile.error);
        }
        r := LoadPage(pid);
        return;
      }
      return Got(pages[key]);
    }

    /**
     * The miss path of `getPage` once the table is known: evict until there
     * is room, then read the page from its file and cache it clean.
     */
    method LoadPage(pid: PageId) returns (r: Fetch)
      requires Valid() && keyOf(pid) !in pages
      modifies this, files
      ensures numPages <= 0 ==>
        r == Failed(IllegalArgument) && pages == old(pages) &&
        files.images == old(files.images) && files.readLog == old(files.readLog)
      ensures numPages > 0 ==>
        r == Got(Page(pid, old(files.Image(pid)), None)) && keyOf(pid) in pages && pages[keyOf(pid)] == r.page &&
        SubMap(pages - {keyOf(pid)}, old(pages)) &&
        |pages| == (if old(|pages|) < numPages then old(|pages|) + 1 else numPages) &&
        (old(|pages|) < numPages ==> pages == old(pages)[keyOf(pid) := r.page] && files.images == old(files.images))
      ensures forall q :: !old(Resident(q)) ==> files.Image(q) == old(files.Image(q))
      ensures numPages > 0 ==> files.readLog == old(files.readLog) + [pid]
      ensures forall k :: k in old(pages) && k !in pages ==> files.Image(old(pages)[k].id) == old(pages)[k].data
      ensures forall k, q :: k in pages && pages[k].id == q ==> files.Image(q) == old(files.Image(q))
      ensures Valid()
    {
      var key := keyOf(pid);
      assert !Resident(pid);
      var room := MakeRoom(key);
      if room.Fail? {
        return Failed(room.error);
      }
      assert forall q :: !old(Resident(q)) ==> files.Image(q) == old(files.Image(q));
      var page := files.ReadPage(pid);
      pages := pages[key := page];
      return Got(page);
    }

    /**
     * One step of `updateBufferPool`: a page is cached under its key,
     * replacing what was there; a new key first makes room.
     */
    method Put(page: Page) returns (r: Outcome)
      requires Valid() && page.dirty.Some?
      modifies this, files
      ensures r.Fail? <==> keyOf(page.id) !in old(pages) && numPages <= 0
      ensures r.Fail? ==> r.error == IllegalArgument && pages == old(pages) && files.images == old(files.images)
      ensures r.Pass? ==> keyOf(page.id) in pages && pages[keyOf(page.id)] == page
      ensures SubMap(pages - {keyOf(page.id)}, old(pages))
      ensures keyOf(page.id) in old(pages) ==> files.images == old(files.images)
      ensures forall k :: k in old(pages) && k !in pages ==> files.Image(old(pages)[k].id) == old(pages)[k].data
      ensures forall k, q :: k in pages && pages[k].id == q ==> files.Image(q) == old(files.Image(q))
      ensures forall q :: !old(Resident(q)) ==> files.Image(q) == old(files.Image(q))
      ensures files.readLog == old(files.readLog)
      ensures Valid()
    {
      var key := keyOf(page.id);
      if key !in pages {
        var room := MakeRoom(key);
        if room.Fail? {
          return room;
        }
      }
      pages := pages[key := page];
      return Pass;
    }

    /**
     * One pass of the `updateBufferPool` loop: caches the dirtied
     * `touched[i]` as `Put` does and keeps `Tracked`.
     */
    method UpdateStep(tid: TransactionId, touched: seq<Page>, i: nat,
                      ghost orig: map<int, Page>, ghost origImages: map<PageId, seq<byte>>) returns (r: Outcome)
      requires Valid() && i < |touched| && Tracked(pages, files.images, orig, origImages, touched, i, keyOf, tid)
      modifies this, files
      ensures r.Fail? <==> numPages <= 0 && keyOf(touched[i].id) !in old(pages)
      ensures r.Fail? ==> r.error == IllegalArgument && pages == old(pages) && files.images == old(files.images)
      ensures r.Pass? ==> numPages > 0 && LastCached(pages, touched, i + 1, keyOf, tid)
      ensures r.Pass? ==> Tracked(pages, files.images, orig, origImages, touched, i + 1, keyOf, tid)
      ensures files.readLog == old(files.readLog)
      ensures Valid()
    {
      assert old(pages) != map[] ==> 0 < |old(pages)| <= numPages;
      r := Put(Dirtied(touched[i], tid));
      if r.Fail? {
        return;
      }
      forall k | k in old(pages) && k !in pages
        ensures ImageIn(files.images, old(pages)[k].id) == old(pages)[k].data
      {
        assert files.Image(old(pages)[k].id) == ImageIn(files.images, old(pages)[k].id);
      }
      forall k | k in pages
        ensures ImageIn(files.images, pages[k].id) == ImageIn(old(files.images), pages[k].id)
      {
        assert files.Image(pages[k].id) == ImageIn(files.images, pages[k].id);
      }
      forall q | !ResidentIn(old(pages), keyOf, q)
        ensures ImageIn(files.images, q) == ImageIn(old(files.images), q)
      {
        assert !old(Resident(q));
        assert files.Image(q) == ImageIn(files.images, q);
      }
      assert PutEffect(old(pages), old(files.images), pages, files.images, Dirtied(touched[i], tid), keyOf);
      PutKeepsTracked(old(pages), old(files.images), pages, files.images, orig, origImages, touched, i, keyOf, tid);
    }

    /**
     * `updateBufferPool(tid, pages)`: each page is marked dirty by `tid`
     * and cached under its key, replacing what was there; a new key first
     * makes room. Afterwards every cached key that some touched page maps
     * to holds the dirtied last such page, every other cached key holds
     * its old page, and every page that left the cache was written back
     * first; only images of pages that were cached or touched can change.
     */
    method UpdateBufferPool(tid: TransactionId, touched: seq<Page>) returns (r: Outcome)
      requires Valid()
      modifies this, files
      ensures r.Fail? <==> numPages <= 0 && touched != []
      ensures r.Fail? ==> r.error == IllegalArgument && pages == old(pages) && files.images == old(files.images)
      ensures r.Pass? && touched != [] ==>
        keyOf(touched[|touched| - 1].id) in pages &&
        pages[keyOf(touched[|touched| - 1].id)] == Dirtied(touched[|touched| - 1], tid)
      ensures r.Pass? ==> forall k :: k in pages && LastTouched(touched, |touched|, keyOf, k).Some? ==>
        pages[k] == Dirtied(touched[LastTouched(touched, |touched|, keyOf, k).value], tid)
      ensures forall k :: k in pages && LastTouched(touched, |touched|, keyOf, k).None? ==>
        k in old(pages) && pages[k] == old(pages)[k]
      ensures forall q :: !old(Resident(q)) && (forall j :: 0 <= j < |touched| ==> touched[j].id != q) ==>
        files.Image(q) == old(files.Image(q))
      ensures forall k :: k in old(pages) && k !in pages && LastTouched(touched, |touched|, keyOf, k).None? ==>
        files.Image(old(pages)[k].id) == old(pages)[k].data
      ensures r.Pass? ==> forall k :: k !in pages && LastTouched(touched, |touched|, keyOf, k).Some? ==>
        files.Image(touched[LastTouched(touched, |touched|, keyOf, k).value].id) ==
        touched[LastTouched(touched, |touched|, keyOf, k).value].data
      ensures forall k, q :: k in pages && LastTouched(touched, |touched|, keyOf, k).None? && pages[k].id == q ==>
        files.Image(q) == old(files.Image(q))
      ensures files.readLog == old(files.readLog)
      ensures Valid()
    {
      for i := 0 to |touched|
        invariant Tracked(pages, files.images, old(pages), old(files.images), touched, i, keyOf, tid)
        invariant i > 0 ==> numPages > 0 && LastCached(pages, touched, i, keyOf, tid)
        invariant i == 0 ==> pages == old(pages) && files.images == old(files.images)
        invariant files.readLog == old(files.readLog)
        invariant Valid()
      {
        r := UpdateStep(tid, touched, i, old(pages), old(files.images));
        if r.Fail? {
          return r;
        }
      }
      return Pass;
    }

    /**
     * `insertTuple(tid, tableId, t)`: the table's file inserts the tuple
     * and returns the pages it changed (`touched` here), which are then
     * cached dirty as `updateBufferPool` does.
     */
    method InsertTuple(tid: TransactionId, tableId: int, catalog: Catalog, touched: seq<Page>) returns (r: Outcome)
      requires Valid()
      modifies this, files
      ensures catalog.GetDatabaseFile(tableId).Err? ==>
        r == Fail(NoSuchElement) && pages == old(pages) && files.images == old(files.images)
      ensures catalog.GetDatabaseFile(tableId).Ok? ==> (r.Fail? <==> numPages <= 0 && touched != [])
      ensures catalog.GetDatabaseFile(tableId).Ok? && r.Fail? ==>
        r.error == IllegalArgument && pages == old(pages) && files.images == old(files.images)
      ensures r.Pass? && touched != [] ==>
        keyOf(touched[|touched| - 1].id) in pages &&
        pages[keyOf(touched[|touched| - 1].id)] == Dirtied(touched[|touched| - 1], tid)
      ensures r.Pass? ==> forall k :: k in pages && LastTouched(touched, |touched|, keyOf, k).Some? ==>
        pages[k] == Dirtied(touched[LastTouched(touched, |touched|, keyOf, k).value], tid)
      ensures forall k :: k in pages && LastTouched(touched, |touched|, keyOf, k).None? ==>
        k in old(pages) && pages[k] == old(pages)[k]
      ensures forall q :: !old(Resident(q)) && (forall j :: 0 <= j < |touched| ==> touched[j].id != q) ==>
        files.Image(q) == old(files.Image(q))
      ensures forall k :: k in old(pages) && k !in pages && LastTouched(touched, |touched|, keyOf, k).None? ==>
        files.Image(old(pages)[k].id) == old(pages)[k].data
      ensures r.Pass? ==> forall k :: k !in pages && LastTouched(touched, |touched|, keyOf, k).Some? ==>
        files.Image(touched[LastTouched(touched, |touched|, keyOf, k).value].id) ==
        touched[LastTouched(touched, |touched|, keyOf, k).value].data
      ensures forall k, q :: k in pages && LastTouched(touched, |touched|, keyOf, k).None? && pages[k].id == q ==>
        files.Image(q) == old(files.Image(q))
      ensures files.readLog == old(files.readLog)
      ensures Valid()
    {
      var dbFile := catalog.GetDatabaseFile(tableId);
      if dbFile.Err? {
        return Fail(dbFile.error);
      }
      r := UpdateBufferPool(tid, touched);
    }

    /**
     * `deleteTuple(tid, t)`: as `insertTuple`, for the table of the page
     * the tuple's RecordId names; a tuple without a RecordId dereferences
     * null.
     */
    method DeleteTuple(tid: TransactionId, t: Tuple, catalog: Catalog, touched: seq<Page>) returns (r: Outcome)
      requires Valid()
      modifies this, files
      ensures t.recordId.None? ==> r == Fail(NullPointer) && pages == old(pages) && files.images == old(files.images)
      ensures t.recordId.Some? && catalog.GetDatabaseFile(t.recordId.value.pageId.tableId).Err? ==>
        r == Fail(NoSuchElement) && pages == old(pages) && files.images == old(files.images)
      ensures t.recordId.Some? && catalog.GetDatabaseFile(t.recordId.value.pageId.tableId).Ok? ==>
        (r.Fail? <==> numPages <= 0 && touched != [])
      ensures t.recordId.Some? && catalog.GetDatabaseFile(t.recordId.value.pageId.tableId).Ok? && r.Fail? ==>
        r.error == IllegalArgument && pages == old(pages) && files.images == old(files.images)
      ensures r.Pass? && touched != [] ==>
        keyOf(touched[|touched| - 1].id) in pages &&
        pages[keyOf(touched[|touched| - 1].id)] == Dirtied(touched[|touched| - 1], tid)
      ensures r.Pass? ==> forall k :: k in pages && LastTouched(touched, |touched|, keyOf, k).Some? ==>
        pages[k] == Dirtied(touched[LastTouched(touched, |touched|, keyOf, k).value], tid)
      ensures forall k :: k in pages && LastTouched(touched, |touched|, keyOf, k).None? ==>
        k in old(pages) && pages[k] == old(pages)[k]
      ensures forall q :: !old(Resident(q)) && (forall j :: 0 <= j < |touched| ==> touched[j].id != q) ==>
        files.Image(q) == old(files.Image(q))
      ensures forall k :: k in old(pages) && k !in pages && LastTouched(touched, |touched|, keyOf, k).None? ==>
        files.Image(old(pages)[k].id) == old(pages)[k].data
      ensures r.Pass? ==> forall k :: k !in pages && LastTouched(touched, |touched|, keyOf, k).Some? ==>
        files.Image(touched[LastTouched(touched, |touched|, keyOf, k).value].id) ==
        touched[LastTouched(touched, |touched|, keyOf, k).value].data
      ensures forall k, q :: k in pages && LastTouched(touched, |touched|, keyOf, k).None? && pages[k].id == q ==>
        files.Image(q) == old(files.Image(q))
      ensures files.readLog == old(files.readLog)
      ensures Valid()
    {
      var rid := t.GetRecordId();
      if rid.None? {
        return Fail(NullPointer);
      }
      r := InsertTuple(tid, rid.value.pageId.tableId, catalog, touched);
    }

    /** `flushPages(tid)`: an empty stub in the source. */
    method FlushPages(tid: TransactionId)
    {
    }

    /**
     * `transactionComplete(tid, commit)`: commit calls the empty
     * `flushPages` and abort does nothing, so either way the only effect
     * is that all of `tid`'s locks are released.
     */
    method TransactionComplete(tid: TransactionId, commit: bool)
      requires Valid()
      modifies lockManager
      ensures lockManager.pageLocks == ReleaseAllOf(old(lockManager.pageLocks), tid)
      ensures forall p :: !Holds(lockManager.pageLocks, p, tid)
      ensures forall p, t :: t != tid ==> (Holds(lockManager.pageLocks, p, t) <==> old(Holds(lockManager.pageLocks, p, t)))
      ensures Valid()
    {
      if commit {
        FlushPages(tid);
      }
      ReleaseAllEffect(lockManager.pageLocks, tid);
      var ok := lockManager.ReleaseAll(tid);
    }

    /** `transactionComplete(tid)`: commits. */
    method CommitTransaction(tid: TransactionId)
      requires Valid()
      modifies lockManager
      ensures lockManager.pageLocks == ReleaseAllOf(old(lockManager.pageLocks), tid)
      ensures Valid()
    {
      TransactionComplete(tid, true);
    }

    /** `releasePage(tid, pid)`: releases `tid`'s lock on `pid`; an unlocked page fails the assertion. */
    method ReleasePage(tid: TransactionId, pid: PageId) returns (r: Outcome)
      requires Valid()
      modifies lockManager
      ensures lockManager.pageLocks == Release(old(lockManager.pageLocks), pid, tid).1
      ensures r.Fail? <==> pid !in old(lockManager.pageLocks)
      ensures r.Fail? ==> r.error == Assertion
      ensures !Holds(lockManager.pageLocks, pid, tid)
      ensures Valid()
    {
      ReleaseEffect(lockManager.pageLocks, pid, tid);
      var res := lockManager.ReleaseLock(pid, tid);
      if res.Err? {
        return Fail(res.error);
      }
      return Pass;
    }

    /** `holdsLock(tid, pid)`. */
    method HoldsLock(tid: TransactionId, pid: PageId) returns (held: bool)
      ensures held == Holds(lockManager.pageLocks, pid, tid)
    {
      held := lockManager.HoldsLock(pid, tid);
    }
  }
}
