/**
 The pager: a write-back cache of pages over a flat file.

 The cache's entries are objects, as callers keep them and write through them.
 */
module Pager {
  import opened Bytes
  import opened Sequences
  import Lru

  type PageData = seq<Byte>

  const ZERO_PAGE: PageData := seq(PAGE_SIZE, _ => 0)

  class CacheEntry {
    const pageNum: nat
    var data: PageData
    var dirty: bool

    constructor (pageNum: nat, data: PageData)
      ensures this.pageNum == pageNum && this.data == data && dirty
    {
      this.pageNum, this.data, dirty := pageNum, data, true;
    }
  }

  function Nums(list: seq<CacheEntry>): (r: seq<nat>)
    ensures |r| == |list| && forall i {:trigger r[i]} | 0 <= i < |r| :: r[i] == list[i].pageNum
  {
    seq(|list|, i requires 0 <= i < |list| => list[i].pageNum)
  }

  // list without the entry e, as std::list::remove leaves it.
  function Removed(list: seq<CacheEntry>, e: CacheEntry): seq<CacheEntry> {
    if list == [] then []
    else if list[0] == e then Removed(list[1..], e)
    else [list[0]] + Removed(list[1..], e)
  }

  // The list holds the entries of the map, each page once.
  ghost predicate Listed(list: seq<CacheEntry>, pageMap: map<nat, CacheEntry>) {
    && (forall i | 0 <= i < |list| :: list[i].pageNum in pageMap && pageMap[list[i].pageNum] == list[i])
    && (forall n | n in pageMap :: pageMap[n].pageNum == n)
    && |pageMap| == |list|
    && Distinct(Nums(list))
  }

  lemma {:induction false} RemovedNums(list: seq<CacheEntry>, e: CacheEntry)
    requires forall i | 0 <= i < |list| && list[i].pageNum == e.pageNum :: list[i] == e
    ensures Nums(Removed(list, e)) == Lru.Without(Nums(list), e.pageNum)
  {
    if list != [] {
      var rest := list[1..];
      assert Nums(list)[1..] == Nums(rest);
      RemovedNums(rest, e);
      var r := Removed(rest, e);
      assert Nums([list[0]] + r) == [list[0].pageNum] + Nums(r);
    }
  }

  lemma {:induction false} RemovedFrom(list: seq<CacheEntry>, e: CacheEntry, i: nat)
    requires i < |Removed(list, e)|
    ensures Removed(list, e)[i] in list
  {
    if list[0] == e {
      RemovedFrom(list[1..], e, i);
    } else if i > 0 {
      RemovedFrom(list[1..], e, i - 1);
    }
  }

  lemma ListedRemove(list: seq<CacheEntry>, pageMap: map<nat, CacheEntry>, n: nat)
    requires Listed(list, pageMap) && n in pageMap
    ensures pageMap[n].pageNum == n
    ensures Listed(Removed(list, pageMap[n]), pageMap - {n})
    ensures Nums(Removed(list, pageMap[n])) == Lru.Without(Nums(list), n)
  {
    var nums := Nums(list);
    ListedPages(list, pageMap);
    var at :| 0 <= at < |list| && nums[at] == n;
    var e := pageMap[n];
    assert e == list[at];
    var rest := Removed(list, e);
    RemovedNums(list, e);
    Lru.WithoutDistinct(nums, n);
    Lru.WithoutIn(nums, n);
    Lru.WithoutAt(nums, at);
    MapWithout(pageMap, n);
    forall i | 0 <= i < |rest| ensures rest[i].pageNum in pageMap - {n} && pageMap[rest[i].pageNum] == rest[i] {
      RemovedFrom(list, e, i);
      assert Nums(rest)[i] != n;
    }
  }

  lemma MapWithout(pageMap: map<nat, CacheEntry>, n: nat)
    requires n in pageMap
    ensures |pageMap - {n}| == |pageMap| - 1
  {
    assert (pageMap - {n}).Keys == pageMap.Keys - {n};
    assert |pageMap.Keys| == |pageMap| && |(pageMap - {n}).Keys| == |pageMap - {n}|;
  }

  lemma ListedMove(list: seq<CacheEntry>, pageMap: map<nat, CacheEntry>, n: nat)
    requires Listed(list, pageMap) && n in pageMap
    ensures var moved := [pageMap[n]] + Removed(list, pageMap[n]);
            Listed(moved, pageMap) && Nums(moved) == [n] + Lru.Without(Nums(list), n)
  {
    ListedRemove(list, pageMap, n);
    ListedAdd(Removed(list, pageMap[n]), pageMap - {n}, pageMap[n]);
    assert (pageMap - {n})[n := pageMap[n]] == pageMap;
  }

  lemma ListedDrop(list: seq<CacheEntry>, pageMap: map<nat, CacheEntry>)
    requires Listed(list, pageMap) && list != []
    ensures var last := |list| - 1;
            Listed(list[..last], pageMap - {list[last].pageNum}) && Nums(list[..last]) == Nums(list)[..last]
  {
    var last := |list| - 1;
    var n := list[last].pageNum;
    var nums, rest := Nums(list), list[..last];
    assert nums[last] == n;
    assert Nums(rest) == nums[..last];
    MapWithout(pageMap, n);
    forall i | 0 <= i < last ensures rest[i].pageNum in pageMap - {n} && pageMap[rest[i].pageNum] == rest[i] {
      assert nums[i] != nums[last];
      assert rest[i] == list[i];
    }
  }

  lemma ListedAdd(list: seq<CacheEntry>, pageMap: map<nat, CacheEntry>, e: CacheEntry)
    requires Listed(list, pageMap) && e.pageNum !in pageMap
    ensures Listed([e] + list, pageMap[e.pageNum := e]) && Nums([e] + list) == [e.pageNum] + Nums(list)
  {
    assert Nums([e] + list) == [e.pageNum] + Nums(list);
  }

  // The list names exactly the map's pages.
  lemma ListedPages(list: seq<CacheEntry>, pageMap: map<nat, CacheEntry>)
    requires Listed(list, pageMap)
    ensures forall n :: n in Nums(list) <==> n in pageMap
  {
    var named := set n | n in Nums(list);
    DistinctSize(Nums(list), named);
    forall n | n in named ensures n in pageMap.Keys {
      var i :| 0 <= i < |Nums(list)| && Nums(list)[i] == n;
      assert list[i].pageNum in pageMap;
    }
    assert |pageMap.Keys| == |pageMap|;
    SameSize(named, pageMap.Keys);
    forall n ensures n in Nums(list) <==> n in pageMap {
      assert n in Nums(list) <==> n in named;
    }
  }

  lemma ListedPage(list: seq<CacheEntry>, pageMap: map<nat, CacheEntry>, n: nat)
    requires Listed(list, pageMap)
    ensures n in Nums(list) <==> n in pageMap
  {
    ListedPages(list, pageMap);
  }

  lemma SameSize(a: set<nat>, b: set<nat>)
    requires a <= b && |a| == |b|
    ensures a == b
  {
    assert b == a + (b - a);
    assert |b - a| == 0;
  }

  class PageCache {
    const maxPages: nat
    var pageMap: map<nat, CacheEntry>
    var lruList: seq<CacheEntry>

    ghost predicate Valid()
      reads this
    {
      Listed(lruList, pageMap) && (|lruList| <= maxPages || |lruList| == 1)
    }

    // The cached page numbers, the most recent first.
    ghost function Order(): seq<nat>
      reads this
    {
      Nums(lruList)
    }

    constructor (maxPages: nat)
      ensures Valid() && this.maxPages == maxPages && Order() == [] && pageMap == map[]
    {
      this.maxPages, pageMap, lruList := maxPages, map[], [];
    }

    // The found entry moves to the front; null if there is none.
    method GetPage(n: nat) returns (entry: CacheEntry?)
      requires Valid()
      modifies this
      ensures Valid() && pageMap == old(pageMap)
      ensures entry == null <==> n !in pageMap
      ensures entry == null ==> lruList == old(lruList)
      ensures entry != null ==> entry == pageMap[n] && Order() == Lru.Touch(maxPages, old(Order()), n)
    {
      if n in pageMap {
        ListedMove(lruList, pageMap, n);
        ListedPage(lruList, pageMap, n);
        entry := pageMap[n];
        lruList := [entry] + Removed(lruList, entry);
        return;
      }
      return null;
    }

    // The least recent entry leaves; null if there is none.
    method Evict() returns (entry: CacheEntry?)
      requires Valid()
      modifies this
      ensures Valid()
      ensures old(lruList) == [] ==> entry == null && pageMap == old(pageMap) && lruList == []
      ensures old(lruList) != [] ==>
                && entry == old(lruList)[|old(lruList)| - 1]
                && lruList == old(lruList)[..|old(lruList)| - 1]
                && entry.pageNum in old(pageMap) && old(pageMap)[entry.pageNum] == entry
                && pageMap == old(pageMap) - {entry.pageNum}
    {
      if lruList == [] {
        return null;
      }
      ListedDrop(lruList, pageMap);
      entry := lruList[|lruList| - 1];
      pageMap := pageMap - {entry.pageNum};
      lruList := lruList[..|lruList| - 1];
    }

    // A full cache first evicts its least recent entry, which the caller has to write back.
    method AddPage(page: CacheEntry) returns (evicted: CacheEntry?)
      requires Valid() && page.pageNum !in pageMap
      modifies this
      ensures Valid()
      ensures evicted != null <==> |old(pageMap)| >= maxPages && old(pageMap) != map[]
      ensures evicted != null ==> evicted == old(lruList)[|old(lruList)| - 1]
      ensures Order() == Lru.Touch(maxPages, old(Order()), page.pageNum)
      ensures evicted == null ==> pageMap == old(pageMap)[page.pageNum := page]
      ensures evicted != null ==>
                && evicted.pageNum in old(pageMap) && old(pageMap)[evicted.pageNum] == evicted
                && pageMap == (old(pageMap) - {evicted.pageNum})[page.pageNum := page]
    {
      ListedPage(lruList, pageMap, page.pageNum);
      evicted := null;
      if |pageMap| >= maxPages {
        if lruList != [] {
          ListedDrop(lruList, pageMap);
        }
        evicted := Evict();
      }
      ListedAdd(lruList, pageMap, page);
      pageMap := pageMap[page.pageNum := page];
      lruList := [page] + lruList;
    }
  }

  // One more than the largest page number asked for.
  function PagesUsed(trace: seq<nat>): (r: nat) {
    if trace == [] then 0
    else
      var last := |trace| - 1;
      var r := PagesUsed(trace[..last]);
      if trace[last] < r then r else trace[last] + 1
  }

  // Every page asked for was in use already, or is the next one.
  ghost predicate InTurn(trace: seq<nat>) {
    trace == [] || (var last := |trace| - 1; InTurn(trace[..last]) && trace[last] <= PagesUsed(trace[..last]))
  }

  lemma {:induction false} UsedIsLargest(trace: seq<nat>)
    ensures forall i | 0 <= i < |trace| :: trace[i] < PagesUsed(trace)
    ensures trace != [] ==> PagesUsed(trace) > 0 && PagesUsed(trace) - 1 in trace
  {
    if trace != [] {
      var last := |trace| - 1;
      var init := trace[..last];
      UsedIsLargest(init);
      forall i | 0 <= i < |trace| ensures trace[i] < PagesUsed(trace) {
        assert i < last ==> init[i] == trace[i];
      }
      assert trace == init + [trace[last]];
    }
  }

  lemma OneMoreInTurn(trace: seq<nat>, n: nat)
    ensures PagesUsed(trace + [n]) == if n < PagesUsed(trace) then PagesUsed(trace) else n + 1
    ensures InTurn(trace + [n]) <==> InTurn(trace) && n <= PagesUsed(trace)
  {
    assert (trace + [n])[..|trace|] == trace;
  }

  datatype Fetched = Fetched(entry: CacheEntry) | OutOfRange

  class Pager {
    const cache: PageCache
    var file: seq<PageData>
    var numPages: nat
    // Every page number asked for so far.
    ghost var trace: seq<nat>

    ghost predicate Valid()
      reads this, cache
    {
      && cache.Valid()
      && |file| == FILE_PAGES_NUM
      && (forall n | n in cache.pageMap :: n < FILE_PAGES_NUM)
      && cache.Order() == Lru.Run(cache.maxPages, trace)
    }

    // Where new pages are asked for in turn, every page in use has been counted, although the count goes up only
    // when the next page was missing from the cache.
    ghost predicate Counted()
      reads this
    {
      InTurn(trace) ==> numPages == PagesUsed(trace)
    }

    // What page n reads as, wherever it lives.
    ghost function At(n: nat): PageData
      requires Valid() && n < FILE_PAGES_NUM
      reads this, cache, cache.pageMap.Values
    {
      if n in cache.pageMap then cache.pageMap[n].data else file[n]
    }

    // The pager as one flat array of pages.
    ghost function View(): (v: seq<PageData>)
      requires Valid()
      reads this, cache, cache.pageMap.Values
      ensures |v| == FILE_PAGES_NUM && forall n {:trigger v[n]} | 0 <= n < |v| :: v[n] == At(n)
    {
      seq(FILE_PAGES_NUM,
          n requires 0 <= n < FILE_PAGES_NUM && Valid() reads this, cache, cache.pageMap.Values => At(n))
    }

    // An entry not marked dirty holds what the file holds.
    ghost predicate CleanMatch()
      requires Valid()
      reads this, cache, cache.pageMap.Values
    {
      forall n | n in cache.pageMap && !cache.pageMap[n].dirty :: cache.pageMap[n].data == file[n]
    }

    // No entry has been flushed since it was loaded: entries are loaded dirty.
    ghost predicate AllDirty()
      reads this, cache, cache.pageMap.Values
    {
      forall n | n in cache.pageMap :: cache.pageMap[n].dirty
    }

    // The entries of pages other than n are as before, those that left the cache aside.
    twostate predicate OthersKept(n: nat)
      requires old(Valid()) && Valid()
      reads this, cache, cache.pageMap.Values
    {
      forall k | k in cache.pageMap && k != n ::
        && k in old(cache.pageMap) && cache.pageMap[k] == old(cache.pageMap)[k] && file[k] == old(file[k])
        && cache.pageMap[k].data == old(cache.pageMap[k].data)
        && cache.pageMap[k].dirty == old(cache.pageMap[k].dirty)
    }

    // Page k's entry has been flushed since it was loaded or marked: the next flush leaves it out.
    ghost predicate CleanAt(k: nat)
      reads this, cache, cache.pageMap.Values
    {
      k in cache.pageMap && !cache.pageMap[k].dirty
    }

    // An empty file is first filled with zeros; another one is taken as it is, with numPages at 0.
    constructor (cacheSize: nat, disk: seq<PageData>)
      requires |disk| == 0 || |disk| == FILE_PAGES_NUM
      ensures Valid() && CleanMatch() && Counted() && fresh(cache) && cache.maxPages == cacheSize
      ensures numPages == 0 && trace == [] && cache.pageMap == map[]
      ensures View() == if disk == [] then seq(FILE_PAGES_NUM, _ => ZERO_PAGE) else disk
    {
      cache := new PageCache(cacheSize);
      file := if disk == [] then seq(FILE_PAGES_NUM, _ => ZERO_PAGE) else disk;
      numPages, trace := 0, [];
    }

    // No page reads differently afterwards and no entry is written to; a victim's data goes to the file.
    method GetPage(n: nat) returns (r: Fetched)
      requires Valid()
      modifies this, cache
      ensures Valid()
      ensures n >= FILE_PAGES_NUM ==>
                && r == OutOfRange && trace == old(trace) && file == old(file) && numPages == old(numPages)
                && cache.pageMap == old(cache.pageMap) && cache.lruList == old(cache.lruList)
      ensures n < FILE_PAGES_NUM ==>
                && r.Fetched? && trace == old(trace) + [n]
                && n in cache.pageMap && cache.pageMap[n] == r.entry && r.entry.data == old(At(n))
      ensures n in old(cache.pageMap) ==> file == old(file) && numPages == old(numPages)
      ensures n < FILE_PAGES_NUM && n !in old(cache.pageMap) ==>
                && fresh(r.entry) && r.entry.dirty
                && numPages == if n == old(numPages) then n + 1 else old(numPages)
      ensures View() == old(View())
      ensures forall k | k in cache.pageMap && k in old(cache.pageMap) :: cache.pageMap[k] == old(cache.pageMap)[k]
      ensures forall k | k in cache.pageMap :: k in old(cache.pageMap) || k == n
      ensures fresh(cache.pageMap.Values - old(cache.pageMap.Values))
      ensures old(CleanMatch()) ==> CleanMatch()
      ensures old(Counted()) ==> Counted()
      ensures forall k | k in cache.pageMap :: file[k] == old(file[k])
      ensures OthersKept(n)
    {
      if n >= FILE_PAGES_NUM {
        return OutOfRange;
      }
      OneMoreInTurn(trace, n);
      if n in cache.pageMap {
        CachedUsed(n);
      }
      var entry := Fetch(n);
      SameReads(n);
      return Fetched(entry);
    }

    // Moving a displaced entry's data to the file changes no page.
    twostate lemma SameReads(n: nat)
      requires old(Valid()) && Valid() && n < FILE_PAGES_NUM && n in cache.pageMap
      requires forall k | k in cache.pageMap && k in old(cache.pageMap) ::
                 cache.pageMap[k].data == old(cache.pageMap[k].data)
      requires forall k | k in cache.pageMap && k != n :: k in old(cache.pageMap)
      requires n !in old(cache.pageMap) ==> cache.pageMap[n].data == old(file[n])
      requires forall k | 0 <= k < FILE_PAGES_NUM ::
                 file[k] == if k in old(cache.pageMap) && k !in cache.pageMap
                            then old(cache.pageMap[k].data) else old(file[k])
      ensures View() == old(View())
    {
      forall k | 0 <= k < FILE_PAGES_NUM ensures At(k) == old(At(k)) {
      }
      SameView(old(View()));
    }

    // The next page to be used is not in the cache.
    lemma CachedUsed(n: nat)
      requires Valid() && n in cache.pageMap
      ensures n < PagesUsed(trace)
    {
      CachedAsRun(n);
      Lru.RunIsCutRecency(cache.maxPages, trace);
      UsedIsLargest(trace);
      assert n in Lru.Recency(trace);
    }

    // Page n's entry, from the cache or the file.
    method Fetch(n: nat) returns (entry: CacheEntry)
      requires Valid() && n < FILE_PAGES_NUM
      modifies this, cache
      ensures Valid() && trace == old(trace) + [n]
      ensures n in cache.pageMap && cache.pageMap[n] == entry
      ensures n in old(cache.pageMap) ==> cache.pageMap == old(cache.pageMap) && file == old(file)
      ensures n !in old(cache.pageMap) ==> fresh(entry) && entry.dirty && entry.data == old(file[n])
      ensures forall k | k in cache.pageMap && k != n ::
                k in old(cache.pageMap) && cache.pageMap[k] == old(cache.pageMap)[k]
      ensures forall k | 0 <= k < FILE_PAGES_NUM ::
                file[k] == if k in old(cache.pageMap) && k !in cache.pageMap
                           then old(cache.pageMap[k].data) else old(file[k])
      ensures numPages == if n !in old(cache.pageMap) && n == old(numPages) then n + 1 else old(numPages)
    {
      trace := trace + [n];
      Lru.RunStep(cache.maxPages, old(trace), n);
      var found := cache.GetPage(n);
      if found != null {
        return found;
      }
      entry := Load(n);
    }

    // The cache holds the pages of the least-recently-used order.
    lemma CachedAsRun(n: nat)
      requires Valid()
      ensures n in cache.pageMap <==> n in Lru.Run(cache.maxPages, trace)
    {
      ListedPage(cache.lruList, cache.pageMap, n);
    }

    lemma CachedAfter(before: seq<nat>, n: nat, later: seq<nat>)
      requires Valid() && trace == before + [n] + later && n !in later
      ensures n in cache.pageMap <==> |Lru.PagesOf(later)| < cache.maxPages || later == []
    {
      CachedAsRun(n);
      Lru.ResidentIff(cache.maxPages, before, n, later);
    }

    lemma SameView(v: seq<PageData>)
      requires Valid() && |v| == FILE_PAGES_NUM && forall n | 0 <= n < FILE_PAGES_NUM :: At(n) == v[n]
      ensures View() == v
    {
    }

    // Reads page n into a new entry, and writes the entry it displaces back.
    method Load(n: nat) returns (loaded: CacheEntry)
      requires cache.Valid() && |file| == FILE_PAGES_NUM && (forall k | k in cache.pageMap :: k < FILE_PAGES_NUM)
      requires n < FILE_PAGES_NUM && n !in cache.pageMap
      modifies this`file, this`numPages, cache
      ensures cache.Valid() && |file| == FILE_PAGES_NUM && (forall k | k in cache.pageMap :: k < FILE_PAGES_NUM)
      ensures cache.Order() == Lru.Touch(cache.maxPages, old(cache.Order()), n)
      ensures fresh(loaded) && loaded.data == old(file[n]) && loaded.dirty
      ensures n in cache.pageMap && cache.pageMap[n] == loaded
      ensures forall k | k in cache.pageMap && k != n ::
                k in old(cache.pageMap) && cache.pageMap[k] == old(cache.pageMap)[k]
      ensures forall k | 0 <= k < FILE_PAGES_NUM ::
                file[k] == if k in old(cache.pageMap) && k !in cache.pageMap
                           then old(cache.pageMap[k].data) else old(file[k])
      ensures numPages == if n == old(numPages) then n + 1 else old(numPages)
    {
      loaded := new CacheEntry(n, file[n]);
      var victim := cache.AddPage(loaded);
      if victim != null {
        file := file[victim.pageNum := victim.data];
      }
      if n == numPages {
        numPages := numPages + 1;
      }
    }

    // A write through a page's entry.
    method Overwrite(entry: CacheEntry, data: PageData, mark: bool)
      requires Valid() && entry.pageNum in cache.pageMap && cache.pageMap[entry.pageNum] == entry
      modifies entry
      ensures entry.data == data && entry.dirty == (mark || old(entry.dirty))
      ensures Valid() && View() == old(View())[entry.pageNum := data]
    {
      ghost var view := View();
      entry.data := data;
      if mark {
        entry.dirty := true;
      }
      SameView(view[entry.pageNum := data]);
    }

    // A write that marks its page dirty.
    method WritePage(n: nat, data: PageData) returns (r: Fetched)
      requires Valid()
      modifies this, cache, cache.pageMap.Values
      ensures Valid() && fresh(cache.pageMap.Values - old(cache.pageMap.Values))
      ensures OthersKept(n)
      ensures old(Counted()) ==> Counted()
      ensures n >= FILE_PAGES_NUM ==> r == OutOfRange && View() == old(View()) && trace == old(trace)
      ensures n < FILE_PAGES_NUM ==> r.Fetched? && View() == old(View())[n := data] && trace == old(trace) + [n]
      ensures old(CleanMatch()) ==> CleanMatch()
      ensures n < FILE_PAGES_NUM ==> !CleanAt(n)
      ensures old(AllDirty()) ==> AllDirty()
    {
      r := GetPage(n);
      if r.Fetched? {
        Overwrite(r.entry, data, true);
      }
    }

    // A write through the entry alone, as the tree makes it: the page reads as written, but is not marked.
    method Poke(n: nat, data: PageData) returns (r: Fetched)
      requires Valid()
      modifies this, cache, cache.pageMap.Values
      ensures Valid() && fresh(cache.pageMap.Values - old(cache.pageMap.Values))
      ensures OthersKept(n)
      ensures old(Counted()) ==> Counted()
      ensures n >= FILE_PAGES_NUM ==> r == OutOfRange && View() == old(View()) && trace == old(trace)
      ensures n < FILE_PAGES_NUM ==> r.Fetched? && View() == old(View())[n := data] && trace == old(trace) + [n]
      ensures n < FILE_PAGES_NUM ==>
                && n in cache.pageMap && file[n] == old(file[n])
                && cache.pageMap[n].dirty == (n in old(cache.pageMap) ==> old(cache.pageMap[n].dirty))
      ensures old(AllDirty()) ==> AllDirty()
    {
      r := GetPage(n);
      if r.Fetched? {
        Overwrite(r.entry, data, false);
      }
    }

    // Writes the dirty entries back. The file then is the view exactly if the other entries matched it before.
    method FlushAll()
      requires Valid()
      modifies this`file, cache.pageMap.Values
      ensures Valid() && View() == old(View())
      ensures forall n | n in cache.pageMap :: !cache.pageMap[n].dirty
      ensures forall n | 0 <= n < FILE_PAGES_NUM ::
                file[n] == if n in cache.pageMap && old(cache.pageMap[n].dirty) then View()[n] else old(file[n])
      ensures file == View() <==> old(CleanMatch())
      ensures CleanMatch() <==> old(CleanMatch())
    {
      WriteBackDirty();
      Flushed();
    }

    method WriteBackDirty()
      requires Valid()
      modifies this`file, cache.pageMap.Values`dirty
      ensures Valid()
      ensures forall n | n in cache.pageMap ::
                !cache.pageMap[n].dirty && cache.pageMap[n].data == old(cache.pageMap[n].data)
      ensures forall n | 0 <= n < FILE_PAGES_NUM ::
                file[n] == if n in cache.pageMap && old(cache.pageMap[n].dirty)
                           then cache.pageMap[n].data else old(file[n])
    {
      var i := 0;
      while i < |cache.lruList|
        invariant 0 <= i <= |cache.lruList| && |file| == FILE_PAGES_NUM
        invariant forall k | 0 <= k < i :: !cache.lruList[k].dirty
        invariant forall n | n in cache.pageMap :: cache.pageMap[n].dirty ==> old(cache.pageMap[n].dirty)
        invariant forall n {:trigger file[n]} | 0 <= n < FILE_PAGES_NUM ::
                    file[n] == if n in cache.pageMap && old(cache.pageMap[n].dirty) && !cache.pageMap[n].dirty
                               then cache.pageMap[n].data else old(file[n])
      {
        var entry := cache.lruList[i];
        assert cache.pageMap[entry.pageNum] == entry;
        if entry.dirty {
          file := file[entry.pageNum := entry.data];
          entry.dirty := false;
        }
        i := i + 1;
      }
      AllClean();
    }

    // Writing back exactly the dirty entries.
    twostate lemma Flushed()
      requires old(Valid()) && Valid() && cache.pageMap == old(cache.pageMap)
      requires forall n | n in cache.pageMap ::
                 !cache.pageMap[n].dirty && cache.pageMap[n].data == old(cache.pageMap[n].data)
      requires forall n | 0 <= n < FILE_PAGES_NUM ::
                 file[n] == if n in cache.pageMap && old(cache.pageMap[n].dirty)
                            then cache.pageMap[n].data else old(file[n])
      ensures View() == old(View())
      ensures file == View() <==> old(CleanMatch())
      ensures CleanMatch() <==> old(CleanMatch())
    {
      assert forall n | 0 <= n < FILE_PAGES_NUM :: At(n) == old(At(n));
      SameView(old(View()));
      if file == View() {
        assert forall n | 0 <= n < FILE_PAGES_NUM :: file[n] == At(n);
      }
    }

    // What holds of the list's entries holds of the map's.
    lemma AllClean()
      requires cache.Valid() && forall i | 0 <= i < |cache.lruList| :: !cache.lruList[i].dirty
      ensures forall n | n in cache.pageMap :: !cache.pageMap[n].dirty
    {
      ListedPages(cache.lruList, cache.pageMap);
      forall n | n in cache.pageMap ensures !cache.pageMap[n].dirty {
        assert n in Nums(cache.lruList);
        var i :| 0 <= i < |cache.lruList| && Nums(cache.lruList)[i] == n;
        assert cache.lruList[i].pageNum == n;
      }
    }
  }

  // ------------------------------------------------------------------
  // Runs

  datatype Op = Read(n: nat) | Write(n: nat, data: PageData) | RawWrite(n: nat, data: PageData) | Flush

  // One operation on the flat array of pages; a page number out of range changes nothing.
  function Apply(v: seq<PageData>, op: Op): (r: seq<PageData>)
    ensures |r| == |v|
  {
    if (op.Write? || op.RawWrite?) && op.n < |v| then v[op.n := op.data] else v
  }

  // What it returns.
  function Answer(v: seq<PageData>, op: Op): seq<PageData> {
    if op.Read? && op.n < |v| then [v[op.n]] else []
  }

  // The page it asks for.
  function AsksFor(op: Op): seq<nat> {
    if op.Flush? || op.n >= FILE_PAGES_NUM then [] else [op.n]
  }

  function Flat(v: seq<PageData>, ops: seq<Op>): (r: seq<PageData>)
    ensures |r| == |v|
  {
    if ops == [] then v else Apply(Flat(v, ops[..|ops| - 1]), ops[|ops| - 1])
  }

  function Answers(v: seq<PageData>, ops: seq<Op>): seq<PageData> {
    if ops == [] then []
    else
      var init := ops[..|ops| - 1];
      Answers(v, init) + Answer(Flat(v, init), ops[|ops| - 1])
  }

  function Asked(ops: seq<Op>): seq<nat> {
    if ops == [] then [] else Asked(ops[..|ops| - 1]) + AsksFor(ops[|ops| - 1])
  }

  ghost predicate Marked(ops: seq<Op>) {
    forall i | 0 <= i < |ops| :: !ops[i].RawWrite?
  }

  ghost predicate Unflushed(ops: seq<Op>) {
    forall i | 0 <= i < |ops| :: !ops[i].Flush?
  }

  // Whether page k's entry is clean after the operation, if it was or not before: a flush makes it so, a marked write
  // to the page ends it, and so does losing its place in the cache.
  ghost predicate StaysClean(op: Op, k: nat, clean: bool, cached: bool) {
    cached && (op.Flush? || (clean && !(op.Write? && op.n == k)))
  }

  // So for a whole run, in a cache that has served the trace before.
  ghost predicate CleanAfter(maxPages: nat, before: seq<nat>, clean: bool, k: nat, ops: seq<Op>) {
    if ops == [] then clean
    else
      var init, last := ops[..|ops| - 1], ops[|ops| - 1];
      StaysClean(last, k, CleanAfter(maxPages, before, clean, k, init), k in Lru.Run(maxPages, before + Asked(ops)))
  }

  // What the file has of a page that is clean after the run: what the page was when it last became clean.
  ghost function LeftInFile(maxPages: nat, before: seq<nat>, clean: bool, k: nat, was: PageData, v: seq<PageData>,
                            ops: seq<Op>): PageData
    requires k < |v|
  {
    if ops == [] then was
    else
      var init := ops[..|ops| - 1];
      if CleanAfter(maxPages, before, clean, k, init) then LeftInFile(maxPages, before, clean, k, was, v, init)
      else Flat(v, ops)[k]
  }

  // What one operation does; k is any page, watched during the step.
  twostate predicate Stepped(pager: Pager, op: Op, answer: seq<PageData>, k: nat)
    requires old(pager.Valid()) && pager.Valid()
    reads pager, pager.cache, pager.cache.pageMap.Values
  {
    && pager.View() == Apply(old(pager.View()), op) && answer == Answer(old(pager.View()), op)
    && pager.trace == old(pager.trace) + AsksFor(op)
    && (old(pager.CleanMatch()) && !op.RawWrite? ==> pager.CleanMatch())
    && (old(pager.AllDirty()) && !op.Flush? ==> pager.AllDirty())
    && (old(pager.Counted()) ==> pager.Counted())
    && (pager.CleanAt(k) <==> StaysClean(op, k, old(pager.CleanAt(k)), k in pager.cache.pageMap))
    && (k < FILE_PAGES_NUM && pager.CleanAt(k) ==>
          pager.file[k] == if old(pager.CleanAt(k)) then old(pager.file[k]) else pager.View()[k])
  }

  method Step(pager: Pager, op: Op, ghost k: nat := 0) returns (answer: seq<PageData>)
    requires pager.Valid()
    modifies pager, pager.cache, pager.cache.pageMap.Values
    ensures pager.Valid() && fresh(pager.cache.pageMap.Values - old(pager.cache.pageMap.Values))
    ensures Stepped(pager, op, answer, k)
  {
    match op {
      case Read(n) => answer := StepRead(pager, n, k);
      case Write(n, data) => answer := StepWrite(pager, n, data, k);
      case RawWrite(n, data) => answer := StepRawWrite(pager, n, data, k);
      case Flush => answer := StepFlush(pager, k);
    }
  }

  method StepRead(pager: Pager, n: nat, ghost k: nat) returns (answer: seq<PageData>)
    requires pager.Valid()
    modifies pager, pager.cache, pager.cache.pageMap.Values
    ensures pager.Valid() && fresh(pager.cache.pageMap.Values - old(pager.cache.pageMap.Values))
    ensures Stepped(pager, Read(n), answer, k)
  {
    var r := pager.GetPage(n);
    answer := if r.Fetched? then [r.entry.data] else [];
  }

  method StepWrite(pager: Pager, n: nat, data: PageData, ghost k: nat) returns (answer: seq<PageData>)
    requires pager.Valid()
    modifies pager, pager.cache, pager.cache.pageMap.Values
    ensures pager.Valid() && fresh(pager.cache.pageMap.Values - old(pager.cache.pageMap.Values))
    ensures Stepped(pager, Write(n, data), answer, k)
  {
    answer := [];
    var r := pager.WritePage(n, data);
  }

  method StepRawWrite(pager: Pager, n: nat, data: PageData, ghost k: nat) returns (answer: seq<PageData>)
    requires pager.Valid()
    modifies pager, pager.cache, pager.cache.pageMap.Values
    ensures pager.Valid() && fresh(pager.cache.pageMap.Values - old(pager.cache.pageMap.Values))
    ensures Stepped(pager, RawWrite(n, data), answer, k)
  {
    answer := [];
    var r := pager.Poke(n, data);
  }

  method StepFlush(pager: Pager, ghost k: nat) returns (answer: seq<PageData>)
    requires pager.Valid()
    modifies pager, pager.cache, pager.cache.pageMap.Values
    ensures pager.Valid() && fresh(pager.cache.pageMap.Values - old(pager.cache.pageMap.Values))
    ensures Stepped(pager, Flush, answer, k)
  {
    answer := [];
    pager.FlushAll();
  }

  // Over any run the pager is a flat array of pages, and its list is the least-recently-used order of the pages
  // asked for.
  method Perform(pager: Pager, ops: seq<Op>, ghost k: nat := 0) returns (answers: seq<PageData>)
    requires pager.Valid()
    modifies pager, pager.cache, pager.cache.pageMap.Values
    ensures pager.Valid() && fresh(pager.cache.pageMap.Values - old(pager.cache.pageMap.Values))
    ensures pager.View() == Flat(old(pager.View()), ops)
    ensures answers == Answers(old(pager.View()), ops)
    ensures pager.trace == old(pager.trace) + Asked(ops)
    ensures pager.cache.Order() == Lru.Run(pager.cache.maxPages, pager.trace)
    ensures old(pager.CleanMatch()) && Marked(ops) ==> pager.CleanMatch()
    ensures old(pager.AllDirty()) && Unflushed(ops) ==> pager.AllDirty()
    ensures old(pager.Counted()) ==> pager.Counted()
    ensures pager.CleanAt(k) <==> CleanAfter(pager.cache.maxPages, old(pager.trace), old(pager.CleanAt(k)), k, ops)
    ensures k < FILE_PAGES_NUM && pager.CleanAt(k) ==>
              pager.file[k] == LeftInFile(pager.cache.maxPages, old(pager.trace), old(pager.CleanAt(k)), k,
                                          old(pager.file[k]), old(pager.View()), ops)
    decreases |ops|
  {
    if ops == [] {
      return [];
    }
    ghost var v, asked, c0 := pager.View(), pager.trace, pager.CleanAt(k);
    ghost var f0 := if k < FILE_PAGES_NUM then pager.file[k] else [];
    var init, last := ops[..|ops| - 1], ops[|ops| - 1];
    answers := Perform(pager, init, k);
    ghost var mid, before, c := pager.View(), answers, pager.CleanAt(k);
    ghost var f := if k < FILE_PAGES_NUM then pager.file[k] else [];
    var answer := Step(pager, last, k);
    answers := answers + answer;
    OneMore(v, ops, mid, before, asked);
    pager.CachedAsRun(k);
    Watched(pager.cache.maxPages, asked, c0, k, f0, v, ops, c, f, k in pager.cache.pageMap);
  }

  // The watched page, one operation later.
  lemma Watched(maxPages: nat, before: seq<nat>, clean: bool, k: nat, was: PageData, v: seq<PageData>, ops: seq<Op>,
                c: bool, f: PageData, cached: bool)
    requires ops != [] && (cached <==> k in Lru.Run(maxPages, before + Asked(ops)))
    requires var init := ops[..|ops| - 1];
             && (c <==> CleanAfter(maxPages, before, clean, k, init))
             && (k < |v| && c ==> f == LeftInFile(maxPages, before, clean, k, was, v, init))
    ensures CleanAfter(maxPages, before, clean, k, ops) <==> StaysClean(ops[|ops| - 1], k, c, cached)
    ensures k < |v| ==> LeftInFile(maxPages, before, clean, k, was, v, ops) == if c then f else Flat(v, ops)[k]
  {
  }

  // A run is its operations but the last, and then the last.
  lemma OneMore(v: seq<PageData>, ops: seq<Op>, mid: seq<PageData>, before: seq<PageData>, asked: seq<nat>)
    requires ops != []
    requires var init := ops[..|ops| - 1]; mid == Flat(v, init) && before == Answers(v, init)
    ensures var init, last := ops[..|ops| - 1], ops[|ops| - 1];
            && Flat(v, ops) == Apply(mid, last) && Answers(v, ops) == before + Answer(mid, last)
            && asked + Asked(ops) == asked + Asked(init) + AsksFor(last)
  {
  }

  // A run that marks its writes, then a flush: the file is the flat array.
  method PerformAndFlush(pager: Pager, ops: seq<Op>) returns (answers: seq<PageData>)
    requires pager.Valid() && pager.CleanMatch() && Marked(ops)
    modifies pager, pager.cache, pager.cache.pageMap.Values
    ensures pager.Valid() && pager.CleanMatch()
    ensures pager.file == pager.View() == Flat(old(pager.View()), ops)
    ensures answers == Answers(old(pager.View()), ops)
  {
    answers := Perform(pager, ops);
    pager.FlushAll();
  }

  // Without marks, too, if no flush came before: entries are loaded dirty.
  method PerformUnflushed(pager: Pager, ops: seq<Op>) returns (answers: seq<PageData>)
    requires pager.Valid() && pager.AllDirty() && Unflushed(ops)
    modifies pager, pager.cache, pager.cache.pageMap.Values
    ensures pager.Valid() && pager.CleanMatch()
    ensures pager.file == pager.View() == Flat(old(pager.View()), ops)
    ensures answers == Answers(old(pager.View()), ops)
  {
    answers := Perform(pager, ops);
    pager.FlushAll();
  }

  // Any run, and a flush: of each page the file has what the page is, unless its entry is clean before the flush.
  method PerformThenFlush(pager: Pager, ops: seq<Op>, k: nat) returns (answers: seq<PageData>)
    requires pager.Valid() && k < FILE_PAGES_NUM
    modifies pager, pager.cache, pager.cache.pageMap.Values
    ensures pager.Valid() && pager.View() == Flat(old(pager.View()), ops)
    ensures answers == Answers(old(pager.View()), ops)
    ensures pager.file[k] ==
            var clean := CleanAfter(pager.cache.maxPages, old(pager.trace), old(pager.CleanAt(k)), k, ops);
            if !clean then Flat(old(pager.View()), ops)[k]
            else LeftInFile(pager.cache.maxPages, old(pager.trace), old(pager.CleanAt(k)), k, old(pager.file[k]),
                            old(pager.View()), ops)
  {
    answers := Perform(pager, ops, k);
    pager.FlushAll();
  }

  // No operation writes to page n.
  ghost predicate NoWrite(ops: seq<Op>, n: nat) {
    forall i | 0 <= i < |ops| :: (ops[i].Write? || ops[i].RawWrite?) ==> ops[i].n != n
  }

  // Page n keeps its place in the cache all along.
  ghost predicate Stays(maxPages: nat, before: seq<nat>, ops: seq<Op>, n: nat) {
    forall i | 0 <= i <= |ops| :: n in Lru.Run(maxPages, before + Asked(ops[..i]))
  }

  // The fate of an unmarked write to page n, whatever run without another write to it follows, and a last flush: the
  // file has the data exactly if the entry was not clean, or was displaced in between, or the file had it before.
  method RawWriteThenRun(pager: Pager, n: nat, data: PageData, ops: seq<Op>)
    requires pager.Valid() && n < FILE_PAGES_NUM && NoWrite(ops, n)
    modifies pager, pager.cache, pager.cache.pageMap.Values
    ensures pager.Valid() && pager.View() == Flat(old(pager.View())[n := data], ops) && pager.View()[n] == data
    ensures pager.file[n] ==
            if old(pager.CleanAt(n)) && Stays(pager.cache.maxPages, old(pager.trace) + [n], ops, n)
            then old(pager.file[n]) else data
  {
    var r := pager.Poke(n, data);
    ghost var v, c, was, before := pager.View(), pager.CleanAt(n), pager.file[n], pager.trace;
    pager.CachedAsRun(n);
    FlatElsewhere(v, ops, n);
    FateOfWrite(pager.cache.maxPages, before, c, n, was, v, ops);
    var answers := PerformThenFlush(pager, ops, n);
  }

  lemma {:induction false} FlatElsewhere(v: seq<PageData>, ops: seq<Op>, n: nat)
    requires n < |v| && NoWrite(ops, n)
    ensures Flat(v, ops)[n] == v[n]
  {
    if ops != [] {
      FlatElsewhere(v, ops[..|ops| - 1], n);
    }
  }

  lemma {:induction false} FateOfWrite(maxPages: nat, before: seq<nat>, clean: bool, n: nat, was: PageData,
                                       v: seq<PageData>, ops: seq<Op>)
    requires n < |v| && n < FILE_PAGES_NUM && NoWrite(ops, n) && n in Lru.Run(maxPages, before)
    ensures var after := CleanAfter(maxPages, before, clean, n, ops);
            && (clean && Stays(maxPages, before, ops, n) ==>
                  after && LeftInFile(maxPages, before, clean, n, was, v, ops) == was)
            && (!(clean && Stays(maxPages, before, ops, n)) && after ==>
                  LeftInFile(maxPages, before, clean, n, was, v, ops) == v[n])
  {
    if ops == [] {
      assert before + Asked(ops[..0]) == before;
    } else {
      var init, last := ops[..|ops| - 1], ops[|ops| - 1];
      FateOfWrite(maxPages, before, clean, n, was, v, init);
      FlatElsewhere(v, ops, n);
      StaysOneMore(maxPages, before, ops, n);
      assert ops[..|ops|] == ops;
      if last.Flush? {
        assert Asked(ops) == Asked(init);
      }
    }
  }

  lemma StaysOneMore(maxPages: nat, before: seq<nat>, ops: seq<Op>, n: nat)
    requires ops != []
    ensures Stays(maxPages, before, ops, n) <==>
            Stays(maxPages, before, ops[..|ops| - 1], n) && n in Lru.Run(maxPages, before + Asked(ops))
  {
    var init := ops[..|ops| - 1];
    forall i | 0 <= i <= |init| ensures ops[..i] == init[..i] {
    }
    if Stays(maxPages, before, init, n) && n in Lru.Run(maxPages, before + Asked(ops)) {
      forall i | 0 <= i <= |ops| ensures n in Lru.Run(maxPages, before + Asked(ops[..i])) {
        if i == |ops| {
          assert ops[..i] == ops;
        } else {
          assert ops[..i] == init[..i];
        }
      }
    }
    if Stays(maxPages, before, ops, n) {
      assert ops[..|ops|] == ops;
    }
  }

  // In a run that does not ask for page n, it keeps its place exactly while fewer pages than fit are asked for.
  lemma StaysIff(maxPages: nat, before: seq<nat>, ops: seq<Op>, n: nat)
    requires n !in Asked(ops)
    ensures Stays(maxPages, before + [n], ops, n) <==> |Lru.PagesOf(Asked(ops))| < maxPages || Asked(ops) == []
  {
    Lru.ResidentIff(maxPages, before, n, Asked(ops));
    assert ops[..|ops|] == ops;
    if |Lru.PagesOf(Asked(ops))| < maxPages || Asked(ops) == [] {
      forall i | 0 <= i <= |ops| ensures n in Lru.Run(maxPages, before + [n] + Asked(ops[..i])) {
        StaysSoFar(maxPages, before, ops, n, i);
      }
    }
  }

  lemma StaysSoFar(maxPages: nat, before: seq<nat>, ops: seq<Op>, n: nat, i: nat)
    requires n !in Asked(ops) && i <= |ops| && (|Lru.PagesOf(Asked(ops))| < maxPages || Asked(ops) == [])
    ensures n in Lru.Run(maxPages, before + [n] + Asked(ops[..i]))
  {
    var part := Asked(ops[..i]);
    AskedSoFar(ops, i);
    SubsetSize(Lru.PagesOf(part), Lru.PagesOf(Asked(ops)));
    assert part != [] ==> part[0] in Asked(ops);
    Lru.ResidentIff(maxPages, before, n, part);
  }

  lemma {:induction false} AskedSoFar(ops: seq<Op>, i: nat)
    requires i <= |ops|
    ensures forall x | x in Asked(ops[..i]) :: x in Asked(ops)
  {
    if i == |ops| {
      assert ops[..i] == ops;
    } else {
      assert ops[..|ops| - 1][..i] == ops[..i];
      AskedSoFar(ops[..|ops| - 1], i);
    }
  }

  // ------------------------------------------------------------------
  // Residency

  // An entry stays the page's live entry while at most maxPages - 1 other pages are asked for, and the
  // bound cannot be raised: as many others displace it, unless the page itself is asked for again.
  method Hold(pager: Pager, n: nat, later: seq<nat>) returns (entry: CacheEntry)
    requires pager.Valid() && n < FILE_PAGES_NUM && forall i | 0 <= i < |later| :: later[i] < FILE_PAGES_NUM
    modifies pager, pager.cache
    ensures pager.Valid() && pager.View() == old(pager.View())
    ensures |Lru.PagesOf(later) - {n}| < pager.cache.maxPages || Lru.PagesOf(later) <= {n} ==>
              n in pager.cache.pageMap && pager.cache.pageMap[n] == entry
    ensures n !in later && later != [] && |Lru.PagesOf(later)| >= pager.cache.maxPages ==> n !in pager.cache.pageMap
  {
    ghost var before := pager.trace;
    var r := pager.GetPage(n);
    entry := r.entry;
    var i := 0;
    while i < |later|
      invariant 0 <= i <= |later| && pager.Valid() && pager.View() == old(pager.View())
      invariant pager.trace == before + [n] + later[..i]
      invariant Lasts(pager.cache.maxPages, n, later) ==> n in pager.cache.pageMap && pager.cache.pageMap[n] == entry
    {
      r := pager.GetPage(later[i]);
      NextPrefix(before + [n], later, i);
      i := i + 1;
      CachedSoFar(pager, before, n, later, i);
    }
    CachedAtLast(pager, before, n, later, i);
  }

  lemma CachedSoFar(pager: Pager, before: seq<nat>, n: nat, later: seq<nat>, i: nat)
    requires i <= |later| && pager.Valid() && pager.trace == before + [n] + later[..i]
    ensures Lasts(pager.cache.maxPages, n, later) ==> n in pager.cache.pageMap
  {
    pager.CachedAsRun(n);
    ResidentSoFar(pager.cache.maxPages, before, n, later, i);
  }

  lemma CachedAtLast(pager: Pager, before: seq<nat>, n: nat, later: seq<nat>, i: nat)
    requires i == |later| && pager.Valid() && pager.trace == before + [n] + later[..i]
    ensures Leaves(pager.cache.maxPages, n, later) ==> n !in pager.cache.pageMap
  {
    assert later[..i] == later;
    if Leaves(pager.cache.maxPages, n, later) {
      pager.CachedAfter(before, n, later);
    }
  }

  ghost predicate Lasts(maxPages: nat, n: nat, later: seq<nat>) {
    |Lru.PagesOf(later) - {n}| < maxPages || Lru.PagesOf(later) <= {n}
  }

  ghost predicate Leaves(maxPages: nat, n: nat, later: seq<nat>) {
    n !in later && |Lru.PagesOf(later)| >= maxPages && later != []
  }

  lemma ResidentSoFar(maxPages: nat, before: seq<nat>, n: nat, later: seq<nat>, i: nat)
    requires i <= |later|
    ensures Lasts(maxPages, n, later) ==> n in Lru.Run(maxPages, before + [n] + later[..i])
  {
    if Lasts(maxPages, n, later) {
      FewerPages(later, i, n);
      Lru.Resident(maxPages, before, n, later[..i]);
    }
  }

  lemma NextPrefix(s: seq<nat>, later: seq<nat>, i: nat)
    requires i < |later|
    ensures s + later[..i] + [later[i]] == s + later[..i + 1]
  {
    assert later[..i + 1] == later[..i] + [later[i]];
  }

  lemma FewerPages(later: seq<nat>, i: nat, n: nat)
    requires i <= |later|
    ensures |Lru.PagesOf(later[..i]) - {n}| <= |Lru.PagesOf(later) - {n}|
  {
    var all, part := Lru.PagesOf(later) - {n}, Lru.PagesOf(later[..i]) - {n};
    SubsetSize(part, all);
  }
}
