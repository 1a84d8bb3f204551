/** Sets of integers and the least one that is free. */
module IdRanges {
  import opened Ir

  ghost function Range(lo: int, hi: int): set<int>
    decreases hi - lo
  {
    if lo >= hi then {} else Range(lo, hi - 1) + {hi - 1}
  }

  lemma {:induction false} InRange(lo: int, hi: int, x: int)
    ensures x in Range(lo, hi) <==> lo <= x < hi
    decreases hi - lo
  {
    if lo < hi { InRange(lo, hi - 1, x); }
  }

  lemma {:induction false} RangeSize(lo: int, hi: int)
    requires lo <= hi
    ensures |Range(lo, hi)| == hi - lo
    decreases hi - lo
  {
    if lo < hi {
      RangeSize(lo, hi - 1);
      InRange(lo, hi - 1, hi - 1);
    }
  }

  /** Ids that fill [lo, hi) completely number hi - lo, and ids inside [lo, hi) that miss one number fewer. */
  lemma Filled(ids: set<int>, lo: int, hi: int)
    requires lo <= hi && forall x | x in ids :: lo <= x < hi
    ensures |ids| <= hi - lo
    ensures |ids| == hi - lo <==> forall x | lo <= x < hi :: x in ids
  {
    RangeSize(lo, hi);
    forall x ensures x in Range(lo, hi) <==> lo <= x < hi { InRange(lo, hi, x); }
    SubsetSize(ids, Range(lo, hi));
    if forall x | lo <= x < hi :: x in ids { assert ids == Range(lo, hi); }
  }

  /** The least id from base on that is not in use, as a scan upwards would find it. */
  ghost predicate IsLeastUnused(id: int, used: set<int>, base: int) {
    base <= id && id !in used && forall x | base <= x < id :: x in used
  }
}

/** File and directory handles: freed ids are handed out again, lowest first. */
module FsHandles {
  import opened Ir
  import opened IdRanges

  const MAX_FS_HANDLES: int := 1024
  const DIR_HANDLE_BASE: int := MAX_FS_HANDLES + 1

  /** Live and freed ids partition [base, next), no id is freed twice, and next stays within the cap. */
  ghost predicate PoolOk(live: set<int>, free: multiset<int>, next: int, base: int) {
    && base <= next <= base + MAX_FS_HANDLES
    && (forall x | x in live :: base <= x < next)
    && (forall x | x in free :: base <= x < next && free[x] == 1)
    && (forall x | base <= x < next :: x in live <==> x !in free)
  }

  ghost predicate IsMin(x: int, s: multiset<int>) {
    x in s && forall y | y in s :: x <= y
  }

  lemma HasElement(s: multiset<int>)
    ensures s == multiset{} || exists x :: x in s
  {
    if forall x :: x !in s { assert s == multiset{}; }
  }

  /** The lowest freed id, of at least one. */
  method Lowest(s: multiset<int>) returns (x: int)
    requires s != multiset{}
    ensures IsMin(x, s)
  {
    HasElement(s);
    x :| x in s;
    var rest := s - multiset{x};
    while rest != multiset{}
      invariant x in s
      invariant rest <= s
      invariant forall y | y in s :: y in rest || x <= y
      decreases |rest|
    {
      HasElement(rest);
      var y :| y in rest;
      if y < x { x := y; }
      rest := rest - multiset{y};
    }
  }

  lemma FreedIsLeast(live: set<int>, free: multiset<int>, next: int, base: int, id: int)
    requires PoolOk(live, free, next, base) && IsMin(id, free)
    ensures IsLeastUnused(id, live, base) && |live| < 1024
    ensures PoolOk(live + {id}, free - multiset{id}, next, base)
  {
    Filled(live, base, next);
  }

  lemma NextIsLeast(live: set<int>, free: multiset<int>, next: int, base: int)
    requires PoolOk(live, free, next, base) && free == multiset{}
    ensures IsLeastUnused(next, live, base)
    ensures |live| == next - base
    ensures next < base + 1024 ==> PoolOk(live + {next}, free, next + 1, base)
  {
    Filled(live, base, next);
  }

  lemma RecycleKeeps(live: set<int>, free: multiset<int>, next: int, base: int, id: int)
    requires PoolOk(live, free, next, base) && id in live
    ensures PoolOk(live - {id}, free + multiset{id}, next, base)
  {
  }

  datatype Opened = Handle(id: int) | Exhausted | OpenFailed

  /** Files and directories stand for whatever the operating system keeps behind a handle. */
  class FsState<F, D> {
    var files: map<int, F>
    var dirs: map<int, D>
    var freeFile: multiset<int>
    var freeDir: multiset<int>
    var nextFile: int
    var nextDir: int

    ghost predicate Valid()
      reads this
    {
      PoolOk(files.Keys, freeFile, nextFile, 1) && PoolOk(dirs.Keys, freeDir, nextDir, DIR_HANDLE_BASE)
    }

    constructor ()
      ensures Valid() && files == map[] && dirs == map[]
    {
      files, dirs := map[], map[];
      freeFile, freeDir := multiset{}, multiset{};
      nextFile, nextDir := 1, DIR_HANDLE_BASE;
    }

    /** A file handle is never also a directory handle. */
    lemma Disjoint()
      requires Valid()
      ensures files.Keys !! dirs.Keys
    {
      forall x | x in files.Keys ensures x !in dirs.Keys { }
    }

    method AllocFile() returns (r: Opened)
      requires Valid()
      modifies `freeFile, `nextFile
      ensures r.Exhausted? <==> |files| >= 1024
      ensures r.Exhausted? ==> Valid() && freeFile == old(freeFile) && nextFile == old(nextFile)
      ensures r.Handle? ==> IsLeastUnused(r.id, files.Keys, 1) && PoolOk(files.Keys + {r.id}, freeFile, nextFile, 1)
      ensures !r.OpenFailed?
    {
      hide PoolOk, IsLeastUnused;
      assert |files| == |files.Keys|;
      if freeFile != multiset{} {
        var id := Lowest(freeFile);
        FreedIsLeast(files.Keys, freeFile, nextFile, 1, id);
        freeFile := freeFile - multiset{id};
        return Handle(id);
      }
      NextIsLeast(files.Keys, freeFile, nextFile, 1);
      if nextFile <= MAX_FS_HANDLES {
        var id := nextFile;
        nextFile := nextFile + 1;
        return Handle(id);
      }
      AtCap(files.Keys, freeFile, nextFile, 1);
      return Exhausted;
    }

    method AllocDir() returns (r: Opened)
      requires Valid()
      modifies `freeDir, `nextDir
      ensures r.Exhausted? <==> |dirs| >= 1024
      ensures r.Exhausted? ==> Valid() && freeDir == old(freeDir) && nextDir == old(nextDir)
      ensures r.Handle? ==> IsLeastUnused(r.id, dirs.Keys, 1025)
      ensures r.Handle? ==> PoolOk(dirs.Keys + {r.id}, freeDir, nextDir, 1025)
      ensures !r.OpenFailed?
    {
      hide PoolOk, IsLeastUnused;
      assert |dirs| == |dirs.Keys|;
      if freeDir != multiset{} {
        var id := Lowest(freeDir);
        FreedIsLeast(dirs.Keys, freeDir, nextDir, DIR_HANDLE_BASE, id);
        freeDir := freeDir - multiset{id};
        return Handle(id);
      }
      NextIsLeast(dirs.Keys, freeDir, nextDir, DIR_HANDLE_BASE);
      if nextDir < DIR_HANDLE_BASE + MAX_FS_HANDLES {
        var id := nextDir;
        nextDir := nextDir + 1;
        return Handle(id);
      }
      AtCap(dirs.Keys, freeDir, nextDir, DIR_HANDLE_BASE);
      return Exhausted;
    }

    /** `answer` is what the operating system answers, if it is asked. */
    method OpenFile(answer: Option<F>) returns (r: Opened)
      requires Valid()
      modifies this
      ensures Valid() && dirs == old(dirs)
      ensures r.Exhausted? <==> |old(files)| >= 1024
      ensures r.OpenFailed? <==> |old(files)| < 1024 && answer.None?
      ensures r.Handle? ==> IsLeastUnused(r.id, old(files).Keys, 1) && files == old(files)[r.id := answer.value]
      ensures !r.Handle? ==> files == old(files)
    {
      if |files| >= MAX_FS_HANDLES { return Exhausted; }
      if answer.None? { return OpenFailed; }
      r := AllocFile();
      if r.Handle? {
        files := files[r.id := answer.value];
        assert files.Keys == old(files).Keys + {r.id};
      }
    }

    method OpenDir(path: D) returns (r: Opened)
      requires Valid()
      modifies this
      ensures Valid() && files == old(files) && !r.OpenFailed?
      ensures r.Exhausted? <==> |old(dirs)| >= 1024
      ensures r.Handle? ==> IsLeastUnused(r.id, old(dirs).Keys, 1025) && dirs == old(dirs)[r.id := path]
      ensures r.Exhausted? ==> dirs == old(dirs)
    {
      r := AllocDir();
      if r.Handle? {
        dirs := dirs[r.id := path];
        assert dirs.Keys == old(dirs).Keys + {r.id};
      }
    }

    method CloseFile(handle: int) returns (ok: bool)
      requires Valid()
      modifies this
      ensures Valid() && dirs == old(dirs)
      ensures ok <==> handle in old(files)
      ensures files == old(files) - {handle}
    {
      ok := handle in files;
      if ok {
        RecycleKeeps(files.Keys, freeFile, nextFile, 1, handle);
        files := files - {handle};
        freeFile := freeFile + multiset{handle};
        assert files.Keys == old(files).Keys - {handle};
      }
    }

    method CloseDir(handle: int) returns (ok: bool)
      requires Valid()
      modifies this
      ensures Valid() && files == old(files)
      ensures ok <==> handle in old(dirs)
      ensures dirs == old(dirs) - {handle}
    {
      ok := handle in dirs;
      if ok {
        RecycleKeeps(dirs.Keys, freeDir, nextDir, DIR_HANDLE_BASE, handle);
        dirs := dirs - {handle};
        freeDir := freeDir + multiset{handle};
        assert dirs.Keys == old(dirs).Keys - {handle};
      }
    }
  }

  lemma AtCap(live: set<int>, free: multiset<int>, next: int, base: int)
    requires PoolOk(live, free, next, base) && |live| == next - base && next >= base + MAX_FS_HANDLES
    ensures |live| == 1024
  {
  }
}

/** Listener, socket and UDP handles: each table is scanned for its lowest free id. */
module NetHandles {
  import opened Ir
  import opened IdRanges

  const MAX_NET_HANDLES: int := 1024
  const LISTENER_HANDLE_BASE: int := 1000
  const SOCKET_HANDLE_BASE: int := 2000
  const UDP_HANDLE_BASE: int := 3000

  /** Fails only at the cap: below it the scan always finds an id. */
  method AllocateNetHandle(used: set<int>, base: int) returns (r: Option<int>)
    ensures r.None? <==> |used| >= 1024
    ensures r.Some? ==> IsLeastUnused(r.value, used, base + 1) && r.value <= base + 1024
  {
    if |used| >= MAX_NET_HANDLES { return None; }
    var i := 1;
    while i <= MAX_NET_HANDLES
      invariant 1 <= i <= MAX_NET_HANDLES + 1
      invariant forall x | base + 1 <= x < base + i :: x in used
    {
      if base + i !in used { return Some(base + i); }
      i := i + 1;
    }
    TooMany(used, base + 1, base + 1 + MAX_NET_HANDLES);
    return None;
  }

  lemma TooMany(used: set<int>, lo: int, hi: int)
    requires lo <= hi && forall x | lo <= x < hi :: x in used
    ensures |used| >= hi - lo
  {
    RangeSize(lo, hi);
    forall x | x in Range(lo, hi) ensures x in used { InRange(lo, hi, x); }
    SubsetSize(Range(lo, hi), used);
  }

  /** Every id lies in the first thousand above base. */
  ghost predicate Low(used: set<int>, base: int) {
    forall x | x in used :: base < x <= base + 1000
  }

  lemma LowStays(used: set<int>, base: int, id: int)
    requires Low(used, base) && IsLeastUnused(id, used, base + 1)
    ensures |used| < 1000 <==> id <= base + 1000
    ensures |used| <= 1000
    ensures |used| == 1000 ==> id == base + 1001
  {
    Filled(used, base + 1, base + 1001);
    assert base + 1001 !in used;
    if |used| < 1000 {
      var x :| base + 1 <= x < base + 1001 && x !in used;
      assert id <= x;
    }
  }

  /** Every id of a table lies in the range its scan hands out. */
  ghost predicate TableOk(used: set<int>, base: int) {
    forall x | x in used :: base < x <= base + MAX_NET_HANDLES
  }

  /** A new id is among the first thousand exactly when one of them is free. */
  lemma LowExactly(used: set<int>, base: int, id: int)
    requires IsLeastUnused(id, used, base + 1)
    ensures id <= base + 1000 <==> exists x | base < x <= base + 1000 :: x !in used
  {
    if x :| base < x <= base + 1000 && x !in used { assert id <= x; }
  }

  /**
   * A new id is sure not to be in the next table up, whatever that holds, exactly when one of the first
   * thousand ids is free.
   */
  lemma FreeOfAboveExactly(used: set<int>, base: int, id: int)
    requires IsLeastUnused(id, used, base + 1) && id <= base + MAX_NET_HANDLES
    ensures (forall above | TableOk(above, base + 1000) :: id !in above) <==> exists x | base < x <= base + 1000 :: x !in used
  {
    LowExactly(used, base, id);
    if id > base + 1000 {
      assert TableOk({id}, base + 1000) && id in {id};
    }
  }

  /** It is sure not to be in the next table down exactly when all of the first 24 ids are in use. */
  lemma FreeOfBelowExactly(used: set<int>, base: int, id: int)
    requires IsLeastUnused(id, used, base + 1) && id <= base + MAX_NET_HANDLES
    ensures (forall below | TableOk(below, base - 1000) :: id !in below) <==> forall x | base < x <= base + 24 :: x in used
  {
    if id <= base + 24 {
      assert TableOk({id}, base - 1000) && id in {id};
    }
  }

  /** With listeners 1001 to 2000 open, the next one gets 2001, the id of the first socket. */
  lemma RangesOverlap()
    ensures IsLeastUnused(2001, Range(1001, 2001), 1001)
    ensures IsLeastUnused(2001, {}, 2001)
    ensures |Range(1001, 2001)| < 1024
  {
    RangeSize(1001, 2001);
    forall x ensures x in Range(1001, 2001) <==> 1001 <= x < 2001 { InRange(1001, 2001, x); }
  }

  /** How many are open does not decide it: with 1001 to 2001 open but 1500, which are 1000, the next listener gets 1500. */
  lemma HoleIsReused()
    ensures |Range(1001, 2002) - {1500}| == 1000
    ensures IsLeastUnused(1500, Range(1001, 2002) - {1500}, 1001)
  {
    RangeSize(1001, 2002);
    forall x ensures x in Range(1001, 2002) <==> 1001 <= x < 2002 { InRange(1001, 2002, x); }
  }

  class NetState<L, S, U> {
    var listeners: map<int, L>
    var sockets: map<int, S>
    var udpSockets: map<int, U>

    /** Holds in every state. */
    ghost predicate Valid()
      reads this
    {
      && TableOk(listeners.Keys, LISTENER_HANDLE_BASE)
      && TableOk(sockets.Keys, SOCKET_HANDLE_BASE)
      && TableOk(udpSockets.Keys, UDP_HANDLE_BASE)
    }

    /** No handle is in two tables. */
    ghost predicate Distinct()
      reads this
    {
      listeners.Keys !! sockets.Keys && listeners.Keys !! udpSockets.Keys && sockets.Keys !! udpSockets.Keys
    }

    /** While no table has ever held more than 1000 entries. */
    ghost predicate AllLow()
      reads this
    {
      && Low(listeners.Keys, LISTENER_HANDLE_BASE)
      && Low(sockets.Keys, SOCKET_HANDLE_BASE)
      && Low(udpSockets.Keys, UDP_HANDLE_BASE)
    }

    constructor ()
      ensures Valid() && AllLow() && listeners == map[] && sockets == map[] && udpSockets == map[]
    {
      listeners, sockets, udpSockets := map[], map[], map[];
    }

    lemma OneTable()
      requires AllLow()
      ensures Distinct()
    {
      forall x | x in listeners.Keys ensures x !in sockets.Keys && x !in udpSockets.Keys { }
      forall x | x in sockets.Keys ensures x !in udpSockets.Keys { }
    }

    /** How many tables hold a handle. */
    ghost function Holders(handle: int): nat
      reads this
    {
      (if handle in listeners then 1 else 0) + (if handle in sockets then 1 else 0) + (if handle in udpSockets then 1 else 0)
    }

    /** Handles stay in one table each exactly when the new one is in no other. */
    method StoreListener(listener: L) returns (r: Option<int>)
      requires Valid()
      modifies `listeners
      ensures Valid()
      ensures r.None? <==> |old(listeners)| >= 1024
      ensures r.None? ==> listeners == old(listeners)
      ensures r.Some? ==> IsLeastUnused(r.value, old(listeners).Keys, 1001)
      ensures r.Some? ==> listeners == old(listeners)[r.value := listener]
      ensures r.Some? && old(Distinct()) ==> (Distinct() <==> r.value !in sockets && r.value !in udpSockets)
      ensures old(AllLow()) && |old(listeners)| < 1000 ==> AllLow()
    {
      assert |listeners| == |listeners.Keys|;
      r := AllocateNetHandle(listeners.Keys, LISTENER_HANDLE_BASE);
      if r.Some? {
        if AllLow() { LowStays(listeners.Keys, LISTENER_HANDLE_BASE, r.value); }
        hide IsLeastUnused;
        listeners := listeners[r.value := listener];
        if old(Distinct()) { DistinctAfter(old(listeners).Keys, r.value, sockets.Keys, udpSockets.Keys); }
        assert listeners.Keys == old(listeners).Keys + {r.value};
      }
    }

    method StoreSocket(socket: S) returns (r: Option<int>)
      requires Valid()
      modifies `sockets
      ensures Valid()
      ensures r.None? <==> |old(sockets)| >= 1024
      ensures r.None? ==> sockets == old(sockets)
      ensures r.Some? ==> IsLeastUnused(r.value, old(sockets).Keys, 2001)
      ensures r.Some? ==> sockets == old(sockets)[r.value := socket]
      ensures r.Some? && old(Distinct()) ==> (Distinct() <==> r.value !in listeners && r.value !in udpSockets)
      ensures old(AllLow()) && |old(sockets)| < 1000 ==> AllLow()
    {
      assert |sockets| == |sockets.Keys|;
      r := AllocateNetHandle(sockets.Keys, SOCKET_HANDLE_BASE);
      if r.Some? {
        if AllLow() { LowStays(sockets.Keys, SOCKET_HANDLE_BASE, r.value); }
        hide IsLeastUnused;
        sockets := sockets[r.value := socket];
        if old(Distinct()) { DistinctAfter(old(sockets).Keys, r.value, listeners.Keys, udpSockets.Keys); }
        assert sockets.Keys == old(sockets).Keys + {r.value};
      }
    }

    method StoreUdp(socket: U) returns (r: Option<int>)
      requires Valid()
      modifies `udpSockets
      ensures Valid()
      ensures r.None? <==> |old(udpSockets)| >= 1024
      ensures r.None? ==> udpSockets == old(udpSockets)
      ensures r.Some? ==> IsLeastUnused(r.value, old(udpSockets).Keys, 3001)
      ensures r.Some? ==> udpSockets == old(udpSockets)[r.value := socket]
      ensures r.Some? && old(Distinct()) ==> (Distinct() <==> r.value !in listeners && r.value !in sockets)
      ensures old(AllLow()) && |old(udpSockets)| < 1000 ==> AllLow()
    {
      assert |udpSockets| == |udpSockets.Keys|;
      r := AllocateNetHandle(udpSockets.Keys, UDP_HANDLE_BASE);
      if r.Some? {
        if AllLow() { LowStays(udpSockets.Keys, UDP_HANDLE_BASE, r.value); }
        hide IsLeastUnused;
        udpSockets := udpSockets[r.value := socket];
        if old(Distinct()) { DistinctAfter(old(udpSockets).Keys, r.value, listeners.Keys, sockets.Keys); }
        assert udpSockets.Keys == old(udpSockets).Keys + {r.value};
      }
    }

    /** Tries the tables in turn. Every entry for the handle goes exactly when at most one table holds it. */
    method Close(handle: int) returns (ok: bool)
      requires Valid()
      modifies this
      ensures Valid()
      ensures ok <==> old(Holders(handle)) > 0
      ensures Holders(handle) == if ok then old(Holders(handle)) - 1 else 0
      ensures Holders(handle) == 0 <==> old(Holders(handle)) <= 1
      ensures listeners == old(listeners) - {handle}
      ensures sockets == if handle in old(listeners) then old(sockets) else old(sockets) - {handle}
      ensures udpSockets == if handle in old(listeners) || handle in old(sockets) then old(udpSockets) else old(udpSockets) - {handle}
      ensures old(AllLow()) ==> AllLow()
      ensures old(Distinct()) ==> Distinct() && sockets == old(sockets) - {handle} && udpSockets == old(udpSockets) - {handle}
    {
      if handle in listeners {
        listeners := listeners - {handle};
        assert old(Distinct()) ==> sockets == sockets - {handle} && udpSockets == udpSockets - {handle};
        return true;
      }
      if handle in sockets {
        sockets := sockets - {handle};
        assert old(Distinct()) ==> udpSockets == udpSockets - {handle};
        return true;
      }
      ok := handle in udpSockets;
      udpSockets := udpSockets - {handle};
    }
  }

  lemma DistinctAfter(used: set<int>, id: int, a: set<int>, b: set<int>)
    requires used !! a && used !! b
    ensures used + {id} !! a && used + {id} !! b <==> id !in a && id !in b
  {
  }

  /**
   * Ids stay in use after an overflow is over: one listener is left, with id 2001, and the first socket gets
   * 2001 too.
   */
  method StaleOverlap<L, S, U>(state: NetState<L, S, U>, socket: S) returns (r: Option<int>)
    requires state.Valid() && state.listeners.Keys == {2001} && state.sockets == map[]
    modifies state
    ensures r == Some(2001) && state.Holders(2001) >= 2
  {
    r := state.StoreSocket(socket);
  }
}
