/** The cache as an object whose mutex-held regions update its maps in place. */
module CacheStore {
  import opened Prelude
  import opened ReaderCache

  datatype Acquired = Hit(handle: Handle) | Wait | Load

  class ArchiveCache {
    var entries: Entries
    var inflight: set<Edition>
    var handles: map<HandleId, Handle>
    var loaded: set<Archive>
    var log: seq<Archive>
    const config: Config

    constructor (maxOpen: nat, idleTTL: Time)
      ensures config == Config(maxOpen, idleTTL) && Snapshot() == State(map[], {}, map[], {}, [])
    {
      config := Config(maxOpen, idleTTL);
      entries, inflight, handles, loaded, log := map[], {}, map[], {}, [];
    }

    function Snapshot(): State
      reads this
    {
      State(entries, inflight, handles, loaded, log)
    }

    /** Closes and forgets every entry unreferenced and untouched for the idle time. */
    method SweepLocked(now: Time)
      modifies this`entries, this`log
      ensures SweepStep(config, old(Snapshot()), now, Snapshot())
      ensures forall ed :: ed in old(entries) ==> (ed !in entries
                <==> old(entries)[ed].refs == 0 && now - old(entries)[ed].lastUsed >= config.idleTTL)
      ensures forall ed :: ed in entries ==> ed in old(entries) && entries[ed] == old(entries)[ed]
    {
      ghost var before, logged := entries, log;
      ghost var order: seq<Edition> := [];
      var rest := entries.Keys;
      while rest != {}
        invariant rest <= before.Keys && Distinct(order)
        invariant forall ed :: ed in order <==> ed in before && ed !in rest && Idle(config, before[ed], now)
        invariant entries == map ed | ed in before && (ed in rest || !Idle(config, before[ed], now)) :: before[ed]
        invariant forall i :: 0 <= i < |order| ==> order[i] in before
        invariant log == logged + ArchivesOf(before, order)
        decreases rest
      {
        var ed :| ed in rest;
        var e := entries[ed];
        if e.refs == 0 && now - e.lastUsed >= config.idleTTL {
          entries := entries - {ed};
          log := log + [e.archive];
          assert ArchivesOf(before, order + [ed]) == ArchivesOf(before, order) + [e.archive];
          order := order + [ed];
        }
        rest := rest - {ed};
      }
      assert Closes(before, entries, order, logged, log);
    }

    /** The least recently used entry among those not flagged (and, if asked, not referenced). */
    method FindLru(onlyFree: bool) returns (lru: Option<Edition>)
      ensures lru.None? ==> forall x :: x in entries ==> entries[x].evict || (onlyFree && entries[x].refs != 0)
      ensures lru.Some? ==> if onlyFree then IsLruFree(entries, lru.value) else IsLruUnflagged(entries, lru.value)
      ensures lru.Some? ==> lru.value in entries && !entries[lru.value].evict
      ensures lru.Some? ==> forall x :: x in entries && !entries[x].evict && (onlyFree ==> entries[x].refs == 0)
                              ==> entries[lru.value].lastUsed <= entries[x].lastUsed
    {
      lru := None;
      var rest := entries.Keys;
      while rest != {}
        invariant rest <= entries.Keys
        invariant lru.Some?
                  ==> lru.value in entries && !entries[lru.value].evict && (onlyFree ==> entries[lru.value].refs == 0)
        invariant forall x :: x in entries && x !in rest && !entries[x].evict && (onlyFree ==> entries[x].refs == 0)
                    ==> lru.Some? && entries[lru.value].lastUsed <= entries[x].lastUsed
        decreases rest
      {
        var x :| x in rest;
        if !entries[x].evict && (onlyFree ==> entries[x].refs == 0)
           && (lru.None? || entries[x].lastUsed < entries[lru.value].lastUsed) {
          lru := Some(x);
        }
        rest := rest - {x};
      }
    }

    /** Everything left is pinned: flag the least recently used entry not flagged yet, if there is one. */
    method FlagLRU()
      requires |entries.Keys| > config.maxOpen && forall x :: x in entries ==> !entries[x].Free()
      modifies this`entries
      ensures Settles(old(entries), config.maxOpen, entries) && entries.Keys == old(entries).Keys
    {
      var lru := FindLru(false);
      if lru.Some? { entries := Flag(entries, lru.value); }
    }

    method EvictLRULocked() returns (ghost victims: seq<Edition>)
      modifies this`entries, this`log
      ensures Evicts(old(entries), config.maxOpen, victims, entries)
      ensures Closes(old(entries), entries, victims, old(log), log)
    {
      ghost var before, logged := entries, log;
      victims := [];
      while |entries.Keys| > config.maxOpen
        invariant Drains(before, config.maxOpen, victims, entries)
        invariant Closes(before, entries, victims, logged, log)
        decreases |entries.Keys|
      {
        var free := FindLru(true);
        if free.Some? {
          CloseOne(before, config.maxOpen, entries, victims, logged, log, free.value);
          log := log + [entries[free.value].archive];
          entries := entries - {free.value};
          victims := victims + [free.value];
          continue;
        }
        ghost var left := entries;
        FlagLRU();
        SameKeysClose(before, left, entries, victims, logged, log);
        assert Evicts(before, config.maxOpen, victims, entries);
        return;
      }
    }

    /** The first mutex-held region of Acquire. */
    method Acquire(ed: Edition, h: HandleId, now: Time) returns (a: Acquired)
      requires h !in handles
      modifies this
      ensures a.Hit? <==> IsOpen(old(entries), ed, now, config.idleTTL)
      ensures a.Wait? <==> !IsOpen(old(entries), ed, now, config.idleTTL) && ed in old(inflight)
      ensures a.Hit? ==> Step(config, old(Snapshot()), AcquireHit(ed, h, now), Snapshot())
      ensures a.Hit? ==> a.handle == Handle(ed, old(entries)[ed].archive) && handles == old(handles)[h := a.handle]
      ensures a.Hit? <==> ed in entries
      ensures a.Hit? ==> entries[ed] == old(entries)[ed].(refs := old(entries)[ed].refs + 1, lastUsed := now)
      ensures !a.Hit? ==> handles == old(handles)
      ensures inflight == if a.Load? then old(inflight) + {ed} else old(inflight)
      ensures forall x :: x in old(entries) && x != ed && IsOpen(old(entries), x, now, config.idleTTL)
                ==> x in entries && entries[x] == old(entries)[x]
      ensures a.Wait? ==> Step(config, old(Snapshot()), AcquireWait(ed, now), Snapshot())
      ensures a.Load? ==> Step(config, old(Snapshot()), AcquireLoad(ed, now), Snapshot())
    {
      SweepLocked(now);
      ghost var swept := Snapshot();
      assert SweepStep(config, old(Snapshot()), now, swept);
      if ed in entries {
        var e := entries[ed];
        entries := entries[ed := e.(refs := e.refs + 1, lastUsed := now)];
        handles := handles[h := Handle(ed, e.archive)];
        return Hit(handles[h]);
      }
      if ed in inflight { return Wait; }
      inflight := inflight + {ed};
      a := Load;
    }

    /** The second region, once the loader has returned; None is a failed load. */
    method FinishLoad(ed: Edition, result: Option<Archive>, h: HandleId, now: Time)
      requires ed in inflight && h !in handles && (result.Some? ==> result.value !in loaded)
      modifies this
      ensures var e := if result.None? then LoadFailed(ed) else LoadDone(ed, result.value, h, now);
              Step(config, old(Snapshot()), e, Snapshot())
      ensures inflight == old(inflight) - {ed} && (result.None? ==> entries == old(entries) && handles == old(handles))
      ensures result.Some? ==> handles == old(handles)[h := Handle(ed, result.value)] && ed in entries
      ensures result.Some? ==> entries[ed] == Entry(result.value, now, 1, entries[ed].evict)
      ensures result.Some? ==> var m := old(entries)[ed := Entry(result.value, now, 1, false)];
                ClosesFairly(m, config.maxOpen, entries) && FlagsFairly(m, config.maxOpen, entries)
    {
      inflight := inflight - {ed};
      if result.None? { return; }
      entries := entries[ed := Entry(result.value, now, 1, false)];
      ghost var m := entries;
      ghost var victims := EvictLRULocked();
      EvictsFairly(m, config.maxOpen, victims, entries);
      EvictsKeepsPinned(m, config.maxOpen, victims, entries);
      loaded := loaded + {result.value};
      handles := handles[h := Handle(ed, result.value)];
    }

    /** Releasing a handle; a second release of the same handle does nothing. */
    method Release(h: HandleId, now: Time)
      requires h in handles ==> Pinned(Snapshot(), h)
      modifies this
      ensures h in old(handles) ==> Step(config, old(Snapshot()), Event.Release(h, now), Snapshot())
      ensures h !in old(handles) ==> Snapshot() == old(Snapshot())
      ensures h in old(handles) ==> handles == old(handles) - {h} && inflight == old(inflight)
      ensures h in old(handles) ==> var ed := old(handles)[h].edition; var was := old(entries)[ed];
                && (ed in entries ==> entries[ed] == was.(refs := was.refs - 1, lastUsed := now))
                && (ed !in entries <==> old(entries)[ed].refs == 1 && old(entries)[ed].evict)
                && (ed !in entries ==> entries == old(entries) - {ed} && log == old(log) + [old(entries)[ed].archive])
                && (ed in entries ==> log == old(log) && entries == old(entries)[ed := entries[ed]])
    {
      if h !in handles { return; }
      var ed := handles[h].edition;
      handles := handles - {h};
      var e := entries[ed].(refs := entries[ed].refs - 1, lastUsed := now);
      if e.refs == 0 && e.evict {
        entries := entries - {ed};
        log := log + [e.archive];
      } else {
        entries := entries[ed := e];
      }
    }
  }

  /** The edition is in the cache and the idle sweep leaves it there: referenced, or used within the idle time. */
  predicate IsOpen(m: Entries, ed: Edition, now: Time, idleTTL: Time) {
    ed in m && (m[ed].refs > 0 || now - m[ed].lastUsed < idleTTL)
  }

  lemma CloseOne(m: Entries, max: nat, left: Entries, victims: seq<Edition>, logged: seq<Archive>, log: seq<Archive>,
                 v: Edition)
    requires Drains(m, max, victims, left) && |left.Keys| > max && IsLruFree(left, v)
    requires Closes(m, left, victims, logged, log)
    ensures Drains(m, max, victims + [v], left - {v})
    ensures Closes(m, left - {v}, victims + [v], logged, log + [left[v].archive])
  {
    DrainsOnlyFree(m, max, victims, left);
    assert (victims + [v])[..|victims|] == victims;
    assert (left - {v})[v := m[v]] == left;
    assert ArchivesOf(m, victims + [v]) == ArchivesOf(m, victims) + [left[v].archive];
  }

  lemma SameKeysClose(m: Entries, left: Entries, left': Entries, victims: seq<Edition>, logged: seq<Archive>,
                      log: seq<Archive>)
    requires Closes(m, left, victims, logged, log) && left'.Keys == left.Keys
    ensures Closes(m, left', victims, logged, log)
  {
  }
}
