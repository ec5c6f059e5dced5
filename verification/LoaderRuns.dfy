/** Runs of the loader protocol seen from outside: which calls were made and
    which of them succeeded. */
module LoaderRuns {
  import opened Bytes
  import opened SectionCache
  import opened LoaderProtocol

  /** The state before call number `n`. */
  function Before(s: State, actions: seq<Action>, n: nat): (t: State)
    requires n <= |actions|
  {
    if n == 0 then s else Step(Before(s, actions, n - 1), true, actions[n - 1]).state
  }

  /** Every call of a secure-mode run is enabled when it is made. */
  ghost predicate Legal(s: State, actions: seq<Action>)
  {
    forall n :: 0 <= n < |actions| ==> Enabled(Before(s, actions, n), actions[n])
  }

  predicate Succeeds(s: State, actions: seq<Action>, n: nat)
    requires n < |actions|
  {
    Step(Before(s, actions, n), true, actions[n]).status.Success?
  }

  lemma {:induction false} BeforeRest(s: State, actions: seq<Action>, n: nat)
    requires n < |actions|
    ensures Before(Step(s, true, actions[0]).state, actions[1..], n) == Before(s, actions, n + 1)
  {
    hide Step;
    if n > 0 {
      BeforeRest(s, actions, n - 1);
    }
  }

  /** These are the runs of the state machine. */
  lemma {:induction false} LegalIsRun(s: State, actions: seq<Action>)
    ensures Legal(s, actions) <==> Run(s, true, actions, Before(s, actions, |actions|))
    decreases |actions|
  {
    hide Step, Enabled;
    if actions != [] {
      var s1, rest := Step(s, true, actions[0]).state, actions[1..];
      LegalIsRun(s1, rest);
      forall n | 0 <= n < |actions| ensures Before(s1, rest, n) == Before(s, actions, n + 1) {
        BeforeRest(s, actions, n);
      }
      assert Before(s, actions, 0) == s;
      if Legal(s, actions) {
        forall n | 0 <= n < |rest| ensures Enabled(Before(s1, rest, n), rest[n]) {
          assert Enabled(Before(s, actions, n + 1), actions[n + 1]);
        }
      }
      if Enabled(s, actions[0]) && Legal(s1, rest) {
        forall n | 0 <= n < |actions| ensures Enabled(Before(s, actions, n), actions[n]) {
          assert n > 0 ==> Enabled(Before(s1, rest, n - 1), rest[n - 1]);
        }
      }
    }
  }

  // ----- one call

  /** The image is verified in full, and has a section of this size and digest. */
  ghost predicate Offers(w: Work, size: nat, digest: Digest)
  {
    && w.wellFormed && w.fullVerdict && w.laidOut
    && exists i :: 0 <= i < |w.sections| && w.sections[i].size == size && w.sections[i].digest == digest
  }

  /** The call loads such an image as `h`. */
  ghost predicate Stores(a: Action, shim: Handle, h: Handle, size: nat, digest: Digest)
  {
    || (a.Boot? && h == shim && Offers(a.work, size, digest))
    || (a.Load? && h == a.request.handle && Offers(a.request.work, size, digest))
  }

  /** The call ends the image `h`: it exits or is unloaded. */
  predicate Finishes(s: State, a: Action, h: Handle)
  {
    h in s.images && (a == Exit(h) || a == Unload(h))
  }

  lemma {:induction false} CachingAdds(s: State, h: Handle, xs: seq<Section>, i: nat, limit: nat, image: seq<Byte>,
                                       e: Entry)
    requires i <= limit <= |xs| && e in CacheSections(s, h, xs, i, limit, image).cache
    ensures e in s.cache ||
              (e.handle == h && exists j :: 0 <= j < |xs| && xs[j].size == e.size && xs[j].digest == e.digest)
    decreases limit - i
  {
    if i < limit {
      CachingAdds(CacheOne(s, h, xs[i], image), h, xs, i + 1, limit, image, e);
    }
  }

  lemma {:induction false} FlushDrops(s: State, h: Handle, e: Entry)
    requires e in Flush(s, h).cache
    ensures e in s.cache && e.handle != h
  {
    var i :| 0 <= i < |Flush(s, h).cache| && Flush(s, h).cache[i] == e;
    assert s.cache[i] == e;
  }

  /** What is in the cache after `handle_image` was there before or was stored by it. */
  lemma {:induction false} HandleImageStores(s: State, h: Handle, parent: Handle, size: nat, digest: Digest,
                                             viaCache: bool, w: Work, e: Entry)
    requires e in HandleImage(s, true, h, parent, size, digest, viaCache, w).state.cache
    ensures e in s.cache || (!viaCache && e.handle == h && Offers(w, e.size, e.digest))
  {
    hide CacheSections, Flush;
    if w.wellFormed && w.laidOut && (viaCache || w.fullVerdict) {
      var s1 := if viaCache then s else Emit(s, Verified(h));
      var limit := if viaCache then 0 else Min(w.firstUncached, |w.sections|);
      var s2 := CacheSections(s1, h, w.sections, 0, limit, w.image);
      assert viaCache ==> s2 == s1 by { NothingCached(s1, h, w.sections, w.image); }
      if e in Flush(s2, h).cache {
        FlushDrops(s2, h, e);
      }
      if e in s2.cache {
        CachingAdds(s1, h, w.sections, 0, limit, w.image, e);
      }
    }
  }

  lemma NothingCached(s: State, h: Handle, xs: seq<Section>, image: seq<Byte>)
    ensures CacheSections(s, h, xs, 0, 0, image) == s
  {
  }

  lemma {:induction false} LoadStores(s: State, r: Request, e: Entry)
    requires e in LoadImage(s, true, r).state.cache
    ensures e in s.cache || (Stores(Load(r), s.shim, e.handle, e.size, e.digest) && !CacheHit(s, r))
  {
    hide HandleImage, CacheHit, HashFails, Offers;
    var s1 := Recorded(s, r);
    var o := HandleImage(s1, true, r.handle, r.parent, r.Size(), r.Digest(), CacheHit(s, r), r.work);
    assert s1.cache == s.cache;
    if e !in s.cache {
      assert e in o.state.cache;
      HandleImageStores(s1, r.handle, r.parent, r.Size(), r.Digest(), CacheHit(s, r), r.work, e);
    }
  }

  /** What is in the cache after a call was there before or was stored by the call, which then was not
      admitted through the cache itself; nothing is left of an image that the call ended. */
  lemma {:induction false} CallStores(s: State, a: Action, e: Entry)
    requires e in Step(s, true, a).state.cache
    ensures !Finishes(s, a, e.handle)
    ensures e in s.cache ||
              (Stores(a, s.shim, e.handle, e.size, e.digest) && (a.Load? ==> !CacheHit(s, a.request)))
  {
    hide HandleImage, Flush, CacheHit, HashFails, LoadImage, Offers;
    match a
    case Boot(size, digest, w) => HandleImageStores(s, s.shim, s.shim, size, digest, false, w, e);
    case Load(r) => LoadStores(s, r, e);
    case Start(h) =>
    case Exit(h) =>
      if h in s.images {
        FlushDrops(s, h, e);
      }
    case Unload(h) =>
      if h in s.images {
        FlushDrops(s, h, e);
      }
  }

  /** An image that exits or is unloaded leaves nothing that a later load could use, and its record is
      gone or freed. */
  lemma {:induction false} EndLeavesNothing(s: State, a: Action, h: Handle)
    requires Finishes(s, a, h)
    ensures var o := Step(s, true, a);
            && o.status == Success
            && (forall e :: e in o.state.cache ==> e.handle != h)
            && (forall r: Request :: r.parent == h ==> !CacheHit(o.state, r))
            && (if a == Exit(h) then h !in o.state.images else h in o.state.images && o.state.images[h].freed)
            && (forall g :: g != h ==> (g in o.state.images <==> g in s.images))
  {
    hide Flush;
    var o := Step(s, true, a);
    forall e | e in o.state.cache ensures e.handle != h {
      CallStores(s, a, e);
    }
    FlushKeepsRecords(s, h);
  }

  lemma FlushKeepsRecords(s: State, h: Handle)
    ensures Flush(s, h).images == s.images
  {
  }

  // ----- whole runs

  /** Call number `k` stored the section, and the image `h` was not ended between it and call number `n`. */
  ghost predicate LiveSince(s: State, actions: seq<Action>, k: nat, n: nat, h: Handle, size: nat, digest: Digest)
    requires n <= |actions|
  {
    && k < n && Stores(actions[k], s.shim, h, size, digest)
    && (actions[k].Load? ==> !CacheHit(Before(s, actions, k), actions[k].request))
    && forall i :: k < i < n ==> !Finishes(Before(s, actions, i), actions[i], h)
  }

  lemma {:induction false} ShimStays(s: State, actions: seq<Action>, n: nat)
    requires n <= |actions| && s.shim in s.used
    ensures Before(s, actions, n).shim == s.shim && s.shim in Before(s, actions, n).used
  {
    hide Step;
    if n > 0 {
      ShimStays(s, actions, n - 1);
      StepKeepsShim(Before(s, actions, n - 1), true, actions[n - 1]);
    }
  }

  /** Every cache entry was stored by an image that was verified in full and has not ended since. */
  lemma {:induction false} EntriesLive(s: State, actions: seq<Action>, n: nat, e: Entry) returns (k: nat)
    requires Initial(s) && n <= |actions| && e in Before(s, actions, n).cache
    ensures LiveSince(s, actions, k, n, e.handle, e.size, e.digest)
  {
    hide Step, Stores, CacheHit, Finishes;
    assert n > 0;
    var t, a := Before(s, actions, n - 1), actions[n - 1];
    CallStores(t, a, e);
    ShimStays(s, actions, n - 1);
    if e in t.cache {
      k := EntriesLive(s, actions, n - 1, e);
    } else {
      k := n - 1;
    }
  }

  /** A load that succeeds in secure mode: its image was verified in full, or under the word of its parent;
      then its size and digest are those of a section that the parent, verified in full, stored, and the
      parent has not ended since. */
  lemma {:induction false} LoadMeans(s: State, actions: seq<Action>, n: nat) returns (k: nat)
    requires Initial(s) && n < |actions| && actions[n].Load? && Succeeds(s, actions, n)
    ensures var r := actions[n].request;
            && r.work.wellFormed && r.work.laidOut && r.work.entryPoints == 1
            && (r.work.fullVerdict ||
                (r.work.childVerdict && r.FromBuffer() &&
                 LiveSince(s, actions, k, n, r.parent, r.Size(), r.Digest())))
  {
    hide Step, Stores, Finishes;
    var t, r := Before(s, actions, n), actions[n].request;
    LoadStepIff(t, r);
    k := 0;
    if CacheHit(t, r) {
      var e :| e in t.cache && Matches(e, r.parent, r.size, r.digest);
      k := EntriesLive(s, actions, n, e);
    }
  }

  /** The cache has a section of the parent with this size; it is compared by digest, too. */
  ghost predicate SizeCached(s: State, r: Request)
  {
    exists e :: e in s.cache && e.handle == r.parent && e.size == r.size
  }

  ghost predicate SectionCached(s: State, r: Request)
  {
    exists e :: e in s.cache && e.handle == r.parent && e.size == r.size && e.digest == r.digest
  }

  /** Exactly when a load succeeds in secure mode. */
  lemma {:induction false} LoadStepIff(s: State, r: Request)
    ensures CacheHit(s, r) <==> r.hasBuffer && r.size != 0 && r.hashOk && SectionCached(s, r)
    ensures Step(s, true, Load(r)).status.Success? <==>
              && !r.bootPolicy && r.recordOk && r.work.wellFormed && r.work.laidOut && r.work.entryPoints == 1
              && if r.hasBuffer && r.size != 0 then
                   && (SizeCached(s, r) ==> r.hashOk)
                   && (if SectionCached(s, r) && r.hashOk then r.work.childVerdict
                       else r.work.fullVerdict && |r.work.sections| <= r.work.firstUncached)
                 else
                   && r.hasPath && r.fileRead
                   && r.work.fullVerdict && |r.work.sections| <= r.work.firstUncached
  {
    hide CacheSections, Flush, HandleImage;
    var s1 := Recorded(s, r);
    HandleImageIff(s1, r.handle, r.parent, r.Size(), r.Digest(), CacheHit(s, r), r.work);
  }

  lemma {:induction false} HandleImageIff(s: State, h: Handle, parent: Handle, size: nat, digest: Digest,
                                          viaCache: bool, w: Work)
    ensures HandleImage(s, true, h, parent, size, digest, viaCache, w).status.Success? <==>
              && w.wellFormed && w.laidOut && w.entryPoints == 1
              && if viaCache then w.childVerdict else w.fullVerdict && |w.sections| <= w.firstUncached
  {
    hide CacheSections, Flush;
  }

  /** A load that succeeds leaves a record of a new image, not started, with its parent; one that fails
      leaves none; no other record changes. */
  lemma {:induction false} LoadRecords(s: State, r: Request)
    requires r.handle !in s.images
    ensures var o := Step(s, true, Load(r));
            && (if o.status.Success? then o.state.images == s.images[r.handle := Image(r.parent, false, false)]
                else o.state.images == s.images)
  {
    hide HandleImage, CacheHit, HashFails;
    HandleImageKeepsRecords(Recorded(s, r), true, r.handle, r.parent, r.Size(), r.Digest(), CacheHit(s, r), r.work);
    assert s.images[r.handle := Image(r.parent, false, false)] - {r.handle} == s.images;
  }

  /** Exactly when the second stage boots in secure mode. */
  lemma {:induction false} BootStepIff(s: State, size: nat, digest: Digest, w: Work)
    ensures Step(s, true, Boot(size, digest, w)).status.Success? <==>
              && w.wellFormed && w.laidOut && w.entryPoints == 1
              && w.fullVerdict && |w.sections| <= w.firstUncached
  {
    hide CacheSections, Flush;
  }

  /** A load or boot that succeeds on its own puts every section into the cache. */
  lemma {:induction false} LoadedIsCached(s: State, a: Action, i: nat)
    requires a.Boot? || (a.Load? && !CacheHit(s, a.request))
    requires Step(s, true, a).status.Success?
    requires var w := if a.Boot? then a.work else a.request.work; i < |w.sections|
    ensures var w := if a.Boot? then a.work else a.request.work;
            var h := if a.Boot? then s.shim else a.request.handle;
            exists e :: e in Step(s, true, a).state.cache && Matches(e, h, w.sections[i].size, w.sections[i].digest)
  {
    hide CacheHit, HashFails, Flush, CacheSections;
    var w := if a.Boot? then a.work else a.request.work;
    var h := if a.Boot? then s.shim else a.request.handle;
    var s0 := if a.Boot? then s else Recorded(s, a.request);
    AllCached(Emit(s0, Verified(h)), h, w.sections, 0, |w.sections|, w.image, i);
  }

  lemma {:induction false} AllCached(s: State, h: Handle, xs: seq<Section>, i: nat, limit: nat, image: seq<Byte>,
                                     j: nat)
    requires i <= j < limit <= |xs|
    ensures exists e :: e in CacheSections(s, h, xs, i, limit, image).cache && Matches(e, h, xs[j].size, xs[j].digest)
    decreases limit - i
  {
    var s1 := CacheOne(s, h, xs[i], image);
    if i < j {
      AllCached(s1, h, xs, i + 1, limit, image, j);
    } else {
      var e := Entry(h, xs[i].name, xs[i].size, xs[i].digest);
      assert e in s1.cache;
      CachingKeeps(s1, h, xs, i + 1, limit, image, e);
      assert Matches(e, h, xs[j].size, xs[j].digest);
    }
  }

  lemma {:induction false} CachingKeeps(s: State, h: Handle, xs: seq<Section>, i: nat, limit: nat, image: seq<Byte>,
                                        e: Entry)
    requires i <= limit <= |xs| && e in s.cache
    ensures e in CacheSections(s, h, xs, i, limit, image).cache
    decreases limit - i
  {
    if i < limit {
      CachingKeeps(CacheOne(s, h, xs[i], image), h, xs, i + 1, limit, image, e);
    }
  }

  /** So a buffer with the size and digest of one of its sections, loaded next with it as the parent,
      needs no verification of its own. */
  lemma {:induction false} SectionLoads(s: State, a: Action, r: Request, i: nat)
    requires a.Boot? || (a.Load? && !CacheHit(s, a.request))
    requires Step(s, true, a).status.Success?
    requires var w := if a.Boot? then a.work else a.request.work;
             i < |w.sections| && r.size == w.sections[i].size && r.digest == w.sections[i].digest
    requires r.parent == if a.Boot? then s.shim else a.request.handle
    requires r.hasBuffer && 0 < r.size && r.hashOk
    ensures CacheHit(Step(s, true, a).state, r)
  {
    hide Step;
    LoadedIsCached(s, a, i);
  }

  /** An image starts if and only if it has a record and was not started; then it is marked, and nothing else
      changes. */
  lemma {:induction false} StartIff(s: State, h: Handle)
    ensures var o := Step(s, true, Start(h));
            && (o.status.Success? <==> h in s.images && !s.images[h].started)
            && (if o.status.Success?
                then o.state == s.(images := s.images[h := Image(s.images[h].parent, true, s.images[h].freed)])
                else o.state == s)
  {
  }

  /** A load that fails adds nothing to the cache, unless it fails for lack of room in the cache. */
  lemma {:induction false} FailureStoresNothing(s: State, r: Request, e: Entry)
    requires !Step(s, true, Load(r)).status.Success? && e in Step(s, true, Load(r)).state.cache && e !in s.cache
    ensures Step(s, true, Load(r)).status == OutOfResources && r.work.firstUncached < |r.work.sections|
  {
    hide CacheHit, HashFails, CacheSections, BeforeFirst;
    var s1, w := Recorded(s, r), r.work;
    var limit := if CacheHit(s, r) then 0 else Min(w.firstUncached, |w.sections|);
    var s2 := CacheSections(if CacheHit(s, r) then s1 else Emit(s1, Verified(r.handle)), r.handle, w.sections, 0, limit,
                            w.image);
    if e in Flush(s2, r.handle).cache {
      FlushDrops(s2, r.handle, e);
      FlushedOnlyOld(s1, r, limit, e);
    }
    if CacheHit(s, r) {
      NothingCached(s1, r.handle, w.sections, w.image);
    }
  }

  lemma {:induction false} FlushedOnlyOld(s: State, r: Request, limit: nat, e: Entry)
    requires limit <= |r.work.sections| && e.handle != r.handle
    ensures var w := r.work;
            && (e in CacheSections(s, r.handle, w.sections, 0, limit, w.image).cache ==> e in s.cache)
            && (e in CacheSections(Emit(s, Verified(r.handle)), r.handle, w.sections, 0, limit, w.image).cache ==>
                  e in s.cache)
  {
    hide CacheSections;
    var w := r.work;
    if e in CacheSections(s, r.handle, w.sections, 0, limit, w.image).cache {
      CachingAdds(s, r.handle, w.sections, 0, limit, w.image, e);
    }
    var s1 := Emit(s, Verified(r.handle));
    if e in CacheSections(s1, r.handle, w.sections, 0, limit, w.image).cache {
      CachingAdds(s1, r.handle, w.sections, 0, limit, w.image, e);
    }
  }

  /** In that case the sections that found room stay. */
  lemma {:induction false} PartialCacheStays(s: State, r: Request, i: nat)
    requires !r.bootPolicy && r.recordOk && !HashFails(s, r) && !CacheHit(s, r)
    requires r.FromBuffer() || (r.hasPath && r.fileRead)
    requires r.work.wellFormed && r.work.fullVerdict && r.work.laidOut
    requires i < r.work.firstUncached < |r.work.sections|
    ensures var o := Step(s, true, Load(r));
            && o.status == OutOfResources && (r.handle !in o.state.images)
            && exists e :: e in o.state.cache &&
                 Matches(e, r.handle, r.work.sections[i].size, r.work.sections[i].digest)
  {
    hide CacheHit, HashFails, CacheSections, Matches;
    var w := r.work;
    AllCached(Emit(Recorded(s, r), Verified(r.handle)), r.handle, w.sections, 0, w.firstUncached, w.image, i);
  }
}
