/** The loader protocol of loader-proto.c as a state machine, with the section cache that
    lets a nested image skip the allowlist; firmware answers are data of each request. */
module LoaderProtocol {
  import opened Bytes
  import opened SectionCache

  /** A record installed on a handle by `shim_load_image`. */
  datatype Image = Image(parent: Handle, started: bool, freed: bool)

  /** What happened, in order; the record the safety claims are about. */
  datatype Event =
    | Verified(handle: Handle)
    | Cached(handle: Handle, size: nat, digest: Digest, image: seq<Byte>)
    | Flushed(handle: Handle)
    | Admitted(handle: Handle, parent: Handle, viaCache: bool, size: nat, digest: Digest, image: seq<Byte>)

  datatype State = State(
    shim: Handle,
    cache: seq<Entry>,
    images: map<Handle, Image>,
    used: set<Handle>,
    log: seq<Event>)

  datatype Section = Section(name: seq<Byte>, size: nat, digest: Digest)

  /** What `handle_image` meets while it works on one image, given as its bytes: the
      two verdicts are those of `verify_buffer` without and with a verified parent. */
  datatype Work = Work(
    image: seq<Byte>,
    wellFormed: bool,
    fullVerdict: bool,
    childVerdict: bool,
    laidOut: bool,
    sections: seq<Section>,
    firstUncached: nat,
    entryPoints: nat)

  datatype Request = Request(
    bootPolicy: bool,
    parent: Handle,
    hasBuffer: bool,
    size: nat,
    digest: Digest,
    hashOk: bool,
    hasPath: bool,
    fileRead: bool,
    fileSize: nat,
    fileDigest: Digest,
    recordOk: bool,
    handle: Handle,
    work: Work)
  {
    predicate FromBuffer() { hasBuffer && 0 < size }
    function Size(): (n: nat) { if FromBuffer() then size else fileSize }
    function Digest(): (d: SectionCache.Digest) { if FromBuffer() then digest else fileDigest }
  }

  datatype Action =
    | Boot(size: nat, digest: Digest, work: Work)
    | Load(request: Request)
    | Start(handle: Handle)
    | Exit(handle: Handle)
    | Unload(handle: Handle)

  datatype Outcome = Outcome(state: State, status: Status)

  // ----- the steps

  function Emit(s: State, e: Event): (r: State)
  {
    s.(log := s.log + [e])
  }

  function Flush(s: State, h: Handle): (r: State)
  {
    Emit(s.(cache := BeforeFirst(h, s.cache)), Flushed(h))
  }

  function CacheOne(s: State, h: Handle, x: Section, image: seq<Byte>): (r: State)
  {
    Emit(s.(cache := s.cache + [Entry(h, x.name, x.size, x.digest)]), Cached(h, x.size, x.digest, image))
  }

  /** Caches the sections from `i` up to `limit`, one after the other. */
  function CacheSections(s: State, h: Handle, xs: seq<Section>, i: nat, limit: nat, image: seq<Byte>): (r: State)
    requires i <= limit <= |xs|
    decreases limit - i
  {
    if i == limit then s else CacheSections(CacheOne(s, h, xs[i], image), h, xs, i + 1, limit, image)
  }

  function HandleImage(s: State, secure: bool, h: Handle, parent: Handle, size: nat, digest: Digest,
                       viaCache: bool, w: Work): (o: Outcome)
  {
    if !w.wellFormed then Outcome(s, Unsupported)
    else if secure && !(if viaCache then w.childVerdict else w.fullVerdict) then Outcome(s, SecurityViolation)
    else
      var s1 := if secure && !viaCache then Emit(s, Verified(h)) else s;
      if !w.laidOut then Outcome(s1, Unsupported)
      else
        var limit := if viaCache then 0 else Min(w.firstUncached, |w.sections|);
        var s2 := CacheSections(s1, h, w.sections, 0, limit, w.image);
        if !viaCache && limit < |w.sections| then Outcome(s2, OutOfResources)
        else if w.entryPoints != 1 then Outcome(Flush(s2, h), Unsupported)
        else Outcome(Emit(s2, Admitted(h, parent, viaCache, size, digest, w.image)), Success)
  }

  predicate CacheHit(s: State, r: Request)
  {
    r.hasBuffer && 0 < r.size && r.hashOk && exists e :: e in s.cache && Matches(e, r.parent, r.size, r.digest)
  }

  predicate HashFails(s: State, r: Request)
  {
    r.hasBuffer && 0 < r.size && !r.hashOk && exists e :: e in s.cache && e.handle == r.parent && e.size == r.size
  }

  /** The record of a new handle. */
  function Recorded(s: State, r: Request): (t: State)
  {
    s.(images := s.images[r.handle := Image(r.parent, false, false)], used := s.used + {r.handle})
  }

  function LoadImage(s: State, secure: bool, r: Request): (o: Outcome)
  {
    if r.bootPolicy then Outcome(s, Unsupported)
    else if HashFails(s, r) then Outcome(s, LoadError)
    else
      var viaCache := CacheHit(s, r);
      if !viaCache && !r.FromBuffer() && !r.hasPath then Outcome(s, NotFound)
      else if !viaCache && !r.FromBuffer() && !r.fileRead then Outcome(s, LoadError)
      else if !r.recordOk then Outcome(s, OutOfResources)
      else
        var o := HandleImage(Recorded(s, r), secure, r.handle, r.parent, r.Size(), r.Digest(), viaCache, r.work);
        if o.status.Success? then o
        else Outcome(o.state.(images := o.state.images - {r.handle}), o.status)
  }

  /** `shim_start_image` up to the entry point; a handle without a record goes
      to the firmware's own service. */
  function StartImage(s: State, h: Handle): (o: Outcome)
  {
    if h !in s.images then Outcome(s, Unsupported)
    else if s.images[h].started then Outcome(s, InvalidParameter)
    else Outcome(s.(images := s.images[h := s.images[h].(started := true)]), Success)
  }

  /** The end of a started image, by return or by `shim_exit`. */
  function EndImage(s: State, h: Handle): (o: Outcome)
  {
    if h !in s.images then Outcome(s, Unsupported)
    else var s1 := Flush(s, h); Outcome(s1.(images := s1.images - {h}), Success)
  }

  /** Unloading frees the record but leaves it installed. */
  function UnloadImage(s: State, h: Handle): (o: Outcome)
  {
    if h !in s.images then Outcome(s, Unsupported)
    else var s1 := Flush(s, h);
      Outcome(s1.(images := s1.images[h := s1.images[h].(freed := true)]), Success)
  }

  /** New handles are fresh, and freed records are not used again. */
  predicate Enabled(s: State, a: Action)
  {
    match a
    case Boot(_, _, _) => true
    case Load(r) => r.handle !in s.used
    case Start(h) => h in s.images ==> !s.images[h].freed
    case Exit(h) => h in s.images && s.images[h].started && !s.images[h].freed
    case Unload(h) => h in s.images ==> !s.images[h].freed
  }

  function Step(s: State, secure: bool, a: Action): (o: Outcome)
  {
    match a
    case Boot(size, digest, w) => HandleImage(s, secure, s.shim, s.shim, size, digest, false, w)
    case Load(r) => LoadImage(s, secure, r)
    case Start(h) => StartImage(s, h)
    case Exit(h) => EndImage(s, h)
    case Unload(h) => UnloadImage(s, h)
  }

  predicate Initial(s: State)
  {
    s.cache == [] && s.images == map[] && s.shim in s.used && s.log == []
  }

  /** `t` is reached from `s` by the given steps, each of them enabled. */
  ghost predicate Run(s: State, secure: bool, actions: seq<Action>, t: State)
    decreases |actions|
  {
    if actions == [] then s == t
    else Enabled(s, actions[0]) && Run(Step(s, secure, actions[0]).state, secure, actions[1..], t)
  }

  ghost predicate AllEnabled(s: State, secure: bool, actions: seq<Action>)
    decreases |actions|
  {
    actions != [] ==> Enabled(s, actions[0]) && AllEnabled(Step(s, secure, actions[0]).state, secure, actions[1..])
  }

  lemma {:induction false} RunOneMore(s: State, secure: bool, actions: seq<Action>, t: State, a: Action)
    requires Run(s, secure, actions, t) && Enabled(t, a)
    ensures Run(s, secure, actions + [a], Step(t, secure, a).state)
    decreases |actions|
  {
    hide Step, Enabled;
    if actions == [] {
      assert ([] + [a])[1..] == [];
    } else {
      assert (actions + [a])[1..] == actions[1..] + [a];
      RunOneMore(Step(s, secure, actions[0]).state, secure, actions[1..], t, a);
    }
  }

  // ----- the safety claim

  /** Before event `k`, a section of this size and digest was cached for `h` by
      an image that had passed full verification, and `h` was not flushed since. */
  ghost predicate Justified(log: seq<Event>, h: Handle, size: nat, digest: Digest, k: nat)
    requires k <= |log|
  {
    exists j :: 0 <= j < k && IsCached(log[j], h, size, digest) && VerifiedBefore(log, h, j)
             && forall m :: j < m < k ==> log[m] != Flushed(h)
  }

  ghost predicate IsCached(e: Event, h: Handle, size: nat, digest: Digest)
  {
    e.Cached? && e.handle == h && e.size == size && e.digest == digest
  }

  ghost predicate VerifiedBefore(log: seq<Event>, h: Handle, k: nat)
    requires k <= |log|
  {
    exists i :: 0 <= i < k && log[i] == Verified(h)
  }

  ghost predicate ViaCache(e: Event)
  {
    e.Admitted? && e.viaCache
  }

  /** Every admission follows a full verification of its handle, or goes through
      the cache and is justified by the parent's sections; and a handle admitted
      through the cache contributes nothing itself. */
  ghost predicate TrustChain(log: seq<Event>)
  {
    && (forall k :: 0 <= k < |log| && log[k].Admitted? && !log[k].viaCache ==> VerifiedBefore(log, log[k].handle, k))
    && (forall k :: 0 <= k < |log| && ViaCache(log[k]) ==>
          Justified(log, log[k].parent, log[k].size, log[k].digest, k))
    && (forall i, k :: 0 <= i < |log| && 0 <= k < |log| && ViaCache(log[k]) && (log[i].Verified? || log[i].Cached?)
          ==> log[i].handle != log[k].handle)
  }

  ghost predicate Inv(s: State)
  {
    && TrustChain(s.log)
    && (forall e :: e in s.cache ==> Justified(s.log, e.handle, e.size, e.digest, |s.log|))
    && s.shim in s.used
    && (forall i :: 0 <= i < |s.log| ==> s.log[i].handle in s.used || s.log[i].Flushed?)
    && (forall k :: 0 <= k < |s.log| && ViaCache(s.log[k]) ==> s.log[k].handle != s.shim)
  }

  /** `h` may still contribute: nothing was admitted through the cache as `h`. */
  ghost predicate Contributor(s: State, h: Handle)
  {
    h in s.used && forall k :: 0 <= k < |s.log| && ViaCache(s.log[k]) ==> s.log[k].handle != h
  }

  lemma {:induction false} JustifiedEarlier(log: seq<Event>, e: Event, h: Handle, size: nat, digest: Digest, k: nat)
    requires k <= |log| && Justified(log, h, size, digest, k)
    ensures Justified(log + [e], h, size, digest, k)
  {
    var j :| 0 <= j < k && IsCached(log[j], h, size, digest) && VerifiedBefore(log, h, j)
          && forall m :: j < m < k ==> log[m] != Flushed(h);
    var i :| 0 <= i < j && log[i] == Verified(h);
    assert (log + [e])[i] == Verified(h);
    assert VerifiedBefore(log + [e], h, j);
    assert IsCached((log + [e])[j], h, size, digest);
  }

  lemma {:induction false} JustifiedStill(log: seq<Event>, e: Event, h: Handle, size: nat, digest: Digest)
    requires Justified(log, h, size, digest, |log|) && e != Flushed(h)
    ensures Justified(log + [e], h, size, digest, |log| + 1)
  {
    var log' := log + [e];
    var j :| 0 <= j < |log| && IsCached(log[j], h, size, digest) && VerifiedBefore(log, h, j)
          && forall m :: j < m < |log| ==> log[m] != Flushed(h);
    var i :| 0 <= i < j && log[i] == Verified(h);
    assert log'[i] == Verified(h);
    assert VerifiedBefore(log', h, j);
    assert IsCached(log'[j], h, size, digest);
    assert forall m :: j < m < |log'| ==> log'[m] != Flushed(h);
  }

  lemma {:induction false} VerifiedEarlier(log: seq<Event>, e: Event, h: Handle, k: nat)
    requires k <= |log| && VerifiedBefore(log, h, k)
    ensures VerifiedBefore(log + [e], h, k) && VerifiedBefore(log + [e], h, |log| + 1)
  {
    var i :| 0 <= i < k && log[i] == Verified(h);
    assert (log + [e])[i] == Verified(h);
  }

  /** One more event keeps the claim, when it is an admission only after a
      verification or with a justification, and no contribution by an admitted handle. */
  lemma {:induction false} TrustChainGrows(log: seq<Event>, e: Event)
    requires TrustChain(log)
    requires ViaCache(e) ==> Justified(log, e.parent, e.size, e.digest, |log|)
    requires ViaCache(e) ==> forall i :: 0 <= i < |log| && (log[i].Verified? || log[i].Cached?) ==>
               log[i].handle != e.handle
    requires e.Verified? || e.Cached? ==> forall k :: 0 <= k < |log| && ViaCache(log[k]) ==> log[k].handle != e.handle
    requires e.Admitted? && !e.viaCache ==> VerifiedBefore(log, e.handle, |log|)
    ensures TrustChain(log + [e])
  {
    var log' := log + [e];
    forall k | 0 <= k < |log'| && log'[k].Admitted? && !log'[k].viaCache
      ensures VerifiedBefore(log', log'[k].handle, k)
    {
      VerifiedEarlier(log, e, log'[k].handle, k);
    }
    forall k | 0 <= k < |log'| && ViaCache(log'[k])
      ensures Justified(log', log'[k].parent, log'[k].size, log'[k].digest, k)
    {
      JustifiedEarlier(log, e, log'[k].parent, log'[k].size, log'[k].digest, k);
    }
  }

  lemma {:induction false} FlushKeeps(s: State, h: Handle)
    requires Inv(s)
    ensures Inv(Flush(s, h))
  {
    hide TrustChain, Justified, BeforeFirst;
    var t := Flush(s, h);
    TrustChainGrows(s.log, Flushed(h));
    forall e | e in t.cache ensures Justified(t.log, e.handle, e.size, e.digest, |t.log|) {
      var i :| 0 <= i < |t.cache| && t.cache[i] == e;
      assert s.cache[i] == e;
      JustifiedStill(s.log, Flushed(h), e.handle, e.size, e.digest);
    }
  }

  lemma {:induction false} VerifyKeeps(s: State, h: Handle)
    requires Inv(s) && Contributor(s, h)
    ensures Inv(Emit(s, Verified(h))) && Contributor(Emit(s, Verified(h)), h)
    ensures VerifiedBefore(Emit(s, Verified(h)).log, h, |s.log| + 1)
  {
    hide TrustChain, Justified;
    var t := Emit(s, Verified(h));
    TrustChainGrows(s.log, Verified(h));
    forall e | e in t.cache ensures Justified(t.log, e.handle, e.size, e.digest, |t.log|) {
      JustifiedStill(s.log, Verified(h), e.handle, e.size, e.digest);
    }
    assert t.log[|s.log|] == Verified(h);
  }

  lemma {:induction false} CacheOneKeeps(s: State, h: Handle, x: Section, image: seq<Byte>)
    requires Inv(s) && Contributor(s, h) && VerifiedBefore(s.log, h, |s.log|)
    ensures Inv(CacheOne(s, h, x, image)) && Contributor(CacheOne(s, h, x, image), h)
    ensures VerifiedBefore(CacheOne(s, h, x, image).log, h, |s.log| + 1)
  {
    var t := CacheOne(s, h, x, image);
    var ev := Cached(h, x.size, x.digest, image);
    TrustChainGrows(s.log, ev);
    var i :| 0 <= i < |s.log| && s.log[i] == Verified(h);
    assert t.log[i] == Verified(h) && t.log[|s.log|] == ev;
    assert VerifiedBefore(t.log, h, |s.log|);
    forall e | e in t.cache ensures Justified(t.log, e.handle, e.size, e.digest, |t.log|) {
      if e in s.cache {
        JustifiedStill(s.log, ev, e.handle, e.size, e.digest);
      }
    }
  }

  lemma {:induction false} CacheSectionsKeep(s: State, h: Handle, xs: seq<Section>, i: nat, limit: nat,
                                             image: seq<Byte>)
    requires i <= limit <= |xs|
    requires Inv(s) && Contributor(s, h) && (i < limit ==> VerifiedBefore(s.log, h, |s.log|))
    ensures Inv(CacheSections(s, h, xs, i, limit, image)) && Contributor(CacheSections(s, h, xs, i, limit, image), h)
    ensures VerifiedBefore(s.log, h, |s.log|) ==>
              VerifiedBefore(CacheSections(s, h, xs, i, limit, image).log, h,
                |CacheSections(s, h, xs, i, limit, image).log|)
    decreases limit - i
  {
    if i < limit {
      CacheOneKeeps(s, h, xs[i], image);
      CacheSectionsKeep(CacheOne(s, h, xs[i], image), h, xs, i + 1, limit, image);
    }
  }

  lemma {:induction false} AdmitKeeps(s: State, e: Event)
    requires Inv(s) && e.Admitted? && e.handle in s.used
    requires ViaCache(e) ==> e.handle != s.shim && Justified(s.log, e.parent, e.size, e.digest, |s.log|)
    requires ViaCache(e) ==> forall i :: 0 <= i < |s.log| ==> s.log[i].Flushed? || s.log[i].handle != e.handle
    requires !e.viaCache ==> VerifiedBefore(s.log, e.handle, |s.log|)
    ensures Inv(Emit(s, e))
  {
    TrustChainGrows(s.log, e);
    forall c | c in s.cache ensures Justified(Emit(s, e).log, c.handle, c.size, c.digest, |s.log| + 1) {
      JustifiedStill(s.log, e, c.handle, c.size, c.digest);
    }
  }

  /** Secure-mode `handle_image`: either a full verification by a handle that
      may contribute, or a cache hit for a handle not seen before. */
  lemma {:induction false} HandleImageKeeps(s: State, h: Handle, parent: Handle, size: nat, digest: Digest,
                                            viaCache: bool, w: Work)
    requires Inv(s) && h in s.used
    requires !viaCache ==> Contributor(s, h)
    requires viaCache ==> h != s.shim && Justified(s.log, parent, size, digest, |s.log|)
    requires viaCache ==> forall i :: 0 <= i < |s.log| ==> s.log[i].Flushed? || s.log[i].handle != h
    ensures Inv(HandleImage(s, true, h, parent, size, digest, viaCache, w).state)
  {
    var e := Admitted(h, parent, viaCache, size, digest, w.image);
    if viaCache {
      FlushKeeps(s, h);
      AdmitKeeps(s, e);
    } else if w.fullVerdict {
      VerifyKeeps(s, h);
      var s1 := Emit(s, Verified(h));
      var limit := Min(w.firstUncached, |w.sections|);
      CacheSectionsKeep(s1, h, w.sections, 0, limit, w.image);
      var s2 := CacheSections(s1, h, w.sections, 0, limit, w.image);
      FlushKeeps(s2, h);
      AdmitKeeps(s2, e);
    }
  }

  lemma {:induction false} StepKeeps(s: State, a: Action)
    requires Inv(s) && Enabled(s, a)
    ensures Inv(Step(s, true, a).state)
  {
    match a
    case Boot(size, digest, w) => HandleImageKeeps(s, s.shim, s.shim, size, digest, false, w);
    case Start(h) =>
    case Exit(h) => FlushKeeps(s, h);
    case Unload(h) => FlushKeeps(s, h);
    case Load(r) =>
      HandleImageKeeps(Recorded(s, r), r.handle, r.parent, r.Size(), r.Digest(), CacheHit(s, r), r.work);
  }

  lemma {:induction false} RunKeeps(s: State, actions: seq<Action>, t: State)
    requires Inv(s) && Run(s, true, actions, t)
    ensures Inv(t)
    decreases |actions|
  {
    if actions != [] {
      StepKeeps(s, actions[0]);
      RunKeeps(Step(s, true, actions[0]).state, actions[1..], t);
    }
  }

  /** In every secure-mode run with fresh handles, every admitted image was fully
      verified, or matches a live section of its fully verified parent. */
  lemma {:induction false} TrustChainHolds(s: State, actions: seq<Action>, t: State)
    requires Initial(s) && Run(s, true, actions, t)
    ensures TrustChain(t.log)
  {
    RunKeeps(s, actions, t);
  }

  /** The chain is one level deep: the parent of an image admitted through the
      cache was not itself admitted through the cache. */
  lemma {:induction false} OneLevelDeep(s: State, actions: seq<Action>, t: State, j: nat, k: nat)
    requires Initial(s) && Run(s, true, actions, t)
    requires j < |t.log| && k < |t.log| && ViaCache(t.log[j]) && ViaCache(t.log[k])
    ensures t.log[k].parent != t.log[j].handle
  {
    TrustChainHolds(s, actions, t);
    var e := t.log[k];
    var c :| 0 <= c < k && IsCached(t.log[c], e.parent, e.size, e.digest) && VerifiedBefore(t.log, e.parent, c)
          && forall m :: c < m < k ==> t.log[m] != Flushed(e.parent);
  }

  // ----- what handle_image leaves alone

  lemma {:induction false} CachingKeepsRecords(s: State, h: Handle, xs: seq<Section>, i: nat, limit: nat,
                                               image: seq<Byte>)
    requires i <= limit <= |xs|
    ensures var t := CacheSections(s, h, xs, i, limit, image);
            t.images == s.images && t.used == s.used && t.shim == s.shim
    decreases limit - i
  {
    if i < limit {
      CachingKeepsRecords(CacheOne(s, h, xs[i], image), h, xs, i + 1, limit, image);
    }
  }

  lemma {:induction false} HandleImageKeepsRecords(s: State, secure: bool, h: Handle, parent: Handle, size: nat,
    digest: Digest, viaCache: bool, w: Work)
    ensures var t := HandleImage(s, secure, h, parent, size, digest, viaCache, w).state;
            t.images == s.images && t.used == s.used && t.shim == s.shim
  {
    hide CacheSections;
    var s1 := if secure && !viaCache then Emit(s, Verified(h)) else s;
    CachingKeepsRecords(s1, h, w.sections, 0, if viaCache then 0 else Min(w.firstUncached, |w.sections|), w.image);
  }

  lemma {:induction false} StepKeepsShim(s: State, secure: bool, a: Action)
    requires s.shim in s.used
    ensures Step(s, secure, a).state.shim == s.shim && s.shim in Step(s, secure, a).state.used
  {
    hide HandleImage, BeforeFirst, CacheHit, HashFails;
    if a.Load? {
      var r := a.request;
      HandleImageKeepsRecords(Recorded(s, r), secure, r.handle, r.parent, r.Size(), r.Digest(), CacheHit(s, r), r.work);
    } else if a.Boot? {
      HandleImageKeepsRecords(s, secure, s.shim, s.shim, a.size, a.digest, false, a.work);
    }
  }

  // ----- admissions and verdicts

  /** What is true of the bytes of images: the decision on them, with or without a
      verified parent, inside the protocol or for shim's own second stage; whether
      an image, once loaded, has a section of some size and digest; their digest. */
  datatype Truth = Truth(
    judge: (seq<Byte>, bool, bool) -> bool,
    carries: (seq<Byte>, nat, Digest) -> bool,
    sha256: seq<Byte> -> Digest)

  /** No verdict in a piece of work is better than the decision on its image, and
      its sections are the image's. */
  ghost predicate Honest(w: Work, truth: Truth, inProtocol: bool)
  {
    && (w.fullVerdict ==> truth.judge(w.image, false, inProtocol))
    && (w.childVerdict ==> truth.judge(w.image, true, inProtocol))
    && forall i :: 0 <= i < |w.sections| ==> truth.carries(w.image, w.sections[i].size, w.sections[i].digest)
  }

  /** Size and digest are those of the image. */
  ghost predicate Measures(size: nat, digest: Digest, image: seq<Byte>, truth: Truth)
  {
    size == |image| && digest == truth.sha256(image)
  }

  /** The bytes that are sized and digested for the cache are those that are then
      worked on: the buffer, or the file that was read instead. */
  ghost predicate HonestAction(a: Action, truth: Truth)
  {
    match a
    case Boot(size, digest, w) => Honest(w, truth, false) && Measures(size, digest, w.image, truth)
    case Load(r) => Honest(r.work, truth, true) && Measures(r.Size(), r.Digest(), r.work.image, truth)
    case _ => true
  }

  /** Every admitted image was accepted, with a verified parent only if it came
      through the cache, and outside the protocol only as shim's second stage, and
      is the one that was measured; every cached section is one of an image accepted
      without a verified parent. */
  ghost predicate AllAccepted(log: seq<Event>, shim: Handle, truth: Truth)
  {
    && (forall k :: 0 <= k < |log| && log[k].Admitted? ==>
          && truth.judge(log[k].image, log[k].viaCache, log[k].handle != shim)
          && Measures(log[k].size, log[k].digest, log[k].image, truth))
    && (forall k :: 0 <= k < |log| && log[k].Cached? ==>
          && truth.judge(log[k].image, false, log[k].handle != shim)
          && truth.carries(log[k].image, log[k].size, log[k].digest))
  }

  lemma {:induction false} CachingAccepts(s: State, h: Handle, xs: seq<Section>, i: nat, limit: nat, image: seq<Byte>,
                                          shim: Handle, truth: Truth)
    requires i <= limit <= |xs| && AllAccepted(s.log, shim, truth) &&
             (i < limit ==> truth.judge(image, false, h != shim))
    requires forall j :: 0 <= j < |xs| ==> truth.carries(image, xs[j].size, xs[j].digest)
    ensures AllAccepted(CacheSections(s, h, xs, i, limit, image).log, shim, truth)
    decreases limit - i
  {
    if i < limit {
      CachingAccepts(CacheOne(s, h, xs[i], image), h, xs, i + 1, limit, image, shim, truth);
    }
  }

  lemma {:induction false} HandleImageAccepts(s: State, h: Handle, parent: Handle, size: nat, digest: Digest,
                                              viaCache: bool, w: Work, shim: Handle, truth: Truth)
    requires AllAccepted(s.log, shim, truth) && Honest(w, truth, h != shim) && Measures(size, digest, w.image, truth)
    ensures AllAccepted(HandleImage(s, true, h, parent, size, digest, viaCache, w).state.log, shim, truth)
  {
    hide CacheSections, Measures, AllAccepted;
    EmitAccepts(s, Verified(h), shim, truth);
    if viaCache || w.fullVerdict {
      var s1 := if viaCache then s else Emit(s, Verified(h));
      var limit := if viaCache then 0 else Min(w.firstUncached, |w.sections|);
      CachingAccepts(s1, h, w.sections, 0, limit, w.image, shim, truth);
      var s2 := CacheSections(s1, h, w.sections, 0, limit, w.image);
      EmitAccepts(s2.(cache := BeforeFirst(h, s2.cache)), Flushed(h), shim, truth);
      if !viaCache || w.childVerdict {
        EmitAccepts(s2, Admitted(h, parent, viaCache, size, digest, w.image), shim, truth);
      }
    }
  }

  lemma {:induction false} EmitAccepts(s: State, e: Event, shim: Handle, truth: Truth)
    requires AllAccepted(s.log, shim, truth) && !e.Cached?
    requires e.Admitted? ==>
               truth.judge(e.image, e.viaCache, e.handle != shim) && Measures(e.size, e.digest, e.image, truth)
    ensures AllAccepted(Emit(s, e).log, shim, truth)
  {
    hide Measures;
  }

  lemma {:induction false} StepAccepts(s: State, a: Action, truth: Truth)
    requires s.shim in s.used && Enabled(s, a) && AllAccepted(s.log, s.shim, truth) && HonestAction(a, truth)
    ensures AllAccepted(Step(s, true, a).state.log, s.shim, truth)
  {
    hide HandleImage, BeforeFirst, CacheHit, HashFails, Measures;
    match a
    case Boot(size, digest, w) => HandleImageAccepts(s, s.shim, s.shim, size, digest, false, w, s.shim, truth);
    case Start(h) =>
    case Exit(h) =>
    case Unload(h) =>
    case Load(r) =>
      HandleImageAccepts(Recorded(s, r), r.handle, r.parent, r.Size(), r.Digest(), CacheHit(s, r), r.work, s.shim,
        truth);
  }

  /** In every secure-mode run over honest work every admitted image was accepted and measured. */
  lemma {:induction false} RunAccepts(s: State, actions: seq<Action>, t: State, truth: Truth)
    requires s.shim in s.used && AllAccepted(s.log, s.shim, truth) && Run(s, true, actions, t)
    requires forall i :: 0 <= i < |actions| ==> HonestAction(actions[i], truth)
    ensures t.shim == s.shim && AllAccepted(t.log, s.shim, truth)
    decreases |actions|
  {
    hide Step, AllAccepted, HonestAction, Enabled;
    if actions != [] {
      StepAccepts(s, actions[0], truth);
      StepKeepsShim(s, true, actions[0]);
      RunAccepts(Step(s, true, actions[0]).state, actions[1..], t, truth);
    }
  }

  /** An image admitted through the cache has the size and digest of a section of an
      image that was accepted on its own, cached for the parent and not flushed since. */
  lemma {:induction false} CacheAdmissions(s: State, actions: seq<Action>, t: State, truth: Truth, k: nat)
    returns (j: nat)
    requires Initial(s) && Run(s, true, actions, t) && k < |t.log| && ViaCache(t.log[k])
    requires forall i :: 0 <= i < |actions| ==> HonestAction(actions[i], truth)
    ensures var e := t.log[k];
            && j < k && t.log[j].Cached? && t.log[j].handle == e.parent
            && truth.judge(t.log[j].image, false, e.parent != s.shim)
            && truth.carries(t.log[j].image, |e.image|, truth.sha256(e.image))
            && forall i :: j < i < k ==> t.log[i] != Flushed(e.parent)
  {
    hide Run, HonestAction;
    RunAccepts(s, actions, t, truth);
    TrustChainHolds(s, actions, t);
    var e := t.log[k];
    assert Justified(t.log, e.parent, e.size, e.digest, k);
    var i :| 0 <= i < k && IsCached(t.log[i], e.parent, e.size, e.digest) && VerifiedBefore(t.log, e.parent, i)
          && forall m :: i < m < k ==> t.log[m] != Flushed(e.parent);
    j := i;
  }

  // ----- an image starts once

  /** Once started, an image cannot be started again in any run that does not end it. */
  lemma {:induction false} StartsOnce(s: State, secure: bool, actions: seq<Action>, t: State, h: Handle)
    requires Run(s, secure, actions, t) && h in s.images && h in s.used && s.images[h].started && Exit(h) !in actions
    ensures h in t.images && t.images[h].started && StartImage(t, h) == Outcome(t, InvalidParameter)
    decreases |actions|
  {
    hide HandleImage, BeforeFirst, CacheHit, HashFails;
    if actions != [] {
      var a := actions[0];
      assert a in actions && a != Exit(h);
      if a.Load? {
        var r := a.request;
        HandleImageKeepsRecords(Recorded(s, r), secure, r.handle, r.parent, r.Size(), r.Digest(), CacheHit(s, r),
          r.work);
      } else if a.Boot? {
        HandleImageKeepsRecords(s, secure, s.shim, s.shim, a.size, a.digest, false, a.work);
      }
      StartsOnce(Step(s, secure, a).state, secure, actions[1..], t, h);
    }
  }

  // ----- the protocol as it runs: records, cache and flags updated in place

  class Loader {
    const shim: Handle
    const cache: Cache
    var images: map<Handle, Image>
    var inProtocol: bool
    ghost var used: set<Handle>
    ghost var log: seq<Event>

    ghost predicate Valid()
      reads this, cache
    {
      cache.Valid() && !inProtocol
    }

    ghost function View(): (s: State)
      requires cache.Valid()
      reads this, cache, cache.entries
    {
      State(shim, cache.Contents(), images, used, log)
    }

    constructor (shim: Handle, ghost firmware: set<Handle>)
      ensures Valid() && Initial(View()) && View().used == firmware + {shim}
      ensures fresh(cache) && fresh(cache.entries)
    {
      this.shim := shim;
      cache := new Cache();
      images := map[];
      inProtocol := false;
      used := firmware + {shim};
      log := [];
    }

    method FlushSections(h: Handle)
      requires cache.Valid()
      modifies this`log, cache, cache.entries
      ensures cache.Valid() && cache.entries == old(cache.entries)
      ensures View() == Flush(old(View()), h)
    {
      cache.FlushCachedSections(h);
      log := log + [Flushed(h)];
    }

    /** Caches an image's sections until an allocation fails. */
    method CacheAll(h: Handle, sections: seq<Section>, firstUncached: nat, ghost image: seq<Byte>)
      returns (status: Status)
      requires cache.Valid()
      modifies this`log, cache, cache.entries
      ensures cache.Valid() && (cache.entries == old(cache.entries) || fresh(cache.entries))
      ensures View() == CacheSections(old(View()), h, sections, 0, Min(firstUncached, |sections|), image)
      ensures status == if |sections| <= firstUncached then Success else OutOfResources
    {
      ghost var limit := Min(firstUncached, |sections|);
      var i := 0;
      while i < |sections|
        invariant i <= limit && cache.Valid()
        invariant cache.entries == old(cache.entries) || fresh(cache.entries)
        invariant CacheSections(View(), h, sections, i, limit, image) ==
                    CacheSections(old(View()), h, sections, 0, limit, image)
      {
        var x := sections[i];
        status := cache.CacheSection(h, x.name, x.digest, x.size, i < firstUncached, true);
        if status.OutOfResources? {
          return;
        }
        log := log + [Cached(h, x.size, x.digest, image)];
        i := i + 1;
      }
      return Success;
    }

    /** The part of `handle_image` that decides and caches. */
    method RunHandleImage(secure: bool, h: Handle, parent: Handle, size: nat, digest: Digest,
                          viaCache: bool, w: Work) returns (status: Status)
      requires cache.Valid()
      modifies this`log, cache, cache.entries
      ensures cache.Valid() && (cache.entries == old(cache.entries) || fresh(cache.entries))
      ensures Outcome(View(), status) == HandleImage(old(View()), secure, h, parent, size, digest, viaCache, w)
    {
      if !w.wellFormed {
        return Unsupported;
      }
      if secure {
        if (viaCache && !w.childVerdict) || (!viaCache && !w.fullVerdict) {
          return SecurityViolation;
        }
        if !viaCache {
          log := log + [Verified(h)];
        }
      }
      if !w.laidOut {
        return Unsupported;
      }
      if !viaCache {
        status := CacheAll(h, w.sections, w.firstUncached, w.image);
        if !status.Success? {
          return;
        }
      }
      if w.entryPoints != 1 {
        FlushSections(h);
        return Unsupported;
      }
      log := log + [Admitted(h, parent, viaCache, size, digest, w.image)];
      return Success;
    }

    method RunLoadImage(secure: bool, r: Request) returns (status: Status)
      requires Valid()
      modifies this, cache, cache.entries
      ensures Valid() && (cache.entries == old(cache.entries) || fresh(cache.entries))
      ensures Outcome(View(), status) == LoadImage(old(View()), secure, r)
    {
      if r.bootPolicy {
        return Unsupported;
      }
      var viaCache := false;
      if r.size != 0 && r.hasBuffer {
        status := cache.ValidateCachedSection(r.parent, r.size, r.digest, r.hashOk);
        if status.Success? {
          viaCache := true;
        } else if !status.NotFound? {
          return LoadError;
        }
      }
      assert viaCache == CacheHit(old(View()), r);
      var size, digest := r.size, r.digest;
      if !viaCache && !(r.hasBuffer && r.size != 0) {
        if !r.hasPath {
          return NotFound;
        }
        if !r.fileRead {
          return LoadError;
        }
        size, digest := r.fileSize, r.fileDigest;
      }
      if !r.recordOk {
        return OutOfResources;
      }
      images := images[r.handle := Image(r.parent, false, false)];
      used := used + {r.handle};
      inProtocol := true;
      status := RunHandleImage(secure, r.handle, r.parent, size, digest, viaCache, r.work);
      inProtocol := false;
      if !status.Success? {
        images := images - {r.handle};
      }
    }

    /** `shim_start_image` before and after the image's own run. */
    method RunStartImage(h: Handle) returns (status: Status)
      requires Valid()
      modifies this`images
      ensures Valid() && Outcome(View(), status) == StartImage(old(View()), h)
    {
      if h !in images {
        return Unsupported;
      }
      if images[h].started {
        return InvalidParameter;
      }
      images := images[h := images[h].(started := true)];
      return Success;
    }

    method RunEndImage(h: Handle) returns (status: Status)
      requires Valid()
      modifies this`images, this`log, cache, cache.entries
      ensures Valid() && cache.entries == old(cache.entries)
      ensures Outcome(View(), status) == EndImage(old(View()), h)
    {
      if h !in images {
        return Unsupported;
      }
      FlushSections(h);
      images := images - {h};
      return Success;
    }

    method RunUnloadImage(h: Handle) returns (status: Status)
      requires Valid()
      modifies this`images, this`log, cache, cache.entries
      ensures Valid() && cache.entries == old(cache.entries)
      ensures Outcome(View(), status) == UnloadImage(old(View()), h)
    {
      if h !in images {
        return Unsupported;
      }
      FlushSections(h);
      images := images[h := images[h].(freed := true)];
      return Success;
    }

    /** Any step of the state machine. */
    method Perform(secure: bool, a: Action) returns (status: Status)
      requires Valid()
      modifies this, cache, cache.entries
      ensures Valid() && (cache.entries == old(cache.entries) || fresh(cache.entries))
      ensures Outcome(View(), status) == Step(old(View()), secure, a)
    {
      hide HandleImage, LoadImage, StartImage, EndImage, UnloadImage;
      match a
      case Boot(size, digest, w) => status := RunHandleImage(secure, shim, shim, size, digest, false, w);
      case Load(r) => status := RunLoadImage(secure, r);
      case Start(h) => status := RunStartImage(h);
      case Exit(h) => status := RunEndImage(h);
      case Unload(h) => status := RunUnloadImage(h);
    }

    /** A run of the state machine, so what holds of every run holds of this object. */
    method PerformAll(secure: bool, actions: seq<Action>)
      requires Valid() && AllEnabled(View(), secure, actions)
      modifies this, cache, cache.entries
      ensures Valid() && Run(old(View()), secure, actions, View())
      ensures secure && old(Initial(View())) ==> TrustChain(log)
    {
      hide Step, Enabled, TrustChain, Initial;
      ghost var s := View();
      var i := 0;
      assert actions[..0] == [] && actions[0..] == actions;
      while i < |actions|
        invariant i <= |actions| && Valid() && (cache.entries == old(cache.entries) || fresh(cache.entries))
        invariant Run(s, secure, actions[..i], View()) && AllEnabled(View(), secure, actions[i..])
      {
        ghost var t := View();
        var status := Perform(secure, actions[i]);
        RunOneMore(s, secure, actions[..i], t, actions[i]);
        assert actions[..i + 1] == actions[..i] + [actions[i]] && actions[i..][1..] == actions[i + 1..];
        i := i + 1;
      }
      assert actions[..i] == actions;
      if secure && Initial(s) {
        TrustChainHolds(s, actions, View());
      }
    }
  }
}
