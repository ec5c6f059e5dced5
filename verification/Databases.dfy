/** Looking up hashes and certificates in EFI_SIGNATURE_LIST databases, as
    verify.c does, and what a well-formed database lists. */
module Databases {
  import opened Bytes
  import opened SignatureList

  // ----- the walks over raw bytes

  /** One of `n` signatures of `step` bytes carries `hash` after its owner. */
  predicate AnySignature(m: Memory, at: nat, n: nat, step: nat, hash: seq<Byte>)
    decreases n
  {
    n > 0 && (m.Slice(at + GUID_SIZE, |hash|) == hash || AnySignature(m, at + step, n - 1, step, hash))
  }

  function FirstSignature(m: Memory, pos: nat): (at: nat) { pos + LIST_HEADER + HeaderSizeAt(m, pos) }

  /** In 64-bit arithmetic: sizes smaller than the headers count very many. */
  function SignatureCount(m: Memory, pos: nat): (n: nat)
  {
    if SigSizeAt(m, pos) == 0 then 0
    else Divided((ListSizeAt(m, pos) - LIST_HEADER - HeaderSizeAt(m, pos)) % U64, SigSizeAt(m, pos))
  }

  predicate ListHasHash(m: Memory, pos: nat, kind: Guid, hash: seq<Byte>)
  {
    TypeAt(m, pos) == kind &&
    AnySignature(m, FirstSignature(m, pos), SignatureCount(m, pos), SigSizeAt(m, pos), hash)
  }

  /** There is another list for the loop. */
  predicate More(m: Memory, pos: nat, size: nat) { 0 < size && ListSizeAt(m, pos) <= size }

  predicate HashIn(m: Memory, pos: nat, size: nat, kind: Guid, hash: seq<Byte>)
    decreases size
  {
    More(m, pos, size) &&
    (ListHasHash(m, pos, kind, hash) ||
     (0 < ListSizeAt(m, pos) && HashIn(m, pos + ListSizeAt(m, pos), size - ListSizeAt(m, pos), kind, hash)))
  }

  /** The walk for a hash comes to an end: no list it reaches has signatures of
      size zero, by which it divides, and none it leaves has size zero. */
  predicate HashWalks(m: Memory, pos: nat, size: nat, kind: Guid, hash: seq<Byte>)
    decreases size
  {
    More(m, pos, size) ==>
      && 0 < SigSizeAt(m, pos)
      && (ListHasHash(m, pos, kind, hash) ||
          (0 < ListSizeAt(m, pos) && HashWalks(m, pos + ListSizeAt(m, pos), size - ListSizeAt(m, pos), kind, hash)))
  }

  function FirstCertificate(m: Memory, pos: nat): (c: seq<Byte>)
  {
    m.Slice(FirstSignature(m, pos) + GUID_SIZE, (SigSizeAt(m, pos) - GUID_SIZE) % U64)
  }

  predicate ListHasCert(m: Memory, pos: nat, accepts: seq<Byte> -> bool)
  {
    TypeAt(m, pos) == X509 && accepts(FirstCertificate(m, pos))
  }

  /** Some X.509 list starts with a certificate that `accepts` takes. */
  predicate CertIn(m: Memory, pos: nat, size: nat, accepts: seq<Byte> -> bool)
    decreases size
  {
    More(m, pos, size) &&
    (ListHasCert(m, pos, accepts) ||
     (0 < ListSizeAt(m, pos) && CertIn(m, pos + ListSizeAt(m, pos), size - ListSizeAt(m, pos), accepts)))
  }

  predicate CertWalks(m: Memory, pos: nat, size: nat, accepts: seq<Byte> -> bool)
    decreases size
  {
    More(m, pos, size) ==>
      (ListHasCert(m, pos, accepts) ||
       (0 < ListSizeAt(m, pos) && CertWalks(m, pos + ListSizeAt(m, pos), size - ListSizeAt(m, pos), accepts)))
  }

  /** Every list that a walk can reach can be divided by and stepped over. */
  predicate Walkable(m: Memory, pos: nat, size: nat)
    decreases size
  {
    More(m, pos, size) ==>
      0 < SigSizeAt(m, pos) && 0 < ListSizeAt(m, pos) &&
      Walkable(m, pos + ListSizeAt(m, pos), size - ListSizeAt(m, pos))
  }

  /** Then every walk ends, whatever it looks for. */
  lemma {:induction false} WalksEnd(m: Memory, pos: nat, size: nat, kind: Guid, hash: seq<Byte>,
                                    accepts: seq<Byte> -> bool)
    requires Walkable(m, pos, size)
    ensures HashWalks(m, pos, size, kind, hash) && CertWalks(m, pos, size, accepts)
    decreases size
  {
    hide ListSizeAt, SigSizeAt, ListHasHash, ListHasCert;
    if More(m, pos, size) {
      WalksEnd(m, pos + ListSizeAt(m, pos), size - ListSizeAt(m, pos), kind, hash, accepts);
    }
  }

  /** Where either walk stands after `n` lists that it passed over. */
  function After(m: Memory, pos: nat, size: nat, n: nat): (r: (nat, nat))
    decreases n
  {
    if n == 0 || !More(m, pos, size) then (pos, size)
    else After(m, pos + ListSizeAt(m, pos), size - ListSizeAt(m, pos), n - 1)
  }

  /** Once at a list of size zero, the walk stays there however often it goes on. */
  lemma {:induction false} EmptyListHolds(m: Memory, pos: nat, size: nat, n: nat)
    requires ListSizeAt(m, pos) == 0
    ensures After(m, pos, size, n) == (pos, size)
    decreases n
  {
    hide ListSizeAt;
    if n > 0 {
      EmptyListHolds(m, pos, size, n - 1);
    }
  }

  /** The walk for a certificate ends if and only if it finds one, or no number of
      steps brings it to a list of size zero. */
  lemma {:induction false} CertWalksIff(m: Memory, pos: nat, size: nat, accepts: seq<Byte> -> bool)
    ensures CertWalks(m, pos, size, accepts) <==>
              CertIn(m, pos, size, accepts) || forall n: nat :: LeavesAfter(m, pos, size, n)
    decreases size
  {
    hide ListSizeAt, ListHasCert, Leaves, More;
    var step := ListSizeAt(m, pos);
    assert After(m, pos, size, 0) == (pos, size);
    LeavesIf(m, pos, size);
    if More(m, pos, size) && 0 < step {
      var pos', size' := pos + step, size - step;
      CertWalksIff(m, pos', size', accepts);
      forall n: nat ensures After(m, pos', size', n) == After(m, pos, size, n + 1) {
      }
      if forall n: nat :: LeavesAfter(m, pos', size', n) {
        forall n: nat ensures LeavesAfter(m, pos, size, n) {
          if n > 0 {
            assert LeavesAfter(m, pos', size', n - 1);
          }
        }
      }
      if forall n: nat :: LeavesAfter(m, pos, size, n) {
        forall n: nat ensures LeavesAfter(m, pos', size', n) {
          assert LeavesAfter(m, pos, size, n + 1);
        }
      }
    } else if !More(m, pos, size) {
      forall n: nat ensures LeavesAfter(m, pos, size, n) {
        assert After(m, pos, size, n) == (pos, size);
      }
    } else {
      assert !LeavesAfter(m, pos, size, 0);
    }
  }

  lemma LeavesIf(m: Memory, pos: nat, size: nat)
    ensures More(m, pos, size) ==> 0 < size && ListSizeAt(m, pos) <= size
    ensures Leaves(m, pos, size) <==> (More(m, pos, size) ==> 0 < ListSizeAt(m, pos))
  {
  }

  predicate LeavesAfter(m: Memory, pos: nat, size: nat, n: nat)
  {
    Leaves(m, After(m, pos, size, n).0, After(m, pos, size, n).1)
  }

  /** The list `n` steps on is there and carries the hash. */
  predicate FoundAfter(m: Memory, pos: nat, size: nat, kind: Guid, hash: seq<Byte>, n: nat)
  {
    var p := After(m, pos, size, n);
    More(m, p.0, p.1) && ListHasHash(m, p.0, kind, hash)
  }

  /** The list `n` steps on, if there is one, can be divided by, and left unless it carries the hash. */
  predicate SafeAfter(m: Memory, pos: nat, size: nat, kind: Guid, hash: seq<Byte>, n: nat)
  {
    var p := After(m, pos, size, n);
    More(m, p.0, p.1) ==> 0 < SigSizeAt(m, p.0) && (ListHasHash(m, p.0, kind, hash) || 0 < ListSizeAt(m, p.0))
  }

  /** The walk for a hash ends if and only if no list that it reaches before a match has signatures
      of size zero, and none that it leaves has size zero. */
  lemma {:induction false} HashWalksIff(m: Memory, pos: nat, size: nat, kind: Guid, hash: seq<Byte>)
    ensures HashWalks(m, pos, size, kind, hash) <==>
              forall n: nat :: (forall k: nat :: k < n ==> !FoundAfter(m, pos, size, kind, hash, k)) ==>
                SafeAfter(m, pos, size, kind, hash, n)
    decreases size
  {
    hide ListSizeAt, SigSizeAt, ListHasHash, More;
    var step := ListSizeAt(m, pos);
    assert After(m, pos, size, 0) == (pos, size);
    LeavesIf(m, pos, size);
    if !More(m, pos, size) {
      forall n: nat ensures SafeAfter(m, pos, size, kind, hash, n) {
        assert After(m, pos, size, n) == (pos, size);
      }
    } else if ListHasHash(m, pos, kind, hash) || step == 0 {
      assert FoundAfter(m, pos, size, kind, hash, 0) <==> ListHasHash(m, pos, kind, hash);
      assert SafeAfter(m, pos, size, kind, hash, 0) <==>
               0 < SigSizeAt(m, pos) && (ListHasHash(m, pos, kind, hash) || 0 < step);
    } else {
      var pos', size' := pos + step, size - step;
      HashWalksIff(m, pos', size', kind, hash);
      forall n: nat ensures After(m, pos', size', n) == After(m, pos, size, n + 1) {
      }
      NextIff(m, pos, size, kind, hash);
    }
  }

  lemma {:induction false} NextIff(m: Memory, pos: nat, size: nat, kind: Guid, hash: seq<Byte>)
    requires More(m, pos, size) && !ListHasHash(m, pos, kind, hash) && 0 < ListSizeAt(m, pos)
    ensures (forall n: nat :: (forall k: nat :: k < n ==> !FoundAfter(m, pos, size, kind, hash, k)) ==>
               SafeAfter(m, pos, size, kind, hash, n)) <==>
            0 < SigSizeAt(m, pos) &&
            var pos', size' := pos + ListSizeAt(m, pos), size - ListSizeAt(m, pos);
            forall n: nat :: (forall k: nat :: k < n ==> !FoundAfter(m, pos', size', kind, hash, k)) ==>
              SafeAfter(m, pos', size', kind, hash, n)
  {
    hide ListSizeAt, SigSizeAt, ListHasHash, More, FoundAfter, SafeAfter;
    LeavesIf(m, pos, size);
    var pos', size' := pos + ListSizeAt(m, pos), size - ListSizeAt(m, pos);
    Shift(m, pos, size, kind, hash, 0);
    if forall n: nat :: (forall k: nat :: k < n ==> !FoundAfter(m, pos, size, kind, hash, k)) ==>
         SafeAfter(m, pos, size, kind, hash, n) {
      assert SafeAfter(m, pos, size, kind, hash, 0);
      forall n: nat | forall k: nat :: k < n ==> !FoundAfter(m, pos', size', kind, hash, k)
        ensures SafeAfter(m, pos', size', kind, hash, n)
      {
        forall k: nat | k < n + 1 ensures !FoundAfter(m, pos, size, kind, hash, k) {
          if k > 0 {
            Shift(m, pos, size, kind, hash, k - 1);
          }
        }
        Shift(m, pos, size, kind, hash, n);
      }
    }
    if 0 < SigSizeAt(m, pos) &&
       forall n: nat :: (forall k: nat :: k < n ==> !FoundAfter(m, pos', size', kind, hash, k)) ==>
         SafeAfter(m, pos', size', kind, hash, n) {
      forall n: nat | forall k: nat :: k < n ==> !FoundAfter(m, pos, size, kind, hash, k)
        ensures SafeAfter(m, pos, size, kind, hash, n)
      {
        if n > 0 {
          forall k: nat | k < n - 1 ensures !FoundAfter(m, pos', size', kind, hash, k) {
            Shift(m, pos, size, kind, hash, k);
            assert !FoundAfter(m, pos, size, kind, hash, k + 1);
          }
          Shift(m, pos, size, kind, hash, n - 1);
        }
      }
    }
  }

  lemma {:induction false} Shift(m: Memory, pos: nat, size: nat, kind: Guid, hash: seq<Byte>, n: nat)
    requires More(m, pos, size) && !ListHasHash(m, pos, kind, hash) && 0 < ListSizeAt(m, pos)
    ensures FoundAfter(m, pos, size, kind, hash, n + 1) <==>
              FoundAfter(m, pos + ListSizeAt(m, pos), size - ListSizeAt(m, pos), kind, hash, n)
    ensures SafeAfter(m, pos, size, kind, hash, n + 1) <==>
              SafeAfter(m, pos + ListSizeAt(m, pos), size - ListSizeAt(m, pos), kind, hash, n)
    ensures !FoundAfter(m, pos, size, kind, hash, 0)
    ensures SafeAfter(m, pos, size, kind, hash, 0) <==> 0 < SigSizeAt(m, pos)
  {
    hide ListSizeAt, SigSizeAt, ListHasHash, More;
    LeavesIf(m, pos, size);
  }

  /** The loop ends here, or the list can be stepped over. */
  predicate Leaves(m: Memory, pos: nat, size: nat) { More(m, pos, size) ==> 0 < ListSizeAt(m, pos) }

  method FindSignature(m: Memory, first: nat, count: nat, step: nat, hash: seq<Byte>) returns (found: bool)
    ensures found == AnySignature(m, first, count, step, hash)
  {
    var cert: nat := first;
    var index: nat := 0;
    while index < count
      invariant index <= count
      invariant AnySignature(m, first, count, step, hash) == AnySignature(m, cert, count - index, step, hash)
    {
      if m.Slice(cert + GUID_SIZE, |hash|) == hash {
        return true;
      }
      cert := cert + step;
      index := index + 1;
    }
    return false;
  }

  method CheckDbHashInRam(m: Memory, dbsize: nat, hash: seq<Byte>, kind: Guid) returns (found: bool)
    requires HashWalks(m, 0, dbsize, kind, hash)
    ensures found == HashIn(m, 0, dbsize, kind, hash)
  {
    hide AnySignature, Memory.U32At, Memory.Slice, SignatureCount;
    var pos, left := 0, dbsize;
    while left > 0 && ListSizeAt(m, pos) <= left
      invariant HashWalks(m, pos, left, kind, hash)
      invariant HashIn(m, 0, dbsize, kind, hash) == HashIn(m, pos, left, kind, hash)
      decreases left
    {
      var count := SignatureCount(m, pos);
      if TypeAt(m, pos) == kind {
        found := FindSignature(m, FirstSignature(m, pos), count, SigSizeAt(m, pos), hash);
        if found {
          return true;
        }
      }
      var step := ListSizeAt(m, pos);
      left := left - step;
      pos := pos + step;
    }
    return false;
  }

  method CheckDbCertInRam(m: Memory, dbsize: nat, accepts: seq<Byte> -> bool) returns (found: bool)
    requires CertWalks(m, 0, dbsize, accepts)
    ensures found == CertIn(m, 0, dbsize, accepts)
  {
    hide Memory.U32At, Memory.Slice;
    var pos, left := 0, dbsize;
    while left > 0 && ListSizeAt(m, pos) <= left
      invariant CertWalks(m, pos, left, accepts)
      invariant CertIn(m, 0, dbsize, accepts) == CertIn(m, pos, left, accepts)
      decreases left
    {
      if TypeAt(m, pos) == X509 && accepts(FirstCertificate(m, pos)) {
        return true;
      }
      var step := ListSizeAt(m, pos);
      left := left - step;
      pos := pos + step;
    }
    return false;
  }

  // ----- well-formed databases

  /** A signature list: its type, its own header, and signatures of one size. */
  datatype SigList = SigList(kind: Guid, header: seq<Byte>, sigSize: nat, sigs: seq<seq<Byte>>)

  function Concat(ss: seq<seq<Byte>>): (b: seq<Byte>)
  {
    if ss == [] then [] else ss[0] + Concat(ss[1..])
  }

  function ListSize(l: SigList): (n: nat) { LIST_HEADER + |l.header| + |Concat(l.sigs)| }

  predicate WellFormed(l: SigList)
  {
    && GUID_SIZE < l.sigSize < U32 && ListSize(l) < U32 && l.sigs != []
    && (ShaSize(l.kind) != 0 ==> l.sigSize == GUID_SIZE + ShaSize(l.kind))
    && (forall i :: 0 <= i < |l.sigs| ==> |l.sigs[i]| == l.sigSize)
  }

  predicate AllWellFormed(ls: seq<SigList>)
  {
    forall i :: 0 <= i < |ls| ==> WellFormed(ls[i])
  }

  function Encode(l: SigList): (b: seq<Byte>)
    requires WellFormed(l)
    ensures |b| == ListSize(l)
  {
    Header(l.kind, ListSize(l), |l.header|, l.sigSize) + (l.header + Concat(l.sigs))
  }

  function EncodeAll(ls: seq<SigList>): (b: seq<Byte>)
    requires AllWellFormed(ls)
  {
    if ls == [] then [] else Encode(ls[0]) + EncodeAll(ls[1..])
  }

  /** What stands after the owner GUID. */
  function Payload(s: seq<Byte>): (p: seq<Byte>) { if |s| < GUID_SIZE then [] else s[GUID_SIZE..] }

  predicate ListsHash(l: SigList, kind: Guid, hash: seq<Byte>)
  {
    l.kind == kind && exists s :: s in l.sigs && Payload(s) == hash
  }

  predicate ListsCert(l: SigList, accepts: seq<Byte> -> bool)
  {
    l.kind == X509 && l.sigs != [] && accepts(Payload(l.sigs[0]))
  }

  lemma {:induction false} ConcatSize(ss: seq<seq<Byte>>, n: nat)
    requires forall i :: 0 <= i < |ss| ==> |ss[i]| == n
    ensures |Concat(ss)| == |ss| * n
  {
    if ss != [] {
      ConcatSize(ss[1..], n);
      assert |ss| * n == n + (|ss| - 1) * n;
    }
  }

  lemma {:induction false} PayloadRead(m: Memory, at: nat, s: seq<Byte>, n: nat)
    requires Holds(m, at, s) && |s| == GUID_SIZE + n
    ensures m.Slice(at + GUID_SIZE, n) == Payload(s)
  {
    SliceOfData(m, at + GUID_SIZE, n);
    assert m.data[at + GUID_SIZE..at + GUID_SIZE + n] == m.data[at..at + |s|][GUID_SIZE..];
  }

  lemma {:induction false} SignaturesRead(m: Memory, at: nat, ss: seq<seq<Byte>>, hash: seq<Byte>)
    requires Holds(m, at, Concat(ss)) && forall i :: 0 <= i < |ss| ==> |ss[i]| == GUID_SIZE + |hash|
    ensures AnySignature(m, at, |ss|, GUID_SIZE + |hash|, hash) <==> exists s :: s in ss && Payload(s) == hash
    decreases |ss|
  {
    hide Payload, Memory.Slice;
    if ss != [] {
      HoldsParts(m, at, ss[0], Concat(ss[1..]));
      PayloadRead(m, at, ss[0], |hash|);
      SignaturesRead(m, at + |ss[0]|, ss[1..], hash);
      assert ss == [ss[0]] + ss[1..];
    }
  }

  /** The fields of an encoded list are read back, and its signatures stand after its header. */
  lemma {:induction false} ListRead(m: Memory, pos: nat, l: SigList)
    requires WellFormed(l) && Holds(m, pos, Encode(l))
    ensures TypeAt(m, pos) == l.kind && ListSizeAt(m, pos) == ListSize(l)
    ensures HeaderSizeAt(m, pos) == |l.header| && SigSizeAt(m, pos) == l.sigSize
    ensures Holds(m, FirstSignature(m, pos), Concat(l.sigs)) && SignatureCount(m, pos) == |l.sigs|
  {
    hide Memory.U32At, Memory.Slice, Header, TypeAt, ListSizeAt, HeaderSizeAt, SigSizeAt, Holds, Concat;
    var h := Header(l.kind, ListSize(l), |l.header|, l.sigSize);
    HoldsParts(m, pos, h, l.header + Concat(l.sigs));
    ReadHeader(m, pos, l.kind, ListSize(l), |l.header|, l.sigSize);
    HoldsParts(m, pos + LIST_HEADER, l.header, Concat(l.sigs));
    ConcatSize(l.sigs, l.sigSize);
    Quotient(|Concat(l.sigs)|, l.sigSize, |l.sigs|, 0);
  }

  lemma {:induction false} WalkStep(m: Memory, pos: nat, size: nat, l: SigList)
    requires WellFormed(l) && Holds(m, pos, Encode(l)) && ListSize(l) <= size
    requires Walkable(m, pos + ListSize(l), size - ListSize(l))
    ensures Walkable(m, pos, size)
  {
    hide TypeAt, ListSizeAt, HeaderSizeAt, SigSizeAt, Holds, Encode, Concat;
    ListRead(m, pos, l);
  }

  lemma {:induction false} HashStep(m: Memory, pos: nat, size: nat, l: SigList, kind: Guid, hash: seq<Byte>)
    requires WellFormed(l) && Holds(m, pos, Encode(l)) && |hash| == ShaSize(kind) != 0
    requires ListSize(l) <= size
    ensures HashIn(m, pos, size, kind, hash) <==>
              ListsHash(l, kind, hash) || HashIn(m, pos + ListSize(l), size - ListSize(l), kind, hash)
  {
    hide TypeAt, ListSizeAt, HeaderSizeAt, SigSizeAt, Holds, Encode, AnySignature, Concat, SignatureCount,
         FirstSignature;
    ListRead(m, pos, l);
    if l.kind == kind {
      SignaturesRead(m, FirstSignature(m, pos), l.sigs, hash);
    }
  }

  lemma {:induction false} CertStep(m: Memory, pos: nat, size: nat, l: SigList, accepts: seq<Byte> -> bool)
    requires WellFormed(l) && Holds(m, pos, Encode(l)) && ListSize(l) <= size
    ensures CertIn(m, pos, size, accepts) <==>
              ListsCert(l, accepts) || CertIn(m, pos + ListSize(l), size - ListSize(l), accepts)
  {
    hide TypeAt, ListSizeAt, HeaderSizeAt, SigSizeAt, Holds, Encode, Concat, SignatureCount, FirstSignature,
         Memory.Slice;
    ListRead(m, pos, l);
    FirstOf(m, FirstSignature(m, pos), l.sigs, l.sigSize - GUID_SIZE);
  }

  lemma {:induction false} FirstOf(m: Memory, at: nat, ss: seq<seq<Byte>>, n: nat)
    requires ss != [] && Holds(m, at, Concat(ss)) && |ss[0]| == GUID_SIZE + n
    ensures m.Slice(at + GUID_SIZE, n) == Payload(ss[0])
  {
    HoldsParts(m, at, ss[0], Concat(ss[1..]));
    PayloadRead(m, at, ss[0], n);
  }

  lemma {:induction false} FirstEncoded(m: Memory, pos: nat, ls: seq<SigList>)
    requires AllWellFormed(ls) && ls != [] && Holds(m, pos, EncodeAll(ls))
    ensures WellFormed(ls[0]) && Holds(m, pos, Encode(ls[0]))
    ensures Holds(m, pos + ListSize(ls[0]), EncodeAll(ls[1..]))
    ensures |EncodeAll(ls)| == ListSize(ls[0]) + |EncodeAll(ls[1..])|
  {
    hide Holds, Encode, WellFormed;
    assert WellFormed(ls[0]);
    HoldsParts(m, pos, Encode(ls[0]), EncodeAll(ls[1..]));
  }

  /** Walks over a well-formed database come to its end. */
  lemma {:induction false} DatabaseWalks(m: Memory, pos: nat, ls: seq<SigList>)
    requires AllWellFormed(ls) && Holds(m, pos, EncodeAll(ls))
    ensures Walkable(m, pos, |EncodeAll(ls)|)
    decreases |ls|
  {
    hide WellFormed, Holds, Encode;
    if ls != [] {
      FirstEncoded(m, pos, ls);
      DatabaseWalks(m, pos + ListSize(ls[0]), ls[1..]);
      WalkStep(m, pos, |EncodeAll(ls)|, ls[0]);
    }
  }

  /** A hash of the right size is found exactly when some list of its type carries it. */
  lemma {:induction false} HashFoundIff(m: Memory, pos: nat, ls: seq<SigList>, kind: Guid, hash: seq<Byte>)
    requires AllWellFormed(ls) && Holds(m, pos, EncodeAll(ls)) && |hash| == ShaSize(kind) != 0
    ensures HashIn(m, pos, |EncodeAll(ls)|, kind, hash) <==> exists l :: l in ls && ListsHash(l, kind, hash)
    decreases |ls|
  {
    hide WellFormed, Holds, Encode, EncodeAll, ListsHash, ShaSize;
    if ls == [] {
      assert |EncodeAll(ls)| == 0 by { NothingEncoded(); }
    } else {
      FirstEncoded(m, pos, ls);
      HashFoundIff(m, pos + ListSize(ls[0]), ls[1..], kind, hash);
      HashStep(m, pos, |EncodeAll(ls)|, ls[0], kind, hash);
      assert ls == [ls[0]] + ls[1..];
    }
  }

  /** A certificate is found exactly when some X.509 list starts with an accepted one. */
  lemma {:induction false} CertFoundIff(m: Memory, pos: nat, ls: seq<SigList>, accepts: seq<Byte> -> bool)
    requires AllWellFormed(ls) && Holds(m, pos, EncodeAll(ls))
    ensures CertIn(m, pos, |EncodeAll(ls)|, accepts) <==> exists l :: l in ls && ListsCert(l, accepts)
    decreases |ls|
  {
    hide WellFormed, Holds, Encode, EncodeAll, ListsCert;
    if ls == [] {
      assert |EncodeAll(ls)| == 0 by { NothingEncoded(); }
    } else {
      FirstEncoded(m, pos, ls);
      CertFoundIff(m, pos + ListSize(ls[0]), ls[1..], accepts);
      CertStep(m, pos, |EncodeAll(ls)|, ls[0], accepts);
      assert ls == [ls[0]] + ls[1..];
    }
  }

  lemma NothingEncoded()
    ensures EncodeAll([]) == []
  {
  }
}
