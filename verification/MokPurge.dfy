/** Deleting keys from a whole list (`delete_keys` in MokManager.c): the passes over
    the nodes of one buffer, and what is read back after the survivors are written. */
module MokPurge {
  import opened Bytes
  import opened SignatureList
  import opened MokList
  import opened MokDelete

  predicate AllWithin(list: seq<Node>, size: nat)
  {
    forall i :: 0 <= i < |list| ==> Within(list[i], size)
  }

  // ----- the passes, one node after the other in the same bytes

  /** One node's turn: only nodes of the type that are long enough are searched. */
  function NodeTurn(buf: seq<Byte>, n: Node, target: Guid, hash: seq<Byte>): (t: Turn)
    requires Within(n, |buf|)
    ensures |t.buf| == |buf| && Within(t.node, |buf|) && t.node.kind == n.kind
  {
    if n.kind != target || n.mok.None? || n.mok.value.size < GUID_SIZE + |hash| then Turn(buf, n)
    else NodeLoop(buf, n.kind, n.mok.value.at, n.mok.value.size, 0, hash)
  }

  /** A buffer and the nodes in it. */
  datatype State = State(buf: seq<Byte>, list: seq<Node>)

  predicate Valid(s: State) { AllWithin(s.list, |s.buf|) }

  /** `delete_hash_in_list` from node `i` on. */
  function HashPass(s: State, i: nat, target: Guid, hash: seq<Byte>): (r: State)
    requires Valid(s) && i <= |s.list|
    ensures Valid(r) && |r.buf| == |s.buf| && |r.list| == |s.list|
    decreases |s.list| - i
  {
    if i == |s.list| then s
    else
      var t := NodeTurn(s.buf, s.list[i], target, hash);
      HashPass(State(t.buf, s.list[i := t.node]), i + 1, target, hash)
  }

  /** `delete_hash_list`: one pass for each hash. */
  function HashPasses(s: State, target: Guid, ds: seq<seq<Byte>>): (r: State)
    requires Valid(s) && LongEnough(ds)
    ensures Valid(r) && |r.buf| == |s.buf| && |r.list| == |s.list|
    decreases |ds|
  {
    if ds == [] then s else HashPasses(HashPass(s, 0, target, HashOf(ds[0])), target, ds[1..])
  }

  /** `delete_cert` on one node. */
  function CertTurn(buf: seq<Byte>, n: Node, key: seq<Byte>): (r: Node)
  {
    if n.kind == X509 && n.mok.Some? && Data(buf, n) == key then Node(X509, None) else n
  }

  function CertPass(s: State, key: seq<Byte>): (r: State)
    requires Valid(s)
    ensures Valid(r) && r.buf == s.buf && |r.list| == |s.list|
  {
    State(s.buf, seq(|s.list|, i requires 0 <= i < |s.list| => CertTurn(s.buf, s.list[i], key)))
  }

  /** The loop of `delete_keys` over the keys to delete. */
  function DeleteKeys(s: State, dels: seq<Key>): (r: State)
    requires Valid(s)
    ensures Valid(r) && |r.buf| == |s.buf| && |r.list| == |s.list|
    decreases |dels|
  {
    if dels == [] then s else DeleteKeys(DeleteKey(s, dels[0]), dels[1..])
  }

  function DeleteKey(s: State, k: Key): (r: State)
    requires Valid(s)
    ensures Valid(r) && |r.buf| == |s.buf| && |r.list| == |s.list|
  {
    if k.kind == X509 then CertPass(s, k.payload)
    else if IsSha2(k.kind) then
      EntriesLong(k.payload, ShaSize(k.kind) + GUID_SIZE);
      HashPasses(s, k.kind, Entries(k.payload, ShaSize(k.kind) + GUID_SIZE))
    else s
  }

  // ----- the same in place

  method DeleteHashInList(buf: array<Byte>, list: seq<Node>, target: Guid, hash: seq<Byte>) returns (now: seq<Node>)
    requires AllWithin(list, buf.Length)
    modifies buf
    ensures AllWithin(now, buf.Length)
    ensures State(buf[..], now) == HashPass(State(old(buf[..]), list), 0, target, hash)
  {
    hide NodeLoop;
    ghost var start := State(buf[..], list);
    now := list;
    for i := 0 to |list|
      invariant |now| == |list| && AllWithin(now, buf.Length)
      invariant HashPass(State(buf[..], now), i, target, hash) == HashPass(start, 0, target, hash)
    {
      var n := now[i];
      assert Within(now[i], buf.Length);
      if n.kind == target && n.mok.Some? && GUID_SIZE + |hash| <= n.mok.value.size {
        n := DeleteHashInNode(buf, n, hash);
        now := now[i := n];
      } else {
        assert now[i := n] == now;
      }
    }
  }

  method DeleteHashList(buf: array<Byte>, list: seq<Node>, target: Guid, del: seq<Byte>) returns (now: seq<Node>)
    requires AllWithin(list, buf.Length)
    modifies buf
    ensures AllWithin(now, buf.Length) && LongEnough(Entries(del, ShaSize(target) + GUID_SIZE))
    ensures State(buf[..], now) ==
              HashPasses(State(old(buf[..]), list), target, Entries(del, ShaSize(target) + GUID_SIZE))
  {
    hide Entries, HashOf, HashPass;
    var hashSize := ShaSize(target);
    var sig := hashSize + GUID_SIZE;
    ghost var ds := Entries(del, sig);
    ghost var start := State(buf[..], list);
    now := list;
    EntryCount(del, sig);
    EntriesLong(del, sig);
    var num := |del| / sig;
    var at := GUID_SIZE;
    assert ds[0..] == ds;
    for i := 0 to num
      invariant AllWithin(now, buf.Length) && at == i * sig + GUID_SIZE
      invariant HashPasses(State(buf[..], now), target, ds[i..]) == HashPasses(start, target, ds)
    {
      EntryAt(del, sig, i);
      var hash := del[at..at + hashSize];
      HashAt(del, sig, i);
      assert ds[i..][0] == ds[i] && ds[i..][1..] == ds[i + 1..];
      now := DeleteHashInList(buf, now, target, hash);
      assert (i + 1) * sig == i * sig + sig;
      at := at + sig;
    }
    assert ds[num..] == [];
  }

  method DeleteCert(buf: array<Byte>, list: seq<Node>, key: seq<Byte>) returns (now: seq<Node>)
    requires AllWithin(list, buf.Length)
    ensures AllWithin(now, buf.Length)
    ensures State(buf[..], now) == CertPass(State(buf[..], list), key)
  {
    hide Data;
    now := list;
    for i := 0 to |list|
      invariant |now| == |list|
      invariant forall k :: i <= k < |list| ==> now[k] == list[k]
      invariant forall k :: 0 <= k < i ==> now[k] == CertTurn(buf[..], list[k], key)
    {
      if now[i].kind == X509 && now[i].mok.Some? {
        var at, size := now[i].mok.value.at, now[i].mok.value.size;
        assert Within(list[i], buf.Length);
        DataIs(buf[..], list[i]);
        assert buf[at..at + size] == buf[..][at..at + size];
        if size == |key| && key == buf[at..at + size] {
          now := now[i := Node(X509, None)];
        }
      }
    }
    assert State(buf[..], now) == CertPass(State(buf[..], list), key);
  }

  /** Every key of the delete list in turn. */
  method RunDeleteKeys(buf: array<Byte>, list: seq<Node>, dels: seq<Key>) returns (now: seq<Node>)
    requires AllWithin(list, buf.Length)
    modifies buf
    ensures AllWithin(now, buf.Length)
    ensures State(buf[..], now) == DeleteKeys(State(old(buf[..]), list), dels)
  {
    hide HashPasses, CertPass, Entries;
    ghost var start := State(buf[..], list);
    now := list;
    assert dels[0..] == dels;
    for i := 0 to |dels|
      invariant AllWithin(now, buf.Length)
      invariant DeleteKeys(State(buf[..], now), dels[i..]) == DeleteKeys(start, dels)
    {
      assert dels[i..][0] == dels[i] && dels[i..][1..] == dels[i + 1..];
      if dels[i].kind == X509 {
        now := DeleteCert(buf, now, dels[i].payload);
      } else if IsSha2(dels[i].kind) {
        now := DeleteHashList(buf, now, dels[i].kind, dels[i].payload);
      }
    }
    assert dels[|dels|..] == [];
  }

  // ----- nodes that are apart

  /** Two nodes share no bytes, unless neither holds hashes: then no pass writes to either. */
  predicate Clear(a: Node, b: Node)
  {
    (IsSha2(a.kind) || IsSha2(b.kind)) && a.mok.Some? && b.mok.Some? ==>
      a.mok.value.at + a.mok.value.size <= b.mok.value.at || b.mok.value.at + b.mok.value.size <= a.mok.value.at
  }

  /** Every node lies in the buffer, and no node of hashes shares bytes with another. */
  ghost predicate Laid(list: seq<Node>, size: nat)
  {
    AllWithin(list, size) && forall i, j :: 0 <= i < j < |list| ==> Clear(list[i], list[j])
  }

  /** A node has data or is deleted. */
  predicate Tight(list: seq<Node>)
  {
    forall i :: 0 <= i < |list| && list[i].mok.Some? ==> 0 < list[i].mok.value.size
  }

  lemma DataElsewhere(was: seq<Byte>, now: seq<Byte>, n: Node, m: Node)
    requires Within(n, |was|) && Within(m, |was|) && IsSha2(n.kind) && Clear(n, m) && SameElsewhere(was, now, n)
    ensures Data(now, m) == Data(was, m)
  {
  }

  lemma {:induction false} LaidUpdate(list: seq<Node>, i: nat, n: Node, size: nat)
    requires Laid(list, size) && i < |list| && Shrunk(list[i], n)
    ensures Laid(list[i := n], size)
  {
    var now := list[i := n];
    forall j, k | 0 <= j < k < |now| ensures Clear(now[j], now[k]) {
      assert Clear(list[j], list[k]);
      assert Within(list[i], size);
    }
    forall j | 0 <= j < |now| ensures Within(now[j], size) {
      assert Within(list[j], size);
    }
  }

  /** What one deletion makes of a node's data. */
  function Deleted(kind: Guid, p: seq<Byte>, target: Guid, hash: seq<Byte>): (q: seq<Byte>)
  {
    if kind == target then DeleteOne(p, hash) else p
  }

  lemma {:induction false} NodeTurnIs(buf: seq<Byte>, n: Node, target: Guid, hash: seq<Byte>)
    requires Within(n, |buf|) && (n.mok.Some? ==> 0 < n.mok.value.size)
    ensures var t := NodeTurn(buf, n, target, hash);
            && Shrunk(n, t.node) && SameElsewhere(buf, t.buf, n) && (t.node.mok.Some? ==> 0 < t.node.mok.value.size)
            && Data(t.buf, t.node) == Deleted(n.kind, Data(buf, n), target, hash)
            && (n.kind != target ==> t.buf == buf)
  {
    hide DeleteOne, NodeLoop, Data;
    if n.mok.None? {
      NoData(buf, n);
      DeleteShort([], hash);
    } else {
      DataIs(buf, n);
      if n.kind == target && n.mok.value.size < GUID_SIZE + |hash| {
        DeleteShort(Data(buf, n), hash);
      } else if n.kind == target {
        NodeLoopIs(buf, n.kind, n.mok.value.at, n.mok.value.size, 0, hash);
        DeleteOneIs(Data(buf, n), hash);
        var t := NodeLoop(buf, n.kind, n.mok.value.at, n.mok.value.size, 0, hash);
        if t.node.mok.Some? {
          DataIs(t.buf, t.node);
        }
      }
    }
  }

  lemma DeleteOneIs(p: seq<Byte>, hash: seq<Byte>)
    ensures var sig := GUID_SIZE + |hash|;
            DeleteOne(p, hash) == Join(DeleteLoop(Entries(p, sig), 0, hash)) + Rest(p, sig)
  {
  }

  lemma NoData(buf: seq<Byte>, n: Node)
    requires n.mok.None?
    ensures Data(buf, n) == []
  {
  }

  lemma {:induction false} OthersKept(s: State, i: nat, target: Guid, hash: seq<Byte>)
    requires Laid(s.list, |s.buf|) && Tight(s.list) && i < |s.list| && IsSha2(target)
    ensures Within(s.list[i], |s.buf|)
    ensures forall j :: 0 <= j < |s.list| && j != i ==>
              Data(NodeTurn(s.buf, s.list[i], target, hash).buf, s.list[j]) == Data(s.buf, s.list[j])
  {
    hide Data, Deleted, NodeTurn, IsSha2;
    var n := s.list[i];
    NodeTurnIs(s.buf, n, target, hash);
    forall j | 0 <= j < |s.list| && j != i
      ensures Data(NodeTurn(s.buf, n, target, hash).buf, s.list[j]) == Data(s.buf, s.list[j])
    {
      if n.kind == target {
        assert Clear(n, s.list[j]) && Within(s.list[j], |s.buf|);
        DataElsewhere(s.buf, NodeTurn(s.buf, n, target, hash).buf, n, s.list[j]);
      }
    }
  }

  lemma {:induction false} HashPassIs(s: State, i: nat, target: Guid, hash: seq<Byte>)
    requires Valid(s) && Laid(s.list, |s.buf|) && Tight(s.list) && i <= |s.list| && IsSha2(target)
    ensures var r := HashPass(s, i, target, hash);
            && Laid(r.list, |r.buf|) && Tight(r.list)
            && forall j :: 0 <= j < |s.list| ==>
                 && Shrunk(s.list[j], r.list[j])
                 && Data(r.buf, r.list[j]) ==
                      if j < i then Data(s.buf, s.list[j])
                      else Deleted(s.list[j].kind, Data(s.buf, s.list[j]), target, hash)
    decreases |s.list| - i
  {
    hide Data, Deleted, NodeTurn, Shrunk, Clear, IsSha2;
    if i < |s.list| {
      assert Within(s.list[i], |s.buf|);
      NodeTurnIs(s.buf, s.list[i], target, hash);
      var t := NodeTurn(s.buf, s.list[i], target, hash);
      var u := State(t.buf, s.list[i := t.node]);
      LaidUpdate(s.list, i, t.node, |s.buf|);
      OthersKept(s, i, target, hash);
      HashPassIs(u, i + 1, target, hash);
      forall j | 0 <= j < |s.list| ensures Shrunk(s.list[j], HashPass(s, i, target, hash).list[j]) {
        ShrunkTwice(s.list[j], u.list[j], HashPass(u, i + 1, target, hash).list[j]);
      }
    } else {
      forall j | 0 <= j < |s.list| ensures Shrunk(s.list[j], s.list[j]) {
        ShrunkTwice(s.list[j], s.list[j], s.list[j]);
      }
    }
  }

  lemma ShrunkTwice(a: Node, b: Node, c: Node)
    ensures Shrunk(a, a)
    ensures Shrunk(a, b) && Shrunk(b, c) ==> Shrunk(a, c)
  {
  }

  /** The nodes of the type have lost the hashes `ds`, one after the other; the others are untouched. */
  ghost predicate Purged(s: State, r: State, target: Guid, ds: seq<seq<Byte>>)
    requires LongEnough(ds)
  {
    && |r.list| == |s.list| && |r.buf| == |s.buf| && Laid(r.list, |r.buf|) && Tight(r.list)
    && forall i :: 0 <= i < |s.list| ==>
         && Shrunk(s.list[i], r.list[i])
         && Data(r.buf, r.list[i]) ==
              if s.list[i].kind == target then DeleteMany(Data(s.buf, s.list[i]), ds) else Data(s.buf, s.list[i])
  }

  /** On nodes that are apart, the passes delete from each node of the type by itself. */
  lemma {:induction false} HashPassesPurge(s: State, target: Guid, ds: seq<seq<Byte>>)
    requires Valid(s) && Laid(s.list, |s.buf|) && Tight(s.list) && LongEnough(ds) && IsSha2(target)
    ensures Purged(s, HashPasses(s, target, ds), target, ds)
    decreases |ds|
  {
    hide Data, DeleteOne, HashPass, HashOf, Shrunk;
    if ds == [] {
      forall i | 0 <= i < |s.list| ensures Shrunk(s.list[i], s.list[i]) {
        ShrunkTwice(s.list[i], s.list[i], s.list[i]);
      }
    } else {
      var u := HashPass(s, 0, target, HashOf(ds[0]));
      var r := HashPasses(s, target, ds);
      HashPassIs(s, 0, target, HashOf(ds[0]));
      HashPassesPurge(u, target, ds[1..]);
      forall i | 0 <= i < |s.list| ensures Shrunk(s.list[i], r.list[i]) && u.list[i].kind == s.list[i].kind {
        ShrunkTwice(s.list[i], u.list[i], r.list[i]);
        SameKind(s.list[i], u.list[i]);
      }
    }
  }

  lemma SameKind(a: Node, b: Node)
    requires Shrunk(a, b)
    ensures a.kind == b.kind
  {
  }

  // ----- keys

  /** What deleting key `k` leaves of a key's bytes. */
  function PurgeOne(kind: Guid, p: seq<Byte>, k: Key): (q: seq<Byte>)
  {
    if k.kind == X509 then (if kind == X509 && p == k.payload then [] else p)
    else if IsSha2(k.kind) && kind == k.kind then
      EntriesLong(k.payload, ShaSize(k.kind) + GUID_SIZE);
      DeleteMany(p, Entries(k.payload, ShaSize(k.kind) + GUID_SIZE))
    else p
  }

  function PurgeAll(kind: Guid, p: seq<Byte>, dels: seq<Key>): (q: seq<Byte>)
    decreases |dels|
  {
    if dels == [] then p else PurgeAll(kind, PurgeOne(kind, p, dels[0]), dels[1..])
  }

  /** The keys that are left, in order; a key that runs empty is gone. */
  function PurgeKeys(ks: seq<Key>, dels: seq<Key>): (r: seq<Key>)
  {
    if ks == [] then []
    else
      var q := PurgeAll(ks[0].kind, ks[0].payload, dels);
      (if q == [] then [] else [Key(ks[0].kind, q)]) + PurgeKeys(ks[1..], dels)
  }

  /** Every node's data became what its key becomes. */
  ghost predicate Became(s: State, r: State, dels: seq<Key>)
  {
    && |r.list| == |s.list| && |r.buf| == |s.buf| && Laid(r.list, |r.buf|) && Tight(r.list)
    && forall i :: 0 <= i < |s.list| ==>
         Shrunk(s.list[i], r.list[i]) &&
         Data(r.buf, r.list[i]) == PurgeAll(s.list[i].kind, Data(s.buf, s.list[i]), dels)
  }

  lemma {:induction false} CertPassIs(s: State, key: seq<Byte>)
    requires Valid(s) && Laid(s.list, |s.buf|) && Tight(s.list)
    ensures var r := CertPass(s, key);
            && Laid(r.list, |r.buf|) && Tight(r.list)
            && forall i :: 0 <= i < |s.list| ==>
                 && Shrunk(s.list[i], r.list[i])
                 && Data(r.buf, r.list[i]) ==
                      if s.list[i].kind == X509 && Data(s.buf, s.list[i]) == key then [] else Data(s.buf, s.list[i])
  {
    hide Data;
    var r := CertPass(s, key);
    forall i | 0 <= i < |s.list|
      ensures Shrunk(s.list[i], r.list[i])
      ensures Data(r.buf, r.list[i]) ==
                if s.list[i].kind == X509 && Data(s.buf, s.list[i]) == key then [] else Data(s.buf, s.list[i])
    {
      if r.list[i].mok.None? {
        NoData(r.buf, r.list[i]);
      }
      if s.list[i].mok.None? {
        NoData(s.buf, s.list[i]);
      }
    }
    forall i, j | 0 <= i < j < |r.list| ensures Clear(r.list[i], r.list[j]) {
      assert Clear(s.list[i], s.list[j]);
    }
  }

  lemma {:induction false} DeleteKeyIs(s: State, k: Key)
    requires Valid(s) && Laid(s.list, |s.buf|) && Tight(s.list)
    ensures var r := DeleteKey(s, k);
            && Laid(r.list, |r.buf|) && Tight(r.list)
            && forall i :: 0 <= i < |s.list| ==>
                 Shrunk(s.list[i], r.list[i]) &&
                 Data(r.buf, r.list[i]) == PurgeOne(s.list[i].kind, Data(s.buf, s.list[i]), k)
  {
    hide Data, HashPasses, CertPass, DeleteMany, Entries, Shrunk;
    if k.kind == X509 {
      CertPassIs(s, k.payload);
    } else if IsSha2(k.kind) {
      EntriesLong(k.payload, ShaSize(k.kind) + GUID_SIZE);
      HashPassesPurge(s, k.kind, Entries(k.payload, ShaSize(k.kind) + GUID_SIZE));
    } else {
      forall i | 0 <= i < |s.list| ensures Shrunk(s.list[i], s.list[i]) {
        ShrunkTwice(s.list[i], s.list[i], s.list[i]);
      }
    }
  }

  lemma {:induction false} DeleteKeysIs(s: State, dels: seq<Key>)
    requires Valid(s) && Laid(s.list, |s.buf|) && Tight(s.list)
    ensures Became(s, DeleteKeys(s, dels), dels)
    decreases |dels|
  {
    hide Data, DeleteKey, PurgeOne, Shrunk;
    if dels == [] {
      forall i | 0 <= i < |s.list| ensures Shrunk(s.list[i], s.list[i]) {
        ShrunkTwice(s.list[i], s.list[i], s.list[i]);
      }
    } else {
      var u, r := DeleteKey(s, dels[0]), DeleteKeys(s, dels);
      DeleteKeyIs(s, dels[0]);
      DeleteKeysIs(u, dels[1..]);
      forall i | 0 <= i < |s.list| ensures Shrunk(s.list[i], r.list[i]) && u.list[i].kind == s.list[i].kind {
        ShrunkTwice(s.list[i], u.list[i], r.list[i]);
        SameKind(s.list[i], u.list[i]);
      }
    }
  }

  lemma {:induction false} PurgeNothing(kind: Guid, dels: seq<Key>)
    ensures PurgeAll(kind, [], dels) == []
    decreases |dels|
  {
    if dels != [] {
      var k := dels[0];
      if k.kind != X509 && IsSha2(k.kind) && kind == k.kind {
        EntriesLong(k.payload, ShaSize(k.kind) + GUID_SIZE);
        DeleteNothing(Entries(k.payload, ShaSize(k.kind) + GUID_SIZE));
      }
      PurgeNothing(kind, dels[1..]);
    }
  }

  lemma {:induction false} DeleteNothing(ds: seq<seq<Byte>>)
    requires LongEnough(ds)
    ensures DeleteMany([], ds) == []
    decreases |ds|
  {
    if ds != [] {
      DeleteShort([], HashOf(ds[0]));
      DeleteNothing(ds[1..]);
    }
  }

  /** The live nodes after the deletion are the purged keys. */
  lemma {:induction false} KeysArePurged(s: State, r: State, dels: seq<Key>, i: nat, b: nat -> Byte, c: nat -> Byte)
    requires Valid(s) && Became(s, r, dels) && i <= |s.list|
    ensures Keys(Memory(r.buf, c), r.list[i..]) == PurgeKeys(Keys(Memory(s.buf, b), s.list[i..]), dels)
    decreases |s.list| - i
  {
    hide Data, PurgeAll, Laid, Memory.Slice;
    if i < |s.list| {
      var n, n' := s.list[i], r.list[i];
      KeysArePurged(s, r, dels, i + 1, b, c);
      assert s.list[i..][0] == n && s.list[i..][1..] == s.list[i + 1..];
      assert r.list[i..][0] == n' && r.list[i..][1..] == r.list[i + 1..];
      assert Within(n, |s.buf|) && Within(n', |r.buf|) && Shrunk(n, n');
      DataKey(s.buf, b, n);
      DataKey(r.buf, c, n');
      if n.mok.None? {
        PurgeNothing(n.kind, dels);
        assert [] + Keys(Memory(s.buf, b), s.list[i + 1..]) == Keys(Memory(s.buf, b), s.list[i + 1..]);
        assert [] + Keys(Memory(r.buf, c), r.list[i + 1..]) == Keys(Memory(r.buf, c), r.list[i + 1..]);
      } else {
        var k := Key(n.kind, Data(s.buf, n));
        var rest := Keys(Memory(s.buf, b), s.list[i + 1..]);
        assert Keys(Memory(s.buf, b), s.list[i..]) == [k] + rest;
        assert ([k] + rest)[1..] == rest;
      }
    }
  }

  lemma DataKey(buf: seq<Byte>, b: nat -> Byte, n: Node)
    requires Within(n, |buf|)
    ensures n.mok.Some? ==> Memory(buf, b).Slice(n.mok.value.at, n.mok.value.size) == Data(buf, n)
    ensures n.mok.Some? && 0 < n.mok.value.size ==> Data(buf, n) != []
    ensures n.mok.None? ==> Data(buf, n) == []
  {
    if n.mok.Some? {
      SliceOfData(Memory(buf, b), n.mok.value.at, n.mok.value.size);
    }
  }

  // ----- what the headers say about the nodes

  /** Where the lists of a walk start. */
  function Positions(m: Memory, pos: nat): (ps: seq<nat>)
    decreases if pos < |m.data| then |m.data| - pos else 0
  {
    if Ends(m, pos) || ListSizeAt(m, pos) == 0 then [] else [pos] + Positions(m, pos + ListSizeAt(m, pos))
  }

  /** The data that a list's header claims; no check ties it to the list's own size. */
  function DataStart(m: Memory, p: nat): (k: nat)
  {
    p + LIST_HEADER + HeaderSizeAt(m, p) + if TypeAt(m, p) == X509 then GUID_SIZE else 0
  }

  function DataEnd(m: Memory, p: nat): (k: nat)
  {
    p + HeaderSizeAt(m, p) + if TypeAt(m, p) == X509 then LIST_HEADER + SigSizeAt(m, p) else ListSizeAt(m, p)
  }

  predicate DataApart(m: Memory, p: nat, q: nat)
  {
    IsSha2(TypeAt(m, p)) || IsSha2(TypeAt(m, q)) ==>
      DataEnd(m, p) <= DataStart(m, q) || DataEnd(m, q) <= DataStart(m, p)
  }

  /** No list of hashes on the walk claims bytes that another list claims. */
  ghost predicate HeadersApart(m: Memory)
  {
    var ps := Positions(m, 0);
    forall i, j :: 0 <= i < j < |ps| ==> DataApart(m, ps[i], ps[j])
  }

  lemma {:induction false} NodeExtent(m: Memory, p: nat)
    requires Countable(m, p) && Buildable(m, p)
    ensures DataStart(m, p) < DataEnd(m, p) <= |m.data|
    ensures NodeAt(m, p).mok == Some(Place(DataStart(m, p), DataEnd(m, p) - DataStart(m, p)))
    ensures NodeAt(m, p).kind == TypeAt(m, p)
  {
    hide Memory.U32At, Memory.Slice;
  }

  lemma {:induction false} BuiltNodes(m: Memory, pos: nat)
    requires Counted(m, pos).Some? && Built(m, pos).Some?
    ensures var ps, list := Positions(m, pos), Built(m, pos).value;
            && |list| == |ps|
            && forall i :: 0 <= i < |ps| ==>
                 list[i] == NodeAt(m, ps[i]) && Countable(m, ps[i]) && Buildable(m, ps[i])
    decreases if pos < |m.data| then |m.data| - pos else 0
  {
    hide Countable, NodeAt, ListSizeAt, Counted, Built;
    WalkStep(m, pos);
    if !Ends(m, pos) {
      BuiltNodes(m, pos + ListSizeAt(m, pos));
    }
  }

  /** Every list that was built has its header, its own header, one owner with a byte behind it, and the bytes
      of its node inside the data. */
  lemma {:induction false} BuiltInside(m: Memory, i: nat)
    requires Counted(m, 0).Some? && Built(m, 0).Some? && i < |Positions(m, 0)|
    ensures var p := Positions(m, 0)[i];
            && p + 28 + HeaderSizeAt(m, p) + 17 <= |m.data| && 16 < SigSizeAt(m, p)
            && p + 28 + HeaderSizeAt(m, p) <= DataStart(m, p) < DataEnd(m, p) <= |m.data|
  {
    hide Counted, Built, Positions, NodeAt, Countable;
    BuiltNodes(m, 0);
    NodeExtent(m, Positions(m, 0)[i]);
  }

  /** What was built is apart exactly when the headers say so. */
  lemma {:induction false} BuiltLaidIff(m: Memory)
    requires Counted(m, 0).Some? && Built(m, 0).Some?
    ensures AllWithin(Built(m, 0).value, |m.data|) && Tight(Built(m, 0).value)
    ensures Laid(Built(m, 0).value, |m.data|) <==> HeadersApart(m)
  {
    hide Counted, Built, Positions, NodeAt, Countable, Buildable, DataStart, DataEnd, IsSha2, TypeAt;
    BuiltNodes(m, 0);
    var ps, list := Positions(m, 0), Built(m, 0).value;
    forall i | 0 <= i < |ps|
      ensures DataStart(m, ps[i]) < DataEnd(m, ps[i]) <= |m.data|
      ensures list[i].mok == Some(Place(DataStart(m, ps[i]), DataEnd(m, ps[i]) - DataStart(m, ps[i])))
      ensures list[i].kind == TypeAt(m, ps[i])
    {
      NodeExtent(m, ps[i]);
    }
    forall i, j | 0 <= i < j < |ps| ensures Clear(list[i], list[j]) <==> DataApart(m, ps[i], ps[j]) {
    }
  }

  lemma {:induction false} PositionsRise(m: Memory, pos: nat)
    ensures forall i :: 0 <= i < |Positions(m, pos)| ==> pos <= Positions(m, pos)[i]
    ensures forall i, j :: 0 <= i < j < |Positions(m, pos)| ==>
              Positions(m, pos)[i] + ListSizeAt(m, Positions(m, pos)[i]) <= Positions(m, pos)[j]
    decreases if pos < |m.data| then |m.data| - pos else 0
  {
    hide Memory.U32At;
    if !Ends(m, pos) && ListSizeAt(m, pos) != 0 {
      var rest := Positions(m, pos + ListSizeAt(m, pos));
      var ps := Positions(m, pos);
      PositionsRise(m, pos + ListSizeAt(m, pos));
      assert ps == [pos] + rest;
      forall i | 0 <= i < |ps| ensures pos <= ps[i] {
        assert 0 < i ==> ps[i] == rest[i - 1];
      }
      forall i, j | 0 <= i < j < |ps| ensures ps[i] + ListSizeAt(m, ps[i]) <= ps[j] {
        assert ps[j] == rest[j - 1] && (0 < i ==> ps[i] == rest[i - 1]);
      }
    }
  }

  /** Lists whose data stays inside them, such as hash lists without a header of
      their own, are apart. */
  lemma {:induction false} ContainedIsApart(m: Memory)
    requires forall i :: 0 <= i < |Positions(m, 0)| ==>
               DataEnd(m, Positions(m, 0)[i]) <= Positions(m, 0)[i] + ListSizeAt(m, Positions(m, 0)[i])
    ensures HeadersApart(m)
  {
    hide Positions, Memory.U32At;
    PositionsRise(m, 0);
    var ps := Positions(m, 0);
    forall i, j | 0 <= i < j < |ps| ensures DataApart(m, ps[i], ps[j]) {
      assert DataEnd(m, ps[i]) <= ps[i] + ListSizeAt(m, ps[i]) <= ps[j];
    }
  }

  /** A hash list that claims a header of 100 bytes, and a certificate list after it. */
  function Overlapping(a: seq<Byte>, b: seq<Byte>): (d: seq<Byte>)
  {
    Header(SHA256, 124, 100, 48) + (a + (Header(X509, 124, 0, 96) + b))
  }

  /** The header fields of that data. */
  lemma {:induction false} OverlapHeaders(m: Memory, a: seq<Byte>, b: seq<Byte>)
    requires |a| == |b| == 96 && m.data == Overlapping(a, b)
    ensures |m.data| == 248
    ensures TypeAt(m, 0) == SHA256 && ListSizeAt(m, 0) == 124 && HeaderSizeAt(m, 0) == 100 && SigSizeAt(m, 0) == 48
    ensures TypeAt(m, 124) == X509 && ListSizeAt(m, 124) == 124 && HeaderSizeAt(m, 124) == 0 && SigSizeAt(m, 124) == 96
  {
    var h, g := Header(SHA256, 124, 100, 48), Header(X509, 124, 0, 96);
    assert Holds(m, 0, m.data) by {
      assert m.data[0..0 + |m.data|] == m.data;
    }
    hide Header, TypeAt, ListSizeAt, HeaderSizeAt, SigSizeAt, Holds;
    HoldsParts(m, 0, h, a + (g + b));
    HoldsParts(m, 28, a, g + b);
    HoldsParts(m, 124, g, b);
    ReadHeader(m, 0, SHA256, 124, 100, 48);
    ReadHeader(m, 124, X509, 124, 0, 96);
  }

  lemma {:induction false} OverlapParsed(m: Memory, a: seq<Byte>, b: seq<Byte>)
    requires |a| == |b| == 96 && m.data == Overlapping(a, b)
    ensures Counted(m, 0) == Some(2)
    ensures Built(m, 0) == Some([Node(SHA256, Some(Place(128, 96))), Node(X509, Some(Place(168, 80)))])
  {
    hide TypeAt, ListSizeAt, HeaderSizeAt, SigSizeAt, Counted, Built, Overlapping;
    OverlapHeaders(m, a, b);
    assert NodeAt(m, 0) == Node(SHA256, Some(Place(128, 96)));
    assert NodeAt(m, 124) == Node(X509, Some(Place(168, 80)));
    WalkStep(m, 0);
    WalkStep(m, 124);
    WalkStep(m, 248);
    assert [NodeAt(m, 124)] + [] == [NodeAt(m, 124)];
    assert [NodeAt(m, 0)] + [NodeAt(m, 124)] == [NodeAt(m, 0), NodeAt(m, 124)];
  }

  /** Deleting a hash from the first list of such data changes the certificate of the second. */
  lemma {:induction false} OverlapCorrupts(m: Memory, a: seq<Byte>, b: seq<Byte>)
    requires |a| == |b| == 96 && m.data == Overlapping(a, b) && b[16..24] != b[64..72]
    ensures Counted(m, 0).Some? && Built(m, 0).Some? && !HeadersApart(m)
    ensures var s := State(m.data, Built(m, 0).value);
            && Valid(s) && |s.list| == 2 && s.list[1].kind == X509
            && var r := HashPass(s, 0, SHA256, m.data[144..176]);
            Data(r.buf, r.list[1]) != Data(s.buf, s.list[1])
  {
    hide Counted, Built, Overlapping, NodeLoop, HeadersApart;
    OverlapParsed(m, a, b);
    BuiltLaidIff(m);
    OverlapBytes(m.data, a, b);
    var n, c := Node(SHA256, Some(Place(128, 96))), Node(X509, Some(Place(168, 80)));
    assert !Clear([n, c][0], [n, c][1]);
    CertificateChanged(m.data, n, c);
  }

  lemma {:induction false} CertificateChanged(d: seq<Byte>, n: Node, c: Node)
    requires |d| == 248 && d[168..176] != d[216..224]
    requires n == Node(SHA256, Some(Place(128, 96))) && c == Node(X509, Some(Place(168, 80)))
    ensures var r := HashPass(State(d, [n, c]), 0, SHA256, d[144..176]);
            Data(r.buf, r.list[1]) != Data(d, c)
  {
    hide NodeLoop;
    var s, hash := State(d, [n, c]), d[144..176];
    var t := NodeTurn(d, n, SHA256, hash);
    FirstMoved(d, hash);
    var u := State(t.buf, s.list[0 := t.node]);
    assert X509 != SHA256 by { assert X509[0] != SHA256[0]; }
    assert HashPass(s, 0, SHA256, hash) == HashPass(u, 1, SHA256, hash);
    assert NodeTurn(u.buf, u.list[1], SHA256, hash) == Turn(u.buf, c);
    assert u.list[1 := c] == u.list;
    assert HashPass(u, 1, SHA256, hash) == HashPass(u, 2, SHA256, hash);
    assert u.buf[168..176] == Data(u.buf, c)[..8];
    assert d[168..176] == Data(d, c)[..8];
  }

  lemma {:induction false} OverlapBytes(d: seq<Byte>, a: seq<Byte>, b: seq<Byte>)
    requires |a| == |b| == 96 && d == Overlapping(a, b)
    ensures |d| == 248 && d[168..176] == b[16..24] && d[216..224] == b[64..72]
  {
    hide Header;
    assert forall k :: 0 <= k < 96 ==> d[152 + k] == b[k];
  }

  /** The first of two entries goes, and the second moves down onto it. */
  lemma {:induction false} FirstMoved(d: seq<Byte>, hash: seq<Byte>)
    requires |d| == 248 && hash == d[144..176]
    ensures |NodeLoop(d, SHA256, 128, 96, 0, hash).buf| == 248
    ensures NodeLoop(d, SHA256, 128, 96, 0, hash).buf[168..176] == d[216..224]
  {
    var p := d[128..224];
    var es := Entries(p, 48);
    EntryCount(p, 48);
    assert |es| == 2;
    EntryAt(p, 48, 0);
    assert es[0] == p[0..48] && p[0..48][16..] == hash;
    assert Matches(es[0], hash) && MatchFrom(es, 0, hash) == 0;
    var r := Removed(d, 128, 96, 48, 0);
    assert r == Moved(d, 128, 176, 48);
    assert r[168..176] == d[216..224];
    var q := r[128..176];
    if MatchFrom(Entries(q, 48), 0, hash) >= 0 {
      assert NodeLoop(r, SHA256, 128, 48, 0, hash).buf == r;
    } else {
      assert NodeLoop(r, SHA256, 128, 48, 0, hash).buf == r;
    }
  }

  // ----- build, delete, write back, parse

  lemma {:induction false} PurgeKeysSized(s: State, dels: seq<Key>, b: nat -> Byte)
    requires Valid(s) && Laid(s.list, |s.buf|) && Tight(s.list) && |s.buf| + LIST_HEADER + GUID_SIZE < U32
    ensures var r := DeleteKeys(s, dels);
            && Keys(Memory(r.buf, b), r.list) == PurgeKeys(Keys(Memory(s.buf, b), s.list), dels)
            && Sized(PurgeKeys(Keys(Memory(s.buf, b), s.list), dels))
  {
    hide DeleteKeys, PurgeKeys, Laid, Keys, Sized;
    DeleteKeysIs(s, dels);
    var r := DeleteKeys(s, dels);
    KeysArePurged(s, r, dels, 0, b, b);
    assert s.list[0..] == s.list && r.list[0..] == r.list;
    LiveKeysSized(Memory(r.buf, b), r.list);
  }

  lemma {:induction false} LiveKeysSized(m: Memory, list: seq<Node>)
    requires AllWithin(list, |m.data|) && |m.data| + LIST_HEADER + GUID_SIZE < U32
    ensures Sized(Keys(m, list))
  {
    hide Memory.Slice;
    if list != [] {
      assert Within(list[0], |m.data|);
      assert forall i :: 0 <= i < |list| - 1 ==> list[1..][i] == list[i + 1];
      LiveKeysSized(m, list[1..]);
    }
  }

  // ----- the request as a filter

  /** The entries of every delete node of the type. */
  function Listed(kind: Guid, dels: seq<Key>): (ds: seq<seq<Byte>>)
    requires IsSha2(kind)
    ensures LongEnough(ds)
    ensures forall i :: 0 <= i < |ds| ==> |ds[i]| == ShaSize(kind) + GUID_SIZE
    decreases |dels|
  {
    if dels == [] then []
    else
      EntriesLong(dels[0].payload, ShaSize(kind) + GUID_SIZE);
      (if dels[0].kind == kind then Entries(dels[0].payload, ShaSize(kind) + GUID_SIZE) else []) +
        Listed(kind, dels[1..])
  }

  lemma {:induction false} DeleteManyTwice(p: seq<Byte>, a: seq<seq<Byte>>, b: seq<seq<Byte>>)
    requires LongEnough(a) && LongEnough(b)
    ensures LongEnough(a + b) && DeleteMany(p, a + b) == DeleteMany(DeleteMany(p, a), b)
    decreases |a|
  {
    hide DeleteOne;
    if a == [] {
      assert a + b == b;
    } else {
      assert (a + b)[1..] == a[1..] + b && (a + b)[0] == a[0];
      DeleteManyTwice(DeleteOne(p, HashOf(a[0])), a[1..], b);
    }
  }

  /** A whole request deletes from a node of hashes what one list of all its hashes would. */
  lemma {:induction false} PurgeAllIsMany(kind: Guid, p: seq<Byte>, dels: seq<Key>)
    requires IsSha2(kind)
    ensures PurgeAll(kind, p, dels) == DeleteMany(p, Listed(kind, dels))
    decreases |dels|
  {
    hide DeleteMany, Entries;
    if dels == [] {
      NothingListed(p);
    } else {
      var k, sig := dels[0], ShaSize(kind) + GUID_SIZE;
      EntriesLong(k.payload, sig);
      var own := if k.kind == kind then Entries(k.payload, sig) else [];
      PurgeAllIsMany(kind, PurgeOne(kind, p, k), dels[1..]);
      NothingListed(p);
      DeleteManyTwice(p, own, Listed(kind, dels[1..]));
      assert kind != X509 by { HashKinds(kind); }
      assert Listed(kind, dels) == own + Listed(kind, dels[1..]);
    }
  }

  lemma NothingListed(p: seq<Byte>)
    ensures DeleteMany(p, []) == p
  {
  }

  lemma HashKinds(kind: Guid)
    requires IsSha2(kind)
    ensures kind != X509
  {
    assert X509[0] == 0xa1;
  }

  /** What a request should leave of a key: of a hash list the entries that no delete node of its type lists,
      in order, with the bytes behind the last entry; of a certificate all or nothing. */
  function Kept(k: Key, dels: seq<Key>): (q: seq<Byte>)
  {
    if IsSha2(k.kind) then
      var sig := ShaSize(k.kind) + GUID_SIZE;
      Join(Keep(Entries(k.payload, sig), Listed(k.kind, dels))) + Rest(k.payload, sig)
    else if k.kind == X509 && k in dels then []
    else k.payload
  }

  function KeptKeys(ks: seq<Key>, dels: seq<Key>): (r: seq<Key>)
  {
    if ks == [] then []
    else
      var q := Kept(ks[0], dels);
      (if q == [] then [] else [Key(ks[0].kind, q)]) + KeptKeys(ks[1..], dels)
  }

  /** No hash that the request lists for the key's type occurs twice in the key. */
  ghost predicate Single(k: Key, dels: seq<Key>)
  {
    IsSha2(k.kind) ==> DistinctHashes(Entries(k.payload, ShaSize(k.kind) + GUID_SIZE), Listed(k.kind, dels))
  }

  lemma {:induction false} PurgeOther(k: Key, dels: seq<Key>)
    requires !IsSha2(k.kind)
    ensures PurgeAll(k.kind, k.payload, dels) == Kept(k, dels)
    decreases |dels|
  {
    hide DeleteMany, Entries, IsSha2;
    if dels != [] {
      var q := PurgeOne(k.kind, k.payload, dels[0]);
      PurgeOther(Key(k.kind, q), dels[1..]);
      assert dels == [dels[0]] + dels[1..];
      assert k.kind == X509 ==> (k == dels[0] <==> dels[0].kind == X509 && k.payload == dels[0].payload);
    }
  }

  lemma {:induction false} PurgeAllIsKept(k: Key, dels: seq<Key>)
    requires Single(k, dels)
    ensures PurgeAll(k.kind, k.payload, dels) == Kept(k, dels)
  {
    hide Entries, Rest, Keep, DistinctHashes, DeleteMany, PurgeAll, Join, Listed;
    if IsSha2(k.kind) {
      var sig := ShaSize(k.kind) + GUID_SIZE;
      PurgeAllIsMany(k.kind, k.payload, dels);
      DeleteListIsFilter(k.payload, Listed(k.kind, dels), sig);
      JoinEntries(PurgeAll(k.kind, k.payload, dels), sig);
    } else {
      PurgeOther(k, dels);
    }
  }

  /** If no key holds a listed hash twice, a whole request leaves exactly what no delete node lists. */
  lemma {:induction false} RequestIsFilter(ks: seq<Key>, dels: seq<Key>)
    requires forall i :: 0 <= i < |ks| ==> Single(ks[i], dels)
    ensures PurgeKeys(ks, dels) == KeptKeys(ks, dels)
  {
    hide PurgeAll, Kept, Single;
    if ks != [] {
      PurgeAllIsKept(ks[0], dels);
      RequestIsFilter(ks[1..], dels);
    }
  }

  /** The whole of `delete_keys` on data whose lists are apart: the written
      bytes are the purged keys, and reading them gives exactly those keys back
      if and only if each of them is parsable. */
  lemma {:induction false} DeleteAndReadBack(m: Memory, dels: seq<Key>, beyond: nat -> Byte)
    requires Counted(m, 0).Some? && Built(m, 0).Some? && HeadersApart(m) && |m.data| + LIST_HEADER + GUID_SIZE < U32
    ensures var s := State(m.data, Built(m, 0).value);
            var ks := PurgeKeys(Keys(m, s.list), dels);
            && Valid(s) && Sized(ks)
            && Keys(Memory(DeleteKeys(s, dels).buf, m.beyond), DeleteKeys(s, dels).list) == ks
            && var m' := Memory(EncodeAll(ks), beyond);
            && (Counted(m', 0).Some? && Built(m', 0).Some? <==> AllParsable(ks))
            && (AllParsable(ks) ==> Counted(m', 0) == Some(|ks|) && Keys(m', Built(m', 0).value) == ks)
  {
    hide Counted, Built, Keys, PurgeKeys, DeleteKeys, EncodeAll, Sized, HeadersApart, AllParsable, KeysSize;
    BuiltLaidIff(m);
    var s := State(m.data, Built(m, 0).value);
    PurgeKeysSized(s, dels, m.beyond);
    assert Memory(m.data, m.beyond) == m;
    var ks := PurgeKeys(Keys(m, s.list), dels);
    var m' := Memory(EncodeAll(ks), beyond);
    assert m'.data[0..0 + |m'.data|] == m'.data;
    RoundTripAt(m', 0, ks);
  }
}
