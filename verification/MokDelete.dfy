/** Deleting keys from the list of MokManager.c: certificates are unlinked, hash
    entries are removed by shifting the rest of a node's data down in place. */
module MokDelete {
  import opened Bytes
  import opened SignatureList
  import opened MokList

  // ----- a node's data as entries of one size

  /** The whole entries of `p`, each an owner GUID and a hash. */
  function Entries(p: seq<Byte>, sig: nat): (es: seq<seq<Byte>>)
    requires 0 < sig
    ensures forall i :: 0 <= i < |es| ==> |es[i]| == sig
  {
    if |p| < sig then [] else [p[..sig]] + Entries(p[sig..], sig)
  }

  /** What is left after the last whole entry. */
  function Rest(p: seq<Byte>, sig: nat): (r: seq<Byte>)
    requires 0 < sig
    ensures |r| < sig
  {
    if |p| < sig then p else Rest(p[sig..], sig)
  }

  function Join(es: seq<seq<Byte>>): (p: seq<Byte>)
  {
    if es == [] then [] else es[0] + Join(es[1..])
  }

  predicate Matches(e: seq<Byte>, hash: seq<Byte>)
  {
    |e| == GUID_SIZE + |hash| && e[GUID_SIZE..] == hash
  }

  /** The first entry that holds `hash`, or the number of entries. */
  function FirstMatch(es: seq<seq<Byte>>, hash: seq<Byte>): (i: nat)
    ensures i <= |es|
    ensures forall k :: 0 <= k < i ==> !Matches(es[k], hash)
    ensures i < |es| ==> Matches(es[i], hash)
  {
    if es == [] || Matches(es[0], hash) then 0 else 1 + FirstMatch(es[1..], hash)
  }

  function Without(es: seq<seq<Byte>>, hash: seq<Byte>): (r: seq<seq<Byte>>)
    ensures forall i :: 0 <= i < |r| ==> !Matches(r[i], hash)
  {
    if es == [] then []
    else (if Matches(es[0], hash) then [] else [es[0]]) + Without(es[1..], hash)
  }

  /** The deletion loop.  `match_hash` counts from `start` but always compares
      from the first entry, so the entry it names is off by `start`. */
  function DeleteLoop(es: seq<seq<Byte>>, start: nat, hash: seq<Byte>): (r: seq<seq<Byte>>)
    decreases |es|
  {
    var i := start + FirstMatch(es, hash);
    if |es| <= i then es else DeleteLoop(Drop(es, i), i, hash)
  }

  /** Every occurrence that has a later one is preceded by occurrences only. */
  ghost predicate RepeatsLead(es: seq<seq<Byte>>, hash: seq<Byte>)
  {
    forall p, i, j :: 0 <= p < i < j < |es| && Matches(es[i], hash) && Matches(es[j], hash) ==> Matches(es[p], hash)
  }

  ghost predicate Has(es: seq<seq<Byte>>, hash: seq<Byte>)
  {
    exists i :: 0 <= i < |es| && Matches(es[i], hash)
  }

  /** Past the first entry, the loop never reaches the first occurrence. */
  lemma {:induction false} LateStartMisses(es: seq<seq<Byte>>, start: nat, hash: seq<Byte>)
    requires 0 < start && Has(es, hash)
    ensures Has(DeleteLoop(es, start, hash), hash)
    decreases |es|
  {
    var j := FirstMatch(es, hash);
    var i := start + j;
    if i < |es| {
      assert Drop(es, i)[j] == es[j];
      LateStartMisses(Drop(es, i), i, hash);
    }
  }

  lemma {:induction false} WithoutNone(es: seq<seq<Byte>>, hash: seq<Byte>)
    requires !Has(es, hash)
    ensures Without(es, hash) == es
  {
    if es != [] {
      assert !Matches(es[0], hash);
      assert forall i :: 0 <= i < |es| - 1 ==> es[1..][i] == es[i + 1];
      WithoutNone(es[1..], hash);
    }
  }

  lemma {:induction false} WithoutDrop(es: seq<seq<Byte>>, i: nat, hash: seq<Byte>)
    requires i < |es| && Matches(es[i], hash)
    ensures Without(Drop(es, i), hash) == Without(es, hash)
  {
    if i == 0 {
      assert Drop(es, 0) == es[1..];
    } else {
      WithoutDrop(es[1..], i - 1, hash);
      assert Drop(es, i)[0] == es[0] && Drop(es, i)[1..] == Drop(es[1..], i - 1);
    }
  }

  /** Deleting removes exactly the occurrences of the hash if and only if all
      of them but the last stand at the head of the node. */
  lemma {:induction false} DeleteIsFilterIff(es: seq<seq<Byte>>, hash: seq<Byte>)
    ensures DeleteLoop(es, 0, hash) == Without(es, hash) <==> RepeatsLead(es, hash)
    decreases |es|
  {
    var j := FirstMatch(es, hash);
    if j == |es| {
      WithoutNone(es, hash);
    } else {
      var less := Drop(es, j);
      WithoutDrop(es, j, hash);
      if j == 0 {
        assert less == es[1..];
        DeleteIsFilterIff(less, hash);
        RepeatsLeadTail(es, hash);
      } else if Has(less, hash) {
        LateStartMisses(less, j, hash);
        var k :| 0 <= k < |less| && Matches(less[k], hash);
        assert j <= k && es[k + 1] == less[k] && !Matches(es[0], hash);
        assert !RepeatsLead(es, hash);
      } else {
        WithoutNone(less, hash);
        assert DeleteLoop(less, j, hash) == less;
        LastOnly(es, hash, j);
      }
    }
  }

  lemma {:induction false} RepeatsLeadTail(es: seq<seq<Byte>>, hash: seq<Byte>)
    requires es != [] && Matches(es[0], hash)
    ensures RepeatsLead(es, hash) <==> RepeatsLead(es[1..], hash)
  {
    var t := es[1..];
    if RepeatsLead(es, hash) {
      forall p, i, j | 0 <= p < i < j < |t| && Matches(t[i], hash) && Matches(t[j], hash) ensures Matches(t[p], hash) {
        assert Matches(es[i + 1], hash) && Matches(es[j + 1], hash) && es[p + 1] == t[p];
      }
    }
    if RepeatsLead(t, hash) {
      forall p, i, j | 0 <= p < i < j < |es| && Matches(es[i], hash) && Matches(es[j], hash)
        ensures Matches(es[p], hash)
      {
        if 0 < p {
          assert t[p - 1] == es[p] && Matches(t[i - 1], hash) && Matches(t[j - 1], hash);
        }
      }
    }
  }

  lemma {:induction false} LastOnly(es: seq<seq<Byte>>, hash: seq<Byte>, j: nat)
    requires j == FirstMatch(es, hash) < |es| && !Has(Drop(es, j), hash)
    ensures RepeatsLead(es, hash)
  {
    forall i | j < i < |es| ensures !Matches(es[i], hash) {
      assert Drop(es, j)[i - 1] == es[i];
    }
  }

  predicate AtMostOnce(es: seq<seq<Byte>>, hash: seq<Byte>)
  {
    forall i, j :: 0 <= i < j < |es| ==> !(Matches(es[i], hash) && Matches(es[j], hash))
  }

  /** Another entry, then the same hash twice: the second copy stays. */
  lemma {:induction false} SecondCopyStays(x: seq<Byte>, e: seq<Byte>, hash: seq<Byte>)
    requires Matches(e, hash) && !Matches(x, hash)
    ensures DeleteLoop([x, e, e], 0, hash) == [x, e]
  {
    assert Drop([x, e, e], 1) == [x, e];
    assert FirstMatch([x, e, e], hash) == 1 && FirstMatch([x, e], hash) == 1;
  }

  // ----- entries and bytes

  lemma {:induction false} JoinEntries(p: seq<Byte>, sig: nat)
    requires 0 < sig
    ensures p == Join(Entries(p, sig)) + Rest(p, sig)
  {
    if sig <= |p| {
      JoinEntries(p[sig..], sig);
      assert p == p[..sig] + p[sig..];
    }
  }

  lemma {:induction false} EntryAt(p: seq<Byte>, sig: nat, k: nat)
    requires 0 < sig && k < |Entries(p, sig)|
    ensures k * sig + sig <= |p| && Entries(p, sig)[k] == p[k * sig..k * sig + sig]
  {
    if 0 < k {
      EntryAt(p[sig..], sig, k - 1);
      assert k * sig == (k - 1) * sig + sig;
    } else {
      assert k * sig == 0;
    }
  }

  lemma {:induction false} EntryCount(p: seq<Byte>, sig: nat)
    requires 0 < sig
    ensures |Entries(p, sig)| * sig + |Rest(p, sig)| == |p|
    ensures |p| / sig == |Entries(p, sig)|
  {
    var n, r := |Entries(p, sig)|, |Rest(p, sig)|;
    if sig <= |p| {
      EntryCount(p[sig..], sig);
      assert n * sig == (n - 1) * sig + sig;
    } else {
      assert n * sig == 0;
    }
    Quotient(|p|, sig, n, r);
  }

  lemma CutShift(p: seq<Byte>, q: seq<Byte>, cut: nat, sig: nat)
    requires cut + sig + sig <= |p| && q == p[..cut + sig] + p[cut + sig + sig..]
    ensures |q| >= sig && q[..sig] == p[..sig] && q[sig..] == p[sig..][..cut] + p[sig..][cut + sig..]
  {
  }

  /** Cutting entry `k` out of the bytes drops it from the entries. */
  lemma {:induction false} CutEntry(p: seq<Byte>, sig: nat, k: nat, q: seq<Byte>)
    requires 0 < sig && k < |Entries(p, sig)| && k * sig + sig <= |p|
    requires q == p[..k * sig] + p[k * sig + sig..]
    ensures Entries(q, sig) == Drop(Entries(p, sig), k) && Rest(q, sig) == Rest(p, sig)
    decreases k
  {
    var es := Entries(p, sig);
    if k == 0 {
      assert k * sig == 0 && q == p[sig..] && Drop(es, 0) == es[1..] == Entries(p[sig..], sig);
    } else {
      assert k * sig == (k - 1) * sig + sig;
      CutShift(p, q, (k - 1) * sig, sig);
      CutEntry(p[sig..], sig, k - 1, q[sig..]);
      assert Drop(es, k) == [p[..sig]] + Drop(es[1..], k - 1);
    }
  }

  // ----- match_hash, mem_move and the loop over one node

  lemma {:induction false} MatchesAt(p: seq<Byte>, hash: seq<Byte>, k: nat)
    requires k < |Entries(p, GUID_SIZE + |hash|)|
    ensures k * (GUID_SIZE + |hash|) + GUID_SIZE + |hash| <= |p|
    ensures Matches(Entries(p, GUID_SIZE + |hash|)[k], hash) <==>
              p[k * (GUID_SIZE + |hash|) + GUID_SIZE..k * (GUID_SIZE + |hash|) + GUID_SIZE + |hash|] == hash
  {
    var sig := GUID_SIZE + |hash|;
    EntryAt(p, sig, k);
    assert p[k * sig..k * sig + sig][GUID_SIZE..] == p[k * sig + GUID_SIZE..k * sig + sig];
  }

  /** What `match_hash` returns on a node of these entries. */
  function MatchFrom(es: seq<seq<Byte>>, start: nat, hash: seq<Byte>): (i: int)
  {
    if start + FirstMatch(es, hash) < |es| then start + FirstMatch(es, hash) else -1
  }

  lemma MatchFromIs(es: seq<seq<Byte>>, start: nat, hash: seq<Byte>, i: nat)
    requires start <= i && forall k :: 0 <= k < i - start && k < |es| ==> !Matches(es[k], hash)
    ensures |es| <= i ==> MatchFrom(es, start, hash) == -1
    ensures i < |es| && Matches(es[i - start], hash) ==> MatchFrom(es, start, hash) == i
  {
  }

  /** Counts from `start`, compares from the first entry of the node's data. */
  method MatchHash(buf: array<Byte>, at: nat, size: nat, hash: seq<Byte>, start: nat, num: nat) returns (found: int)
    requires at + size <= buf.Length && num == |Entries(buf[at..at + size], GUID_SIZE + |hash|)|
    ensures found == MatchFrom(Entries(buf[at..at + size], GUID_SIZE + |hash|), start, hash)
  {
    hide Entries, FirstMatch, Matches, MatchFrom;
    ghost var p := buf[at..at + size];
    ghost var es := Entries(p, GUID_SIZE + |hash|);
    var i, ptr := start, GUID_SIZE;
    while i < num
      invariant start <= i && ptr == (i - start) * (GUID_SIZE + |hash|) + GUID_SIZE
      invariant forall k :: 0 <= k < i - start && k < |es| ==> !Matches(es[k], hash)
    {
      MatchesAt(p, hash, i - start);
      MatchFromIs(es, start, hash, i);
      assert p[ptr..ptr + |hash|] == buf[at + ptr..at + ptr + |hash|];
      if hash == buf[at + ptr..at + ptr + |hash|] {
        return i;
      }
      assert (i + 1 - start) * (GUID_SIZE + |hash|) == (i - start) * (GUID_SIZE + |hash|) + (GUID_SIZE + |hash|);
      ptr := ptr + (|hash| + GUID_SIZE);
      i := i + 1;
    }
    MatchFromIs(es, start, hash, i);
    return -1;
  }

  /** The buffer after a move of `size` bytes from `src` down to `dest`. */
  function Moved(buf: seq<Byte>, dest: nat, src: nat, size: nat): (r: seq<Byte>)
    requires dest <= src && src + size <= |buf|
    ensures |r| == |buf|
  {
    buf[..dest] + buf[src..src + size] + buf[dest + size..]
  }

  method MemMove(buf: array<Byte>, dest: nat, src: nat, size: nat)
    requires dest <= src && src + size <= buf.Length
    modifies buf
    ensures buf[..] == Moved(old(buf[..]), dest, src, size)
  {
    hide Moved;
    ghost var was := buf[..];
    for i := 0 to size
      invariant forall k :: dest <= k < dest + i ==> buf[k] == was[k + (src - dest)]
      invariant forall k :: dest + i <= k < buf.Length || 0 <= k < dest ==> buf[k] == was[k]
    {
      buf[dest + i] := buf[src + i];
    }
    MovedIs(was, buf[..], dest, src, size);
  }

  lemma {:induction false} MovedIs(was: seq<Byte>, now: seq<Byte>, dest: nat, src: nat, size: nat)
    requires dest <= src && src + size <= |was| == |now|
    requires forall k :: dest <= k < dest + size ==> now[k] == was[k + (src - dest)]
    requires forall k :: dest + size <= k < |was| || 0 <= k < dest ==> now[k] == was[k]
    ensures now == Moved(was, dest, src, size)
  {
    assert now[..dest] == was[..dest];
    assert now[dest..dest + size] == was[src..src + size];
    assert now[dest + size..] == was[dest + size..];
    assert now == now[..dest] + now[dest..dest + size] + now[dest + size..];
  }

  /** One hash deleted from one node's data. */
  function DeleteOne(p: seq<Byte>, hash: seq<Byte>): (q: seq<Byte>)
  {
    var sig := GUID_SIZE + |hash|;
    Join(DeleteLoop(Entries(p, sig), 0, hash)) + Rest(p, sig)
  }

  predicate Within(n: Node, size: nat)
  {
    n.mok.Some? ==> n.mok.value.at + n.mok.value.size <= size
  }

  function Data(buf: seq<Byte>, n: Node): (p: seq<Byte>)
  {
    if n.mok.None? || |buf| < n.mok.value.at + n.mok.value.size then []
    else buf[n.mok.value.at..n.mok.value.at + n.mok.value.size]
  }

  lemma DataIs(s: seq<Byte>, n: Node)
    requires n.mok.Some? && Within(n, |s|)
    ensures Data(s, n) == s[n.mok.value.at..n.mok.value.at + n.mok.value.size]
    ensures |Data(s, n)| == n.mok.value.size
  {
  }

  /** Entry `i` of the node at `at` removed by shifting the rest of the node down. */
  function Removed(buf: seq<Byte>, at: nat, size: nat, sig: nat, i: nat): (r: seq<Byte>)
    requires at + size <= |buf| && 0 < sig && i < |Entries(buf[at..at + size], sig)|
    ensures |r| == |buf|
  {
    EntryAt(buf[at..at + size], sig, i);
    Moved(buf, at + i * sig, at + i * sig + sig, size - i * sig - sig)
  }

  /** A buffer, and a node in it. */
  datatype Turn = Turn(buf: seq<Byte>, node: Node)

  /** The loop of `delete_hash_in_list` over the node of `size` bytes at `at`. */
  function NodeLoop(buf: seq<Byte>, kind: Guid, at: nat, size: nat, start: nat, hash: seq<Byte>): (t: Turn)
    requires at + size <= |buf|
    ensures |t.buf| == |buf| && t.node.kind == kind && Within(t.node, |buf|)
    decreases size
  {
    var sig := GUID_SIZE + |hash|;
    var i := MatchFrom(Entries(buf[at..at + size], sig), start, hash);
    if i < 0 then Turn(buf, Node(kind, Some(Place(at, size))))
    else if sig == size then Turn(buf, Node(kind, None))
    else
      EntryAt(buf[at..at + size], sig, i);
      MulPositive(i, sig);
      NodeLoop(Removed(buf, at, size, sig, i), kind, at, size - sig, i, hash)
  }

  lemma MulPositive(i: nat, sig: nat)
    ensures 0 <= i * sig
  {
  }

  /** Removes entry `i` of the node at `at` by shifting the rest down. */
  method RemoveEntry(buf: array<Byte>, at: nat, size: nat, sig: nat, i: nat)
    requires 0 < sig && at + size <= buf.Length && i < |Entries(buf[at..at + size], sig)|
    modifies buf
    ensures buf[..] == Removed(old(buf[..]), at, size, sig, i)
  {
    hide Entries, Moved;
    assert buf[at..at + size] == buf[..][at..at + size];
    EntryAt(buf[at..at + size], sig, i);
    var start := at + i * sig;
    MemMove(buf, start, start + sig, size - i * sig - sig);
  }

  /** The loop, in place. */
  method DeleteHashInNode(buf: array<Byte>, n: Node, hash: seq<Byte>) returns (n': Node)
    requires n.mok.Some? && Within(n, buf.Length)
    modifies buf
    ensures Turn(buf[..], n') == NodeLoop(old(buf[..]), n.kind, n.mok.value.at, n.mok.value.size, 0, hash)
  {
    hide Entries, MatchFrom, Removed;
    var at, size := n.mok.value.at, n.mok.value.size;
    var sig := |hash| + GUID_SIZE;
    EntryCount(buf[at..at + size], sig);
    var num := size / sig;
    var start := 0;
    assert buf[at..at + size] == buf[..][at..at + size];
    var i := MatchHash(buf, at, size, hash, 0, num);
    while 0 <= i
      invariant 0 <= size && at + size <= buf.Length && num == |Entries(buf[..][at..at + size], sig)|
      invariant i == MatchFrom(Entries(buf[..][at..at + size], sig), start, hash)
      invariant NodeLoop(buf[..], n.kind, at, size, start, hash) ==
                NodeLoop(old(buf[..]), n.kind, at, n.mok.value.size, 0, hash)
      decreases num
    {
      if sig == size {
        return Node(n.kind, None);
      }
      MatchInside(Entries(buf[..][at..at + size], sig), start, hash);
      ghost var was := buf[..];
      assert buf[at..at + size] == was[at..at + size];
      RemoveEntry(buf, at, size, sig, i);
      RemovedIs(was, at, size, sig, i);
      size := size - sig;
      num := num - 1;
      start := i;
      assert buf[at..at + size] == buf[..][at..at + size];
      i := MatchHash(buf, at, size, hash, start, num);
    }
    n' := Node(n.kind, Some(Place(at, size)));
  }

  lemma MatchInside(es: seq<seq<Byte>>, start: nat, hash: seq<Byte>)
    ensures MatchFrom(es, start, hash) < |es|
  {
  }

  lemma ShiftedDown(buf: seq<Byte>, at: nat, size: nat, cut: nat, sig: nat)
    requires at + size <= |buf| && cut + sig <= size
    ensures var r := Moved(buf, at + cut, at + cut + sig, size - cut - sig);
            var p := buf[at..at + size];
            && r[at..at + (size - sig)] == p[..cut] + p[cut + sig..]
            && forall k :: 0 <= k < |buf| && !(at <= k < at + size) ==> r[k] == buf[k]
  {
  }

  /** A removal drops one entry, keeps the bytes after the last, and touches only the node. */
  lemma {:induction false} RemovedIs(buf: seq<Byte>, at: nat, size: nat, sig: nat, i: nat)
    requires at + size <= |buf| && 0 < sig && i < |Entries(buf[at..at + size], sig)|
    ensures sig <= size
    ensures var r := Removed(buf, at, size, sig, i);
            && Entries(r[at..at + (size - sig)], sig) == Drop(Entries(buf[at..at + size], sig), i)
            && Rest(r[at..at + (size - sig)], sig) == Rest(buf[at..at + size], sig)
            && forall k :: 0 <= k < |buf| && !(at <= k < at + size) ==> r[k] == buf[k]
  {
    hide Entries, Rest, Drop, Moved;
    var p := buf[at..at + size];
    EntryAt(p, sig, i);
    MulPositive(i, sig);
    ShiftedDown(buf, at, size, i * sig, sig);
    CutEntry(p, sig, i, Removed(buf, at, size, sig, i)[at..at + (size - sig)]);
  }

  /** Deleting the only entry of a node leaves nothing. */
  lemma {:induction false} LastEntry(p: seq<Byte>, i: nat, hash: seq<Byte>)
    requires |p| == GUID_SIZE + |hash| && i < |Entries(p, |p|)|
    ensures i == 0 && DeleteLoop(Drop(Entries(p, |p|), i), i, hash) == [] && Rest(p, |p|) == [] && Join([]) == []
  {
    assert p[|p|..] == [] && Entries(p, |p|) == [p[..|p|]] + Entries([], |p|);
    assert Drop(Entries(p, |p|), 0) == [];
  }

  lemma DeleteStep(es: seq<seq<Byte>>, start: nat, hash: seq<Byte>)
    ensures var i := MatchFrom(es, start, hash);
            if i < 0 then DeleteLoop(es, start, hash) == es
            else start <= i < |es| && DeleteLoop(es, start, hash) == DeleteLoop(Drop(es, i), i, hash)
  {
  }

  /** `b` is `a` or a part of it that starts at the same place. */
  predicate Shrunk(a: Node, b: Node)
  {
    b.kind == a.kind &&
    (b.mok.Some? ==> a.mok.Some? && b.mok.value.at == a.mok.value.at && b.mok.value.size <= a.mok.value.size)
  }

  /** The bytes outside a node are the same. */
  predicate SameElsewhere(was: seq<Byte>, now: seq<Byte>, n: Node)
  {
    |was| == |now| &&
    forall k :: 0 <= k < |was| && (n.mok.Some? ==> !(n.mok.value.at <= k < n.mok.value.at + n.mok.value.size)) ==>
      now[k] == was[k]
  }

  /** The byte shuffling amounts to the loop on entries; a node that runs empty loses its data. */
  lemma {:induction false} NodeLoopIs(buf: seq<Byte>, kind: Guid, at: nat, size: nat, start: nat, hash: seq<Byte>)
    requires at + size <= |buf|
    ensures var t, sig := NodeLoop(buf, kind, at, size, start, hash), GUID_SIZE + |hash|;
            var p, n := buf[at..at + size], Node(kind, Some(Place(at, size)));
            && Shrunk(n, t.node) && SameElsewhere(buf, t.buf, n)
            && Data(t.buf, t.node) == Join(DeleteLoop(Entries(p, sig), start, hash)) + Rest(p, sig)
            && (0 < size ==> (t.node.mok.Some? <==> Data(t.buf, t.node) != []))
    decreases size
  {
    hide Entries, Rest, Drop, DeleteLoop, Join, MatchFrom, Removed;
    var sig, p := GUID_SIZE + |hash|, buf[at..at + size];
    DeleteStep(Entries(p, sig), start, hash);
    var i := MatchFrom(Entries(p, sig), start, hash);
    if i < 0 {
      JoinEntries(p, sig);
    } else if sig == size {
      LastEntry(p, i, hash);
    } else {
      RemovedIs(buf, at, size, sig, i);
      NodeLoopIs(Removed(buf, at, size, sig, i), kind, at, size - sig, i, hash);
    }
  }

  lemma {:induction false} DeleteShort(p: seq<Byte>, hash: seq<Byte>)
    requires |p| < GUID_SIZE + |hash|
    ensures DeleteOne(p, hash) == p
  {
    assert [] + p == p;
  }

  /** The hash in a delete-list entry. */
  function HashOf(e: seq<Byte>): (h: seq<Byte>)
    requires GUID_SIZE <= |e|
  {
    e[GUID_SIZE..]
  }

  /** Deleting the hashes of `ds`, one after the other. */
  function DeleteMany(p: seq<Byte>, ds: seq<seq<Byte>>): (q: seq<Byte>)
    requires forall i :: 0 <= i < |ds| ==> GUID_SIZE <= |ds[i]|
    decreases |ds|
  {
    if ds == [] then p else DeleteMany(DeleteOne(p, HashOf(ds[0])), ds[1..])
  }

  predicate LongEnough(ds: seq<seq<Byte>>)
  {
    forall i :: 0 <= i < |ds| ==> GUID_SIZE <= |ds[i]|
  }

  lemma {:induction false} EntriesLong(del: seq<Byte>, sig: nat)
    requires GUID_SIZE <= sig
    ensures LongEnough(Entries(del, sig))
  {
    hide Entries;
    forall i | 0 <= i < |Entries(del, sig)| ensures GUID_SIZE <= |Entries(del, sig)[i]| {
      EntryAt(del, sig, i);
    }
  }

  lemma {:induction false} HashAt(del: seq<Byte>, sig: nat, i: nat)
    requires GUID_SIZE <= sig && i < |Entries(del, sig)|
    ensures i * sig + sig <= |del| && HashOf(Entries(del, sig)[i]) == del[i * sig + GUID_SIZE..i * sig + sig]
  {
    EntryAt(del, sig, i);
    assert del[i * sig..i * sig + sig][GUID_SIZE..] == del[i * sig + GUID_SIZE..i * sig + sig];
  }

  // ----- deletion as a filter

  /** Entries whose hash is not on the delete list, in order. */
  function Keep(es: seq<seq<Byte>>, ds: seq<seq<Byte>>): (r: seq<seq<Byte>>)
    requires forall i :: 0 <= i < |ds| ==> GUID_SIZE <= |ds[i]|
  {
    if es == [] then []
    else
      (if exists i :: 0 <= i < |ds| && Matches(es[0], HashOf(ds[i])) then [] else [es[0]]) + Keep(es[1..], ds)
  }

  lemma {:induction false} KeepStep(es: seq<seq<Byte>>, ds: seq<seq<Byte>>)
    requires ds != [] && forall i :: 0 <= i < |ds| ==> GUID_SIZE <= |ds[i]|
    ensures Keep(Without(es, HashOf(ds[0])), ds[1..]) == Keep(es, ds)
  {
    hide Matches, HashOf;
    if es != [] {
      var h, rest := HashOf(ds[0]), ds[1..];
      KeepStep(es[1..], ds);
      assert (exists i :: 0 <= i < |ds| && Matches(es[0], HashOf(ds[i]))) <==>
             Matches(es[0], h) || (exists i :: 0 <= i < |rest| && Matches(es[0], HashOf(rest[i]))) by {
        assert forall i :: 0 <= i < |rest| ==> rest[i] == ds[i + 1];
        assert forall i :: 1 <= i < |ds| ==> ds[i] == rest[i - 1];
      }
      var tail := Without(es[1..], h);
      if Matches(es[0], h) {
        assert Without(es, h) == [] + tail == tail;
        assert Keep(es, ds) == [] + Keep(es[1..], ds) == Keep(es[1..], ds);
      } else {
        assert Without(es, h) == [es[0]] + tail;
        assert ([es[0]] + tail)[1..] == tail;
      }
    }
  }

  lemma {:induction false} EntriesOfJoin(es: seq<seq<Byte>>, rest: seq<Byte>, sig: nat)
    requires 0 < sig && |rest| < sig && forall i :: 0 <= i < |es| ==> |es[i]| == sig
    ensures Entries(Join(es) + rest, sig) == es && Rest(Join(es) + rest, sig) == rest
  {
    if es != [] {
      EntriesOfJoin(es[1..], rest, sig);
      var p := Join(es) + rest;
      Assoc(es[0], Join(es[1..]), rest);
      assert p == es[0] + (Join(es[1..]) + rest);
      assert p[..sig] == es[0] && p[sig..] == Join(es[1..]) + rest;
    } else {
      assert Join(es) + rest == rest;
    }
  }

  lemma {:induction false} DeleteLoopWidths(es: seq<seq<Byte>>, start: nat, hash: seq<Byte>, sig: nat)
    requires forall i :: 0 <= i < |es| ==> |es[i]| == sig
    ensures forall i :: 0 <= i < |DeleteLoop(es, start, hash)| ==> |DeleteLoop(es, start, hash)[i]| == sig
    decreases |es|
  {
    var i := start + FirstMatch(es, hash);
    if i < |es| {
      DeleteLoopWidths(Drop(es, i), i, hash, sig);
    }
  }

  lemma {:induction false} OnceIsFilter(es: seq<seq<Byte>>, hash: seq<Byte>)
    requires AtMostOnce(es, hash)
    ensures DeleteLoop(es, 0, hash) == Without(es, hash)
  {
    DeleteIsFilterIff(es, hash);
  }

  lemma {:induction false} DeleteOneFilters(p: seq<Byte>, hash: seq<Byte>)
    requires AtMostOnce(Entries(p, GUID_SIZE + |hash|), hash)
    ensures Entries(DeleteOne(p, hash), GUID_SIZE + |hash|) == Without(Entries(p, GUID_SIZE + |hash|), hash)
    ensures Rest(DeleteOne(p, hash), GUID_SIZE + |hash|) == Rest(p, GUID_SIZE + |hash|)
  {
    hide Entries, Rest, DeleteLoop, Without, Join, AtMostOnce;
    var sig := GUID_SIZE + |hash|;
    var es := Entries(p, sig);
    OnceIsFilter(es, hash);
    DeleteLoopWidths(es, 0, hash, sig);
    EntriesOfJoin(DeleteLoop(es, 0, hash), Rest(p, sig), sig);
  }

  lemma {:induction false} WithoutMembers(es: seq<seq<Byte>>, hash: seq<Byte>, i: nat)
    requires i < |Without(es, hash)|
    ensures exists j :: i <= j < |es| && es[j] == Without(es, hash)[i]
  {
    var rest := es[1..];
    if Matches(es[0], hash) {
      WithoutMembers(rest, hash, i);
      var j :| i <= j < |rest| && rest[j] == Without(rest, hash)[i];
      assert es[j + 1] == Without(es, hash)[i];
    } else if 0 < i {
      WithoutMembers(rest, hash, i - 1);
      var j :| i - 1 <= j < |rest| && rest[j] == Without(rest, hash)[i - 1];
      assert es[j + 1] == Without(es, hash)[i];
    }
  }

  lemma {:induction false} WithoutKeepsOnce(es: seq<seq<Byte>>, hash: seq<Byte>, other: seq<Byte>)
    requires AtMostOnce(es, other)
    ensures AtMostOnce(Without(es, hash), other)
  {
    if es != [] {
      var rest := es[1..];
      assert AtMostOnce(rest, other) by {
        assert forall i :: 0 <= i < |rest| ==> rest[i] == es[i + 1];
      }
      WithoutKeepsOnce(rest, hash, other);
      if !Matches(es[0], hash) {
        var r := Without(rest, hash);
        assert Without(es, hash) == [es[0]] + r;
        forall j | 0 <= j < |r| && Matches(es[0], other) ensures !Matches(r[j], other) {
          WithoutMembers(rest, hash, j);
          var k :| j <= k < |rest| && rest[k] == r[j];
          assert es[k + 1] == r[j];
        }
      }
    }
  }

  ghost predicate DistinctHashes(es: seq<seq<Byte>>, ds: seq<seq<Byte>>)
    requires forall i :: 0 <= i < |ds| ==> GUID_SIZE <= |ds[i]|
  {
    forall i :: 0 <= i < |ds| ==> AtMostOnce(es, HashOf(ds[i]))
  }

  /** If no listed hash occurs twice in a node, deleting the list leaves exactly
      the other entries, in order, and the bytes after the last entry. */
  lemma {:induction false} DeleteListIsFilter(p: seq<Byte>, ds: seq<seq<Byte>>, sig: nat)
    requires GUID_SIZE < sig && forall i :: 0 <= i < |ds| ==> |ds[i]| == sig
    requires DistinctHashes(Entries(p, sig), ds)
    ensures Entries(DeleteMany(p, ds), sig) == Keep(Entries(p, sig), ds)
    ensures Rest(DeleteMany(p, ds), sig) == Rest(p, sig)
    decreases |ds|
  {
    hide Entries, Rest, DeleteOne, Without, Keep, AtMostOnce;
    if ds == [] {
      KeepAll(Entries(p, sig), ds);
    } else {
      var h, rest := HashOf(ds[0]), ds[1..];
      var q := DeleteOne(p, h);
      DeleteOneFilters(p, h);
      forall i | 0 <= i < |rest| ensures AtMostOnce(Entries(q, sig), HashOf(rest[i])) {
        assert rest[i] == ds[i + 1];
        WithoutKeepsOnce(Entries(p, sig), h, HashOf(rest[i]));
      }
      DeleteListIsFilter(q, rest, sig);
      KeepStep(Entries(p, sig), ds);
    }
  }

  lemma {:induction false} KeepAll(es: seq<seq<Byte>>, ds: seq<seq<Byte>>)
    requires ds == []
    ensures Keep(es, ds) == es
  {
    if es != [] {
      KeepAll(es[1..], ds);
    }
  }

  lemma {:induction false} DeleteOneRest(p: seq<Byte>, hash: seq<Byte>)
    ensures Rest(DeleteOne(p, hash), GUID_SIZE + |hash|) == Rest(p, GUID_SIZE + |hash|)
  {
    hide Entries, Rest, DeleteLoop, Join;
    var sig := GUID_SIZE + |hash|;
    DeleteLoopWidths(Entries(p, sig), 0, hash, sig);
    EntriesOfJoin(DeleteLoop(Entries(p, sig), 0, hash), Rest(p, sig), sig);
  }

  /** Only whole entries are ever dropped, whatever the hashes. */
  lemma {:induction false} DeleteManyRest(p: seq<Byte>, ds: seq<seq<Byte>>, sig: nat)
    requires GUID_SIZE < sig && forall i :: 0 <= i < |ds| ==> |ds[i]| == sig
    ensures Rest(DeleteMany(p, ds), sig) == Rest(p, sig)
    decreases |ds|
  {
    hide Rest, DeleteOne;
    if ds != [] {
      DeleteOneRest(p, HashOf(ds[0]));
      DeleteManyRest(DeleteOne(p, HashOf(ds[0])), ds[1..], sig);
    }
  }

  /** A purged node can be read again after it is written back exactly if an
      entry is left, or the bytes after the last entry are many enough. */
  lemma {:induction false} PurgedParsesIff(kind: Guid, p: seq<Byte>, ds: seq<seq<Byte>>)
    requires IsSha2(kind) && forall i :: 0 <= i < |ds| ==> |ds[i]| == ShaSize(kind) + GUID_SIZE
    ensures var sig := ShaSize(kind) + GUID_SIZE;
            Parsable(Key(kind, DeleteMany(p, ds))) <==>
              Entries(DeleteMany(p, ds), sig) != [] || sig < |Rest(p, sig)| + LIST_HEADER
  {
    hide Rest, DeleteMany;
    var sig := ShaSize(kind) + GUID_SIZE;
    var q := DeleteMany(p, ds);
    DeleteManyRest(p, ds, sig);
    JoinEntries(q, sig);
    if Entries(q, sig) == [] {
      assert Join([]) + Rest(q, sig) == Rest(q, sig);
    }
  }

  /** The same on what is kept, when no listed hash occurs twice. */
  lemma {:induction false} KeptParsesIff(kind: Guid, p: seq<Byte>, ds: seq<seq<Byte>>)
    requires IsSha2(kind) && forall i :: 0 <= i < |ds| ==> |ds[i]| == ShaSize(kind) + GUID_SIZE
    requires DistinctHashes(Entries(p, ShaSize(kind) + GUID_SIZE), ds)
    ensures var sig := ShaSize(kind) + GUID_SIZE;
            Parsable(Key(kind, DeleteMany(p, ds))) <==>
              Keep(Entries(p, sig), ds) != [] || sig < |Rest(p, sig)| + LIST_HEADER
  {
    hide Rest, DeleteMany, Entries, Keep, Parsable, DistinctHashes;
    PurgedParsesIff(kind, p, ds);
    DeleteListIsFilter(p, ds, ShaSize(kind) + GUID_SIZE);
  }

  /** A node with a few bytes after its one entry: deleting the entry leaves
      data that `count_keys` rejects once it is written back. */
  lemma {:induction false} LeftoverRejected(kind: Guid, e: seq<Byte>, rest: seq<Byte>)
    requires IsSha2(kind) && |e| == ShaSize(kind) + GUID_SIZE && 0 < |rest| && |rest| + LIST_HEADER <= |e|
    ensures DeleteOne(e + rest, HashOf(e)) == rest && !Parsable(Key(kind, rest))
  {
    var p, sig, h := e + rest, |e|, HashOf(e);
    assert p[..sig] == e && p[sig..] == rest;
    assert Entries(p, sig) == [e] + Entries(rest, sig) == [e];
    assert Matches(e, h) && FirstMatch([e], h) == 0;
    assert Drop([e], 0) == [];
    assert DeleteLoop([e], 0, h) == DeleteLoop([], 0, h) == [];
    assert Rest(p, sig) == rest;
    assert Join([]) + rest == rest;
  }
}
