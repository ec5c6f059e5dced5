/** The section cache of pe.c: a grown-by-one array of section digests, keyed
    by the handle of the image the sections were loaded for. */
module SectionCache {
  import opened Bytes

  type Handle = nat
  type Digest = seq<Byte>

  datatype Entry = Entry(handle: Handle, name: seq<Byte>, size: nat, digest: Digest)

  const ZeroEntry := Entry(0, [], 0, [])

  /** The entries before the first one that belongs to `h`. */
  function BeforeFirst(h: Handle, es: seq<Entry>): (r: seq<Entry>)
    ensures r <= es
    ensures forall i :: 0 <= i < |r| ==> es[i].handle != h
    ensures |r| < |es| ==> es[|r|].handle == h
  {
    if es == [] || es[0].handle == h then [] else [es[0]] + BeforeFirst(h, es[1..])
  }

  /** The entries that do not belong to `h`, in order. */
  function Without(h: Handle, es: seq<Entry>): (r: seq<Entry>)
  {
    if es == [] then []
    else if es[0].handle == h then Without(h, es[1..])
    else [es[0]] + Without(h, es[1..])
  }

  /** The entries of `h`, once they start, run to the end of the cache. */
  ghost predicate Trailing(h: Handle, es: seq<Entry>)
  {
    forall i, j :: 0 <= i < j < |es| && es[i].handle == h ==> es[j].handle == h
  }

  predicate Matches(e: Entry, h: Handle, size: nat, digest: Digest)
  {
    e.handle == h && e.size == size && e.digest == digest
  }

  lemma {:induction false} WithoutStartsBefore(h: Handle, es: seq<Entry>)
    ensures Without(h, es) == BeforeFirst(h, es) + Without(h, es[|BeforeFirst(h, es)|..])
  {
    hide Without, BeforeFirst;
    KeepHead(h, es);
    if es != [] && es[0].handle != h {
      var rest := es[1..];
      var kept := BeforeFirst(h, rest);
      WithoutStartsBefore(h, rest);
      assert es[|kept| + 1..] == rest[|kept|..];
      assert [es[0]] + (kept + Without(h, rest[|kept|..])) == [es[0]] + kept + Without(h, rest[|kept|..]);
    } else {
      assert es[0..] == es;
    }
  }

  lemma KeepHead(h: Handle, es: seq<Entry>)
    ensures if es != [] && es[0].handle != h then
              && BeforeFirst(h, es) == [es[0]] + BeforeFirst(h, es[1..])
              && Without(h, es) == [es[0]] + Without(h, es[1..])
            else BeforeFirst(h, es) == []
  {
  }

  lemma {:induction false} WithoutNothingIff(h: Handle, es: seq<Entry>)
    ensures Without(h, es) == [] <==> forall i :: 0 <= i < |es| ==> es[i].handle == h
  {
    if es != [] {
      WithoutNothingIff(h, es[1..]);
      assert forall i :: 0 <= i < |es| - 1 ==> es[1..][i] == es[i + 1];
      assert forall i :: 1 <= i < |es| ==> es[i] == es[1..][i - 1];
    }
  }

  /** Flushing keeps `BeforeFirst`; that is the intended "drop the entries of
      `h`" exactly when nothing else follows them. */
  lemma {:induction false} FlushDropsOnlyOwnIff(h: Handle, es: seq<Entry>)
    ensures BeforeFirst(h, es) == Without(h, es) <==> Trailing(h, es)
  {
    hide BeforeFirst, Without;
    var f := |BeforeFirst(h, es)|;
    var tail := es[f..];
    WithoutStartsBefore(h, es);
    WithoutNothingIff(h, tail);
    assert BeforeFirst(h, es) == Without(h, es) <==> Without(h, tail) == [];
    if Trailing(h, es) {
      assert forall i :: 0 <= i < |tail| ==> tail[i] == es[f + i];
    } else {
      var i, j :| 0 <= i < j < |es| && es[i].handle == h && es[j].handle != h;
      assert f <= i && tail[j - f] == es[j];
    }
  }

  /** Two images loaded one after the other: flushing the first one's section
      also loses the second one's. */
  lemma {:induction false} FlushLosesLaterImage(a: Entry, b: Entry)
    requires a.handle != b.handle
    ensures BeforeFirst(a.handle, [a, b]) == [] && Without(a.handle, [a, b]) == [b]
  {
    assert [a, b][1..] == [b];
    assert Without(a.handle, [b]) == [b] + Without(a.handle, [b][1..]);
  }

  class Cache {
    var entries: array<Entry>
    var count: nat

    ghost predicate Valid()
      reads this
    {
      count <= entries.Length
    }

    ghost function Contents(): (s: seq<Entry>)
      requires Valid()
      reads this, entries
    {
      entries[..count]
    }

    constructor ()
      ensures Valid() && Contents() == [] && fresh(entries)
    {
      entries := new Entry[0](_ => ZeroEntry);
      count := 0;
    }

    /** Appends a section; an allocation or digest failure leaves the contents
        alone (pe.c grows the array either way). */
    method CacheSection(h: Handle, name: seq<Byte>, digest: Digest, size: nat,
                        allocOk: bool, hashOk: bool) returns (status: Status)
      requires Valid()
      modifies this
      ensures Valid() && (entries == old(entries) || fresh(entries))
      ensures status == if allocOk && hashOk then Success else OutOfResources
      ensures Contents() == if status.Success?
                            then old(Contents()) + [Entry(h, name, size, digest)]
                            else old(Contents())
    {
      if !allocOk {
        return OutOfResources;
      }
      var grown := new Entry[count + 1](_ => ZeroEntry);
      forall k | 0 <= k < count {
        grown[k] := entries[k];
      }
      entries := grown;
      if !hashOk {
        assert entries[..count] == old(entries[..count]);
        return OutOfResources;
      }
      entries[count] := Entry(h, name, size, digest);
      count := count + 1;
      assert entries[..count] == old(entries[..count]) + [Entry(h, name, size, digest)];
      return Success;
    }

    /** Looks for a section of this handle with this size and digest. The digest
        is only computed once an entry of the right size and handle is met. */
    method ValidateCachedSection(h: Handle, size: nat, digest: Digest, hashOk: bool)
      returns (status: Status)
      requires Valid()
      ensures status.Success? <==> hashOk && exists e :: e in Contents() && Matches(e, h, size, digest)
      ensures status.OutOfResources? <==>
                !hashOk && exists e :: e in Contents() && e.handle == h && e.size == size
      ensures status in {Success, NotFound, OutOfResources}
    {
      var i := 0;
      while i < count
        invariant i <= count
        invariant forall k :: 0 <= k < i ==>
          !(entries[k].handle == h && entries[k].size == size && (!hashOk || entries[k].digest == digest))
      {
        if entries[i].size == size && entries[i].handle == h {
          assert entries[i] in Contents();
          if !hashOk {
            return OutOfResources;
          }
          if entries[i].digest == digest {
            return Success;
          }
        }
        i := i + 1;
      }
      return NotFound;
    }

    /** The in-place flush: each match copies the rest of the array one slot
        up, over itself, so every later slot becomes a match as well. */
    method FlushCachedSections(h: Handle)
      requires Valid()
      modifies this`count, entries
      ensures Valid()
      ensures Contents() == BeforeFirst(h, old(Contents()))
    {
      hide BeforeFirst;
      ghost var was := Contents();
      ghost var f := |BeforeFirst(h, was)|;
      var reduction := 0;
      var i := 0;
      while i < count
        invariant i <= count == |was| <= entries.Length && f <= count
        invariant reduction == if i <= f then 0 else i - f
        invariant forall k :: 0 <= k < f ==> entries[k] == was[k] && was[k].handle != h
        invariant i <= f ==> forall k :: 0 <= k < count ==> entries[k] == was[k]
        invariant forall k :: f <= k <= i && k < count ==> entries[k].handle == h
      {
        if entries[i].handle == h {
          reduction := reduction + 1;
          forall k | i < k < count {
            entries[k] := entries[k - 1];
          }
        }
        i := i + 1;
      }
      forall k | count - reduction <= k < count {
        entries[k] := ZeroEntry;
      }
      count := count - reduction;
      assert entries[..count] == was[..f];
    }
  }
}
