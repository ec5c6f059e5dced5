/** The key list of MokManager.c: counting, building and writing back. */
module MokList {
  import opened Bytes
  import opened SignatureList

  /** A list node: its type, and where its data lies; no data once deleted. */
  datatype Node = Node(kind: Guid, mok: Option<Place>)
  datatype Place = Place(at: nat, size: nat)

  // ----- count_keys

  /** The walk stops at the end, or when the rest is too short for a list. */
  predicate Ends(m: Memory, pos: nat)
  {
    |m.data| <= pos || |m.data| - pos < ListSizeAt(m, pos)
  }

  predicate Countable(m: Memory, pos: nat)
  {
    && pos + LIST_HEADER <= |m.data|
    && SigSizeAt(m, pos) < ListSizeAt(m, pos)
    && IsValidSiglist(TypeAt(m, pos), SigSizeAt(m, pos))
  }

  /** Lists from `pos` on, or nothing if one of them is malformed. */
  function Counted(m: Memory, pos: nat): (n: Option<nat>)
    decreases if pos < |m.data| then |m.data| - pos else 0
  {
    if Ends(m, pos) then Some(0)
    else if !Countable(m, pos) then None
    else
      var r := Counted(m, pos + ListSizeAt(m, pos));
      if r.None? then None else Some(r.value + 1)
  }

  method CountKeys(m: Memory) returns (n: nat)
    ensures n == if Counted(m, 0).Some? then Counted(m, 0).value else 0
  {
    n := 0;
    var pos, dbsize := 0, |m.data|;
    while 0 < dbsize && ListSizeAt(m, pos) <= dbsize
      invariant pos + dbsize == |m.data|
      invariant Counted(m, pos).Some? == Counted(m, 0).Some?
      invariant Counted(m, 0).Some? ==> n + Counted(m, pos).value == Counted(m, 0).value
    {
      if |m.data| < pos + LIST_HEADER {
        return 0;
      }
      if ListSizeAt(m, pos) <= SigSizeAt(m, pos) {
        return 0;
      }
      if !IsValidSiglist(TypeAt(m, pos), SigSizeAt(m, pos)) {
        return 0;
      }
      n := n + 1;
      dbsize := dbsize - ListSizeAt(m, pos);
      pos := pos + ListSizeAt(m, pos);
    }
  }

  // ----- build_mok_list

  /** The node of the list at `pos`; sizes are 32-bit. */
  function NodeAt(m: Memory, pos: nat): (n: Node)
  {
    var cert := pos + LIST_HEADER + HeaderSizeAt(m, pos);
    if TypeAt(m, pos) == X509
    then Node(X509, Some(Place(cert + GUID_SIZE, (SigSizeAt(m, pos) - GUID_SIZE) % U32)))
    else Node(TypeAt(m, pos), Some(Place(cert, (ListSizeAt(m, pos) - LIST_HEADER) % U32)))
  }

  predicate Buildable(m: Memory, pos: nat)
  {
    && pos + LIST_HEADER <= |m.data| && ListSizeAt(m, pos) != 0
    && pos + LIST_HEADER + HeaderSizeAt(m, pos) + SIGNATURE_DATA <= |m.data|
    && GUID_SIZE < SigSizeAt(m, pos)
    && NodeAt(m, pos).mok.value.at + NodeAt(m, pos).mok.value.size <= |m.data|
  }

  function Built(m: Memory, pos: nat): (r: Option<seq<Node>>)
    decreases if pos < |m.data| then |m.data| - pos else 0
  {
    if Ends(m, pos) then Some([])
    else if !Buildable(m, pos) then None
    else
      var r := Built(m, pos + ListSizeAt(m, pos));
      if r.None? then None else Some([NodeAt(m, pos)] + r.value)
  }

  /** Both walks take the same steps. */
  lemma {:induction false} WalkStep(m: Memory, pos: nat)
    ensures Ends(m, pos) ==> Counted(m, pos) == Some(0) && Built(m, pos) == Some([])
    ensures !Ends(m, pos) ==>
              var c, b := Counted(m, pos + ListSizeAt(m, pos)), Built(m, pos + ListSizeAt(m, pos));
              && (Counted(m, pos).Some? <==> Countable(m, pos) && c.Some?)
              && (Counted(m, pos).Some? ==> Counted(m, pos).value == c.value + 1)
              && (Built(m, pos).Some? <==> Buildable(m, pos) && b.Some?)
              && (Built(m, pos).Some? ==> Built(m, pos).value == [NodeAt(m, pos)] + b.value)
  {
    hide NodeAt, Memory.U32At, Memory.Slice, IsValidSiglist;
  }

  /** Fills a table of `num` nodes; `num` is what `CountKeys` returned, so the
      table is never overrun, and a completed build fills it exactly. */
  method BuildMokList(num: nat, m: Memory) returns (list: Option<seq<Node>>)
    requires Counted(m, 0) == Some(num)
    ensures list == Built(m, 0)
    ensures list.Some? ==> |list.value| == num
  {
    hide Counted, Built, Memory.U32At, Memory.Slice, IsValidSiglist;
    var table := new Node[num](_ => Node(X509, None));
    var count, pos, dbsize := 0, 0, |m.data|;
    while 0 < dbsize && ListSizeAt(m, pos) <= dbsize
      invariant pos + dbsize == |m.data| && count <= num
      invariant Counted(m, pos) == Some(num - count)
      invariant Built(m, pos).Some? == Built(m, 0).Some?
      invariant Built(m, 0).Some? ==> table[..count] + Built(m, pos).value == Built(m, 0).value
    {
      WalkStep(m, pos);
      if |m.data| < pos + LIST_HEADER || ListSizeAt(m, pos) == 0 {
        return None;
      }
      var cert := pos + LIST_HEADER + HeaderSizeAt(m, pos);
      if |m.data| < cert + SIGNATURE_DATA || SigSizeAt(m, pos) <= GUID_SIZE {
        return None;
      }
      table[count] := NodeAt(m, pos);
      if |m.data| - table[count].mok.value.at < table[count].mok.value.size {
        return None;
      }
      assert table[..count + 1] == table[..count] + [NodeAt(m, pos)];
      count := count + 1;
      dbsize := dbsize - ListSizeAt(m, pos);
      pos := pos + ListSizeAt(m, pos);
    }
    WalkStep(m, pos);
    assert count == num && table[..count] == table[..] == table[..] + [];
    return Some(table[..]);
  }

  // ----- write_back_mok_list

  /** What a live node says: a type and its bytes. */
  datatype Key = Key(kind: Guid, payload: seq<Byte>)

  function Keys(m: Memory, list: seq<Node>): (ks: seq<Key>)
  {
    if list == [] then []
    else
      (if list[0].mok.None? then []
       else [Key(list[0].kind, m.Slice(list[0].mok.value.at, list[0].mok.value.size))]) +
      Keys(m, list[1..])
  }

  /** The size a key is counted with. */
  function KeySize(k: Key): (n: nat)
  {
    LIST_HEADER + (if k.kind == X509 then GUID_SIZE else 0) + |k.payload|
  }

  function KeysSize(ks: seq<Key>): (n: nat)
  {
    if ks == [] then 0 else KeySize(ks[0]) + KeysSize(ks[1..])
  }

  /** One list per key: an X509 key gets shim's owner GUID before it. */
  function Encode(k: Key): (s: seq<Byte>)
    requires KeySize(k) < U32
    ensures |s| == KeySize(k)
  {
    if k.kind == X509
    then Header(X509, KeySize(k), 0, |k.payload| + GUID_SIZE) + (SHIM_LOCK + k.payload)
    else Header(k.kind, KeySize(k), 0, ShaSize(k.kind) + GUID_SIZE) + k.payload
  }

  predicate Sized(ks: seq<Key>)
  {
    forall i :: 0 <= i < |ks| ==> KeySize(ks[i]) < U32
  }

  function EncodeAll(ks: seq<Key>): (s: seq<Byte>)
    requires Sized(ks)
    ensures |s| == KeysSize(ks)
  {
    if ks == [] then [] else Encode(ks[0]) + EncodeAll(ks[1..])
  }

  /** A key that survives being parsed again. */
  predicate Parsable(k: Key)
  {
    if k.kind == X509 then k.payload != []
    else IsSha2(k.kind) && ShaSize(k.kind) + GUID_SIZE < |k.payload| + LIST_HEADER
  }

  lemma {:induction false} EncodedHeader(m: Memory, pos: nat, k: Key)
    requires KeySize(k) < U32 && Holds(m, pos, Encode(k))
    ensures TypeAt(m, pos) == k.kind && ListSizeAt(m, pos) == KeySize(k) && HeaderSizeAt(m, pos) == 0
    ensures SigSizeAt(m, pos) == GUID_SIZE + if k.kind == X509 then |k.payload| else ShaSize(k.kind)
    ensures m.Slice(pos + KeySize(k) - |k.payload|, |k.payload|) == k.payload
  {
    hide Header, Memory.Slice, TypeAt, ListSizeAt, HeaderSizeAt, SigSizeAt, Holds;
    if k.kind == X509 {
      var h := Header(X509, KeySize(k), 0, |k.payload| + GUID_SIZE);
      HoldsParts(m, pos, h, SHIM_LOCK + k.payload);
      HoldsParts(m, pos + LIST_HEADER, SHIM_LOCK, k.payload);
      ReadHeader(m, pos, X509, KeySize(k), 0, |k.payload| + GUID_SIZE);
      SliceHeld(m, pos + LIST_HEADER + GUID_SIZE, k.payload);
    } else {
      var h := Header(k.kind, KeySize(k), 0, ShaSize(k.kind) + GUID_SIZE);
      HoldsParts(m, pos, h, k.payload);
      ReadHeader(m, pos, k.kind, KeySize(k), 0, ShaSize(k.kind) + GUID_SIZE);
      SliceHeld(m, pos + LIST_HEADER, k.payload);
    }
  }

  /** One encoded key is accepted by both walks exactly if it is parsable, and
      then gives back its type and bytes. */
  lemma {:induction false} EncodedNode(m: Memory, pos: nat, k: Key)
    requires KeySize(k) < U32 && Holds(m, pos, Encode(k)) && pos + KeySize(k) <= |m.data|
    ensures !Ends(m, pos) && ListSizeAt(m, pos) == KeySize(k)
    ensures Countable(m, pos) && Buildable(m, pos) <==> Parsable(k)
    ensures Parsable(k) ==>
              NodeAt(m, pos) == Node(k.kind, Some(Place(pos + KeySize(k) - |k.payload|, |k.payload|))) &&
              m.Slice(pos + KeySize(k) - |k.payload|, |k.payload|) == k.payload
  {
    hide Memory.U32At, Memory.Slice, Encode;
    EncodedHeader(m, pos, k);
  }

  predicate AllParsable(ks: seq<Key>)
  {
    forall i :: 0 <= i < |ks| ==> Parsable(ks[i])
  }

  lemma {:induction false} AllParsableStep(ks: seq<Key>)
    requires ks != []
    ensures AllParsable(ks) <==> Parsable(ks[0]) && AllParsable(ks[1..])
  {
    assert forall i :: 1 <= i < |ks| ==> ks[i] == ks[1..][i - 1];
  }

  lemma AllParsableNone()
    ensures AllParsable([])
  {
  }

  /** Parsing an encoding gives back its keys exactly when all are parsable. */
  lemma {:induction false} RoundTripAt(m: Memory, pos: nat, ks: seq<Key>)
    requires Sized(ks) && Holds(m, pos, EncodeAll(ks)) && pos + KeysSize(ks) == |m.data|
    ensures Counted(m, pos).Some? && Built(m, pos).Some? <==> AllParsable(ks)
    ensures AllParsable(ks) ==> Counted(m, pos) == Some(|ks|) && Keys(m, Built(m, pos).value) == ks
    decreases |ks|
  {
    hide Memory.Slice, Encode, Counted, Built, NodeAt, Countable, Buildable, AllParsable, Holds, ListSizeAt;
    WalkStep(m, pos);
    if ks == [] {
      AllParsableNone();
      assert Ends(m, pos);
    } else {
      var k, rest := ks[0], ks[1..];
      HoldsParts(m, pos, Encode(k), EncodeAll(rest));
      EncodedNode(m, pos, k);
      RoundTripAt(m, pos + KeySize(k), rest);
      AllParsableStep(ks);
      if AllParsable(ks) {
        var list := Built(m, pos).value;
        assert list[0] == NodeAt(m, pos) && list[1..] == Built(m, pos + KeySize(k)).value;
      }
    }
  }

  /** Every node built from data that was counted is parsable. */
  lemma {:induction false} BuiltIsParsable(m: Memory, pos: nat)
    requires Counted(m, pos).Some? && Built(m, pos).Some?
    ensures forall i :: 0 <= i < |Built(m, pos).value| ==>
              var n := Built(m, pos).value[i];
              n.mok.Some? && n.mok.value.at + n.mok.value.size <= |m.data| &&
              Parsable(Key(n.kind, m.Slice(n.mok.value.at, n.mok.value.size)))
    decreases if pos < |m.data| then |m.data| - pos else 0
  {
    hide Memory.U32At, Memory.Slice, Counted, Built;
    WalkStep(m, pos);
    if !Ends(m, pos) {
      BuiltIsParsable(m, pos + ListSizeAt(m, pos));
    }
  }

  /** `now` is `list` with some nodes deleted. */
  predicate Survives(list: seq<Node>, now: seq<Node>)
  {
    && |now| == |list|
    && forall i :: 0 <= i < |list| ==> now[i] == list[i] || now[i] == Node(list[i].kind, None)
  }

  predicate NodesParsable(m: Memory, list: seq<Node>)
  {
    forall i :: 0 <= i < |list| && list[i].mok.Some? ==>
      list[i].mok.value.size + LIST_HEADER + GUID_SIZE < U32 &&
      Parsable(Key(list[i].kind, m.Slice(list[i].mok.value.at, list[i].mok.value.size)))
  }

  lemma {:induction false} KeysParsable(m: Memory, list: seq<Node>)
    requires NodesParsable(m, list)
    ensures AllParsable(Keys(m, list)) && Sized(Keys(m, list))
  {
    hide Memory.Slice, Parsable;
    if list != [] {
      assert NodesParsable(m, list[1..]) by {
        assert forall i :: 0 <= i < |list| - 1 ==> list[1..][i] == list[i + 1];
      }
      KeysParsable(m, list[1..]);
    }
  }

  /** Data that was counted and built, with any nodes deleted and then written
      back, parses to exactly the surviving keys, in order. */
  lemma {:induction false} WriteBackRoundTrips(m: Memory, now: seq<Node>, beyond: nat -> Byte)
    requires |m.data| + LIST_HEADER + GUID_SIZE < U32
    requires Counted(m, 0).Some? && Built(m, 0).Some? && Survives(Built(m, 0).value, now)
    ensures Sized(Keys(m, now))
    ensures var m' := Memory(EncodeAll(Keys(m, now)), beyond);
            && Counted(m', 0) == Some(|Keys(m, now)|) && Built(m', 0).Some?
            && Keys(m', Built(m', 0).value) == Keys(m, now)
  {
    hide Memory.Slice, Parsable, Counted, Built, EncodeAll, Keys, KeysSize, AllParsable, Sized;
    BuiltIsParsable(m, 0);
    KeysParsable(m, now);
    var m' := Memory(EncodeAll(Keys(m, now)), beyond);
    assert m'.data[0..0 + |m'.data|] == m'.data;
    RoundTripAt(m', 0, Keys(m, now));
  }

  method Put(buf: array<Byte>, at: nat, s: seq<Byte>)
    requires at + |s| <= buf.Length
    modifies buf
    ensures buf[at..at + |s|] == s
    ensures forall k :: 0 <= k < buf.Length && !(at <= k < at + |s|) ==> buf[k] == old(buf[k])
  {
    forall k | 0 <= k < |s| {
      buf[at + k] := s[k];
    }
  }

  /** Writes one node: the header, then an owner for a certificate, then data. */
  method PutNode(buf: array<Byte>, at: nat, k: Key)
    requires KeySize(k) < U32 && at + KeySize(k) <= buf.Length
    modifies buf
    ensures buf[at..at + KeySize(k)] == Encode(k)
    ensures forall i :: 0 <= i < buf.Length && !(at <= i < at + KeySize(k)) ==> buf[i] == old(buf[i])
  {
    hide Header;
    if k.kind == X509 {
      var h := Header(X509, |k.payload| + LIST_HEADER + GUID_SIZE, 0, |k.payload| + GUID_SIZE);
      Put(buf, at, h);
      Put(buf, at + LIST_HEADER, SHIM_LOCK + k.payload);
      Stitch(buf[..], at, h, SHIM_LOCK + k.payload);
    } else {
      var h := Header(k.kind, |k.payload| + LIST_HEADER, 0, ShaSize(k.kind) + GUID_SIZE);
      Put(buf, at, h);
      Put(buf, at + LIST_HEADER, k.payload);
      Stitch(buf[..], at, h, k.payload);
    }
    assert buf[at..at + KeySize(k)] == buf[..][at..at + KeySize(k)];
  }

  /** The key of a live node. */
  function KeyOf(m: Memory, n: Node): (k: Key)
    requires n.mok.Some?
  {
    Key(n.kind, m.Slice(n.mok.value.at, n.mok.value.size))
  }

  lemma {:induction false} KeysStep(m: Memory, list: seq<Node>, i: nat)
    requires i < |list| && Sized(Keys(m, list[i..]))
    ensures Sized(Keys(m, list[i + 1..]))
    ensures list[i].mok.None? ==> Keys(m, list[i..]) == Keys(m, list[i + 1..])
    ensures list[i].mok.Some? ==>
              && KeySize(KeyOf(m, list[i])) < U32
              && KeysSize(Keys(m, list[i..])) == KeySize(KeyOf(m, list[i])) + KeysSize(Keys(m, list[i + 1..]))
              && EncodeAll(Keys(m, list[i..])) == Encode(KeyOf(m, list[i])) + EncodeAll(Keys(m, list[i + 1..]))
  {
    hide Memory.Slice, Encode, EncodeAll, KeysSize, Sized;
    assert list[i..][0] == list[i] && list[i..][1..] == list[i + 1..];
    var rest := Keys(m, list[i + 1..]);
    if list[i].mok.Some? {
      FirstKey(KeyOf(m, list[i]), rest);
    } else {
      assert Keys(m, list[i..]) == [] + rest == rest;
    }
  }

  lemma {:induction false} FirstKey(k: Key, rest: seq<Key>)
    requires Sized([k] + rest)
    ensures Sized(rest) && KeySize(k) < U32
    ensures KeysSize([k] + rest) == KeySize(k) + KeysSize(rest)
    ensures EncodeAll([k] + rest) == Encode(k) + EncodeAll(rest)
  {
    hide Encode;
    var ks := [k] + rest;
    assert ks[0] == k && ks[1..] == rest;
    assert forall j :: 0 <= j < |rest| ==> rest[j] == ks[j + 1];
  }

  /** Counts the bytes, then writes exactly that many; no key means no data. */
  method WriteBack(m: Memory, list: seq<Node>) returns (data: array<Byte>)
    requires Sized(Keys(m, list))
    ensures data.Length == KeysSize(Keys(m, list))
    ensures data[..] == EncodeAll(Keys(m, list))
  {
    hide Keys, Encode, EncodeAll, KeysSize, Sized, Memory.Slice;
    ghost var all := Keys(m, list);
    assert list[0..] == list && list[|list|..] == [];
    NoKeys(m);
    var size := 0;
    for i := 0 to |list|
      invariant Sized(Keys(m, list[i..]))
      invariant size + KeysSize(Keys(m, list[i..])) == KeysSize(all)
    {
      KeysStep(m, list, i);
      if list[i].mok.Some? {
        size := size + LIST_HEADER;
        if list[i].kind == X509 {
          size := size + GUID_SIZE;
        }
        size := size + list[i].mok.value.size;
      }
    }
    data := new Byte[size];
    var ptr := 0;
    for i := 0 to |list|
      invariant Sized(Keys(m, list[i..])) && 0 <= ptr <= size == data.Length
      invariant ptr + KeysSize(Keys(m, list[i..])) == size
      invariant data[..ptr] + EncodeAll(Keys(m, list[i..])) == EncodeAll(all)
    {
      KeysStep(m, list, i);
      if list[i].mok.Some? {
        var k := KeyOf(m, list[i]);
        ghost var before := data[..ptr];
        PutNode(data, ptr, k);
        assert data[..ptr + KeySize(k)] == before + Encode(k);
        Assoc(before, Encode(k), EncodeAll(Keys(m, list[i + 1..])));
        ptr := ptr + KeySize(k);
      }
    }
    assert data[..ptr] == data[..] == data[..] + [];
  }

  lemma NoKeys(m: Memory)
    ensures Keys(m, []) == [] && KeysSize([]) == 0 && Sized([]) && EncodeAll([]) == []
  {
  }

  /** A last list that claims more bytes than are left is passed over without complaint by both walks, which then
      have come to their end. */
  lemma {:induction false} TruncatedEnds(m: Memory, pos: nat)
    requires pos < |m.data| < pos + ListSizeAt(m, pos)
    ensures Counted(m, pos) == Some(0) && Built(m, pos) == Some([])
  {
  }
}
