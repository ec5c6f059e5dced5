/** The decision whether an image may run (verify.c): deny and allow lists, the
    certificate table, and the choice of the SBAT section. */
module Verify {
  import opened Bytes
  import opened SignatureList
  import opened Databases
  import opened Pe
  import Authenticode
  import SbatSection

  /** Cryptography kept abstract: the two digests, the key-usage test of a
      certificate, and Authenticode verification of signature data by a
      certificate for a SHA-256 digest. */
  datatype Crypto = Crypto(
    sha256: seq<Byte> -> seq<Byte>,
    sha1: seq<Byte> -> seq<Byte>,
    usage: seq<Byte> -> bool,
    authentic: (seq<Byte>, seq<Byte>, seq<Byte>) -> bool)

  /** The databases: compiled-in lists, and variables that may be absent. */
  datatype Stores = Stores(
    vendorDbx: Memory,
    dbx: Option<Memory>,
    mokListX: Option<Memory>,
    db: Option<Memory>,
    vendorDb: Memory,
    mokListRT: Option<Memory>,
    ignoreDb: bool,
    buildCert: seq<Byte>,
    vendorCert: seq<Byte>)

  datatype VerifiedBy = Nothing | ByCert | ByHash

  datatype Digests = Digests(sha256: seq<Byte>, sha1: seq<Byte>)

  // ----- one database

  predicate Readable(v: Option<Memory>) { v.Some? ==> Walkable(v.value, 0, |v.value.data|) }

  predicate AllReadable(st: Stores)
  {
    && Readable(Some(st.vendorDbx)) && Readable(st.dbx) && Readable(st.mokListX)
    && Readable(st.db) && Readable(Some(st.vendorDb)) && Readable(st.mokListRT)
  }

  predicate HasHash(v: Option<Memory>, kind: Guid, hash: seq<Byte>)
  {
    v.Some? && HashIn(v.value, 0, |v.value.data|, kind, hash)
  }

  /** DER with a two-byte length that is exactly the size of the rest. */
  predicate IsX509(cert: seq<Byte>)
  {
    4 <= |cert| && cert[0] == 0x30 && cert[1] == 0x82 &&
    (var high: int := cert[2]; high * 0x100 + cert[3]) == |cert| - 4
  }

  function Signs(cr: Crypto, sig: seq<Byte>, hash: seq<Byte>): (f: seq<Byte> -> bool)
  {
    cert => IsX509(cert) && cr.usage(cert) && cr.authentic(sig, cert, hash)
  }

  predicate HasCert(v: Option<Memory>, cr: Crypto, sig: Option<seq<Byte>>, hash: seq<Byte>)
  {
    v.Some? && sig.Some? && CertIn(v.value, 0, |v.value.data|, Signs(cr, sig.value, hash))
  }

  predicate HashEnds(v: Option<Memory>, kind: Guid, hash: seq<Byte>)
  {
    v.Some? ==> HashWalks(v.value, 0, |v.value.data|, kind, hash)
  }

  predicate CertEnds(v: Option<Memory>, cr: Crypto, sig: Option<seq<Byte>>, hash: seq<Byte>)
  {
    v.Some? && sig.Some? ==> CertWalks(v.value, 0, |v.value.data|, Signs(cr, sig.value, hash))
  }

  method CheckDbHash(v: Option<Memory>, kind: Guid, hash: seq<Byte>) returns (found: bool)
    requires HashEnds(v, kind, hash)
    ensures found == HasHash(v, kind, hash)
  {
    if v.None? {
      return false;
    }
    found := CheckDbHashInRam(v.value, |v.value.data|, hash, kind);
  }

  method CheckDbCert(v: Option<Memory>, cr: Crypto, sig: Option<seq<Byte>>, hash: seq<Byte>) returns (found: bool)
    requires CertEnds(v, cr, sig, hash)
    ensures found == HasCert(v, cr, sig, hash)
  {
    if v.None? || sig.None? {
      return false;
    }
    found := CheckDbCertInRam(v.value, |v.value.data|, Signs(cr, sig.value, hash));
  }

  // ----- what the lists say together

  /** The image's hash is on a denylist; MokListX is not asked for SHA-1. */
  predicate DenyHash(st: Stores, d: Digests)
  {
    || HasHash(Some(st.vendorDbx), SHA256, d.sha256) || HasHash(Some(st.vendorDbx), SHA1, d.sha1)
    || HasHash(st.dbx, SHA256, d.sha256) || HasHash(st.dbx, SHA1, d.sha1)
    || HasHash(st.mokListX, SHA256, d.sha256)
  }

  predicate DenyCert(st: Stores, cr: Crypto, sig: Option<seq<Byte>>, d: Digests)
  {
    || HasCert(Some(st.vendorDbx), cr, sig, d.sha256)
    || HasCert(st.dbx, cr, sig, d.sha256)
    || HasCert(st.mokListX, cr, sig, d.sha256)
  }

  predicate AllowHash(st: Stores, d: Digests)
  {
    || (!st.ignoreDb && (HasHash(st.db, SHA256, d.sha256) || HasHash(st.db, SHA1, d.sha1)))
    || HasHash(Some(st.vendorDb), SHA256, d.sha256)
    || HasHash(st.mokListRT, SHA256, d.sha256)
  }

  predicate AllowCert(st: Stores, cr: Crypto, sig: Option<seq<Byte>>, d: Digests)
  {
    || (!st.ignoreDb && HasCert(st.db, cr, sig, d.sha256))
    || HasCert(Some(st.vendorDb), cr, sig, d.sha256)
    || HasCert(st.mokListRT, cr, sig, d.sha256)
  }

  predicate BuiltIn(st: Stores, cr: Crypto, sig: seq<Byte>, d: Digests)
  {
    || (st.buildCert != [] && cr.authentic(sig, st.buildCert, d.sha256))
    || (st.vendorCert != [] && cr.authentic(sig, st.vendorCert, d.sha256))
  }

  // ----- which walks the checks make

  datatype Lookup = HashLookup(store: Option<Memory>, kind: Guid, hash: seq<Byte>) | CertLookup(store: Option<Memory>)

  predicate Hit(cr: Crypto, sig: Option<seq<Byte>>, d: Digests, l: Lookup)
  {
    match l
    case HashLookup(v, kind, hash) => HasHash(v, kind, hash)
    case CertLookup(v) => HasCert(v, cr, sig, d.sha256)
  }

  predicate Ends(cr: Crypto, sig: Option<seq<Byte>>, d: Digests, l: Lookup)
  {
    match l
    case HashLookup(v, kind, hash) => HashEnds(v, kind, hash)
    case CertLookup(v) => CertEnds(v, cr, sig, d.sha256)
  }

  /** Looked up one after the other, every walk that is made comes to an end: those
      behind a hit are not made. */
  predicate AllEnd(cr: Crypto, sig: Option<seq<Byte>>, d: Digests, ls: seq<Lookup>)
  {
    forall i :: 0 <= i < |ls| && (forall k :: 0 <= k < i ==> !Hit(cr, sig, d, ls[k])) ==> Ends(cr, sig, d, ls[i])
  }

  function DenyLookups(st: Stores, d: Digests): (ls: seq<Lookup>)
  {
    [HashLookup(Some(st.vendorDbx), SHA256, d.sha256), HashLookup(Some(st.vendorDbx), SHA1, d.sha1),
     CertLookup(Some(st.vendorDbx)),
     HashLookup(st.dbx, SHA256, d.sha256), HashLookup(st.dbx, SHA1, d.sha1), CertLookup(st.dbx),
     HashLookup(st.mokListX, SHA256, d.sha256), CertLookup(st.mokListX)]
  }

  function DbLookups(st: Stores, d: Digests): (ls: seq<Lookup>)
  {
    [HashLookup(st.db, SHA256, d.sha256), HashLookup(st.db, SHA1, d.sha1), CertLookup(st.db)]
  }

  function AllowLookups(st: Stores, d: Digests): (ls: seq<Lookup>)
  {
    (if st.ignoreDb then [] else DbLookups(st, d)) +
    [HashLookup(Some(st.vendorDb), SHA256, d.sha256), CertLookup(Some(st.vendorDb)),
     HashLookup(st.mokListRT, SHA256, d.sha256), CertLookup(st.mokListRT)]
  }

  /** The walks made for one signature. */
  predicate SignatureEnds(st: Stores, cr: Crypto, sig: seq<Byte>, d: Digests)
  {
    && AllEnd(cr, Some(sig), d, DenyLookups(st, d))
    && (!DenyHash(st, d) && !DenyCert(st, cr, Some(sig), d) ==> AllEnd(cr, Some(sig), d, AllowLookups(st, d)))
  }

  /** A signature that makes the image acceptable. */
  predicate Passes(st: Stores, cr: Crypto, sig: seq<Byte>, d: Digests)
  {
    && !DenyHash(st, d) && !DenyCert(st, cr, Some(sig), d)
    && (AllowHash(st, d) || AllowCert(st, cr, Some(sig), d) || BuiltIn(st, cr, sig, d))
  }

  // ----- the certificate table

  const PKCS_CERTIFICATE := 12
  const CERTIFICATE_HEADER := 8
  const PKCS_SIGNED_DATA := 2

  function Align8(n: nat): (r: nat)
    ensures n <= r < n + 8 && r % 8 == 0
  {
    n + (8 - n % 8) % 8
  }

  datatype Table = Malformed | Signatures(sigs: seq<seq<Byte>>)

  predicate EntryInside(m: Memory, va: nat, size: nat, offset: nat)
  {
    && va + offset + PKCS_CERTIFICATE <= |m.data| && offset + 4 <= size
    && CERTIFICATE_HEADER <= m.U32At(va + offset) && offset + m.U32At(va + offset) <= size
  }

  function EntrySignature(m: Memory, at: nat): (s: seq<seq<Byte>>)
  {
    if m.U16At(at + 6) == PKCS_SIGNED_DATA && CERTIFICATE_HEADER <= m.U32At(at)
    then [m.Slice(at + CERTIFICATE_HEADER, m.U32At(at) - CERTIFICATE_HEADER)] else []
  }

  /** The signed-data blobs from `offset` on; entries of other types are passed over. */
  function ReadTable(m: Memory, va: nat, size: nat, offset: nat): (t: Table)
    decreases if offset < size then size - offset else 0
  {
    if size <= offset then Signatures([])
    else if !EntryInside(m, va, size, offset) then Malformed
    else
      match ReadTable(m, va, size, Align8(offset + m.U32At(va + offset)))
      case Malformed => Malformed
      case Signatures(rest) => Signatures(EntrySignature(m, va + offset) + rest)
  }

  predicate SignaturesEnd(st: Stores, cr: Crypto, sigs: seq<seq<Byte>>, d: Digests)
  {
    forall s :: s in sigs ==> SignatureEnds(st, cr, s, d)
  }

  /** The walks made for the entries from `offset` on, up to a malformed one. */
  predicate TableEnds(st: Stores, cr: Crypto, m: Memory, va: nat, size: nat, offset: nat, d: Digests)
    decreases if offset < size then size - offset else 0
  {
    offset < size && EntryInside(m, va, size, offset) ==>
      && SignaturesEnd(st, cr, EntrySignature(m, va + offset), d)
      && TableEnds(st, cr, m, va, size, Align8(offset + m.U32At(va + offset)), d)
  }

  predicate SomePasses(st: Stores, cr: Crypto, sigs: seq<seq<Byte>>, d: Digests)
  {
    exists s :: s in sigs && Passes(st, cr, s, d)
  }

  /** The verdict of an image's certificate table. */
  function TableVerdict(st: Stores, cr: Crypto, m: Memory, dir: Directory, d: Digests): (status: Status)
  {
    if dir.size == 0 then SecurityViolation
    else if |m.data| < dir.virtualAddress + dir.size then InvalidParameter
    else
      match ReadTable(m, dir.virtualAddress, dir.size, 0)
      case Malformed => InvalidParameter
      case Signatures(sigs) => if SomePasses(st, cr, sigs, d) then Success else SecurityViolation
  }

  // ----- the checks

  /** Any denylist hit is a security violation. */
  method CheckDenylist(st: Stores, cr: Crypto, cert: Option<seq<Byte>>, d: Digests) returns (status: Status)
    requires AllEnd(cr, cert, d, DenyLookups(st, d))
    ensures status == if DenyHash(st, d) || DenyCert(st, cr, cert, d) then SecurityViolation else Success
  {
    hide HasHash, HasCert, HashEnds, CertEnds;
    ghost var ls := DenyLookups(st, d);
    assert Ends(cr, cert, d, ls[0]);
    var found := CheckDbHash(Some(st.vendorDbx), SHA256, d.sha256);
    if found {
      return SecurityViolation;
    }
    assert Ends(cr, cert, d, ls[1]);
    found := CheckDbHash(Some(st.vendorDbx), SHA1, d.sha1);
    if found {
      return SecurityViolation;
    }
    assert Ends(cr, cert, d, ls[2]);
    found := CheckDbCert(Some(st.vendorDbx), cr, cert, d.sha256);
    if found {
      return SecurityViolation;
    }
    assert Ends(cr, cert, d, ls[3]);
    found := CheckDbHash(st.dbx, SHA256, d.sha256);
    if found {
      return SecurityViolation;
    }
    assert Ends(cr, cert, d, ls[4]);
    found := CheckDbHash(st.dbx, SHA1, d.sha1);
    if found {
      return SecurityViolation;
    }
    assert Ends(cr, cert, d, ls[5]);
    found := CheckDbCert(st.dbx, cr, cert, d.sha256);
    if found {
      return SecurityViolation;
    }
    assert Ends(cr, cert, d, ls[6]);
    found := CheckDbHash(st.mokListX, SHA256, d.sha256);
    if found {
      return SecurityViolation;
    }
    assert Ends(cr, cert, d, ls[7]);
    found := CheckDbCert(st.mokListX, cr, cert, d.sha256);
    if found {
      return SecurityViolation;
    }
    return Success;
  }

  /** How a success may be recorded: a hash needs an allowlisted hash, a
      certificate a signature that passes, and the record is never blank. */
  predicate Recorded(was: VerifiedBy, now: VerifiedBy, hash: bool, cert: bool)
  {
    now != Nothing && (now == was || (now == ByHash && hash) || (now == ByCert && cert))
  }

  /** The table is the signatures `seen` before `offset`, then those after it. */
  predicate Walked(m: Memory, va: nat, size: nat, offset: nat, seen: seq<seq<Byte>>)
  {
    ReadTable(m, va, size, 0) ==
      match ReadTable(m, va, size, offset)
      case Malformed => Malformed
      case Signatures(rest) => Signatures(seen + rest)
  }

  lemma {:induction false} WalkedStart(m: Memory, va: nat, size: nat)
    ensures Walked(m, va, size, 0, [])
  {
    var t := ReadTable(m, va, size, 0);
    if t.Signatures? {
      assert [] + t.sigs == t.sigs;
    }
  }

  lemma {:induction false} WalkedStep(m: Memory, va: nat, size: nat, offset: nat, seen: seq<seq<Byte>>)
    requires Walked(m, va, size, offset, seen) && offset < size && EntryInside(m, va, size, offset)
    ensures Walked(m, va, size, Align8(offset + m.U32At(va + offset)), seen + EntrySignature(m, va + offset))
  {
    hide EntryInside, EntrySignature, Align8, Memory.U32At;
    var t := ReadTable(m, va, size, Align8(offset + m.U32At(va + offset)));
    assert EntryInside(m, va, size, offset);
    if t.Signatures? {
      Assoc(seen, EntrySignature(m, va + offset), t.sigs);
    }
  }

  lemma {:induction false} SomePassesStep(st: Stores, cr: Crypto, seen: seq<seq<Byte>>, more: seq<seq<Byte>>,
                                          d: Digests)
    ensures SomePasses(st, cr, seen + more, d) <==> SomePasses(st, cr, seen, d) || SomePasses(st, cr, more, d)
  {
    hide Passes;
  }

  predicate Hashable(data: seq<Byte>, c: Context)
  {
    DosSigned(data) && TableInside(data, c) && Authenticode.Accepted(data, c, Sections(data, c))
  }

  function DigestsOf(cr: Crypto, data: seq<Byte>, c: Context): (d: Digests)
    requires Hashable(data, c)
  {
    var stream := Authenticode.Stream(data, c, Sections(data, c));
    Digests(cr.sha256(stream), cr.sha1(stream))
  }

  /** The walks made for an image: its hash alone, then each signature of its table. */
  predicate BufferEnds(st: Stores, cr: Crypto, m: Memory, c: Context, parent: bool)
  {
    Hashable(m.data, c) ==>
      var d := DigestsOf(cr, m.data, c);
      && AllEnd(cr, None, d, DenyLookups(st, d))
      && (!DenyHash(st, d) && !parent ==>
            && AllEnd(cr, None, d, AllowLookups(st, d))
            && (!AllowHash(st, d) && c.secDir.size != 0 && c.secDir.virtualAddress + c.secDir.size <= |m.data| ==>
                  TableEnds(st, cr, m, c.secDir.virtualAddress, c.secDir.size, 0, d)))
  }

  /** Databases whose every list can be stepped over end every walk. */
  lemma {:induction false} ReadableEnds(st: Stores, cr: Crypto, m: Memory, c: Context, parent: bool)
    requires AllReadable(st)
    ensures BufferEnds(st, cr, m, c, parent)
  {
    hide AllReadable, TableEnds, Hashable, DigestsOf;
    if Hashable(m.data, c) {
      var d := DigestsOf(cr, m.data, c);
      LookupsEnd(st, cr, None, d);
      TableReadable(st, cr, m, c.secDir.virtualAddress, c.secDir.size, 0, d);
    }
  }

  lemma {:induction false} LookupsEnd(st: Stores, cr: Crypto, sig: Option<seq<Byte>>, d: Digests)
    requires AllReadable(st)
    ensures AllEnd(cr, sig, d, DenyLookups(st, d)) && AllEnd(cr, sig, d, AllowLookups(st, d))
  {
    hide Walkable, HashWalks, CertWalks, Hit;
    forall l | l in DenyLookups(st, d) + AllowLookups(st, d) ensures Ends(cr, sig, d, l) {
      if l.store.Some? {
        var accepts := if sig.Some? then Signs(cr, sig.value, d.sha256) else _ => false;
        var kind, hash := if l.HashLookup? then l.kind else SHA256, if l.HashLookup? then l.hash else [];
        WalksEnd(l.store.value, 0, |l.store.value.data|, kind, hash, accepts);
      }
    }
  }

  lemma {:induction false} TableReadable(st: Stores, cr: Crypto, m: Memory, va: nat, size: nat, offset: nat, d: Digests)
    requires AllReadable(st)
    ensures TableEnds(st, cr, m, va, size, offset, d)
    decreases if offset < size then size - offset else 0
  {
    hide AllReadable, AllEnd, Memory.U32At, EntrySignature;
    if offset < size && EntryInside(m, va, size, offset) {
      forall s | s in EntrySignature(m, va + offset) ensures SignatureEnds(st, cr, s, d) {
        LookupsEnd(st, cr, Some(s), d);
      }
      TableReadable(st, cr, m, va, size, Align8(offset + m.U32At(va + offset)), d);
    }
  }

  /** The verdict on an image whose digests are known. */
  function Verdict(st: Stores, cr: Crypto, m: Memory, dir: Directory, d: Digests, parent: bool): (status: Status)
  {
    if DenyHash(st, d) then SecurityViolation
    else if parent || AllowHash(st, d) then Success
    else TableVerdict(st, cr, m, dir, d)
  }

  lemma NoCert(st: Stores, cr: Crypto, d: Digests)
    ensures !DenyCert(st, cr, None, d) && !AllowCert(st, cr, None, d)
  {
  }

  class Verifier {
    var verifiedBy: VerifiedBy

    method Update(how: VerifiedBy)
      modifies this
      ensures verifiedBy == if old(verifiedBy) == Nothing then how else old(verifiedBy)
    {
      if verifiedBy == Nothing {
        verifiedBy := how;
      }
    }

    method CheckAllowlist(st: Stores, cr: Crypto, cert: Option<seq<Byte>>, d: Digests) returns (status: Status)
      requires AllEnd(cr, cert, d, AllowLookups(st, d))
      modifies this
      ensures status == if AllowHash(st, d) || AllowCert(st, cr, cert, d) then Success else NotFound
      ensures status.Success? ==> Recorded(old(verifiedBy), verifiedBy, AllowHash(st, d), AllowCert(st, cr, cert, d))
      ensures !status.Success? ==> verifiedBy == old(verifiedBy)
    {
      hide HasHash, HasCert, HashEnds, CertEnds;
      var found;
      ghost var ls, n := AllowLookups(st, d), if st.ignoreDb then 0 else 3;
      if !st.ignoreDb {
        assert Ends(cr, cert, d, ls[0]);
        found := CheckDbHash(st.db, SHA256, d.sha256);
        if found {
          Update(ByHash);
          return Success;
        }
        assert Ends(cr, cert, d, ls[1]);
        found := CheckDbHash(st.db, SHA1, d.sha1);
        if found {
          verifiedBy := ByHash;
          return Success;
        }
        assert Ends(cr, cert, d, ls[2]);
        found := CheckDbCert(st.db, cr, cert, d.sha256);
        if found {
          verifiedBy := ByCert;
          return Success;
        }
      }
      assert Ends(cr, cert, d, ls[n]);
      found := CheckDbHash(Some(st.vendorDb), SHA256, d.sha256);
      if found {
        verifiedBy := ByHash;
        return Success;
      }
      assert Ends(cr, cert, d, ls[n + 1]);
      found := CheckDbCert(Some(st.vendorDb), cr, cert, d.sha256);
      if found {
        verifiedBy := ByCert;
        return Success;
      }
      assert Ends(cr, cert, d, ls[n + 2]);
      found := CheckDbHash(st.mokListRT, SHA256, d.sha256);
      if found {
        verifiedBy := ByHash;
        return Success;
      }
      assert Ends(cr, cert, d, ls[n + 3]);
      found := CheckDbCert(st.mokListRT, cr, cert, d.sha256);
      if found {
        verifiedBy := ByCert;
        return Success;
      }
      return NotFound;
    }

    method VerifyOneSignature(st: Stores, cr: Crypto, sig: seq<Byte>, d: Digests) returns (status: Status)
      requires SignatureEnds(st, cr, sig, d)
      modifies this
      ensures status.Success? <==> Passes(st, cr, sig, d)
      ensures status.Success? ==> Recorded(old(verifiedBy), verifiedBy, AllowHash(st, d), true)
      ensures !status.Success? ==> verifiedBy == old(verifiedBy)
    {
      hide AllEnd, DenyHash, DenyCert, AllowHash, AllowCert;
      status := CheckDenylist(st, cr, Some(sig), d);
      if !status.Success? {
        return;
      }
      status := CheckAllowlist(st, cr, Some(sig), d);
      if status.Success? {
        return;
      }
      if st.buildCert != [] && cr.authentic(sig, st.buildCert, d.sha256) {
        Update(ByCert);
        return Success;
      }
      if st.vendorCert != [] && cr.authentic(sig, st.vendorCert, d.sha256) {
        Update(ByCert);
        return Success;
      }
      return NotFound;
    }

    /** One entry of the table: a signature is tried, anything else is passed over. */
    method TryEntry(st: Stores, cr: Crypto, m: Memory, at: nat, d: Digests) returns (status: Status)
      requires SignaturesEnd(st, cr, EntrySignature(m, at), d) && CERTIFICATE_HEADER <= m.U32At(at)
      modifies this
      ensures status.Success? <==> SomePasses(st, cr, EntrySignature(m, at), d)
      ensures status.Success? ==> Recorded(old(verifiedBy), verifiedBy, AllowHash(st, d), true)
      ensures !status.Success? ==> verifiedBy == old(verifiedBy)
    {
      hide SignatureEnds, AllowHash, Passes, Memory.U32At, Memory.U16At, Memory.Slice;
      if m.U16At(at + 6) == PKCS_SIGNED_DATA {
        var sig := m.Slice(at + CERTIFICATE_HEADER, m.U32At(at) - CERTIFICATE_HEADER);
        status := VerifyOneSignature(st, cr, sig, d);
      } else {
        status := NotFound;
      }
    }

    /** Walks the certificate table; a success sticks, but a malformed entry ends
        the walk with an error whatever came before it. */
    method WalkTable(st: Stores, cr: Crypto, m: Memory, dir: Directory, d: Digests) returns (status: Status)
      requires dir.size != 0 && dir.virtualAddress + dir.size <= |m.data| ==>
                 TableEnds(st, cr, m, dir.virtualAddress, dir.size, 0, d)
      modifies this
      ensures status == TableVerdict(st, cr, m, dir, d)
      ensures verifiedBy == old(verifiedBy) || Recorded(old(verifiedBy), verifiedBy, AllowHash(st, d), true)
      ensures status.Success? ==> verifiedBy != Nothing
    {
      hide SignaturesEnd, AllowHash, Passes, SomePasses, EntrySignature, Memory.U32At, Align8, Walked;
      if dir.size == 0 {
        return SecurityViolation;
      }
      var va, size := dir.virtualAddress, dir.size;
      if |m.data| < size + va {
        return InvalidParameter;
      }
      var offset := 0;
      ghost var seen: seq<seq<Byte>> := [];
      WalkedStart(m, va, size);
      NonePasses(st, cr, d);
      status := NotFound;
      while offset < size
        invariant Walked(m, va, size, offset, seen) && TableEnds(st, cr, m, va, size, offset, d)
        invariant status.Success? <==> SomePasses(st, cr, seen, d)
        invariant verifiedBy == old(verifiedBy) || Recorded(old(verifiedBy), verifiedBy, AllowHash(st, d), true)
        invariant status.Success? ==> verifiedBy != Nothing
        decreases size - offset
      {
        if |m.data| < va + offset + PKCS_CERTIFICATE || size < offset + 4 {
          WalkedBad(m, va, size, offset, seen);
          return InvalidParameter;
        }
        var sz := m.U32At(va + offset);
        if size - offset < sz || sz < CERTIFICATE_HEADER {
          WalkedBad(m, va, size, offset, seen);
          return InvalidParameter;
        }
        var one := TryEntry(st, cr, m, va + offset, d);
        if !status.Success? {
          status := one;
        }
        WalkedStep(m, va, size, offset, seen);
        SomePassesStep(st, cr, seen, EntrySignature(m, va + offset), d);
        seen := seen + EntrySignature(m, va + offset);
        offset := Align8(offset + sz);
      }
      WalkedEnd(m, va, size, offset, seen);
      if !status.Success? {
        status := SecurityViolation;
      }
    }

    /** Denylisted hashes come first, whoever the parent is; then the parent's
        word, the hash allowlists and the certificate table. */
    method VerifyBufferAuthenticode(st: Stores, cr: Crypto, m: Memory, c: Context, parent: bool)
      returns (status: Status)
      requires |m.data| < 0x8000_0000 && HeaderFacts(m.data, c) && BufferEnds(st, cr, m, c, parent)
      modifies this
      ensures status.Success? ==> Hashable(m.data, c)
      ensures Hashable(m.data, c) ==> status == Verdict(st, cr, m, c.secDir, DigestsOf(cr, m.data, c), parent)
      ensures status.Success? && !parent ==> verifiedBy != Nothing
    {
      var hashed, stream := Authenticode.GenerateHash(m.data, c);
      if !hashed.Success? {
        return hashed;
      }
      var d := Digests(cr.sha256(stream), cr.sha1(stream));
      hide AllEnd, TableEnds, DenyHash, AllowHash, DenyCert, AllowCert, TableVerdict;
      assert d == DigestsOf(cr, m.data, c);
      NoCert(st, cr, d);
      status := CheckDenylist(st, cr, None, d);
      if !status.Success? {
        return;
      }
      if parent {
        return Success;
      }
      status := CheckAllowlist(st, cr, None, d);
      if status.Success? {
        return;
      }
      status := WalkTable(st, cr, m, c.secDir, d);
    }

    /** The verdict of signatures and SBAT together; the only other failure is
        an allocation of the SBAT check. */
    method VerifyBuffer(st: Stores, cr: Crypto, sb: Sbat, m: Memory, c: Context, parent: bool, inProtocol: bool,
                        address: nat, room: Room) returns (status: Status)
      requires |m.data| < 0x8000_0000 && HeaderFacts(m.data, c) && BufferEnds(st, cr, m, c, parent)
      modifies this
      ensures status.Success? <==>
                Approved(st, cr, sb, m, c, parent, inProtocol) &&
                RoomFor(room, sb, SbatBytes(m.data, Sections(m.data, c), 0))
    {
      status := VerifyBufferAuthenticode(st, cr, m, c, parent);
      if !status.Success? {
        return;
      }
      hide BufferEnds, Verdict, DigestsOf, Sections, HeaderFacts, SbatTidy, SbatSection.SbatVerdict, SbatBytes, RoomFor;
      status := VerifyBufferSbat(sb, m.data, c, inProtocol, address, room);
    }
  }

  /** The revocation level, and how its generations are converted. */
  datatype Sbat = Sbat(level: seq<SbatSection.Component>, atoi: SbatSection.Text -> nat)

  /** Which allocations of the SBAT check succeed: the copy, how many rows, the packed block. */
  datatype Room = Room(buffer: bool, rows: nat, pool: bool)

  predicate RoomFor(room: Room, sb: Sbat, section: seq<Byte>)
  {
    sb.level != [] && section != [] ==>
      var rows := SbatSection.SectionRows(section);
      room.buffer && |rows| <= room.rows && (rows == [] || room.pool)
  }

  /** An image may run: it can be digested, its hash is on no denylist, its parent
      was verified or its hash is allowlisted or some signature passes, and the
      revocation level accepts its only `.sbat` section. */
  predicate Approved(st: Stores, cr: Crypto, sb: Sbat, m: Memory, c: Context, parent: bool, inProtocol: bool)
  {
    && Hashable(m.data, c)
    && Verdict(st, cr, m, c.secDir, DigestsOf(cr, m.data, c), parent).Success?
    && SbatTidy(Sections(m.data, c))
    && SbatSection.SbatVerdict(sb.atoi, sb.level, inProtocol, SbatBytes(m.data, Sections(m.data, c), 0)).Success?
  }

  // ----- the SBAT section

  const SBAT_NAME: seq<Byte> := [46, 115, 98, 97, 116, 0, 0, 0]

  predicate IsSbat(s: Section) { s.name == SBAT_NAME }

  /** The file holds all of the section's memory image. */
  predicate Usable(s: Section) { s.sizeOfRawData != 0 && s.virtualSize <= s.sizeOfRawData }

  /** What is handed to `verify_sbat_section`: a possibly NULL base, and a size. */
  datatype SbatData = SbatData(base: Option<nat>, size: nat)

  function SbatOf(size: nat, s: Section): (b: SbatData)
  {
    SbatData(ImageAddress(size, s.pointerToRawData), s.sizeOfRawData)
  }

  /** The end of the data lies inside the image loaded at `address`; a NULL base
      counts from zero. */
  predicate InBounds(address: nat, size: nat, b: SbatData)
  {
    (if b.base.None? then b.size else address + b.base.value + b.size) <= address + size
  }

  /** Among the first `n` sections no `.sbat` one has relocations, and a usable
      one is the last of its name and lies inside the image. */
  predicate SbatClean(address: nat, size: nat, ss: seq<Section>, n: nat)
    requires n <= |ss|
  {
    && (forall i :: 0 <= i < n && IsSbat(ss[i]) ==>
          ss[i].numberOfRelocations == 0 && ss[i].pointerToRelocations == 0)
    && (forall i :: 0 <= i < n && IsSbat(ss[i]) && Usable(ss[i]) ==> InBounds(address, size, SbatOf(size, ss[i])))
    && (forall i, j :: 0 <= i < j < n && IsSbat(ss[i]) && Usable(ss[i]) ==> !IsSbat(ss[j]))
  }

  /** `b` is the data of a usable `.sbat` section among the first `n`, or there is none. */
  predicate Chosen(size: nat, ss: seq<Section>, n: nat, b: SbatData)
    requires n <= |ss|
  {
    if b.size == 0 then b.base.None? && forall i :: 0 <= i < n ==> !(IsSbat(ss[i]) && Usable(ss[i]))
    else exists i :: 0 <= i < n && IsSbat(ss[i]) && Usable(ss[i]) && b == SbatOf(size, ss[i])
  }

  /** No `.sbat` section has relocations, and a usable one is the last of its name. */
  predicate SbatTidy(ss: seq<Section>)
  {
    && (forall i :: 0 <= i < |ss| && IsSbat(ss[i]) ==>
         ss[i].numberOfRelocations == 0 && ss[i].pointerToRelocations == 0)
    && (forall i, j :: 0 <= i < j < |ss| && IsSbat(ss[i]) && Usable(ss[i]) ==> !IsSbat(ss[j]))
  }

  /** In an image that can be digested the bounds on the `.sbat` section hold anyway. */
  lemma {:induction false} CleanIsTidy(data: seq<Byte>, c: Context, address: nat)
    requires Hashable(data, c)
    ensures SbatClean(address, |data|, Sections(data, c), c.numberOfSections) <==> SbatTidy(Sections(data, c))
  {
    var ss := Sections(data, c);
    hide Sections, IsSbat;
    forall i | 0 <= i < |ss| && Usable(ss[i]) ensures InBounds(address, |data|, SbatOf(|data|, ss[i])) {
      assert Authenticode.RawInside(data, ss[i]);
    }
  }

  /** The raw data of the first usable `.sbat` section from `i` on. */
  function SbatBytes(data: seq<Byte>, ss: seq<Section>, i: nat): (b: seq<Byte>)
    requires i <= |ss| && Authenticode.AllInside(data, ss)
    ensures |b| <= |data|
    decreases |ss| - i
  {
    if i == |ss| then []
    else if IsSbat(ss[i]) && Usable(ss[i]) then
      assert Authenticode.RawInside(data, ss[i]);
      Authenticode.RawBytes(data, ss[i])
    else SbatBytes(data, ss, i + 1)
  }

  /** They are the bytes handed to the check. */
  lemma {:induction false} ChosenBytes(data: seq<Byte>, ss: seq<Section>, b: SbatData, i: nat)
    requires i <= |ss| && Authenticode.AllInside(data, ss) && SbatTidy(ss) && Chosen(|data|, ss, |ss|, b)
    requires forall j :: 0 <= j < i ==> !(IsSbat(ss[j]) && Usable(ss[j]))
    ensures b.base.Some? ==> b.base.value + b.size <= |data|
    ensures SbatBytes(data, ss, i) == if b.base.None? then [] else data[b.base.value..b.base.value + b.size]
    decreases |ss| - i
  {
    hide IsSbat;
    if i < |ss| {
      assert Authenticode.RawInside(data, ss[i]);
      if IsSbat(ss[i]) && Usable(ss[i]) {
        var k :| 0 <= k < |ss| && IsSbat(ss[k]) && Usable(ss[k]) && b == SbatOf(|data|, ss[k]);
        assert k == i;
      } else {
        ChosenBytes(data, ss, b, i + 1);
      }
    } else {
      assert b.size == 0;
    }
  }

  /** A clean image leaves no choice. */
  lemma {:induction false} ChosenUnique(address: nat, size: nat, ss: seq<Section>, a: SbatData, b: SbatData)
    requires SbatClean(address, size, ss, |ss|) && Chosen(size, ss, |ss|, a) && Chosen(size, ss, |ss|, b)
    ensures a == b
  {
    if a.size != 0 && b.size != 0 {
      var i :| 0 <= i < |ss| && IsSbat(ss[i]) && Usable(ss[i]) && a == SbatOf(size, ss[i]);
      var j :| 0 <= j < |ss| && IsSbat(ss[j]) && Usable(ss[j]) && b == SbatOf(size, ss[j]);
      assert i == j;
    }
  }

  /** Finds the SBAT data; `None` stands for `EFI_UNSUPPORTED`. */
  method FindSbat(data: seq<Byte>, c: Context, address: nat) returns (r: Option<SbatData>)
    requires TableInside(data, c)
    ensures r.Some? <==> SbatClean(address, |data|, Sections(data, c), c.numberOfSections)
    ensures r.Some? ==> Chosen(|data|, Sections(data, c), c.numberOfSections, r.value)
  {
    hide SectionAt;
    var b := SbatData(None, 0);
    ghost var ss := Sections(data, c);
    var i := 0;
    while i < c.numberOfSections
      invariant i <= c.numberOfSections
      invariant SbatClean(address, |data|, ss, i) && Chosen(|data|, ss, i, b)
    {
      var s := SectionAt(data, c.FirstSection() + SECTION_HEADER_SIZE * i);
      assert s == ss[i];
      if IsSbat(s) {
        if b.base.Some? || b.size != 0 {
          return None;
        }
        if s.numberOfRelocations != 0 || s.pointerToRelocations != 0 {
          return None;
        }
        if Usable(s) {
          b := SbatOf(|data|, s);
          if address + |data| < (if b.base.None? then b.size else address + b.base.value + b.size) {
            return None;
          }
        }
      }
      i := i + 1;
    }
    return Some(b);
  }

  /** The SBAT check of an image that can be digested. */
  method VerifyBufferSbat(sb: Sbat, data: seq<Byte>, c: Context, inProtocol: bool, address: nat, room: Room)
    returns (status: Status)
    requires |data| < 0x8000_0000 && Hashable(data, c)
    ensures var ss := Sections(data, c);
            status.Success? <==>
              && SbatTidy(ss) && SbatSection.SbatVerdict(sb.atoi, sb.level, inProtocol, SbatBytes(data, ss, 0)).Success?
              && RoomFor(room, sb, SbatBytes(data, ss, 0))
  {
    hide Sections, SbatClean, Chosen, SbatTidy, SbatSection.SbatVerdict, SbatBytes, SbatSection.SectionRows;
    ghost var ss := Sections(data, c);
    CleanIsTidy(data, c, address);
    var r := FindSbat(data, c, address);
    if r.None? {
      return Unsupported;
    }
    ChosenBytes(data, ss, r.value, 0);
    var section := if r.value.base.None? then [] else data[r.value.base.value..r.value.base.value + r.value.size];
    status := SbatSection.VerifySbatSection(sb.atoi, sb.level, inProtocol, section, room.buffer, room.rows, room.pool);
    FailsAnyway(sb, inProtocol, section);
  }

  /** Rows that are not complete fail the check whatever room there is for them. */
  lemma {:induction false} FailsAnyway(sb: Sbat, inProtocol: bool, section: seq<Byte>)
    ensures sb.level != [] && section != [] && !SbatSection.RowsOk(SbatSection.SectionRows(section)) ==>
              !SbatSection.SbatVerdict(sb.atoi, sb.level, inProtocol, section).Success?
  {
    hide SbatSection.RowsOk, SbatSection.SectionRows;
  }

  lemma NonePasses(st: Stores, cr: Crypto, d: Digests)
    ensures !SomePasses(st, cr, [], d)
  {
  }

  lemma {:induction false} WalkedBad(m: Memory, va: nat, size: nat, offset: nat, seen: seq<seq<Byte>>)
    requires Walked(m, va, size, offset, seen) && offset < size && !EntryInside(m, va, size, offset)
    ensures ReadTable(m, va, size, 0) == Malformed
  {
    hide EntryInside;
  }

  lemma {:induction false} WalkedEnd(m: Memory, va: nat, size: nat, offset: nat, seen: seq<seq<Byte>>)
    requires Walked(m, va, size, offset, seen) && size <= offset
    ensures ReadTable(m, va, size, 0) == Signatures(seen)
  {
    assert seen + [] == seen;
  }

  // ----- well-formed certificate tables

  /** An entry of the table, padded to a multiple of eight bytes. */
  datatype Certificate = Certificate(revision: Word16, kind: Word16, body: seq<Byte>, pad: seq<Byte>)

  predicate IsCertificate(e: Certificate)
  {
    CERTIFICATE_HEADER + |e.body| < U32 &&
    CERTIFICATE_HEADER + |e.body| + |e.pad| == Align8(CERTIFICATE_HEADER + |e.body|)
  }

  function EntrySize(e: Certificate): (n: nat) { CERTIFICATE_HEADER + |e.body| + |e.pad| }

  function EncodeEntry(e: Certificate): (b: seq<Byte>)
    requires IsCertificate(e)
    ensures |b| == EntrySize(e)
  {
    Le32(CERTIFICATE_HEADER + |e.body|) + (Le16(e.revision) + (Le16(e.kind) + (e.body + e.pad)))
  }

  predicate AreCertificates(es: seq<Certificate>)
  {
    forall i :: 0 <= i < |es| ==> IsCertificate(es[i])
  }

  function EncodeTable(es: seq<Certificate>): (b: seq<Byte>)
    requires AreCertificates(es)
  {
    if es == [] then [] else EncodeEntry(es[0]) + EncodeTable(es[1..])
  }

  /** The bodies of the signed-data entries. */
  function Bodies(es: seq<Certificate>): (s: seq<seq<Byte>>)
  {
    if es == [] then [] else (if es[0].kind == PKCS_SIGNED_DATA then [es[0].body] else []) + Bodies(es[1..])
  }

  lemma {:induction false} EntryRead(m: Memory, at: nat, e: Certificate)
    requires IsCertificate(e) && Holds(m, at, EncodeEntry(e))
    ensures m.U32At(at) == CERTIFICATE_HEADER + |e.body|
    ensures EntrySignature(m, at) == if e.kind == PKCS_SIGNED_DATA then [e.body] else []
  {
    hide Memory.U32At, Memory.U16At, Holds, Le32, Le16, Memory.Slice, Align8;
    var n := CERTIFICATE_HEADER + |e.body|;
    HoldsParts(m, at, Le32(n), Le16(e.revision) + (Le16(e.kind) + (e.body + e.pad)));
    HoldsParts(m, at + 4, Le16(e.revision), Le16(e.kind) + (e.body + e.pad));
    HoldsParts(m, at + 6, Le16(e.kind), e.body + e.pad);
    HoldsParts(m, at + 8, e.body, e.pad);
    ReadLe32(m, at, n);
    ReadLe16(m, at + 6, e.kind);
    SliceHeld(m, at + 8, e.body);
  }

  /** The last entry is read only if twelve bytes of it are in the file. */
  predicate LastFits(m: Memory, end: nat, es: seq<Certificate>)
  {
    es != [] ==> es[|es| - 1].body != [] || end + 4 <= |m.data|
  }

  lemma {:induction false} NextOffset(offset: nat, e: Certificate)
    requires offset % 8 == 0 && IsCertificate(e)
    ensures Align8(offset + CERTIFICATE_HEADER + |e.body|) == offset + EntrySize(e)
    ensures (offset + EntrySize(e)) % 8 == 0
    ensures if e.body == [] then EntrySize(e) == CERTIFICATE_HEADER else 16 <= EntrySize(e)
  {
    hide Align8;
    assert Align8(8) == 8;
  }

  lemma {:induction false} TableSize(es: seq<Certificate>)
    requires AreCertificates(es)
    ensures es != [] ==> CERTIFICATE_HEADER <= |EncodeTable(es)|
  {
    if es != [] {
      assert IsCertificate(es[0]);
    }
  }

  /** A well-formed table is walked entry by entry to its end and yields its
      signatures in order, unless an empty last entry ends with the file. */
  lemma {:induction false} TableReads(m: Memory, va: nat, size: nat, offset: nat, es: seq<Certificate>)
    requires AreCertificates(es) && Holds(m, va + offset, EncodeTable(es))
    requires size == offset + |EncodeTable(es)| && offset % 8 == 0
    ensures ReadTable(m, va, size, offset) == if LastFits(m, va + size, es) then Signatures(Bodies(es)) else Malformed
    decreases |es|
  {
    hide Memory.U32At, EncodeEntry, EntrySignature, Align8, IsCertificate, EntrySize;
    if es != [] {
      var e, rest := es[0], es[1..];
      assert IsCertificate(e);
      assert m.data[va + offset..va + size] == EncodeTable(es);
      assert va + size <= |m.data|;
      HoldsParts(m, va + offset, EncodeEntry(e), EncodeTable(rest));
      EntryRead(m, va + offset, e);
      NextOffset(offset, e);
      TableReads(m, va, size, offset + EntrySize(e), rest);
      TableSize(rest);
      assert EntryInside(m, va, size, offset) <==> rest != [] || LastFits(m, va + size, es);
      assert rest != [] ==> rest[|rest| - 1] == es[|es| - 1];
    }
  }

  lemma {:induction false} BodiesAre(es: seq<Certificate>, s: seq<Byte>)
    ensures s in Bodies(es) <==> exists e :: e in es && e.kind == PKCS_SIGNED_DATA && e.body == s
  {
    if es != [] {
      BodiesAre(es[1..], s);
      assert es == [es[0]] + es[1..];
    }
  }

  /** A table of `es` stands in the file where the directory says. */
  predicate Stands(m: Memory, dir: Directory, es: seq<Certificate>)
  {
    AreCertificates(es) && Holds(m, dir.virtualAddress, EncodeTable(es)) && dir.size == |EncodeTable(es)|
  }

  /** The verdict of a well-formed table: some signature in it passes. */
  lemma {:induction false} TableVerdictIs(st: Stores, cr: Crypto, m: Memory, dir: Directory, es: seq<Certificate>,
                                          d: Digests)
    requires Stands(m, dir, es) && es != []
    ensures TableVerdict(st, cr, m, dir, d) ==
              if !LastFits(m, dir.virtualAddress + dir.size, es) then InvalidParameter
              else if exists e :: e in es && e.kind == PKCS_SIGNED_DATA && Passes(st, cr, e.body, d) then Success
              else SecurityViolation
  {
    hide Passes, ReadTable, LastFits;
    TableSize(es);
    TableReads(m, dir.virtualAddress, dir.size, 0, es);
    forall s ensures s in Bodies(es) <==> exists e :: e in es && e.kind == PKCS_SIGNED_DATA && e.body == s {
      BodiesAre(es, s);
    }
  }

  /** The verdict does not depend on the order of the entries, if the last entry is readable either way. */
  lemma {:induction false} OrderIrrelevant(st: Stores, cr: Crypto, d: Digests,
    m: Memory, dir: Directory, es: seq<Certificate>, m': Memory, dir': Directory, es': seq<Certificate>)
    requires Stands(m, dir, es) && Stands(m', dir', es') && es != [] && multiset(es) == multiset(es')
    requires LastFits(m, dir.virtualAddress + dir.size, es) && LastFits(m', dir'.virtualAddress + dir'.size, es')
    ensures TableVerdict(st, cr, m, dir, d) == TableVerdict(st, cr, m', dir', d)
  {
    hide Passes, TableVerdict, Stands;
    assert es[0] in multiset(es');
    TableVerdictIs(st, cr, m, dir, es, d);
    TableVerdictIs(st, cr, m', dir', es', d);
    assert forall e :: e in es <==> e in multiset(es');
  }

  /** An empty entry is harmless before a passing signature, and fatal after it at the end of the file. */
  lemma {:induction false} EmptyEntryLast(st: Stores, cr: Crypto, d: Digests, e: Certificate, empty: Certificate,
    m: Memory, dir: Directory, m': Memory, dir': Directory)
    requires e.body != [] && e.kind == PKCS_SIGNED_DATA && empty.body == [] && Passes(st, cr, e.body, d)
    requires Stands(m, dir, [e, empty]) && dir.virtualAddress + dir.size == |m.data|
    requires Stands(m', dir', [empty, e]) && dir'.virtualAddress + dir'.size == |m'.data|
    ensures TableVerdict(st, cr, m, dir, d) == InvalidParameter && TableVerdict(st, cr, m', dir', d) == Success
  {
    hide Passes, TableVerdict, Stands;
    TableVerdictIs(st, cr, m, dir, [e, empty], d);
    TableVerdictIs(st, cr, m', dir', [empty, e], d);
    assert e in [empty, e];
  }

  // ----- well-formed denylists

  /** The bytes of a variable are a well-formed database of these lists. */
  predicate Encodes(v: Option<Memory>, ls: seq<SigList>)
  {
    AllWellFormed(ls) && v.Some? && v.value.data == EncodeAll(ls)
  }

  lemma {:induction false} HasHashIff(v: Option<Memory>, ls: seq<SigList>, kind: Guid, hash: seq<Byte>)
    requires Encodes(v, ls) && |hash| == ShaSize(kind) != 0
    ensures Readable(v)
    ensures HasHash(v, kind, hash) <==> exists l :: l in ls && ListsHash(l, kind, hash)
  {
    assert Holds(v.value, 0, EncodeAll(ls)) by {
      assert v.value.data[0..0 + |v.value.data|] == v.value.data;
    }
    hide ListsHash, Walkable, HashIn, Holds;
    DatabaseWalks(v.value, 0, ls);
    HashFoundIff(v.value, 0, ls, kind, hash);
  }

  /** A denylist that is asked for hashes of this kind. */
  ghost predicate Asked(st: Stores, v: Option<Memory>, kind: Guid)
  {
    || (kind == SHA256 && v in {Some(st.vendorDbx), st.dbx, st.mokListX})
    || (kind == SHA1 && v in {Some(st.vendorDbx), st.dbx})
  }

  /** An image whose hash stands in a denylist that is asked for its kind does not
      run, whoever its parent is and whatever else the databases say: SHA-256 in any
      denylist, SHA-1 in the vendor's and the firmware's. */
  lemma {:induction false} DeniedNeverRuns(st: Stores, cr: Crypto, m: Memory, dir: Directory, d: Digests, parent: bool,
    v: Option<Memory>, ls: seq<SigList>, l: SigList, s: seq<Byte>)
    requires Encodes(v, ls) && l in ls && s in l.sigs && Asked(st, v, l.kind)
    requires if l.kind == SHA256 then Payload(s) == d.sha256 && |d.sha256| == 32
             else Payload(s) == d.sha1 && |d.sha1| == 20
    ensures Verdict(st, cr, m, dir, d, parent) == SecurityViolation
  {
    hide HasHash, Encodes;
    if l.kind == SHA256 {
      assert ListsHash(l, SHA256, d.sha256);
      HasHashIff(v, ls, SHA256, d.sha256);
    } else {
      assert ListsHash(l, SHA1, d.sha1);
      HasHashIff(v, ls, SHA1, d.sha1);
    }
  }
}
