/** What well-formed databases and a well-formed certificate table make of an
    image: the decision of verify.c in terms of the entries of the lists. */
module Policy {
  import opened Bytes
  import opened SignatureList
  import opened Databases
  import opened Verify
  import opened Pe
  import Authenticode
  import SbatSection
  import SbatText

  /** The contents of the databases; an absent variable has none. */
  datatype Lists = Lists(
    vendorDbx: seq<SigList>,
    dbx: seq<SigList>,
    mokListX: seq<SigList>,
    db: seq<SigList>,
    vendorDb: seq<SigList>,
    mokListRT: seq<SigList>)

  predicate Contains(v: Option<Memory>, ls: seq<SigList>)
  {
    if v.Some? then Encodes(v, ls) else ls == []
  }

  predicate Stored(st: Stores, p: Lists)
  {
    && Contains(Some(st.vendorDbx), p.vendorDbx) && Contains(st.dbx, p.dbx) && Contains(st.mokListX, p.mokListX)
    && Contains(st.db, p.db) && Contains(Some(st.vendorDb), p.vendorDb) && Contains(st.mokListRT, p.mokListRT)
  }

  predicate Sized(d: Digests) { |d.sha256| == 32 && |d.sha1| == 20 }

  /** A list of this type holds the hash, behind some owner. */
  ghost predicate HashListed(ls: seq<SigList>, kind: Guid, hash: seq<Byte>)
  {
    exists l, owner: seq<Byte> :: l in ls && l.kind == kind && |owner| == GUID_SIZE && owner + hash in l.sigs
  }

  /** DER of a sequence whose length takes two bytes. */
  ghost predicate IsDer(cert: seq<Byte>)
  {
    exists high: Byte, low: Byte, body: seq<Byte> ::
      cert == [0x30, 0x82, high, low] + body && |body| == (high as int) * 0x100 + (low as int)
  }

  /** A certificate that may sign code and made this signature of the hash. */
  ghost predicate Signed(cr: Crypto, cert: seq<Byte>, sig: seq<Byte>, hash: seq<Byte>)
  {
    IsDer(cert) && cr.usage(cert) && cr.authentic(sig, cert, hash)
  }

  /** An X.509 list starts with a certificate that made this signature of the hash. */
  ghost predicate SignerListed(ls: seq<SigList>, cr: Crypto, sig: seq<Byte>, hash: seq<Byte>)
  {
    exists l, owner: seq<Byte>, cert: seq<Byte> ::
      && l in ls && l.kind == X509 && |owner| == GUID_SIZE && l.sigs != [] && l.sigs[0] == owner + cert
      && Signed(cr, cert, sig, hash)
  }

  // ----- one database

  lemma {:induction false} DerIff(cert: seq<Byte>)
    ensures IsX509(cert) <==> IsDer(cert)
  {
    if IsX509(cert) {
      var body := cert[4..];
      assert cert == [0x30, 0x82, cert[2], cert[3]] + body;
    }
  }

  lemma {:induction false} ListsHashIff(ls: seq<SigList>, kind: Guid, hash: seq<Byte>)
    requires AllWellFormed(ls)
    ensures (exists l :: l in ls && ListsHash(l, kind, hash)) <==> HashListed(ls, kind, hash)
  {
    if l :| l in ls && ListsHash(l, kind, hash) {
      var s :| s in l.sigs && Payload(s) == hash;
      assert WellFormed(l) && GUID_SIZE <= |s|;
      assert s[..GUID_SIZE] + hash == s;
    }
    if HashListed(ls, kind, hash) {
      var l, owner: seq<Byte> :| l in ls && l.kind == kind && |owner| == GUID_SIZE && owner + hash in l.sigs;
      assert Payload(owner + hash) == hash;
      assert ListsHash(l, kind, hash);
    }
  }

  lemma {:induction false} ListsCertIff(ls: seq<SigList>, cr: Crypto, sig: seq<Byte>, hash: seq<Byte>)
    requires AllWellFormed(ls)
    ensures (exists l :: l in ls && ListsCert(l, Signs(cr, sig, hash))) <==> SignerListed(ls, cr, sig, hash)
  {
    hide IsX509, IsDer;
    if l :| l in ls && ListsCert(l, Signs(cr, sig, hash)) {
      var s := l.sigs[0];
      assert WellFormed(l) && GUID_SIZE <= |s|;
      DerIff(Payload(s));
      assert s == s[..GUID_SIZE] + Payload(s) && Signed(cr, Payload(s), sig, hash);
    }
    if SignerListed(ls, cr, sig, hash) {
      var l, owner: seq<Byte>, cert: seq<Byte> :|
        && l in ls && l.kind == X509 && |owner| == GUID_SIZE && l.sigs != [] && l.sigs[0] == owner + cert
        && Signed(cr, cert, sig, hash);
      DerIff(cert);
      assert Payload(owner + cert) == cert;
      assert ListsCert(l, Signs(cr, sig, hash));
    }
  }

  lemma {:induction false} ContainsHashIff(v: Option<Memory>, ls: seq<SigList>, kind: Guid, hash: seq<Byte>)
    requires Contains(v, ls) && |hash| == ShaSize(kind) != 0
    ensures HasHash(v, kind, hash) <==> HashListed(ls, kind, hash)
  {
    hide HasHash, HashListed;
    if v.Some? {
      HasHashIff(v, ls, kind, hash);
      ListsHashIff(ls, kind, hash);
    } else {
      NoLists(v, kind, hash);
    }
  }

  lemma NoLists(v: Option<Memory>, kind: Guid, hash: seq<Byte>)
    requires v.None?
    ensures !HasHash(v, kind, hash) && !HashListed([], kind, hash)
  {
  }

  lemma {:induction false} HasCertIff(v: Option<Memory>, ls: seq<SigList>, cr: Crypto, sig: seq<Byte>, hash: seq<Byte>)
    requires Encodes(v, ls)
    ensures HasCert(v, cr, Some(sig), hash) <==> exists l :: l in ls && ListsCert(l, Signs(cr, sig, hash))
  {
    assert Holds(v.value, 0, EncodeAll(ls)) by {
      assert v.value.data[0..0 + |v.value.data|] == v.value.data;
    }
    hide ListsCert, Holds;
    CertFoundIff(v.value, 0, ls, Signs(cr, sig, hash));
  }

  lemma {:induction false} ContainsSignerIff(v: Option<Memory>, ls: seq<SigList>, cr: Crypto, sig: seq<Byte>,
                                             hash: seq<Byte>)
    requires Contains(v, ls)
    ensures HasCert(v, cr, Some(sig), hash) <==> SignerListed(ls, cr, sig, hash)
  {
    hide SignerListed, ListsCert;
    if v.Some? {
      HasCertIff(v, ls, cr, sig, hash);
      ListsCertIff(ls, cr, sig, hash);
    } else {
      NoSigners(v, cr, sig, hash);
    }
  }

  lemma NoSigners(v: Option<Memory>, cr: Crypto, sig: seq<Byte>, hash: seq<Byte>)
    requires v.None?
    ensures !HasCert(v, cr, Some(sig), hash) && !SignerListed([], cr, sig, hash)
  {
  }

  lemma {:induction false} ListedIn(a: seq<SigList>, b: seq<SigList>, kind: Guid, hash: seq<Byte>)
    ensures HashListed(a + b, kind, hash) <==> HashListed(a, kind, hash) || HashListed(b, kind, hash)
  {
    assert forall l :: l in a + b <==> l in a || l in b;
  }

  lemma {:induction false} SignerIn(a: seq<SigList>, b: seq<SigList>, cr: Crypto, sig: seq<Byte>, hash: seq<Byte>)
    ensures SignerListed(a + b, cr, sig, hash) <==> SignerListed(a, cr, sig, hash) || SignerListed(b, cr, sig, hash)
  {
    hide Signed;
    assert forall l :: l in a + b <==> l in a || l in b;
  }

  // ----- all of them

  /** The allowlist of the firmware, unless it is ignored. */
  function Firmware(st: Stores, p: Lists): (ls: seq<SigList>) { if st.ignoreDb then [] else p.db }

  /** The hash stands in a denylist: as SHA-256 in any, as SHA-1 in the vendor's or the firmware's. */
  ghost predicate HashDenied(p: Lists, d: Digests)
  {
    || HashListed(p.vendorDbx + p.dbx + p.mokListX, SHA256, d.sha256)
    || HashListed(p.vendorDbx + p.dbx, SHA1, d.sha1)
  }

  /** The hash stands in an allowlist: as SHA-256 in any, as SHA-1 in the firmware's alone. */
  ghost predicate HashAllowed(st: Stores, p: Lists, d: Digests)
  {
    || HashListed(Firmware(st, p) + p.vendorDb + p.mokListRT, SHA256, d.sha256)
    || HashListed(Firmware(st, p), SHA1, d.sha1)
  }

  /** A signature that counts: its certificate is denied nowhere, and is listed in an
      allowlist or built in. */
  ghost predicate Trusted(st: Stores, p: Lists, cr: Crypto, sig: seq<Byte>, d: Digests)
  {
    && !SignerListed(p.vendorDbx + p.dbx + p.mokListX, cr, sig, d.sha256)
    && (|| SignerListed(Firmware(st, p) + p.vendorDb + p.mokListRT, cr, sig, d.sha256)
        || (st.buildCert != [] && cr.authentic(sig, st.buildCert, d.sha256))
        || (st.vendorCert != [] && cr.authentic(sig, st.vendorCert, d.sha256)))
  }

  lemma {:induction false} DenyHashIff(st: Stores, p: Lists, d: Digests)
    requires Stored(st, p) && Sized(d)
    ensures DenyHash(st, d) <==> HashDenied(p, d)
  {
    hide HasHash, HashListed, Contains;
    ContainsHashIff(Some(st.vendorDbx), p.vendorDbx, SHA256, d.sha256);
    ContainsHashIff(Some(st.vendorDbx), p.vendorDbx, SHA1, d.sha1);
    ContainsHashIff(st.dbx, p.dbx, SHA256, d.sha256);
    ContainsHashIff(st.dbx, p.dbx, SHA1, d.sha1);
    ContainsHashIff(st.mokListX, p.mokListX, SHA256, d.sha256);
    ListedIn(p.vendorDbx + p.dbx, p.mokListX, SHA256, d.sha256);
    ListedIn(p.vendorDbx, p.dbx, SHA256, d.sha256);
    ListedIn(p.vendorDbx, p.dbx, SHA1, d.sha1);
  }

  /** A signature is denied if and only if its certificate starts an X.509 list of a denylist. */
  lemma {:induction false} DenyCertIff(st: Stores, p: Lists, cr: Crypto, sig: seq<Byte>, d: Digests)
    requires Stored(st, p)
    ensures DenyCert(st, cr, Some(sig), d) <==>
              SignerListed(p.vendorDbx + p.dbx + p.mokListX, cr, sig, d.sha256)
  {
    hide HasCert, SignerListed, Contains;
    ContainsSignerIff(Some(st.vendorDbx), p.vendorDbx, cr, sig, d.sha256);
    ContainsSignerIff(st.dbx, p.dbx, cr, sig, d.sha256);
    ContainsSignerIff(st.mokListX, p.mokListX, cr, sig, d.sha256);
    SignerIn(p.vendorDbx + p.dbx, p.mokListX, cr, sig, d.sha256);
    SignerIn(p.vendorDbx, p.dbx, cr, sig, d.sha256);
  }

  lemma {:induction false} AllowHashIff(st: Stores, p: Lists, d: Digests)
    requires Stored(st, p) && Sized(d)
    ensures AllowHash(st, d) <==> HashAllowed(st, p, d)
  {
    hide HasHash, HashListed, Contains;
    var db := Firmware(st, p);
    ContainsHashIff(st.db, p.db, SHA256, d.sha256);
    ContainsHashIff(st.db, p.db, SHA1, d.sha1);
    ContainsHashIff(Some(st.vendorDb), p.vendorDb, SHA256, d.sha256);
    ContainsHashIff(st.mokListRT, p.mokListRT, SHA256, d.sha256);
    NoLists(None, SHA256, d.sha256);
    NoLists(None, SHA1, d.sha1);
    ListedIn(db + p.vendorDb, p.mokListRT, SHA256, d.sha256);
    ListedIn(db, p.vendorDb, SHA256, d.sha256);
  }

  lemma {:induction false} AllowCertIff(st: Stores, p: Lists, cr: Crypto, sig: seq<Byte>, d: Digests)
    requires Stored(st, p)
    ensures AllowCert(st, cr, Some(sig), d) <==>
              SignerListed(Firmware(st, p) + p.vendorDb + p.mokListRT, cr, sig, d.sha256)
  {
    hide HasCert, SignerListed, Contains;
    var db := Firmware(st, p);
    ContainsSignerIff(st.db, p.db, cr, sig, d.sha256);
    ContainsSignerIff(Some(st.vendorDb), p.vendorDb, cr, sig, d.sha256);
    ContainsSignerIff(st.mokListRT, p.mokListRT, cr, sig, d.sha256);
    NoSigners(None, cr, sig, d.sha256);
    SignerIn(db + p.vendorDb, p.mokListRT, cr, sig, d.sha256);
    SignerIn(db, p.vendorDb, cr, sig, d.sha256);
  }

  lemma {:induction false} PassesIff(st: Stores, p: Lists, cr: Crypto, sig: seq<Byte>, d: Digests)
    requires Stored(st, p) && Sized(d) && !HashDenied(p, d) && !HashAllowed(st, p, d)
    ensures Passes(st, cr, sig, d) <==> Trusted(st, p, cr, sig, d)
  {
    hide HashListed, SignerListed, Stored, DenyHash, DenyCert, AllowHash, AllowCert;
    DenyHashIff(st, p, d);
    AllowHashIff(st, p, d);
    DenyCertIff(st, p, cr, sig, d);
    AllowCertIff(st, p, cr, sig, d);
  }

  /** The verdict on an image whose certificate table holds the given entries: its hash is denied
      nowhere, and its parent was verified, or its hash is allowed, or one of its signatures counts. */
  lemma {:induction false} VerdictIff(st: Stores, p: Lists, cr: Crypto, m: Memory, dir: Directory,
                                      es: seq<Certificate>, d: Digests, parent: bool)
    requires Stored(st, p) && Sized(d) && Stands(m, dir, es) && LastFits(m, dir.virtualAddress + dir.size, es)
    ensures Verdict(st, cr, m, dir, d, parent).Success? <==>
              && !HashDenied(p, d)
              && (|| parent || HashAllowed(st, p, d)
                  || exists e :: e in es && e.kind == PKCS_SIGNED_DATA && Trusted(st, p, cr, e.body, d))
  {
    hide Stored, HashDenied, HashAllowed, Trusted, Passes, DenyHash, AllowHash, TableVerdict, LastFits, Stands;
    DenyHashIff(st, p, d);
    AllowHashIff(st, p, d);
    if !HashDenied(p, d) && !parent && !HashAllowed(st, p, d) {
      if es == [] {
        EmptyTable(st, cr, m, dir, d);
      } else {
        TableVerdictIs(st, cr, m, dir, es, d);
        forall e | e in es ensures Passes(st, cr, e.body, d) == Trusted(st, p, cr, e.body, d) {
          PassesIff(st, p, cr, e.body, d);
        }
      }
    }
  }

  lemma EmptyTable(st: Stores, cr: Crypto, m: Memory, dir: Directory, d: Digests)
    requires Stands(m, dir, [])
    ensures TableVerdict(st, cr, m, dir, d) == SecurityViolation
  {
  }

  // ----- one entry, whatever the other databases hold

  /** One denylist that is well-formed lists the certificate of the signature. */
  ghost predicate SignerDenied(st: Stores, cr: Crypto, sig: seq<Byte>, d: Digests)
  {
    exists v: Option<Memory>, ls, l ::
      && v in {Some(st.vendorDbx), st.dbx, st.mokListX} && Encodes(v, ls) && l in ls
      && ListsCert(l, Signs(cr, sig, d.sha256))
  }

  lemma {:induction false} DeniedSignerFails(st: Stores, cr: Crypto, sig: seq<Byte>, d: Digests)
    requires SignerDenied(st, cr, sig, d)
    ensures !Passes(st, cr, sig, d)
  {
    var v: Option<Memory>, ls, l :|
      && v in {Some(st.vendorDbx), st.dbx, st.mokListX} && Encodes(v, ls) && l in ls
      && ListsCert(l, Signs(cr, sig, d.sha256));
    hide HasCert, ListsCert, Encodes;
    HasCertIff(v, ls, cr, sig, d.sha256);
  }

  /** An image whose every signature is denied that way is not approved, unless its hash is
      allowed or its parent was verified. */
  lemma {:induction false} AllSignersDenied(st: Stores, cr: Crypto, sb: Sbat, m: Memory, c: Context, inProtocol: bool)
    requires Hashable(m.data, c) && !AllowHash(st, DigestsOf(cr, m.data, c))
    requires var t := ReadTable(m, c.secDir.virtualAddress, c.secDir.size, 0);
             t.Signatures? ==> forall s :: s in t.sigs ==> SignerDenied(st, cr, s, DigestsOf(cr, m.data, c))
    ensures !TableVerdict(st, cr, m, c.secDir, DigestsOf(cr, m.data, c)).Success?
    ensures !Approved(st, cr, sb, m, c, false, inProtocol)
  {
    hide AllowHash, DenyHash, Hashable, ReadTable, Passes, SignerDenied, SbatTidy, SbatBytes;
    var d := DigestsOf(cr, m.data, c);
    var t := ReadTable(m, c.secDir.virtualAddress, c.secDir.size, 0);
    if t.Signatures? {
      forall s | s in t.sigs ensures !Passes(st, cr, s, d) {
        DeniedSignerFails(st, cr, s, d);
      }
    }
  }

  /** An allowlist that is asked for hashes of this kind. */
  ghost predicate Trusts(st: Stores, v: Option<Memory>, kind: Guid)
  {
    || (kind == SHA256 && (v in {Some(st.vendorDb), st.mokListRT} || (v == st.db && !st.ignoreDb)))
    || (kind == SHA1 && v == st.db && !st.ignoreDb)
  }

  /** An image whose hash stands in an allowlist, and in no denylist, needs no signature. */
  lemma {:induction false} AllowedHashRuns(st: Stores, cr: Crypto, m: Memory, dir: Directory, d: Digests, parent: bool,
                                           v: Option<Memory>, ls: seq<SigList>, kind: Guid)
    requires Encodes(v, ls) && Trusts(st, v, kind) && Sized(d) && !DenyHash(st, d)
    requires HashListed(ls, kind, if kind == SHA256 then d.sha256 else d.sha1)
    ensures Verdict(st, cr, m, dir, d, parent) == Success
  {
    assert Contains(v, ls);
    hide HasHash, HashListed, Encodes, DenyHash, TableVerdict, Contains;
    if kind == SHA256 {
      ContainsHashIff(v, ls, SHA256, d.sha256);
    } else {
      assert kind == SHA1 && kind != SHA256;
      ContainsHashIff(v, ls, SHA1, d.sha1);
    }
  }

  /** A signature whose certificate stands in an allowlist, and in no denylist, is enough. */
  lemma {:induction false} AllowedSignerPasses(st: Stores, cr: Crypto, sig: seq<Byte>, d: Digests, v: Option<Memory>,
                                               ls: seq<SigList>)
    requires Encodes(v, ls) && Trusts(st, v, SHA256) && SignerListed(ls, cr, sig, d.sha256)
    requires !DenyHash(st, d) && !DenyCert(st, cr, Some(sig), d)
    ensures Passes(st, cr, sig, d)
  {
    assert Contains(v, ls);
    hide HasCert, SignerListed, Encodes, DenyHash, DenyCert, Contains;
    ContainsSignerIff(v, ls, cr, sig, d.sha256);
  }

  /** So is a signature made with a certificate that is built in. */
  lemma {:induction false} BuiltInPasses(st: Stores, cr: Crypto, sig: seq<Byte>, d: Digests, cert: seq<Byte>)
    requires cert in {st.buildCert, st.vendorCert} && cert != [] && cr.authentic(sig, cert, d.sha256)
    requires !DenyHash(st, d) && !DenyCert(st, cr, Some(sig), d)
    ensures Passes(st, cr, sig, d)
  {
    hide DenyHash, DenyCert, AllowHash, AllowCert;
  }

  // ----- the SBAT section of an image

  /** A section named ".sbat" whose file data covers its memory. */
  predicate SbatData(x: Section)
  {
    x.name == [0x2e, 0x73, 0x62, 0x61, 0x74, 0, 0, 0] && x.sizeOfRawData != 0 && x.virtualSize <= x.sizeOfRawData
  }

  /** No section of that name has relocations, and none follows one with data. */
  predicate SbatOrdered(ss: seq<Section>)
  {
    && (forall x :: x in ss && x.name == [0x2e, 0x73, 0x62, 0x61, 0x74, 0, 0, 0] ==>
          x.numberOfRelocations == 0 && x.pointerToRelocations == 0)
    && (forall i, j :: 0 <= i < j < |ss| && SbatData(ss[i]) ==> ss[j].name != ss[i].name)
  }

  /** `section` is the raw data of a section with SBAT data, or nothing where there is none. */
  ghost predicate IsSbatOf(data: seq<Byte>, ss: seq<Section>, section: seq<Byte>)
  {
    if forall x :: x in ss ==> !SbatData(x) then section == []
    else exists x :: x in ss && SbatData(x) && x.pointerToRawData + x.sizeOfRawData <= |data| &&
           section == data[x.pointerToRawData..x.pointerToRawData + x.sizeOfRawData]
  }

  lemma {:induction false} OrderedIff(ss: seq<Section>)
    ensures SbatTidy(ss) <==> SbatOrdered(ss)
  {
    assert forall x :: x in ss ==> (SbatData(x) <==> IsSbat(x) && Usable(x));
    if SbatTidy(ss) {
      forall x | x in ss && IsSbat(x) ensures x.numberOfRelocations == 0 && x.pointerToRelocations == 0 {
        var i :| 0 <= i < |ss| && ss[i] == x;
      }
    }
  }

  lemma {:induction false} SbatBytesAre(data: seq<Byte>, ss: seq<Section>, i: nat, section: seq<Byte>)
    requires Authenticode.AllInside(data, ss) && SbatOrdered(ss) && IsSbatOf(data, ss, section) && i <= |ss|
    requires forall j :: 0 <= j < i ==> !SbatData(ss[j])
    ensures SbatBytes(data, ss, i) == section
    decreases |ss| - i
  {
    if i < |ss| {
      assert ss[i] in ss && Authenticode.RawInside(data, ss[i]);
      if SbatData(ss[i]) {
        var x :| x in ss && SbatData(x) && x.pointerToRawData + x.sizeOfRawData <= |data| &&
          section == data[x.pointerToRawData..x.pointerToRawData + x.sizeOfRawData];
        var k :| 0 <= k < |ss| && ss[k] == x;
        assert k == i;
      } else {
        SbatBytesAre(data, ss, i + 1, section);
      }
    }
  }

  /** An image is approved if and only if it can be digested, the verdict on hash and signatures is success, its
      SBAT sections are in order, and the revocation level accepts the raw data of the one that has some. */
  lemma {:induction false} ApprovedIff(st: Stores, cr: Crypto, sb: Sbat, m: Memory, c: Context, parent: bool,
                                       inProtocol: bool, section: seq<Byte>)
    requires Hashable(m.data, c) && IsSbatOf(m.data, Sections(m.data, c), section)
    ensures Approved(st, cr, sb, m, c, parent, inProtocol) <==>
              && Verdict(st, cr, m, c.secDir, DigestsOf(cr, m.data, c), parent) == Success
              && SbatOrdered(Sections(m.data, c))
              && SbatSection.SbatVerdict(sb.atoi, sb.level, inProtocol, section) == Success
  {
    var ss := Sections(m.data, c);
    OrderedIff(ss);
    hide Verdict, DigestsOf, SbatSection.SbatVerdict, Sections, SbatTidy, SbatOrdered, IsSbatOf;
    if SbatOrdered(ss) {
      SbatBytesAre(m.data, ss, 0, section);
    }
  }

  /** A written section needs room for its copy, for each of its rows, and for the packed table. */
  lemma {:induction false} RoomIff(room: Room, sb: Sbat, rows: seq<seq<SbatSection.Text>>, mark: bool,
                                   padding: seq<Byte>)
    requires SbatText.AreRows(rows) && rows != [] && SbatText.IsPadding(padding)
    requires !mark ==> SbatText.Unmarked(rows)
    ensures RoomFor(room, sb, SbatText.Section(rows, mark, padding)) <==>
              sb.level != [] ==> room.buffer && |rows| <= room.rows && room.pool
  {
    hide SbatText.AreRows, SbatSection.SectionRows, SbatText.Section;
    SbatText.SectionReads(rows, mark, padding);
    SbatText.SectionNotEmpty(rows, mark, padding);
  }

  // ----- malformed certificate tables

  /** The bytes at `offset` are no entry: its first twelve bytes are not in the file, its length not in the
      directory, or that is less than the header or reaches past the directory. */
  predicate NoEntry(m: Memory, va: nat, size: nat, offset: nat)
  {
    || |m.data| < va + offset + 12 || size < offset + 4
    || m.U32At(va + offset) < 8 || size < offset + m.U32At(va + offset)
  }

  /** Behind any number of good entries it makes the whole table an error, whatever they say. */
  lemma {:induction false} BadEntryEnds(m: Memory, va: nat, size: nat, offset: nat, es: seq<Certificate>)
    requires AreCertificates(es) && Holds(m, va + offset, EncodeTable(es)) && offset % 8 == 0
    requires offset + |EncodeTable(es)| < size && NoEntry(m, va, size, offset + |EncodeTable(es)|)
    ensures ReadTable(m, va, size, offset) == Malformed
    decreases |es|
  {
    hide Memory.U32At, EncodeEntry, EntrySignature, Align8, IsCertificate, EntrySize, ReadTable, NoEntry;
    ReadStep(m, va, size, offset);
    if es != [] {
      var e, rest := es[0], es[1..];
      assert IsCertificate(e);
      HoldsParts(m, va + offset, EncodeEntry(e), EncodeTable(rest));
      EntryRead(m, va + offset, e);
      NextOffset(offset, e);
      BadEntryEnds(m, va, size, offset + EntrySize(e), rest);
    }
  }

  lemma {:induction false} ReadStep(m: Memory, va: nat, size: nat, offset: nat)
    requires offset < size
    ensures NoEntry(m, va, size, offset) ==> ReadTable(m, va, size, offset) == Malformed
    ensures ReadTable(m, va, size, Align8(offset + m.U32At(va + offset))) == Malformed ==>
              ReadTable(m, va, size, offset) == Malformed
  {
    hide Memory.U32At, EntrySignature, Align8;
  }

  lemma {:induction false} BadTableFails(st: Stores, cr: Crypto, m: Memory, dir: Directory, es: seq<Certificate>,
                                         d: Digests)
    requires AreCertificates(es) && Holds(m, dir.virtualAddress, EncodeTable(es)) && |EncodeTable(es)| < dir.size
    requires NoEntry(m, dir.virtualAddress, dir.size, |EncodeTable(es)|)
    ensures TableVerdict(st, cr, m, dir, d) == InvalidParameter
  {
    hide ReadTable, EncodeTable;
    BadEntryEnds(m, dir.virtualAddress, dir.size, 0, es);
  }
}
