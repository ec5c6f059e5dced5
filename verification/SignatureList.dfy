/** EFI_SIGNATURE_LIST data (section 32.4.1 of the UEFI Specification 2.8): the
    header fields, and the checks MokManager.c makes on them. */
module SignatureList {
  import opened Bytes

  type Guid = g: seq<Byte> | |g| == 16 witness [0, 0, 0, 0, 0, 0, 0, 0, 0, 0, 0, 0, 0, 0, 0, 0]

  const X509: Guid := [0xa1, 0x59, 0xc0, 0xa5, 0xe4, 0x94, 0xa7, 0x4a, 0x87, 0xb5, 0xab, 0x15, 0x5c, 0x2b, 0xf0, 0x72]
  const SHA1: Guid := [0x12, 0xa5, 0x6c, 0x82, 0x10, 0xcf, 0xc9, 0x4a, 0xb1, 0x87, 0xbe, 0x01, 0x49, 0x66, 0x31, 0xbd]
  const SHA224: Guid := [0x33, 0x52, 0x6e, 0x0b, 0x5c, 0xa6, 0xc9, 0x44, 0x94, 0x07, 0xd9, 0xab, 0x83, 0xbf, 0xc8, 0xbd]
  const SHA256: Guid := [0x26, 0x16, 0xc4, 0xc1, 0x4c, 0x50, 0x92, 0x40, 0xac, 0xa9, 0x41, 0xf9, 0x36, 0x93, 0x43, 0x28]
  const SHA384: Guid := [0x07, 0x53, 0x3e, 0xff, 0xd0, 0x9f, 0xc9, 0x48, 0x85, 0xf1, 0x8a, 0xd5, 0x6c, 0x70, 0x1e, 0x01]
  const SHA512: Guid := [0xae, 0x0f, 0x3e, 0x09, 0xc4, 0xa6, 0x50, 0x4f, 0x9f, 0x1b, 0xd4, 0x1e, 0x2b, 0x89, 0xc1, 0x9a]
  const SHIM_LOCK: Guid :=
    [0x50, 0xab, 0x5d, 0x60, 0x46, 0xe0, 0x00, 0x43, 0xab, 0xb6, 0x3d, 0xd8, 0x10, 0xdd, 0x8b, 0x23]

  const GUID_SIZE := 16
  const LIST_HEADER := 28
  const SIGNATURE_DATA := 17

  predicate IsSha2(g: Guid)
  {
    g == SHA224 || g == SHA256 || g == SHA384 || g == SHA512
  }

  function ShaSize(g: Guid): (n: nat)
  {
    if g == SHA1 then 20
    else if g == SHA224 then 28
    else if g == SHA256 then 32
    else if g == SHA384 then 48
    else if g == SHA512 then 64
    else 0
  }

  predicate IsValidSiglist(g: Guid, sigSize: nat)
  {
    (g == X509 && sigSize != 0) || (IsSha2(g) && sigSize == ShaSize(g) + GUID_SIZE)
  }

  // ----- header fields of the list at `pos`

  function TypeAt(m: Memory, pos: nat): (g: Guid) { m.Slice(pos, GUID_SIZE) }

  function ListSizeAt(m: Memory, pos: nat): (n: nat)
    ensures n < U32
  {
    m.U32At(pos + 16)
  }

  function HeaderSizeAt(m: Memory, pos: nat): (n: nat)
    ensures n < U32
  {
    m.U32At(pos + 20)
  }

  function SigSizeAt(m: Memory, pos: nat): (n: nat)
    ensures n < U32
  {
    m.U32At(pos + 24)
  }

  function Header(g: Guid, listSize: nat, headerSize: nat, sigSize: nat): (s: seq<Byte>)
    requires listSize < U32 && headerSize < U32 && sigSize < U32
    ensures |s| == LIST_HEADER
  {
    g + (Le32(listSize) + (Le32(headerSize) + Le32(sigSize)))
  }

  lemma {:induction false} ReadHeader(m: Memory, pos: nat, g: Guid, listSize: nat, headerSize: nat, sigSize: nat)
    requires listSize < U32 && headerSize < U32 && sigSize < U32
    requires Holds(m, pos, Header(g, listSize, headerSize, sigSize))
    ensures TypeAt(m, pos) == g && ListSizeAt(m, pos) == listSize
    ensures HeaderSizeAt(m, pos) == headerSize && SigSizeAt(m, pos) == sigSize
  {
    hide Le32, Memory.U32At;
    HoldsParts(m, pos, g, Le32(listSize) + (Le32(headerSize) + Le32(sigSize)));
    HoldsParts(m, pos + 16, Le32(listSize), Le32(headerSize) + Le32(sigSize));
    HoldsParts(m, pos + 20, Le32(headerSize), Le32(sigSize));
    ReadLe32(m, pos + 16, listSize);
    ReadLe32(m, pos + 20, headerSize);
    ReadLe32(m, pos + 24, sigSize);
    SliceOfData(m, pos, 16);
  }
}
