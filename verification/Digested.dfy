/** Which images can be digested, in plain arithmetic on their headers. */
module Digested {
  import opened Bytes
  import opened Pe
  import opened Authenticode

  /** All bytes that the section table says are in the file. */
  function RawSize(ss: seq<Section>): (n: nat)
  {
    if ss == [] then 0 else ss[0].sizeOfRawData + RawSize(ss[1..])
  }

  predicate Within(c: Context, x: Section) { 1 <= x.virtualSize && x.virtualAddress + x.virtualSize <= c.imageSize }

  /** Unless it is discardable, or starts behind the image, a section lies in the image; unless it is only space,
      neither its memory nor its raw data starts in the headers. */
  predicate Placed(c: Context, x: Section)
  {
    && (x.characteristics / 0x0200_0000 % 2 == 0 || x.virtualAddress < c.imageSize ==> Within(c, x))
    && (x.characteristics / 0x80 % 2 == 0 ==>
          c.sizeOfHeaders <= x.virtualAddress && c.sizeOfHeaders <= x.pointerToRawData)
  }

  lemma {:induction false} VmaIff(c: Context, x: Section)
    ensures GetSectionVma(c, x).Success? <==> Placed(c, x)
  {
    var last := x.virtualAddress + x.virtualSize - 1;
    assert LastByte(x) == if last < 0 then U32 - 1 else if last < U32 then last else last - U32;
    if x.virtualAddress < c.imageSize &&
       !Below(ImageAddress(c.imageSize, LastByte(x)), ImageAddress(c.imageSize, x.virtualAddress)) {
      NoWrap(c, x);
    }
  }

  lemma {:induction false} RawSizeAppend(ss: seq<Section>, x: Section)
    ensures RawSize(ss + [x]) == RawSize(ss) + x.sizeOfRawData
  {
    if ss == [] {
      assert [] + [x] == [x] && [x][1..] == [];
    } else {
      assert (ss + [x])[1..] == ss[1..] + [x];
      RawSizeAppend(ss[1..], x);
    }
  }

  lemma {:induction false} RawSizeIs(ss: seq<Section>)
    ensures RawTotal(ss) == RawSize(ss)
    decreases |ss|
  {
    if ss != [] {
      var front, x := ss[..|ss| - 1], ss[|ss| - 1];
      RawSizeIs(front);
      RawSizeAppend(front, x);
      assert front + [x] == ss;
    }
  }

  /** An image can be digested if and only if: it is a DOS file of more than 64 bytes; its headers reach behind
      the security directory entry; headers and raw data together are no more than the file; every section is
      placed as it should and has its raw data in the file; and a certificate table behind them is what ends
      the file. */
  lemma {:induction false} AcceptedIff(data: seq<Byte>, c: Context, ss: seq<Section>)
    ensures Accepted(data, c, ss) <==>
              && 64 < |data| && data[0] == 0x4d && data[1] == 0x5a
              && (ss == [] ==> c.peOffset + 24 + c.optionalHeaderSize < |data|)
              && c.peOffset + 176 <= c.sizeOfHeaders && c.sizeOfHeaders + RawSize(ss) <= |data|
              && (forall x :: x in ss ==> Placed(c, x))
              && (forall x :: x in ss && x.sizeOfRawData != 0 ==> x.pointerToRawData + x.sizeOfRawData <= |data|)
              && (c.sizeOfHeaders + RawSize(ss) < |data| && c.secDir.size != 0 ==>
                    && c.sizeOfHeaders + RawSize(ss) + c.secDir.size <= |data|
                    && c.secDir.virtualAddress + c.secDir.size == |data|)
  {
    RawSizeIs(ss);
    forall i | 0 <= i < |ss| ensures GetSectionVma(c, ss[i]).Success? <==> Placed(c, ss[i]) {
      VmaIff(c, ss[i]);
    }
    DosIff(data);
    hide RawTotal, RawSize, GetSectionVma, Placed, DosSigned, Word16At;
    assert (forall x :: x in ss ==> Placed(c, x)) <==> AllVma(c, ss) by {
      if AllVma(c, ss) {
        forall x | x in ss ensures Placed(c, x) {
          var i :| 0 <= i < |ss| && ss[i] == x;
        }
      }
    }
    assert (forall x :: x in ss && x.sizeOfRawData != 0 ==> x.pointerToRawData + x.sizeOfRawData <= |data|) <==>
             AllInside(data, ss) by {
      if AllInside(data, ss) {
        forall x | x in ss ensures RawInside(data, x) {
          var i :| 0 <= i < |ss| && ss[i] == x;
        }
      } else {
        var i :| 0 <= i < |ss| && !RawInside(data, ss[i]);
        assert ss[i] in ss;
      }
    }
  }

  lemma {:induction false} DosIff(data: seq<Byte>)
    ensures DosSigned(data) && 64 < |data| <==> 64 < |data| && data[0] == 0x4d && data[1] == 0x5a
  {
  }
}
