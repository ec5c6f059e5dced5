/** Bytes, fixed-width words and their little-endian layout. */
module Bytes {

  type Byte = b: int | 0 <= b < 0x100
  type Word16 = w: int | 0 <= w < 0x1_0000
  type Word32 = w: int | 0 <= w < 0x1_0000_0000

  const U16: int := 0x1_0000
  const U32: int := 0x1_0000_0000
  const U64: int := 0x1_0000_0000_0000_0000

  datatype Status =
    | Success
    | NotFound
    | InvalidParameter
    | Unsupported
    | OutOfResources
    | LoadError
    | SecurityViolation
    | BufferTooSmall

  datatype Option<+T> = None | Some(value: T)

  function Min(a: int, b: int): (m: int)
    ensures m <= a && m <= b && (m == a || m == b)
  {
    if a < b then a else b
  }

  // ----- memory: a buffer and whatever the pool holds after it

  /** Memory seen through a pointer: the buffer itself, and unknown bytes
      beyond it.  A read past the end of the buffer yields an arbitrary byte. */
  datatype Memory = Memory(data: seq<Byte>, beyond: nat -> Byte) {
    function At(i: nat): (b: Byte)
    {
      if i < |data| then data[i] else beyond(i)
    }

    function U16At(i: nat): (w: nat)
      ensures w < U16
    {
      var high: int := At(i + 1);
      At(i) + 0x100 * high
    }

    function U32At(i: nat): (w: nat)
      ensures w < U32
    {
      U16At(i) + U16 * U16At(i + 2)
    }

    /** The `n` bytes starting at offset `i`. */
    function Slice(i: nat, n: nat): (s: seq<Byte>)
      ensures |s| == n
    {
      seq<Byte>(n, k requires 0 <= k < n => At(i + k))
    }
  }

  // ----- little-endian words

  function Word16At(s: seq<Byte>, i: nat): (w: Word16)
    requires i + 2 <= |s|
  {
    var high: int := s[i + 1];
    s[i] + 0x100 * high
  }

  function Word32At(s: seq<Byte>, i: nat): (w: Word32)
    requires i + 4 <= |s|
  {
    var high: int := Word16At(s, i + 2);
    Word16At(s, i) + U16 * high
  }

  function Word64At(s: seq<Byte>, i: nat): (w: nat)
    requires i + 8 <= |s|
  {
    Word32At(s, i) + U32 * Word32At(s, i + 4)
  }

  function Le16(w: nat): (s: seq<Byte>)
    requires w < U16
    ensures |s| == 2
  {
    [w % 0x100, w / 0x100]
  }

  function Le32(w: nat): (s: seq<Byte>)
    requires w < U32
    ensures |s| == 4
  {
    Le16(w % U16) + Le16(w / U16)
  }

  /** Words one after the other. */
  function Le16s(ws: seq<Word16>): (s: seq<Byte>)
    ensures |s| == 2 * |ws|
  {
    if ws == [] then [] else Le16(ws[0]) + Le16s(ws[1..])
  }

  /** The word whose little-endian bytes are `s`. */
  function LeValue(s: seq<Byte>): (w: nat)
  {
    if s == [] then 0 else s[0] + 0x100 * LeValue(s[1..])
  }

  lemma {:induction false} SliceOfData(m: Memory, i: nat, n: nat)
    requires i + n <= |m.data|
    ensures m.Slice(i, n) == m.data[i..i + n]
  {
    assert forall k :: 0 <= k < n ==> m.Slice(i, n)[k] == m.At(i + k);
  }

  /** `s` stands in the buffer at offset `i`. */
  predicate Holds(m: Memory, i: nat, s: seq<Byte>)
  {
    i + |s| <= |m.data| && m.data[i..i + |s|] == s
  }

  /** Reading back a word stored in little-endian order. */
  lemma {:induction false} ReadLe16(m: Memory, i: nat, w: nat)
    requires w < U16 && Holds(m, i, Le16(w))
    ensures m.U16At(i) == w
  {
    assert m.data[i..i + 2][0] == m.data[i] && m.data[i..i + 2][1] == m.data[i + 1];
  }

  lemma {:induction false} ReadLe32(m: Memory, i: nat, w: nat)
    requires w < U32 && Holds(m, i, Le32(w))
    ensures m.U32At(i) == w
  {
    HoldsParts(m, i, Le16(w % U16), Le16(w / U16));
    ReadLe16(m, i, w % U16);
    ReadLe16(m, i + 2, w / U16);
  }

  lemma {:induction false} HoldsParts(m: Memory, i: nat, s: seq<Byte>, t: seq<Byte>)
    requires Holds(m, i, s + t)
    ensures Holds(m, i, s) && Holds(m, i + |s|, t)
  {
    var st := m.data[i..i + |s| + |t|];
    assert m.data[i..i + |s|] == st[..|s|] == s;
    assert m.data[i + |s|..i + |s| + |t|] == st[|s|..] == t;
  }

  lemma {:induction false} SliceHeld(m: Memory, i: nat, s: seq<Byte>)
    requires Holds(m, i, s)
    ensures m.Slice(i, |s|) == s
  {
    SliceOfData(m, i, |s|);
  }

  // ----- sequences

  function Drop<T>(s: seq<T>, i: nat): (r: seq<T>)
    requires i < |s|
    ensures |r| == |s| - 1
  {
    s[..i] + s[i + 1..]
  }

  lemma Assoc<T>(a: seq<T>, b: seq<T>, c: seq<T>)
    ensures a + b + c == a + (b + c)
  {
  }

  /** A sequence up to `k`, then from `k` to its last element. */
  lemma SplitLast<T>(s: seq<T>, k: nat)
    requires k < |s|
    ensures s[..|s| - 1][..k] == s[..k]
    ensures s[..|s| - 1][k..] + [s[|s| - 1]] == s[k..]
  {
  }

  lemma {:induction false} DropLast<T>(s: seq<T>)
    requires s != []
    ensures multiset(s[..|s| - 1]) == multiset(s) - multiset{s[|s| - 1]}
  {
    assert s == s[..|s| - 1] + [s[|s| - 1]];
  }

  lemma {:induction false} RemoveAt<T>(s: seq<T>, i: nat)
    requires i < |s|
    ensures multiset(s) == multiset(s[..i] + s[i + 1..]) + multiset{s[i]}
  {
    assert s == s[..i] + [s[i]] + s[i + 1..];
  }

  lemma {:induction false} Cancel<T>(a: multiset<T>, b: multiset<T>, x: T)
    requires a + multiset{x} == b + multiset{x}
    ensures a == b
  {
    forall e ensures a[e] == b[e] {
      assert (a + multiset{x})[e] == (b + multiset{x})[e];
    }
  }

  lemma Stitch<T>(buf: seq<T>, at: nat, s: seq<T>, t: seq<T>)
    requires at + |s| + |t| <= |buf|
    requires buf[at..at + |s|] == s && buf[at + |s|..at + |s| + |t|] == t
    ensures buf[at..at + |s| + |t|] == s + t
  {
  }

  // ----- division

  function Divided(a: nat, b: nat): (q: nat)
    requires 0 < b
  {
    a / b
  }

  lemma {:induction false} Quotient(a: nat, b: nat, q: nat, r: nat)
    requires 0 < b && a == q * b + r && r < b
    ensures a / b == q
  {
    var d := a / b;
    assert d * b <= a < d * b + b;
    if d < q {
      MulMonotone(d + 1, q, b);
    } else if q < d {
      MulMonotone(q + 1, d, b);
    }
  }

  lemma MulMonotone(x: nat, y: nat, b: nat)
    requires x <= y
    ensures x * b <= y * b
  {
  }
}
