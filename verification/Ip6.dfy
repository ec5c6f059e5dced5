/** The IPv6 text parser of netboot.c, and the addresses of section 2.2 of
    RFC 4291 that it reads. */
module Ip6 {
  import opened Bytes

  const COLON: Byte := 58

  predicate IsHex(c: Byte)
  {
    48 <= c <= 57 || 65 <= c <= 70 || 97 <= c <= 102
  }

  function HexDigit(c: Byte): (v: nat)
    ensures v < 16
  {
    if 48 <= c <= 57 then c - 48 else if 65 <= c <= 70 then c - 55 else if 97 <= c <= 102 then c - 87 else 0
  }

  /** The 16-bit value of the digits in [lo, hi); further digits push the first ones out. */
  function Value(s: seq<Byte>, lo: nat, hi: nat): (w: Word16)
    requires hi <= |s|
    decreases hi
  {
    if hi <= lo then 0 else
      var before: int := Value(s, lo, hi - 1);
      (before * 16 + HexDigit(s[hi - 1])) % U16
  }

  // ----- what a text means

  function Colons(s: seq<Byte>, lo: nat, hi: nat): (n: nat)
    requires hi <= |s|
    decreases hi
  {
    if hi <= lo then 0 else Colons(s, lo, hi - 1) + if s[hi - 1] == COLON then 1 else 0
  }

  function ColonFrom(s: seq<Byte>, i: nat, hi: nat): (c: nat)
    requires i <= hi <= |s|
    ensures i <= c <= hi
    ensures forall k :: i <= k < c ==> s[k] != COLON
    ensures c < hi ==> s[c] == COLON
    decreases hi - i
  {
    if i == hi || s[i] == COLON then i else ColonFrom(s, i + 1, hi)
  }

  /** The values of the colon-separated pieces of [lo, hi). */
  function Groups(s: seq<Byte>, lo: nat, hi: nat): (g: seq<Word16>)
    requires lo <= hi <= |s|
    ensures g != []
    decreases hi - lo
  {
    var c := ColonFrom(s, lo, hi);
    if c == hi then [Value(s, lo, hi)] else [Value(s, lo, c)] + Groups(s, c + 1, hi)
  }

  predicate DoubleAt(s: seq<Byte>, len: nat, i: nat)
    requires len <= |s|
  {
    i + 1 < len && s[i] == COLON && s[i + 1] == COLON
  }

  /** The first `::` at or after `i`, or the end. */
  function DoubleFrom(s: seq<Byte>, i: nat, len: nat): (d: nat)
    requires i <= len <= |s|
    ensures i <= d <= len
    ensures forall k :: i <= k < d ==> !DoubleAt(s, len, k)
    ensures d < len ==> DoubleAt(s, len, d)
    decreases len - i
  {
    if i == len || DoubleAt(s, len, i) then i else DoubleFrom(s, i + 1, len)
  }

  predicate Legal(s: seq<Byte>, len: nat)
    requires len <= |s|
  {
    forall k :: 0 <= k < len ==> s[k] == COLON || IsHex(s[k])
  }

  predicate OneDouble(s: seq<Byte>, len: nat)
    requires len <= |s|
  {
    forall i, j :: 0 <= i < j < len ==> !(DoubleAt(s, len, i) && DoubleAt(s, len, j))
  }

  /** A text that the parser takes for an address; a longer one is never accepted. */
  predicate Accepted(s: seq<Byte>, len: nat)
    requires len <= |s|
  {
    len < 0x100 && Colons(s, 0, len) <= 7 && Legal(s, len) && OneDouble(s, len)
  }

  function Zeros(n: int): (z: seq<Word16>)
    ensures |z| == if n < 0 then 0 else n
    ensures forall k :: 0 <= k < |z| ==> z[k] == 0
  {
    if n <= 0 then [] else [0] + Zeros(n - 1)
  }

  /** The groups before the `::`, zeros, and the groups after it. */
  function Filled(g: seq<Word16>, h: seq<Word16>): (w: seq<Word16>)
  {
    g + Zeros(8 - |g| - |h|) + h
  }

  /** The eight words that a text stands for; all zero for a rejected one. */
  function Words(s: seq<Byte>, len: nat): (w: seq<Word16>)
    requires len <= |s|
  {
    if !Accepted(s, len) then Zeros(8)
    else
      var d := DoubleFrom(s, 0, len);
      Filled(Groups(s, 0, d), if d == len then [] else Groups(s, d + 2, len))
  }

  // ----- counting groups

  lemma {:induction false} ColonsFrom(s: seq<Byte>, lo: nat, mid: nat, hi: nat)
    requires lo <= mid <= hi <= |s|
    ensures Colons(s, lo, hi) == Colons(s, lo, mid) + Colons(s, mid, hi)
    decreases hi
  {
    if mid < hi {
      ColonsFrom(s, lo, mid, hi - 1);
    }
  }

  lemma {:induction false} NoColons(s: seq<Byte>, lo: nat, hi: nat)
    requires hi <= |s| && forall k :: lo <= k < hi ==> s[k] != COLON
    ensures Colons(s, lo, hi) == 0
    decreases hi
  {
    if lo < hi {
      NoColons(s, lo, hi - 1);
    }
  }

  lemma {:induction false} GroupCount(s: seq<Byte>, lo: nat, hi: nat)
    requires lo <= hi <= |s|
    ensures |Groups(s, lo, hi)| == Colons(s, lo, hi) + 1
    decreases hi - lo
  {
    var c := ColonFrom(s, lo, hi);
    NoColons(s, lo, c);
    if c < hi {
      ColonsFrom(s, lo, c, hi);
      ColonsFrom(s, c, c + 1, hi);
      GroupCount(s, c + 1, hi);
    }
  }

  /** Peeling off the last group. */
  lemma {:induction false} GroupsLast(s: seq<Byte>, lo: nat, c: nat, hi: nat)
    requires lo <= c < hi <= |s| && s[c] == COLON && forall k :: c < k < hi ==> s[k] != COLON
    ensures Groups(s, lo, hi) == Groups(s, lo, c) + [Value(s, c + 1, hi)]
    decreases hi - lo
  {
    var d := ColonFrom(s, lo, hi);
    if d < c {
      GroupsLast(s, d + 1, c, hi);
    }
  }

  /** There is room for the groups on both sides of a `::`. */
  lemma {:induction false} Room(s: seq<Byte>, len: nat)
    requires len <= |s| && Colons(s, 0, len) <= 7
    ensures var d := DoubleFrom(s, 0, len);
            if d == len then |Groups(s, 0, d)| <= 8
            else |Groups(s, 0, d)| + |Groups(s, d + 2, len)| <= 7
  {
    var d := DoubleFrom(s, 0, len);
    GroupCount(s, 0, d);
    if d < len {
      ColonsFrom(s, 0, d, len);
      ColonsFrom(s, d, d + 2, len);
      assert Colons(s, d, d + 1) == 1;
      GroupCount(s, d + 2, len);
    }
  }

  // ----- the parser

  /** Exchanges the bytes of a word, as htons does on a little-endian machine. */
  function Swap(w: Word16): (r: Word16)
    ensures r % 0x100 == w / 0x100 && r / 0x100 == w % 0x100
  {
    var low: int := w % 0x100;
    low * 0x100 + w / 0x100
  }

  predicate NoNul(s: seq<Byte>, lo: nat, hi: nat)
    requires hi <= |s|
  {
    forall k :: lo <= k < hi ==> s[k] != 0
  }

  method Str2Ns(str: array<Byte>, at: nat, ghost end: nat) returns (r: Word16)
    requires at <= end < str.Length && NoNul(str[..], at, end) && str[end] == 0
    ensures r == Swap(Value(str[..], at, end))
  {
    var i, ret: Word16 := at, 0;
    while str[i] != 0
      invariant at <= i <= end && ret == Value(str[..], at, i)
      decreases end - i
    {
      var c := str[i];
      var v: int;
      if 48 <= c <= 57 {
        v := c - 48;
      } else if 65 <= c <= 70 {
        v := c - 65 + 10;
      } else if 97 <= c <= 102 {
        v := c - 97 + 10;
      } else {
        v := 0;
      }
      var before: int := ret;
      ret := (before * 16 + v) % U16;
      i := i + 1;
    }
    return Swap(ret);
  }

  lemma {:induction false} ValueAgrees(s: seq<Byte>, t: seq<Byte>, lo: nat, hi: nat)
    requires hi <= |s| && hi <= |t| && forall k :: lo <= k < hi ==> s[k] == t[k]
    ensures Value(s, lo, hi) == Value(t, lo, hi)
    decreases hi
  {
    if lo < hi {
      ValueAgrees(s, t, lo, hi - 1);
    }
  }

  /** One group, read with a NUL standing for a moment in place of the byte `t` after it. */
  method ReadGroup(str: array<Byte>, a: nat, b: nat, t: Byte) returns (r: Word16)
    requires a <= b < str.Length && NoNul(str[..], a, b) && str[b] == t
    modifies str
    ensures str[..] == old(str[..]) && r == Swap(Value(str[..], a, b))
  {
    str[b] := 0;
    r := Str2Ns(str, a, b);
    ValueAgrees(str[..], old(str[..]), a, b);
    str[b] := t;
  }

  method CountColons(str: array<Byte>, ghost len: nat) returns (n: nat)
    requires len < str.Length && NoNul(str[..], 0, len) && str[len] == 0
    ensures n == Colons(str[..], 0, len)
  {
    var a := 0;
    n := 0;
    while str[a] != 0
      invariant a <= len && n == Colons(str[..], 0, a)
      decreases len - a
    {
      if str[a] == COLON {
        n := n + 1;
      }
      a := a + 1;
    }
  }

  method CheckText(str: array<Byte>, len: nat) returns (ok: bool)
    requires len < str.Length && len < 0x100
    ensures ok <==> Legal(str[..], len) && OneDouble(str[..], len)
  {
    ghost var s := str[..];
    var doubleColon := false;
    var i := 0;
    while i < len
      invariant i <= len && str[..] == s
      invariant forall k :: 0 <= k < i ==> s[k] == COLON || IsHex(s[k])
      invariant doubleColon <==> exists k :: 0 <= k < i && DoubleAt(s, len, k)
      invariant forall k, l :: 0 <= k < l < i ==> !(DoubleAt(s, len, k) && DoubleAt(s, len, l))
    {
      if str[i] == COLON {
        if i + 1 < len % 0x100 && str[i + 1] == COLON {
          assert DoubleAt(s, len, i);
          if doubleColon {
            return false;
          }
          doubleColon := true;
        }
      } else if str[i] < 48 || 57 < str[i] < 65 || 70 < str[i] < 97 || 102 < str[i] {
        assert !IsHex(s[i]);
        return false;
      }
      i := i + 1;
    }
    return true;
  }

  /** The places where the check of a text of 256 bytes or more can stop: an illegal
      character, or a `::` within the length's last byte, met again on the second lap. */
  predicate StopAt(s: seq<Byte>, len: nat, i: nat)
    requires len <= |s|
  {
    i < 0x100 && i < len &&
    (!(s[i] == COLON || IsHex(s[i])) || (i + 1 < len % 0x100 && s[i] == COLON && s[i + 1] == COLON))
  }

  /** The check ends, since its counter has eight bits. */
  ghost predicate Ends(s: seq<Byte>, len: nat)
    requires len <= |s|
  {
    len < 0x100 || exists i :: StopAt(s, len, i)
  }

  /** The same loop when the counter goes around: it can only end by a rejection. */
  method CheckLong(str: array<Byte>, len: nat) returns (ok: bool)
    requires 0x100 <= len < str.Length && exists i :: StopAt(str[..], len, i)
    ensures !ok
  {
    ghost var s := str[..];
    hide IsHex;
    var doubleColon := false;
    var i := 0;
    ghost var lap := 0;
    while i < len
      invariant 0 <= i < 0x100 && 0 <= lap <= 1 && str[..] == s
      invariant forall k :: 0 <= k < (if lap == 0 then i else 0x100) ==> s[k] == COLON || IsHex(s[k])
      invariant lap == 0 ==> (doubleColon <==> exists k :: 0 <= k < i && StopAt(s, len, k))
      invariant lap == 1 ==> doubleColon && forall k :: 0 <= k < i ==> !StopAt(s, len, k)
      decreases 0x200 - 0x100 * lap - i
    {
      if str[i] == COLON {
        if i + 1 < len % 0x100 && str[i + 1] == COLON {
          assert StopAt(s, len, i);
          if doubleColon {
            return false;
          }
          doubleColon := true;
        }
      } else if str[i] < 48 || 57 < str[i] < 65 || 70 < str[i] < 97 || 102 < str[i] {
        return false;
      }
      if i == 0xff {
        lap := lap + 1;
      }
      i := (i + 1) % 0x100;
    }
  }

  /** The first words hold the groups `g`, and the others are zero. */
  predicate Front(ip: seq<Word16>, g: seq<Word16>)
  {
    |ip| == 8 && |g| <= 8 &&
    forall k :: 0 <= k < 8 ==> ip[k] == if k < |g| then Swap(g[k]) else 0
  }

  lemma FrontGrows(ip: seq<Word16>, g: seq<Word16>, w: Word16)
    requires Front(ip, g) && |g| < 8
    ensures Front(ip[|g| := Swap(w)], g + [w])
  {
  }

  method StoreGroup(str: array<Byte>, ip: array<Word16>, a: nat, b: nat, t: Byte, p: nat, ghost g: seq<Word16>)
    requires a <= b < str.Length && NoNul(str[..], a, b) && str[b] == t
    requires ip.Length == 8 && p == |g| < 8 && Front(ip[..], g)
    modifies str, ip
    ensures str[..] == old(str[..]) && Front(ip[..], g + [Value(str[..], a, b)])
  {
    hide Value, Swap;
    var r := ReadGroup(str, a, b, t);
    assert Front(ip[..], g);
    FrontGrows(ip[..], g, Value(str[..], a, b));
    ghost var was := ip[..];
    ip[p] := r;
    assert ip[..] == was[p := r];
  }

  /** What is known while scanning forward: the groups `g` before `a` are
      stored, and no colon stands in [a, i). */
  predicate Scanning(s: seq<Byte>, d: nat, a: nat, i: nat, g: seq<Word16>)
    requires d <= |s|
  {
    && a <= i <= d
    && (forall k :: a <= k < i ==> s[k] != COLON)
    && g + Groups(s, a, d) == Groups(s, 0, d)
  }

  lemma {:induction false} ScanStep(s: seq<Byte>, d: nat, a: nat, i: nat, g: seq<Word16>)
    requires d <= |s| && i < d && Scanning(s, d, a, i, g) && s[i] == COLON
    ensures Scanning(s, d, i + 1, i + 1, g + [Value(s, a, i)])
    ensures |g| + 1 < |Groups(s, 0, d)|
  {
    Assoc(g, [Value(s, a, i)], Groups(s, i + 1, d));
  }

  lemma {:induction false} ScanEnd(s: seq<Byte>, d: nat, a: nat, g: seq<Word16>)
    requires d <= |s| && Scanning(s, d, a, d, g)
    ensures g + [Value(s, a, d)] == Groups(s, 0, d)
  {
  }

  /** Stores the groups up to the first `::`, or all of them. */
  method Forward(str: array<Byte>, ip: array<Word16>, len: nat) returns (i: nat)
    requires len < str.Length && NoNul(str[..], 0, len) && str[len] == 0
    requires ip.Length == 8 && Front(ip[..], [])
    requires |Groups(str[..], 0, DoubleFrom(str[..], 0, len))| <= 8
    modifies str, ip
    ensures str[..] == old(str[..]) && i == DoubleFrom(str[..], 0, len)
    ensures Front(ip[..], Groups(str[..], 0, i))
  {
    hide Groups, Value, Swap, Front;
    ghost var s := str[..];
    ghost var d := DoubleFrom(s, 0, len);
    ghost var g: seq<Word16> := [];
    var a, p := 0, 0;
    i := 0;
    assert Scanning(s, d, 0, 0, []);
    while i < len
      invariant str[..] == s && i <= d && |g| == p < 8
      invariant Scanning(s, d, a, i, g) && Front(ip[..], g)
    {
      if str[i] == COLON {
        StoreGroup(str, ip, a, i, COLON, p, g);
        if i == d {
          ScanEnd(s, d, a, g);
        } else {
          ScanStep(s, d, a, i, g);
        }
        g := g + [Value(s, a, i)];
        p := p + 1;
        a := i + 1;
        if str[i + 1] == COLON {
          assert s[i + 1] == COLON && DoubleAt(s, len, i);
          break;
        }
      }
      i := i + 1;
    }
    if i == len {
      FrontGrows(ip[..], g, Value(s, a, len));
      ghost var was := ip[..];
      ip[p] := Str2Ns(str, a, len);
      assert ip[..] == was[p := Swap(Value(s, a, len))];
      ScanEnd(s, d, a, g);
    }
  }

  /** The last words hold the groups `h`, and the others are as they were. */
  predicate Back(ip: seq<Word16>, was: seq<Word16>, h: seq<Word16>)
  {
    |ip| == |was| == 8 && |h| <= 8 &&
    forall k :: 0 <= k < 8 ==> ip[k] == if k < 8 - |h| then was[k] else Swap(h[k - (8 - |h|)])
  }

  method StoreBack(str: array<Byte>, ip: array<Word16>, a: nat, b: nat, t: Byte, p: nat,
    ghost was: seq<Word16>, ghost h: seq<Word16>)
    requires a <= b < str.Length && NoNul(str[..], a, b) && str[b] == t
    requires ip.Length == 8 && |h| < 8 && p == 7 - |h| && Back(ip[..], was, h)
    modifies str, ip
    ensures str[..] == old(str[..]) && Back(ip[..], was, [Value(str[..], a, b)] + h)
  {
    hide Value, Swap;
    var r := ReadGroup(str, a, b, t);
    assert Back(ip[..], was, h);
    ghost var now := ip[..];
    ip[p] := r;
    assert ip[..] == now[p := r];
  }

  /** What is known while scanning back towards `lo`: the groups `h` after `b`
      are stored, and no colon stands in (j, b). */
  predicate Returning(s: seq<Byte>, lo: nat, len: nat, j: int, b: nat, h: seq<Word16>)
    requires lo <= len <= |s|
  {
    && lo <= b <= len && lo <= j + 1 && j <= b
    && (forall k :: j < k < b ==> s[k] != COLON)
    && Groups(s, lo, b) + h == Groups(s, lo, len)
  }

  lemma {:induction false} ReturnStep(s: seq<Byte>, lo: nat, len: nat, j: nat, b: nat, h: seq<Word16>)
    requires lo <= len <= |s| && lo <= j < b && Returning(s, lo, len, j, b, h) && s[j] == COLON
    ensures Returning(s, lo, len, j - 1, j, [Value(s, j + 1, b)] + h)
    ensures |h| + 1 < |Groups(s, lo, len)|
  {
    GroupsLast(s, lo, j, b);
    Assoc(Groups(s, lo, j), [Value(s, j + 1, b)], h);
  }

  lemma {:induction false} ReturnEnd(s: seq<Byte>, lo: nat, len: nat, b: nat, h: seq<Word16>)
    requires lo <= len <= |s| && 0 < lo && Returning(s, lo, len, lo - 1, b, h)
    ensures [Value(s, lo, b)] + h == Groups(s, lo, len)
  {
  }

  /** Stores the groups after the `::` at `i` in the last words. */
  method Backward(str: array<Byte>, ip: array<Word16>, len: nat, i: nat)
    requires len < str.Length && NoNul(str[..], 0, len) && str[len] == 0
    requires i + 1 < len && str[i + 1] == COLON
    requires ip.Length == 8 && |Groups(str[..], i + 2, len)| < 8
    modifies str, ip
    ensures str[..] == old(str[..])
    ensures Back(ip[..], old(ip[..]), Groups(str[..], i + 2, len))
  {
    hide Groups, Value, Swap, Back;
    ghost var s, was := str[..], ip[..];
    ghost var h: seq<Word16> := [];
    var a, b, j, p := len, len, len, 7;
    assert Back(was, was, []) by { BackNothing(was); }
    assert Returning(s, i + 2, len, len, len, h);
    while j > i
      invariant str[..] == s && i <= j == a <= b <= len && (j < b || j == len) && p == 7 - |h| &&
                |h| <= |Groups(s, i + 2, len)|
      invariant Back(ip[..], was, h)
      invariant i < j ==> Returning(s, i + 2, len, j, b, h)
      invariant i == j ==> h == Groups(s, i + 2, len)
    {
      if str[a] == COLON {
        assert a < b;
        var t := str[b];
        StoreBack(str, ip, a + 1, b, t, p, was, h);
        if j == i + 1 {
          ReturnEnd(s, i + 2, len, b, h);
        } else {
          ReturnStep(s, i + 2, len, j, b, h);
        }
        h := [Value(s, a + 1, b)] + h;
        p := p - 1;
        b := a;
      }
      j, a := j - 1, a - 1;
    }
  }

  lemma BackNothing(was: seq<Word16>)
    requires |was| == 8
    ensures Back(was, was, [])
  {
  }

  function SwapAll(w: seq<Word16>): (r: seq<Word16>)
    ensures |r| == |w| && forall k :: 0 <= k < |w| ==> r[k] == Swap(w[k])
  {
    seq(|w|, k requires 0 <= k < |w| => Swap(w[k]))
  }

  lemma {:induction false} FrontIs(ip: seq<Word16>, g: seq<Word16>)
    requires Front(ip, g)
    ensures ip == SwapAll(Filled(g, []))
  {
    assert Swap(0) == 0;
  }

  lemma {:induction false} BothAre(ip: seq<Word16>, was: seq<Word16>, g: seq<Word16>, h: seq<Word16>)
    requires Front(was, g) && Back(ip, was, h) && |g| + |h| <= 8
    ensures ip == SwapAll(Filled(g, h))
  {
    assert Swap(0) == 0;
    var f := Filled(g, h);
    forall k | 0 <= k < 8 ensures ip[k] == Swap(f[k]) {
      if 8 - |h| <= k {
        assert f[k] == h[k - (8 - |h|)];
      }
    }
  }

  lemma {:induction false} AllZero(ip: seq<Word16>)
    requires |ip| == 8 && forall k :: 0 <= k < 8 ==> ip[k] == 0
    ensures Front(ip, []) && ip == SwapAll(Zeros(8))
  {
    assert Swap(0) == 0;
  }

  /** An address is sixteen bytes, high byte first. */
  function NetworkBytes(w: seq<Word16>): (b: seq<Byte>)
    ensures |b| == 2 * |w|
  {
    if w == [] then [] else [w[0] / 0x100, w[0] % 0x100] + NetworkBytes(w[1..])
  }

  lemma {:induction false} SwappedIsNetworkOrder(w: seq<Word16>)
    ensures Le16s(SwapAll(w)) == NetworkBytes(w)
  {
    if w != [] {
      assert SwapAll(w)[1..] == SwapAll(w[1..]);
      SwappedIsNetworkOrder(w[1..]);
    }
  }

  /** `str2ip6` leaves its text as it was and fills `ip` with the words the text
      stands for, in network order. */
  method Str2Ip6(str: array<Byte>, ip: array<Word16>, len: nat)
    requires len < str.Length && NoNul(str[..], 0, len) && str[len] == 0 && ip.Length == 8
    requires Colons(str[..], 0, len) <= 7 ==> Ends(str[..], len)
    modifies str, ip
    ensures str[..] == old(str[..])
    ensures ip[..] == SwapAll(Words(str[..], len))
    ensures Le16s(ip[..]) == NetworkBytes(Words(str[..], len))
  {
    hide Groups, Value, Swap, Front, Back, Legal, OneDouble, Filled, Le16s, NetworkBytes;
    ghost var s := str[..];
    assert Colons(s, 0, len) <= 7 ==> Ends(s, len);
    forall k | 0 <= k < 8 {
      ip[k] := 0;
    }
    assert str[..] == s;
    SwappedIsNetworkOrder(Words(s, len));
    assert Front(ip[..], []) && ip[..] == SwapAll(Zeros(8)) by { AllZero(ip[..]); }
    var n := CountColons(str, len);
    if n > 7 {
      return;
    }
    var ok;
    if len < 0x100 {
      ok := CheckText(str, len);
    } else {
      ok := CheckLong(str, len);
    }
    if !ok {
      return;
    }
    Room(s, len);
    var i := Forward(str, ip, len);
    ghost var was := ip[..];
    if i == len {
      FrontIs(was, Groups(s, 0, i));
    } else {
      Backward(str, ip, len, i);
      BothAre(ip[..], was, Groups(s, 0, i), Groups(s, i + 2, len));
    }
  }

  // ----- written addresses

  /** A group as written: one to four hexadecimal digits, in either case. */
  predicate IsGroup(d: seq<Byte>)
  {
    1 <= |d| <= 4 && forall k :: 0 <= k < |d| ==> IsHex(d[k])
  }

  predicate AreGroups(gs: seq<seq<Byte>>)
  {
    forall i :: 0 <= i < |gs| ==> IsGroup(gs[i])
  }

  /** The number a string of digits denotes. */
  function Number(d: seq<Byte>): (n: nat)
  {
    if d == [] then 0 else Number(d[..|d| - 1]) * 16 + HexDigit(d[|d| - 1])
  }

  function Power16(n: nat): (r: nat)
  {
    if n == 0 then 1 else 16 * Power16(n - 1)
  }

  lemma {:induction false} NumberFits(d: seq<Byte>)
    ensures Number(d) < Power16(|d|)
  {
    if d != [] {
      NumberFits(d[..|d| - 1]);
    }
  }

  lemma {:induction false} ValueIsNumber(s: seq<Byte>, lo: nat, hi: nat)
    requires lo <= hi <= |s|
    ensures Value(s, lo, hi) == Number(s[lo..hi]) % U16
    decreases hi
  {
    if lo < hi {
      ValueIsNumber(s, lo, hi - 1);
      assert s[lo..hi][..hi - lo - 1] == s[lo..hi - 1];
      Carry(Number(s[lo..hi - 1]), HexDigit(s[hi - 1]));
    }
  }

  lemma {:induction false} Carry(a: nat, b: nat)
    ensures ((a % U16) * 16 + b) % U16 == (a * 16 + b) % U16
  {
    var q := a / U16;
    assert a * 16 + b == (a % U16) * 16 + b + U16 * (16 * q);
  }

  function Numbers(gs: seq<seq<Byte>>): (w: seq<Word16>)
    ensures |w| == |gs|
  {
    if gs == [] then [] else [Number(gs[0]) % U16] + Numbers(gs[1..])
  }

  lemma {:induction false} NumbersExact(gs: seq<seq<Byte>>, i: nat)
    requires AreGroups(gs) && i < |gs|
    ensures Numbers(gs)[i] == Number(gs[i])
  {
    assert IsGroup(gs[0]);
    if i == 0 {
      NumberFits(gs[0]);
      assert Power16(1) == 16 && Power16(2) == 0x100 && Power16(3) == 0x1000 && Power16(4) == U16;
    } else {
      NumbersExact(gs[1..], i - 1);
    }
  }

  function Join(gs: seq<seq<Byte>>): (t: seq<Byte>)
  {
    if gs == [] then [] else if |gs| == 1 then gs[0] else gs[0] + ([COLON] + Join(gs[1..]))
  }

  lemma {:induction false} JoinLength(gs: seq<seq<Byte>>)
    requires AreGroups(gs)
    ensures |Join(gs)| <= if gs == [] then 0 else 5 * |gs| - 1
  {
    if gs != [] {
      assert IsGroup(gs[0]);
      JoinLength(gs[1..]);
    }
  }

  /** Text of digits and single colons that neither starts nor ends with a colon. */
  predicate Tidy(s: seq<Byte>, lo: nat, hi: nat)
    requires hi <= |s|
  {
    && lo < hi && s[lo] != COLON && s[hi - 1] != COLON
    && (forall k :: lo <= k < hi ==> s[k] == COLON || IsHex(s[k]))
    && (forall k :: lo < k < hi ==> !(s[k - 1] == COLON && s[k] == COLON))
  }

  lemma {:induction false} FirstTidy(s: seq<Byte>, lo: nat, hi: nat, g: seq<Byte>)
    requires lo + |g| <= hi <= |s| && IsGroup(g) && s[lo..lo + |g|] == g
    requires lo + |g| == hi || s[lo + |g|] == COLON
    ensures Tidy(s, lo, lo + |g|) && ColonFrom(s, lo, hi) == lo + |g|
    ensures Value(s, lo, lo + |g|) == Number(g) % U16
  {
    forall k | lo <= k < lo + |g| ensures IsHex(s[k]) {
      assert s[k] == g[k - lo];
    }
    ValueIsNumber(s, lo, lo + |g|);
  }

  lemma TidyJoins(s: seq<Byte>, lo: nat, c: nat, hi: nat)
    requires hi <= |s| && c < hi && Tidy(s, lo, c) && s[c] == COLON && Tidy(s, c + 1, hi)
    ensures Tidy(s, lo, hi)
  {
  }

  lemma {:induction false} Cut(s: seq<Byte>, lo: nat, hi: nat, g: seq<Byte>, rest: seq<Byte>)
    requires lo <= hi <= |s| && s[lo..hi] == g + ([COLON] + rest)
    ensures lo + |g| < hi && s[lo..lo + |g|] == g
    ensures s[lo + |g|] == COLON && s[lo + |g| + 1..hi] == rest
  {
    var t := s[lo..hi];
    assert t[|g|] == COLON;
    assert s[lo..lo + |g|] == t[..|g|];
    assert s[lo + |g| + 1..hi] == t[|g| + 1..];
  }

  /** Joined groups are read back one by one. */
  lemma {:induction false} JoinedGroups(s: seq<Byte>, lo: nat, hi: nat, gs: seq<seq<Byte>>)
    requires lo <= hi <= |s| && s[lo..hi] == Join(gs) && gs != [] && AreGroups(gs)
    ensures Tidy(s, lo, hi) && Groups(s, lo, hi) == Numbers(gs)
    decreases |gs|
  {
    hide Tidy, Value, Number, ColonFrom, IsGroup, Colons;
    var g := gs[0];
    assert IsGroup(g);
    if |gs| == 1 {
      FirstTidy(s, lo, hi, g);
      assert Numbers(gs) == [Number(g) % U16];
    } else {
      var c := lo + |g|;
      Cut(s, lo, hi, g, Join(gs[1..]));
      FirstTidy(s, lo, hi, g);
      JoinedGroups(s, c + 1, hi, gs[1..]);
      TidyJoins(s, lo, c, hi);
    }
  }

  /** Every address written in full is read as its eight groups. */
  lemma {:induction false} FullFormReads(s: seq<Byte>, len: nat, gs: seq<seq<Byte>>)
    requires len <= |s| && s[..len] == Join(gs) && |gs| == 8 && AreGroups(gs)
    ensures len <= 39 && Words(s, len) == Numbers(gs)
  {
    hide Groups, Colons, Join, Numbers;
    assert s[0..len] == Join(gs);
    JoinedGroups(s, 0, len, gs);
    JoinLength(gs);
    GroupCount(s, 0, len);
    assert Filled(Numbers(gs), []) == Numbers(gs);
  }

  /** Groups on one side of a `::`; an absent side reads as one zero. */
  lemma {:induction false} SideReads(s: seq<Byte>, lo: nat, hi: nat, gs: seq<seq<Byte>>)
    requires lo <= hi <= |s| && s[lo..hi] == Join(gs) && AreGroups(gs)
    ensures Groups(s, lo, hi) == if gs == [] then [0] else Numbers(gs)
    ensures Colons(s, lo, hi) == if gs == [] then 0 else |gs| - 1
    ensures lo == hi || Tidy(s, lo, hi)
  {
    if gs != [] {
      JoinedGroups(s, lo, hi, gs);
      GroupCount(s, lo, hi);
    }
  }

  lemma ZeroSides(g: seq<Word16>, h: seq<Word16>)
    requires |g| + |h| <= 7
    ensures g == [] ==> Filled([0], h) == Filled(g, h)
    ensures h == [] ==> Filled(g, [0]) == Filled(g, h)
    ensures g == [] && h == [] ==> Filled([0], [0]) == Filled(g, h)
  {
  }

  lemma {:induction false} OnlyDouble(s: seq<Byte>, len: nat, d: nat)
    requires d + 2 <= len <= |s| && s[d] == COLON && s[d + 1] == COLON
    requires d == 0 || Tidy(s, 0, d)
    requires d + 2 == len || Tidy(s, d + 2, len)
    ensures DoubleFrom(s, 0, len) == d && Legal(s, len) && OneDouble(s, len)
  {
    assert DoubleAt(s, len, d);
    forall i | 0 <= i < len && i != d ensures !DoubleAt(s, len, i) {
      assert i + 1 < d ==> !(s[i + 1 - 1] == COLON && s[i + 1] == COLON);
      assert d + 2 <= i && i + 1 < len ==> !(s[i + 1 - 1] == COLON && s[i + 1] == COLON);
    }
  }

  lemma {:induction false} DoubleColons(s: seq<Byte>, d: nat, len: nat)
    requires d + 2 <= len <= |s| && s[d] == COLON && s[d + 1] == COLON
    ensures Colons(s, 0, len) == Colons(s, 0, d) + 2 + Colons(s, d + 2, len)
  {
    ColonsFrom(s, 0, d, len);
    ColonsFrom(s, d, d + 2, len);
    assert Colons(s, d, d + 1) == 1;
  }

  /** Every address with a run of zero groups written as `::` is read as its
      eight groups, if and only if the `::` does not stand for a single group at
      either end; such a text has eight colons and reads as all zeros. */
  lemma {:induction false} CompressedFormReads(s: seq<Byte>, len: nat, left: seq<seq<Byte>>, right: seq<seq<Byte>>)
    requires len <= |s| && s[..len] == Join(left) + [COLON, COLON] + Join(right)
    requires AreGroups(left) && AreGroups(right) && |left| + |right| <= 7
    ensures len <= 39
    ensures Words(s, len) == if |left| + |right| == 7 && (left == [] || right == []) then Zeros(8)
                             else Filled(Numbers(left), Numbers(right))
  {
    hide Groups, Colons, Join, Tidy, Legal, OneDouble, Zeros, AreGroups, DoubleFrom, Filled, Numbers;
    var d := |Join(left)|;
    SideReads(s, 0, d, left);
    SideReads(s, d + 2, len, right);
    OnlyDouble(s, len, d);
    DoubleColons(s, d, len);
    JoinLength(left);
    JoinLength(right);
    ZeroSides(Numbers(left), Numbers(right));
    assert (left == [] ==> Numbers(left) == []) && (right == [] ==> Numbers(right) == []);
  }

  /** Seven groups of one and a final `::`, an address of section 2.2 of RFC 4291
      that is read as all zeros. */
  lemma {:induction false} SingleGroupLost(s: seq<Byte>, len: nat)
    requires len <= |s| && s[..len] == Join([[49], [49], [49], [49], [49], [49], [49]]) + [COLON, COLON] + Join([])
    ensures Words(s, len) != Filled(Numbers([[49], [49], [49], [49], [49], [49], [49]]), Numbers([]))
  {
    var left: seq<seq<Byte>> := [[49], [49], [49], [49], [49], [49], [49]];
    assert AreGroups(left) by {
      assert forall i :: 0 <= i < |left| ==> left[i] == [49];
    }
    hide Join, Words;
    CompressedFormReads(s, len, left, []);
    NumbersExact(left, 0);
    assert Filled(Numbers(left), Numbers([]))[0] == 1;
  }

  // ----- hexadecimal notation, and what is rejected

  /** The sixteen digits, with small or with capital letters. */
  const SMALL: seq<Byte> := [48, 49, 50, 51, 52, 53, 54, 55, 56, 57, 97, 98, 99, 100, 101, 102]
  const CAPITAL: seq<Byte> := [48, 49, 50, 51, 52, 53, 54, 55, 56, 57, 65, 66, 67, 68, 69, 70]

  function Written(n: nat, digits: seq<Byte>): (d: seq<Byte>)
    requires |digits| == 16
  {
    if n < 16 then [digits[n]] else Written(n / 16, digits) + [digits[n % 16]]
  }

  predicate AreDigits(digits: seq<Byte>)
  {
    |digits| == 16 && forall v :: 0 <= v < 16 ==> IsHex(digits[v]) && HexDigit(digits[v]) == v
  }

  lemma DigitTables()
    ensures AreDigits(SMALL) && AreDigits(CAPITAL)
  {
  }

  lemma {:induction false} WrittenSize(n: nat, digits: seq<Byte>)
    requires |digits| == 16 && n < U16
    ensures 1 <= |Written(n, digits)| <= if n < 16 then 1 else if n < 0x100 then 2 else if n < 0x1000 then 3 else 4
  {
    if 16 <= n {
      WrittenSize(n / 16, digits);
    }
  }

  lemma NumberAppend(d: seq<Byte>, c: Byte)
    ensures Number(d + [c]) == Number(d) * 16 + HexDigit(c) && Number([]) == 0
  {
    assert (d + [c])[..|d|] == d;
  }

  lemma {:induction false} WrittenNumber(n: nat, digits: seq<Byte>)
    requires AreDigits(digits)
    ensures Number(Written(n, digits)) == n
    ensures forall k :: 0 <= k < |Written(n, digits)| ==> IsHex(Written(n, digits)[k])
  {
    hide IsHex, HexDigit, Number;
    if n < 16 {
      NumberAppend([], digits[n]);
      assert [] + [digits[n]] == Written(n, digits);
    } else {
      WrittenNumber(n / 16, digits);
      NumberAppend(Written(n / 16, digits), digits[n % 16]);
    }
  }

  /** A 16-bit number in hexadecimal notation, with small or with capital letters, is a group that is read as
      the number. */
  lemma {:induction false} WrittenRead(n: Word16, digits: seq<Byte>)
    requires digits == SMALL || digits == CAPITAL
    ensures |digits| == 16 && IsGroup(Written(n, digits)) && Number(Written(n, digits)) == n
  {
    DigitTables();
    hide IsHex, HexDigit, SMALL, CAPITAL, Number, Written;
    WrittenNumber(n, digits);
    WrittenSize(n, digits);
  }

  /** More than seven colons, a second double colon, or any byte but colons and hexadecimal digits: the text
      is read as all zeros. */
  lemma {:induction false} Rejected(s: seq<Byte>, len: nat, i: nat, j: nat)
    requires len <= |s| && i < len && j + 1 < len
    requires || 7 < Colons(s, 0, len)
             || (s[i] < 48 || 58 < s[i] < 65 || 70 < s[i] < 97 || 102 < s[i])
             || (i < j && s[i] == 58 && s[i + 1] == 58 && s[j] == 58 && s[j + 1] == 58)
    ensures Words(s, len) == Zeros(8)
  {
    hide Groups, DoubleFrom, Colons;
    if i < j && s[i] == 58 && s[i + 1] == 58 && s[j] == 58 && s[j + 1] == 58 {
      assert DoubleAt(s, len, i) && DoubleAt(s, len, j);
    }
  }
}
