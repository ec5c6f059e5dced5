/** Key setup of bcrypt (crypt_blowfish.c): the cyclic key words, the emulated
    sign-extension bug, and the branch-free safety measure against collisions. */
module Blowfish {
  import Bytes

  const WORDS := 18

  /** A password: a C string without its NUL. */
  predicate IsKey(key: seq<bv8>)
  {
    forall i :: 0 <= i < |key| ==> key[i] != 0
  }

  // ----- words of the key

  /** Character `t` of the key and its NUL, repeated without end. */
  function Cycle(key: seq<bv8>, t: nat): (c: bv8) { KeyByte(key, Position(key, t)) }

  function Position(key: seq<bv8>, t: nat): (p: nat) { t % (|key| + 1) }

  /** A character of the key, or its NUL. */
  function KeyByte(key: seq<bv8>, p: nat): (c: bv8) { if p < |key| then key[p] else 0 }

  predicate Top(c: bv8) { c & 0x80 != 0 }

  function Plain(c: bv8): (w: bv32) { c as bv32 }

  function SignExtended(c: bv8): (w: bv32)
  {
    if Top(c) then 0xffff_ff00 | (c as bv32) else c as bv32
  }

  /** One more character in the low byte of a word. */
  function Push(w: bv32, c: bv32): (r: bv32) { (w << 8) | c }

  /** `n` characters from `t` on, shifted into a word; sign extension as the bug would have it. */
  function Shifted(key: seq<bv8>, t: nat, n: nat, bug: bool): (w: bv32)
  {
    if n == 0 then 0
    else
      var c := Cycle(key, t + n - 1);
      Push(Shifted(key, t, n - 1, bug), if bug then SignExtended(c) else Plain(c))
  }

  function KeyWord(key: seq<bv8>, i: nat, bug: bool): (w: bv32) { Shifted(key, 4 * i, 4, bug) }

  // ----- when the safety measure acts

  /** Among the first `n` characters one that is not the first of its block has its top bit set. */
  predicate TopSeen(key: seq<bv8>, n: nat)
  {
    n > 0 && (TopSeen(key, n - 1) || ((n - 1) % 4 != 0 && Top(Cycle(key, n - 1))))
  }

  predicate SameWords(key: seq<bv8>, n: nat)
  {
    forall i :: 0 <= i < n ==> KeyWord(key, i, false) == KeyWord(key, i, true)
  }

  predicate Deviates(key: seq<bv8>, safety: bool)
  {
    safety && TopSeen(key, 4 * WORDS) && SameWords(key, WORDS)
  }

  // ----- bit tricks

  function Flag(b: bool): (w: bv32) { if b then 0x80 else 0 }

  function Safety(b: bool): (w: bv32) { if b then 0x1_0000 else 0 }

  lemma SignStep(w: bv32, c: bv8)
    ensures Push(w, SignExtended(c)) & 0x80 == Flag(Top(c))
  {
  }

  lemma FlagOr(a: bool, b: bool)
    ensures Flag(a) | Flag(b) == Flag(a || b)
  {
  }

  /** The masks fold "no difference anywhere" into bit 16 and meet the two flags there. */
  lemma MaskIs(sign: bool, diff: bv32, safety: bool)
    ensures var d := ((diff | (diff >> 16)) & 0xffff) + 0xffff;
            (Flag(sign) << 9) & (!d & Safety(safety)) == if sign && diff == 0 && safety then 0x1_0000 else 0
  {
  }

  lemma SafetyBit(flags: bv8)
    ensures ((flags as bv32) & 2) << 15 == Safety(flags & 2 != 0)
  {
  }

  // ----- BF_set_key

  lemma {:induction false} PositionStep(key: seq<bv8>, t: nat)
    requires IsKey(key)
    ensures Position(key, t) <= |key|
    ensures KeyByte(key, Position(key, t)) == 0 <==> Position(key, t) == |key|
    ensures Position(key, t + 1) == if KeyByte(key, Position(key, t)) == 0 then 0 else Position(key, t) + 1
  {
    NextRemainder(t, |key| + 1);
  }

  lemma {:induction false} NextRemainder(t: nat, n: nat)
    requires 0 < n
    ensures (t + 1) % n == if t % n == n - 1 then 0 else t % n + 1
  {
    var q, r := t / n, t % n;
    assert t == q * n + r;
    if r == n - 1 {
      assert t + 1 == (q + 1) * n + 0;
      Remainder(t + 1, n, q + 1, 0);
    } else {
      Remainder(t + 1, n, q, r + 1);
    }
  }

  lemma {:induction false} Remainder(a: nat, n: nat, q: nat, r: nat)
    requires 0 < n && r < n && a == q * n + r
    ensures a % n == r
  {
    Bytes.Quotient(a, n, q, r);
    assert a == (a / n) * n + a % n;
  }

  /** Shifts one character into a correct and a buggy word. */
  method NextCharacter(key: seq<bv8>, ptr: nat, sign: bv32, good: bv32, bad: bv32, ghost t: nat, j: nat)
    returns (ptr': nat, sign': bv32, good': bv32, bad': bv32)
    requires IsKey(key) && ptr == Position(key, t + j) && sign == Flag(TopSeen(key, t + j)) && t % 4 == 0 && j < 4
    requires good == Shifted(key, t, j, false) && bad == Shifted(key, t, j, true)
    ensures ptr' == Position(key, t + j + 1) && sign' == Flag(TopSeen(key, t + j + 1))
    ensures good' == Shifted(key, t, j + 1, false) && bad' == Shifted(key, t, j + 1, true)
  {
    hide Position, KeyByte, SignExtended, Plain, Top, Flag, Push;
    PositionStep(key, t + j);
    var c := KeyByte(key, ptr);
    good' := Push(good, Plain(c));
    bad' := Push(bad, SignExtended(c));
    sign' := sign;
    assert (t + j) % 4 == j;
    if j != 0 {
      SignStep(bad, c);
      FlagOr(TopSeen(key, t + j), Top(c));
      sign' := sign | (bad' & 0x80);
    }
    ptr' := if c == 0 then 0 else ptr + 1;
  }

  /** Shifts the next four characters into a correct and a buggy word. */
  method NextWord(key: seq<bv8>, ptr: nat, sign: bv32, ghost i: nat)
    returns (ptr': nat, sign': bv32, good: bv32, bad: bv32)
    requires IsKey(key) && ptr == Position(key, 4 * i) && sign == Flag(TopSeen(key, 4 * i))
    ensures ptr' == Position(key, 4 * (i + 1)) && sign' == Flag(TopSeen(key, 4 * (i + 1)))
    ensures good == KeyWord(key, i, false) && bad == KeyWord(key, i, true)
  {
    hide Position, TopSeen, Flag;
    ptr', sign', good, bad := ptr, sign, 0, 0;
    ghost var t := 4 * i;
    for j := 0 to 4
      invariant ptr' == Position(key, t + j) && sign' == Flag(TopSeen(key, t + j))
      invariant good == Shifted(key, t, j, false) && bad == Shifted(key, t, j, true)
    {
      ptr', sign', good, bad := NextCharacter(key, ptr', sign', good, bad, t, j);
    }
  }

  /** Exclusive or. */
  function Mixed(a: bv32, b: bv32): (r: bv32) { a ^ b }

  /** The loop over the words: both keys, and what was seen on the way. */
  method FillKeys(key: seq<bv8>, init: seq<bv32>, bug: bool, expanded: array<bv32>, initial: array<bv32>)
    returns (sign: bv32, diff: bv32)
    requires IsKey(key) && |init| == expanded.Length == initial.Length == WORDS && expanded != initial
    modifies expanded, initial
    ensures forall i :: 0 <= i < WORDS ==> expanded[i] == KeyWord(key, i, bug)
    ensures forall i :: 0 <= i < WORDS ==> initial[i] == Mixed(init[i], expanded[i])
    ensures sign == Flag(TopSeen(key, 4 * WORDS)) && (diff == 0 <==> SameWords(key, WORDS))
  {
    hide KeyWord, TopSeen, Position, Flag, Mixed, SameWords;
    var ptr := 0;
    sign, diff := 0, 0;
    NothingSeen(key);
    for i := 0 to WORDS
      invariant ptr == Position(key, 4 * i) && sign == Flag(TopSeen(key, 4 * i))
      invariant diff == 0 <==> SameWords(key, i)
      invariant forall k :: 0 <= k < i ==>
                  expanded[k] == KeyWord(key, k, bug) && initial[k] == Mixed(init[k], expanded[k])
    {
      var good, bad;
      ptr, sign, good, bad := NextWord(key, ptr, sign, i);
      SameStep(key, i);
      diff := AddDifference(diff, good, bad);
      expanded[i] := if bug then bad else good;
      initial[i] := Mixed(init[i], if bug then bad else good);
    }
  }

  method AddDifference(diff: bv32, a: bv32, b: bv32) returns (r: bv32)
    ensures r == 0 <==> diff == 0 && a == b
  {
    r := diff | (a ^ b);
  }

  /** The bit to flip, computed without a branch on the key. */
  method Action(sign: bv32, diff: bv32, flags: bv8, ghost seen: bool) returns (r: bv32)
    requires sign == Flag(seen)
    ensures r == if seen && diff == 0 && flags & 2 != 0 then 0x1_0000 else 0
  {
    hide Flag, Safety;
    var safety: bv32 := ((flags as bv32) & 2) << 15;
    SafetyBit(flags);
    MaskIs(seen, diff, flags & 2 != 0);
    var d := diff;
    d := d | (d >> 16);
    d := d & 0xffff;
    d := d + 0xffff;
    r := sign << 9;
    r := r & (!d & safety);
  }

  /** Fills both keys; bit 16 of the first initial word is flipped exactly when
      the safety measure is asked for, some character could have been sign
      extended, and that would have made no difference. */
  method SetKey(key: seq<bv8>, init: seq<bv32>, flags: bv8, expanded: array<bv32>, initial: array<bv32>)
    requires IsKey(key) && |init| == expanded.Length == initial.Length == WORDS && expanded != initial
    modifies expanded, initial
    ensures forall i :: 0 <= i < WORDS ==> expanded[i] == KeyWord(key, i, flags & 1 != 0)
    ensures forall i :: 1 <= i < WORDS ==> initial[i] == Mixed(init[i], expanded[i])
    ensures initial[0] ==
              Mixed(Mixed(init[0], expanded[0]), if Deviates(key, flags & 2 != 0) then 0x1_0000 else 0)
  {
    hide KeyWord, TopSeen, Flag, Mixed, SameWords;
    var sign, diff := FillKeys(key, init, flags & 1 != 0, expanded, initial);
    var r := Action(sign, diff, flags, TopSeen(key, 4 * WORDS));
    initial[0] := Mixed(initial[0], r);
  }

  lemma NothingSeen(key: seq<bv8>)
    ensures 0 == Flag(TopSeen(key, 0)) && Position(key, 0) == 0 && SameWords(key, 0)
  {
  }

  lemma {:induction false} SameStep(key: seq<bv8>, i: nat)
    ensures SameWords(key, i + 1) <==> SameWords(key, i) && KeyWord(key, i, false) == KeyWord(key, i, true)
  {
    hide KeyWord;
  }

  // ----- which passwords are affected

  /** Sign extension is harmless in a block exactly when every character before a
      high one is already 0xff. */
  predicate Harmless(a: bv8, b: bv8, c: bv8, d: bv8)
  {
    && (Top(b) ==> a == 0xff)
    && (Top(c) ==> a == 0xff && b == 0xff)
    && (Top(d) ==> a == 0xff && b == 0xff && c == 0xff)
  }

  function Pack(a: bv32, b: bv32, c: bv32, d: bv32): (w: bv32)
  {
    Push(Push(Push(Push(0, a), b), c), d)
  }

  lemma {:induction false} PackIs(key: seq<bv8>, i: nat)
    ensures var a, b, c, d := Cycle(key, 4 * i), Cycle(key, 4 * i + 1), Cycle(key, 4 * i + 2), Cycle(key, 4 * i + 3);
            && KeyWord(key, i, false) == Pack(Plain(a), Plain(b), Plain(c), Plain(d))
            && KeyWord(key, i, true) == Pack(SignExtended(a), SignExtended(b), SignExtended(c), SignExtended(d))
  {
    hide Cycle, SignExtended, Plain, Push;
    var t := 4 * i;
    ShiftedTwo(key, t, false);
    ShiftedTwo(key, t, true);
    assert Shifted(key, t, 3, false) == Push(Shifted(key, t, 2, false), Plain(Cycle(key, t + 2)));
    assert Shifted(key, t, 3, true) == Push(Shifted(key, t, 2, true), SignExtended(Cycle(key, t + 2)));
  }

  lemma {:induction false} ShiftedTwo(key: seq<bv8>, t: nat, bug: bool)
    ensures var a, b := Cycle(key, t), Cycle(key, t + 1);
            Shifted(key, t, 2, bug) == if bug then Push(Push(0, SignExtended(a)), SignExtended(b))
                                       else Push(Push(0, Plain(a)), Plain(b))
  {
    hide Cycle, SignExtended, Plain, Push;
    assert Shifted(key, t, 1, bug) ==
             Push(Shifted(key, t, 0, bug), if bug then SignExtended(Cycle(key, t)) else Plain(Cycle(key, t)));
  }

  /** Equal under a mask. */
  predicate Alike(v: bv32, w: bv32, mask: bv32) { v & mask == w & mask }

  predicate Ones(v: bv32, mask: bv32) { v & mask == mask }

  function High(c: bv32): (w: bv32) { 0xffff_ff00 | c }

  predicate IsByte(c: bv32) { c & 0xff == c }

  lemma LowByte(c: bv8)
    ensures IsByte(Plain(c)) && (Plain(c) == 0xff <==> c == 0xff)
    ensures SignExtended(c) == if Top(c) then High(Plain(c)) else Plain(c)
  {
  }

  lemma FirstAlike(a: bv8)
    ensures Alike(Push(0, Plain(a)), Push(0, SignExtended(a)), 0xff)
    ensures Ones(Push(0, Plain(a)), 0xff) <==> a == 0xff
  {
  }

  lemma PushHigh(v: bv32, w: bv32, c: bv32)
    requires IsByte(c)
    ensures Alike(Push(v, c), Push(w, High(c)), 0xffff) <==> Ones(v, 0xff)
    ensures Alike(Push(v, c), Push(w, High(c)), 0xff_ffff) <==> Ones(v, 0xffff)
  {
  }

  lemma PushHighLast(v: bv32, w: bv32, c: bv32)
    requires IsByte(c)
    ensures Push(v, c) == Push(w, High(c)) <==> Ones(v, 0xff_ffff)
  {
  }

  lemma PushSecond(v: bv32, w: bv32, c: bv32)
    requires IsByte(c)
    ensures Alike(Push(v, c), Push(w, c), 0xffff) ==> Alike(v, w, 0xff)
    ensures Alike(v, w, 0xff) ==> Alike(Push(v, c), Push(w, c), 0xffff)
  {
  }

  lemma PushThird(v: bv32, w: bv32, c: bv32)
    requires IsByte(c)
    ensures Alike(Push(v, c), Push(w, c), 0xff_ffff) ==> Alike(v, w, 0xffff)
    ensures Alike(v, w, 0xffff) ==> Alike(Push(v, c), Push(w, c), 0xff_ffff)
  {
  }

  lemma PushLast(v: bv32, w: bv32, c: bv32)
    requires IsByte(c)
    ensures Push(v, c) == Push(w, c) ==> Alike(v, w, 0xff_ffff)
    ensures Alike(v, w, 0xff_ffff) ==> Push(v, c) == Push(w, c)
  {
  }

  lemma PushOnes(v: bv32, c: bv32)
    requires IsByte(c)
    ensures Ones(Push(v, c), 0xffff) <==> Ones(v, 0xff) && c == 0xff
    ensures Ones(Push(v, c), 0xff_ffff) <==> Ones(v, 0xffff) && c == 0xff
  {
  }

  /** One more character: the words stay alike, or become so, as far as they reach. */
  lemma {:induction false} NextAlike(v: bv32, w: bv32, c: bv8)
    ensures var v', w' := Push(v, Plain(c)), Push(w, SignExtended(c));
            && (Alike(v', w', 0xffff) <==> if Top(c) then Ones(v, 0xff) else Alike(v, w, 0xff))
            && (Alike(v', w', 0xff_ffff) <==> if Top(c) then Ones(v, 0xffff) else Alike(v, w, 0xffff))
            && (v' == w' <==> if Top(c) then Ones(v, 0xff_ffff) else Alike(v, w, 0xff_ffff))
            && (Ones(v', 0xffff) <==> Ones(v, 0xff) && c == 0xff)
            && (Ones(v', 0xff_ffff) <==> Ones(v, 0xffff) && c == 0xff)
  {
    hide Alike, Ones, Push, Plain, SignExtended, Top, High, IsByte;
    LowByte(c);
    PushOnes(v, Plain(c));
    if Top(c) {
      PushHigh(v, w, Plain(c));
      PushHighLast(v, w, Plain(c));
    } else {
      PushSecond(v, w, Plain(c));
      PushThird(v, w, Plain(c));
      PushLast(v, w, Plain(c));
    }
  }

  predicate Agree(a: bv8, b: bv8, c: bv8, d: bv8)
  {
    Pack(Plain(a), Plain(b), Plain(c), Plain(d)) ==
      Pack(SignExtended(a), SignExtended(b), SignExtended(c), SignExtended(d))
  }

  lemma {:induction false} AgreeIff(a: bv8, b: bv8, c: bv8, d: bv8)
    ensures Agree(a, b, c, d) <==> Harmless(a, b, c, d)
  {
    hide Alike, Ones, Push, Plain, SignExtended, Top;
    FirstAlike(a);
    var v, w := Push(0, Plain(a)), Push(0, SignExtended(a));
    NextAlike(v, w, b);
    v, w := Push(v, Plain(b)), Push(w, SignExtended(b));
    NextAlike(v, w, c);
    v, w := Push(v, Plain(c)), Push(w, SignExtended(c));
    NextAlike(v, w, d);
  }

  /** The correct and the buggy word agree exactly for harmless blocks. */
  lemma {:induction false} WordsAgreeIff(key: seq<bv8>, i: nat)
    ensures KeyWord(key, i, false) == KeyWord(key, i, true) <==>
            Harmless(Cycle(key, 4 * i), Cycle(key, 4 * i + 1), Cycle(key, 4 * i + 2), Cycle(key, 4 * i + 3))
  {
    hide Cycle, KeyWord, Pack, Harmless, Plain, SignExtended;
    PackIs(key, i);
    AgreeIff(Cycle(key, 4 * i), Cycle(key, 4 * i + 1), Cycle(key, 4 * i + 2), Cycle(key, 4 * i + 3));
  }

  /** The safety measure touches only passwords in which some block has a high
      character after an 0xff that fills it from the left. */
  lemma {:induction false} DeviationNeedsFf(key: seq<bv8>, n: nat)
    requires TopSeen(key, n) && n <= 4 * WORDS && SameWords(key, WORDS)
    ensures 0xff in key
  {
    var t := n - 1;
    if t % 4 != 0 && Top(Cycle(key, t)) {
      var i := t / 4;
      WordsAgreeIff(key, i);
      assert KeyWord(key, i, false) == KeyWord(key, i, true);
      hide KeyWord, Position, Top;
      assert 4 * i + t % 4 == t;
      assert Cycle(key, 4 * i) == 0xff;
      assert KeyByte(key, Position(key, 4 * i)) in key;
    } else {
      DeviationNeedsFf(key, n - 1);
    }
  }

  /** The safety measure acts if and only if it is asked for, a character other than the first of its block has its
      top bit set, and every word is the same with and without sign extension. */
  lemma {:induction false} DeviatesIff(key: seq<bv8>, safety: bool)
    ensures Deviates(key, safety) <==>
              && safety && (exists t :: 0 <= t < 72 && t % 4 != 0 && Cycle(key, t) & 0x80 != 0)
              && forall i :: 0 <= i < 18 ==> KeyWord(key, i, false) == KeyWord(key, i, true)
  {
    hide KeyWord, Cycle;
    TopSeenIff(key, 72);
  }

  lemma {:induction false} TopSeenIff(key: seq<bv8>, n: nat)
    ensures TopSeen(key, n) <==> exists t :: 0 <= t < n && t % 4 != 0 && Cycle(key, t) & 0x80 != 0
  {
    hide Cycle;
    if n > 0 {
      TopSeenIff(key, n - 1);
      assert Top(Cycle(key, n - 1)) <==> Cycle(key, n - 1) & 0x80 != 0;
    }
  }

  /** The deviation flips bit 16 and no other, and mixing a word in twice leaves nothing of it. */
  lemma MixedTwice(a: bv32, b: bv32)
    ensures Mixed(Mixed(a, b), b) == a && Mixed(a, 0) == a
    ensures Mixed(a, 0x1_0000) & 0xfffe_ffff == a & 0xfffe_ffff
    ensures Mixed(a, 0x1_0000) & 0x1_0000 != a & 0x1_0000
  {
  }
}
