/** What calls of `set_sbat_uefi_variable` install: the level that the policy names,
    exactly if it is newer than the stored one. */
module SbatUpdates {
  import opened Bytes
  import opened SbatLevel

  /** The policy in force for a call: read once, and none if it cannot be read. */
  function PolicyFor(s: Store, c: Call): (p: Option<Byte>)
  {
    if s.policy != 255 then Some(s.policy)
    else if c.faults.readPolicy then None
    else s.policyVar
  }

  /** "sbat,1,2021030218" and a newline. */
  const FIRST: seq<Byte> := [115, 98, 97, 116, 44, 49, 44, 50, 48, 50, 49, 48, 51, 48, 50, 49, 56, 10]

  /** The level that a call offers: the latest under policy 1, otherwise the automatic
      one; outside Secure Boot that only under policy 2, and else the first one. */
  function Offered(s: Store, c: Call): (t: seq<Byte>)
  {
    var p := PolicyFor(s, c);
    if p == Some(1) then c.latest
    else if c.secure || p == Some(2) then c.automatic
    else FIRST
  }

  /** Outside Secure Boot any other policy, or none, resets the level. */
  predicate Resets(s: Store, c: Call)
  {
    !c.secure && PolicyFor(s, c) != Some(1) && PolicyFor(s, c) != Some(2)
  }

  /** Later in date, and not lower in version. */
  ghost predicate Newer(n: Level, l: Level)
    requires WellFormed(n) && WellFormed(l)
  {
    Value(l.date) < Value(n.date) && Value(l.version) <= Value(n.version)
  }

  lemma ChoiceIs(s: Store, c: Call)
    ensures Candidate(s, c) == Offered(s, c)
  {
    assert FIRST == ORIGINAL;
  }

  // ----- one call

  /** A call on a working store ends with the offered level, marked as boot-service data: where there was none,
      where a reset is asked for, or where the stored one is older; otherwise the stored one stays. */
  lemma {:induction false} UpdateIs(s: Store, c: Call, l: Level, n: Level)
    requires Stored(s, l) && WellFormed(n) && Offered(s, c) == Text(n) && |Text(n)| < U64
    requires c.acceptable && c.faults == NO_FAULTS
    ensures var o := SetLevel(s, c);
            && o.status == Success
            && o.store.level == if Resets(s, c) || Newer(n, l) then Some(Variable(Text(n), 3)) else s.level
  {
    hide Preserved, Text, Value, WellFormed;
    ChoiceIs(s, c);
    PreservedIff(l, n, s.level.value.attributes);
  }

  lemma {:induction false} FirstIs(s: Store, c: Call)
    requires s.level.None? && !c.faults.writeLevel && !c.faults.checkLevel
    ensures SetLevel(s, c).status == Success && SetLevel(s, c).store.level == Some(Variable(Offered(s, c), 3))
  {
    ChoiceIs(s, c);
  }

  /** A candidate that does not parse or would revoke shim itself is not installed over a level. */
  lemma {:induction false} UnacceptableStays(s: Store, c: Call)
    requires s.level.Some? && !c.faults.readLevel && !c.acceptable
    ensures SetLevel(s, c).store.level == s.level
  {
  }

  /** The policy variable is read once, and then deleted; the policy read holds until the next boot. */
  lemma {:induction false} PolicyOnce(s: Store, c: Call)
    requires !c.faults.clearPolicy
    ensures var t := SetLevel(s, c).store;
            if s.policy == 255 && s.policyVar.Some? && !c.faults.readPolicy
            then t.policy == s.policyVar.value && t.policyVar == None
            else t.policy == s.policy && t.policyVar == s.policyVar
  {
    hide Preserved;
  }

  // ----- runs

  function Before(s: Store, actions: seq<Action>, n: nat): (t: Store)
    requires n <= |actions|
  {
    if n == 0 then s else Step(Before(s, actions, n - 1), actions[n - 1])
  }

  /** Calls in Secure Boot with well-formed acceptable levels and a store that works. */
  predicate Working(a: Action)
  {
    a.Set? ==>
      && a.call.secure && a.call.acceptable && a.call.faults == NO_FAULTS
      && Spells(a.call.automatic) && Spells(a.call.latest)
  }

  /** The level that call number `i` offers. */
  function OfferAt(s: Store, actions: seq<Action>, i: nat): (l: Level)
    requires i < |actions| && actions[i].Set?
  {
    LevelIn(Offered(Before(s, actions, i), actions[i].call))
  }

  lemma {:induction false} OfferSpelled(s: Store, actions: seq<Action>, i: nat)
    requires i < |actions| && actions[i].Set? && Working(actions[i])
    ensures WellFormed(OfferAt(s, actions, i)) && |Text(OfferAt(s, actions, i))| < U64
    ensures Text(OfferAt(s, actions, i)) == Offered(Before(s, actions, i), actions[i].call)
  {
    hide Before, Text, WellFormed, LevelIn, FIRST;
  }

  /** The level after a run is the stored one or one that was offered; it is not below the stored one, and
      none of the offered ones is newer. */
  lemma {:induction false} LastIsNewest(s: Store, actions: seq<Action>, n: nat, l: Level) returns (m: Level)
    requires n <= |actions| && Stored(s, l) && forall i :: 0 <= i < n ==> Working(actions[i])
    ensures Stored(Before(s, actions, n), m)
    ensures m == l || exists i :: 0 <= i < n && actions[i].Set? && m == OfferAt(s, actions, i)
    ensures Value(l.date) <= Value(m.date) && Value(l.version) <= Value(m.version)
    ensures forall i :: 0 <= i < n && actions[i].Set? ==>
              WellFormed(OfferAt(s, actions, i)) && !Newer(OfferAt(s, actions, i), m)
  {
    hide Text, Value, WellFormed, SetLevel, OfferAt, Digits, Spells;
    if n == 0 {
      m := l;
    } else {
      var k := LastIsNewest(s, actions, n - 1, l);
      m := k;
      var t, a := Before(s, actions, n - 1), actions[n - 1];
      if a.Set? {
        OfferSpelled(s, actions, n - 1);
        var offer := OfferAt(s, actions, n - 1);
        NoReset(t, a.call);
        UpdateIs(t, a.call, k, offer);
        if Newer(offer, k) {
          m := offer;
        }
      }
    }
  }

  lemma NoReset(s: Store, c: Call)
    ensures c.secure ==> !Resets(s, c)
  {
  }

  /** These are the runs of the state machine. */
  lemma {:induction false} BeforeIsRun(s: Store, actions: seq<Action>)
    ensures Before(s, actions, |actions|) == Run(s, actions)
    decreases |actions|
  {
    hide Step;
    if actions != [] {
      BeforeIsRun(Step(s, actions[0]), actions[1..]);
      BeforeRest(s, actions, |actions| - 1);
    }
  }

  lemma {:induction false} BeforeRest(s: Store, actions: seq<Action>, n: nat)
    requires n < |actions|
    ensures Before(Step(s, actions[0]), actions[1..], n) == Before(s, actions, n + 1)
  {
    hide Step;
    if n > 0 {
      BeforeRest(s, actions, n - 1);
    }
  }

  /** A stored level that is marked otherwise, is shorter than the first one, or does not start like one, is
      replaced whatever is offered. */
  lemma {:induction false} CorruptReplaced(s: Store, c: Call)
    requires s.level.Some? && c.acceptable && c.faults == NO_FAULTS
    requires var v := s.level.value;
             (v.attributes != 3 && v.attributes != 0x23) || |v.data| < 18 || v.data[..5] != [0x73, 0x62, 0x61, 0x74, 44]
    ensures SetLevel(s, c).status == Success && SetLevel(s, c).store.level == Some(Variable(Offered(s, c), 3))
  {
    ChoiceIs(s, c);
    hide FieldFrom;
    var v := s.level.value;
    if 18 <= |v.data| {
      Mismatch(v.data, 0);
    }
  }

  lemma {:induction false} Mismatch(s: seq<Byte>, k: nat)
    requires k <= 5 <= |s| && s[..k] == SIGNATURE[..k]
    ensures s[..5] != SIGNATURE ==> Strncmp(s, k, SIGNATURE, k, 5 - k) != 0
    decreases 5 - k
  {
    if k < 5 {
      if s[k] == SIGNATURE[k] {
        assert s[..k + 1] == s[..k] + [s[k]] && SIGNATURE[..k + 1] == SIGNATURE[..k] + [SIGNATURE[k]];
        Mismatch(s, k + 1);
      }
    } else {
      assert SIGNATURE[..5] == SIGNATURE;
    }
  }
}
