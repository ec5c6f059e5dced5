/** The SbatLevel variable (sbat.c): when a stored level is kept, and what every
    run of `set_sbat_uefi_variable` does to it. */
module SbatLevel {
  import opened Bytes

  const COMMA: Byte := 44
  const SIGNATURE: seq<Byte> := [0x73, 0x62, 0x61, 0x74, COMMA]
  const DATE_SIZE := 10
  /** The length of the original level, "sbat,1,2021030218" and a newline. */
  const ORIGINAL_SIZE := 18
  const ORIGINAL: seq<Byte> := SIGNATURE + [0x31, COMMA] +
    [0x32, 0x30, 0x32, 0x31, 0x30, 0x33, 0x30, 0x32, 0x31, 0x38, 0x0a]

  const NV_BS := 3
  const NV_BS_TIMEAUTH := 0x23

  const POLICY_LATEST: Byte := 1
  const POLICY_AUTOMATIC: Byte := 2
  const POLICY_NOTREAD: Byte := 255

  // ----- decimal fields

  predicate IsDigit(b: Byte) { 0x30 <= b <= 0x39 }

  predicate Digits(s: seq<Byte>) { forall i :: 0 <= i < |s| ==> IsDigit(s[i]) }

  /** A number without leading zeros. */
  predicate Canonical(s: seq<Byte>) { Digits(s) && s != [] && (s[0] == 0x30 ==> |s| == 1) }

  function Pow10(n: nat): (p: nat)
    ensures 0 < p
  {
    if n == 0 then 1 else 10 * Pow10(n - 1)
  }

  function Value(s: seq<Byte>): (v: nat)
    requires Digits(s)
    decreases |s|
  {
    if s == [] then 0 else (s[0] - 0x30) * Pow10(|s| - 1) + Value(s[1..])
  }

  /** A number in decimal notation. */
  function Decimal(n: nat): (s: seq<Byte>)
  {
    if n < 10 then [0x30 + n] else Decimal(n / 10) + [0x30 + n % 10]
  }

  lemma {:induction false} OneMoreDigit(s: seq<Byte>, d: Byte)
    requires Digits(s) && IsDigit(d)
    ensures Digits(s + [d]) && Value(s + [d]) == 10 * Value(s) + (d - 0x30)
    decreases |s|
  {
    if s == [] {
      assert [d][1..] == [];
      assert s + [d] == [d] && Pow10(0) == 1;
      assert Value([d]) == (d - 0x30) * Pow10(0) + Value([]);
    } else {
      var t := s + [d];
      assert t[1..] == s[1..] + [d] && t[0] == s[0];
      OneMoreDigit(s[1..], d);
      TenTimes(s[0] - 0x30, Pow10(|s| - 1));
    }
  }

  lemma TenTimes(d: int, p: int)
    ensures d * (10 * p) == 10 * (d * p)
  {
  }

  /** The value of a number's decimal notation is the number. */
  lemma {:induction false} DecimalValue(n: nat)
    ensures Canonical(Decimal(n)) && Value(Decimal(n)) == n
    ensures n != 0 ==> Decimal(n)[0] != 0x30
  {
    if n < 10 {
      OneMoreDigit([], 0x30 + n);
      assert [] + [0x30 + n] == Decimal(n);
    } else {
      DecimalValue(n / 10);
      OneMoreDigit(Decimal(n / 10), 0x30 + n % 10);
    }
  }

  /** A byte of a string, NUL after its end. */
  function At(s: seq<Byte>, i: nat): (b: Byte) { if i < |s| then s[i] else 0 }

  /** `strncmp(&a[i], &b[j], n)`. */
  function Strncmp(a: seq<Byte>, i: nat, b: seq<Byte>, j: nat, n: nat): (r: int)
    decreases n
  {
    if n == 0 then 0
    else if At(a, i) == 0 || At(a, i) != At(b, j) then At(a, i) - At(b, j)
    else Strncmp(a, i + 1, b, j + 1, n - 1)
  }

  lemma {:induction false} ValueBound(s: seq<Byte>)
    requires Digits(s)
    ensures Value(s) < Pow10(|s|)
    ensures s != [] && s[0] != 0x30 ==> Pow10(|s| - 1) <= Value(s)
    decreases |s|
  {
    if s != [] {
      ValueBound(s[1..]);
      DigitTimes(s[0] - 0x30, Pow10(|s| - 1));
    }
  }

  lemma DigitTimes(d: nat, p: nat)
    requires d <= 9
    ensures d * p <= 9 * p
    ensures 1 <= d ==> p <= d * p
  {
  }

  /** On digits of one length, `strncmp` is numeric comparison. */
  lemma {:induction false} CompareDigits(a: seq<Byte>, i: nat, b: seq<Byte>, j: nat, n: nat)
    requires i + n <= |a| && j + n <= |b| && Digits(a[i..i + n]) && Digits(b[j..j + n])
    ensures Strncmp(a, i, b, j, n) > 0 <==> Value(a[i..i + n]) > Value(b[j..j + n])
    ensures Strncmp(a, i, b, j, n) == 0 <==> Value(a[i..i + n]) == Value(b[j..j + n])
    decreases n
  {
    if 0 < n {
      var x, y := a[i..i + n], b[j..j + n];
      assert x[0] == a[i] && y[0] == b[j];
      assert x[1..] == a[i + 1..i + n] && y[1..] == b[j + 1..j + n];
      ValueBound(x[1..]);
      ValueBound(y[1..]);
      CompareDigits(a, i + 1, b, j + 1, n - 1);
      FirstDigitDecides(x[0] - 0x30, y[0] - 0x30, Pow10(n - 1), Value(x[1..]), Value(y[1..]));
    }
  }

  lemma Multiples(m: nat, n: nat, p: nat)
    requires m <= n
    ensures m * p <= n * p
  {
  }

  lemma {:induction false} FirstDigitDecides(d: nat, e: nat, p: nat, r: nat, s: nat)
    requires r < p && s < p
    ensures d < e ==> d * p + r < e * p + s
    ensures e < d ==> e * p + s < d * p + r
  {
    if d < e {
      Multiples(d + 1, e, p);
    } else if e < d {
      Multiples(e + 1, d, p);
    }
  }

  lemma {:induction false} Pow10Grows(m: nat, n: nat)
    requires m <= n
    ensures Pow10(m) <= Pow10(n)
  {
    if m < n {
      Pow10Grows(m, n - 1);
    }
  }

  /** Longer, or equally long and greater byte by byte: the numeric order. */
  lemma {:induction false} LengthFirstIsNumeric(a: seq<Byte>, b: seq<Byte>)
    requires Canonical(a) && Canonical(b)
    ensures (|a| > |b| || (|a| == |b| && Strncmp(a, 0, b, 0, |b|) > 0)) <==> Value(a) > Value(b)
  {
    ValueBound(a);
    ValueBound(b);
    assert a[0..0 + |a|] == a && b[0..0 + |b|] == b;
    if |a| == |b| {
      CompareDigits(a, 0, b, 0, |b|);
    } else if |a| > |b| {
      Pow10Grows(|b|, |a| - 1);
    } else {
      Pow10Grows(|a|, |b| - 1);
    }
  }

  // ----- fields of a level

  /** Where field `n` starts, scanning from `i`; the end if there is none. */
  function FieldFrom(s: seq<Byte>, i: nat, n: nat): (k: nat)
    requires i <= |s|
    ensures i <= k <= |s|
    decreases |s| - i
  {
    if i == |s| || s[i] == 0 || n == 0 then i
    else FieldFrom(s, i + 1, if s[i] == COMMA then n - 1 else n)
  }

  method NthSbatField(s: seq<Byte>, n: nat) returns (k: nat)
    ensures k == FieldFrom(s, 0, n)
  {
    var left := n;
    k := 0;
    while k < |s| && s[k] != 0
      invariant k <= |s| && FieldFrom(s, k, left) == FieldFrom(s, 0, n)
    {
      if left == 0 {
        return;
      }
      if s[k] == COMMA {
        left := left - 1;
      }
      k := k + 1;
    }
  }

  /** A level: its version, its ten-digit datestamp, and the revocations. */
  datatype Level = Level(version: seq<Byte>, date: seq<Byte>, rest: seq<Byte>)

  predicate WellFormed(l: Level)
  {
    Canonical(l.version) && Digits(l.date) && |l.date| == DATE_SIZE && l.rest != [] && 0 !in l.rest
  }

  function Text(l: Level): (s: seq<Byte>)
  {
    SIGNATURE + (l.version + ([COMMA] + (l.date + l.rest)))
  }

  lemma {:induction false} SkipPlain(s: seq<Byte>, i: nat, j: nat, n: nat)
    requires i <= j < |s| && 0 < n
    requires forall k :: i <= k < j ==> s[k] != 0 && s[k] != COMMA
    requires s[j] == COMMA
    ensures FieldFrom(s, i, n) == FieldFrom(s, j + 1, n - 1)
    decreases j - i
  {
    if i < j {
      SkipPlain(s, i + 1, j, n);
    }
  }

  /** The version and the datestamp are found where they were put. */
  lemma {:induction false} TextFields(l: Level)
    requires WellFormed(l)
    ensures var s, v := Text(l), 5 + |l.version|;
            && |s| == v + 1 + DATE_SIZE + |l.rest| >= ORIGINAL_SIZE
            && FieldFrom(s, 0, 1) == 5 && FieldFrom(s, 0, 2) == v + 1
            && s[..5] == SIGNATURE && s[5..v] == l.version && s[v + 1..v + 1 + DATE_SIZE] == l.date
  {
    var s, v := Text(l), 5 + |l.version|;
    assert s[..5] == SIGNATURE && s[5..v] == l.version && s[v + 1..v + 1 + DATE_SIZE] == l.date;
    assert s[4] == SIGNATURE[4] && forall k :: 0 <= k < 4 ==> s[k] == SIGNATURE[k];
    assert forall k :: 5 <= k < v ==> s[k] == l.version[k - 5] && IsDigit(l.version[k - 5]);
    assert s[v] == COMMA && s[v + 1] == l.date[0] && IsDigit(l.date[0]);
    SkipPlain(s, 0, 4, 1);
    SkipPlain(s, 0, 4, 2);
    SkipPlain(s, 5, v, 1);
  }

  // ----- preserve_sbat_uefi_variable

  /** Keep the stored level: it is well marked, and newer in version, or not
      older in date. */
  method PreserveSbat(sbat: seq<Byte>, attributes: nat, candidate: seq<Byte>) returns (keep: bool)
    ensures keep == Preserved(sbat, attributes, candidate)
  {
    if (attributes != NV_BS && attributes != NV_BS_TIMEAUTH) || |sbat| < ORIGINAL_SIZE ||
       Strncmp(sbat, 0, SIGNATURE, 0, |SIGNATURE|) != 0 {
      return false;
    }
    var currentVersion: int, newVersion: int, currentDate: int, newDate: int;
    currentVersion := NthSbatField(sbat, 1);
    newVersion := NthSbatField(candidate, 1);
    currentDate := NthSbatField(sbat, 2);
    newDate := NthSbatField(candidate, 2);
    var currentLen := currentDate - currentVersion - 1;
    var newLen := newDate - newVersion - 1;
    if currentLen > newLen {
      return true;
    }
    if currentLen == newLen && Strncmp(sbat, currentVersion, candidate, newVersion, newLen % U64) > 0 {
      return true;
    }
    return Strncmp(sbat, currentDate, candidate, newDate, DATE_SIZE) >= 0;
  }

  function Preserved(sbat: seq<Byte>, attributes: nat, candidate: seq<Byte>): (keep: bool)
  {
    var v: int, w: int := FieldFrom(sbat, 0, 1), FieldFrom(candidate, 0, 1);
    var d: int, e: int := FieldFrom(sbat, 0, 2), FieldFrom(candidate, 0, 2);
    && (attributes == NV_BS || attributes == NV_BS_TIMEAUTH) && ORIGINAL_SIZE <= |sbat|
    && Strncmp(sbat, 0, SIGNATURE, 0, 5) == 0
    && (d - v > e - w || (d - v == e - w && Strncmp(sbat, v, candidate, w, (e - w - 1) % U64) > 0) ||
        Strncmp(sbat, d, candidate, e, DATE_SIZE) >= 0)
  }

  lemma {:induction false} StrncmpShift(a: seq<Byte>, i: nat, b: seq<Byte>, j: nat, x: seq<Byte>, y: seq<Byte>, k: nat,
                                        n: nat)
    requires i + k + n <= |a| && j + k + n <= |b| && |x| == |y| == k + n
    requires a[i..i + k + n] == x && b[j..j + k + n] == y
    ensures Strncmp(a, i + k, b, j + k, n) == Strncmp(x, k, y, k, n)
    decreases n
  {
    if 0 < n {
      assert a[i + k] == x[k] && b[j + k] == y[k];
      StrncmpShift(a, i, b, j, x, y, k + 1, n - 1);
    }
  }

  lemma {:induction false} SameSignature(s: seq<Byte>, k: nat)
    requires k <= 5 <= |s| && s[..5] == SIGNATURE
    ensures Strncmp(s, k, SIGNATURE, k, 5 - k) == 0
    decreases 5 - k
  {
    if k < 5 {
      assert s[k] == s[..5][k];
      SameSignature(s, k + 1);
    }
  }

  /** For well-formed levels the stored one is kept exactly if its version is
      numerically greater, or its datestamp is not smaller. */
  lemma {:induction false} PreservedIff(l: Level, c: Level, attributes: nat)
    requires WellFormed(l) && WellFormed(c) && |Text(c)| < U64
    ensures Preserved(Text(l), attributes, Text(c)) <==>
              (attributes == NV_BS || attributes == NV_BS_TIMEAUTH) &&
              (Value(l.version) > Value(c.version) || Value(l.date) >= Value(c.date))
  {
    hide Text, FieldFrom, Value, Strncmp, Digits;
    var s, t := Text(l), Text(c);
    TextFields(l);
    TextFields(c);
    SameSignature(s, 0);
    var v, w := 5 + |l.version|, 5 + |c.version|;
    if |l.version| == |c.version| {
      StrncmpShift(s, 5, t, 5, l.version, c.version, 0, |c.version|);
    }
    LengthFirstIsNumeric(l.version, c.version);
    CompareDigits(s, v + 1, t, w + 1, DATE_SIZE);
  }

  // ----- set_sbat_uefi_variable

  datatype Variable = Variable(data: seq<Byte>, attributes: nat)

  /** The variable store, and the policy byte read once per boot. */
  datatype Store = Store(level: Option<Variable>, policyVar: Option<Byte>, policy: Byte)

  /** Which store calls fail. */
  datatype Faults = Faults(readPolicy: bool, clearPolicy: bool, readLevel: bool, deleteLevel: bool, writeLevel: bool,
                           checkLevel: bool)

  const NO_FAULTS := Faults(false, false, false, false, false, false)

  /** `acceptable`: the candidate parses and does not revoke shim itself. */
  datatype Call = Call(secure: bool, automatic: seq<Byte>, latest: seq<Byte>, acceptable: bool, faults: Faults)

  datatype Outcome = Outcome(store: Store, status: Status)

  /** The candidate level, and whether a reset was asked for and allowed. */
  function Choose(defaulted: bool, policy: Byte, c: Call): (r: (seq<Byte>, bool))
    ensures c.secure ==> !r.1 && (r.0 == c.automatic || r.0 == c.latest)
  {
    if !defaulted && policy == POLICY_LATEST then (c.latest, false)
    else if c.secure || (!defaulted && policy == POLICY_AUTOMATIC) then (c.automatic, false)
    else (ORIGINAL, true)
  }

  function SetLevel(s: Store, c: Call): (o: Outcome)
  {
    var reading := s.policy == POLICY_NOTREAD;
    var defaulted := reading && (s.policyVar.None? || c.faults.readPolicy);
    var s1 := if reading && !defaulted
              then s.(policy := s.policyVar.value, policyVar := if c.faults.clearPolicy then s.policyVar else None)
              else s;
    var (candidate, reset) := Choose(defaulted, s1.policy, c);
    var present := s.level.Some? && !c.faults.readLevel;
    if present && !reset && Preserved(s.level.value.data, s.level.value.attributes, candidate) then Outcome(s1, Success)
    else if present && !c.acceptable then Outcome(s1, LoadError)
    else if present && c.faults.deleteLevel then Outcome(s1, LoadError)
    else if c.faults.writeLevel then Outcome(if present then s1.(level := None) else s1, LoadError)
    else Outcome(s1.(level := Some(Variable(candidate, NV_BS))), if c.faults.checkLevel then LoadError else Success)
  }

  class SbatVariables {
    var level: Option<Variable>
    var policyVar: Option<Byte>
    var policy: Byte

    function View(): (s: Store)
      reads this
    {
      Store(level, policyVar, policy)
    }

    constructor (level: Option<Variable>, policyVar: Option<Byte>)
      ensures View() == Store(level, policyVar, POLICY_NOTREAD)
    {
      this.level := level;
      this.policyVar := policyVar;
      this.policy := POLICY_NOTREAD;
    }

    method SetSbatUefiVariable(c: Call) returns (status: Status)
      modifies this
      ensures Outcome(View(), status) == SetLevel(old(View()), c)
    {
      hide Preserved;
      var failed := false;
      if policy == POLICY_NOTREAD {
        failed := policyVar.None? || c.faults.readPolicy;
        if !failed {
          policy := policyVar.value;
          if !c.faults.clearPolicy {
            policyVar := None;
          }
        }
      }
      var candidate, reset := c.automatic, false;
      if failed {
        if !c.secure {
          candidate, reset := ORIGINAL, true;
        }
      } else if policy == POLICY_LATEST {
        candidate := c.latest;
      } else if policy == POLICY_AUTOMATIC {
        candidate := c.automatic;
      } else if !c.secure {
        candidate, reset := ORIGINAL, true;
      }
      if level.Some? && !c.faults.readLevel {
        if !reset {
          var keep := PreserveSbat(level.value.data, level.value.attributes, candidate);
          if keep {
            return Success;
          }
        }
        if !c.acceptable || c.faults.deleteLevel {
          return LoadError;
        }
        level := None;
      }
      if c.faults.writeLevel {
        return LoadError;
      }
      level := Some(Variable(candidate, NV_BS));
      if c.faults.checkLevel {
        return LoadError;
      }
      return Success;
    }
  }

  // ----- runs

  datatype Action = Set(call: Call) | Reboot | AskPolicy(policy: Byte)

  function Step(s: Store, a: Action): (t: Store)
  {
    match a
    case Set(c) => SetLevel(s, c).store
    case Reboot => s.(policy := POLICY_NOTREAD)
    case AskPolicy(p) => s.(policyVar := Some(p))
  }

  function Run(s: Store, actions: seq<Action>): (t: Store)
    decreases |actions|
  {
    if actions == [] then s else Run(Step(s, actions[0]), actions[1..])
  }

  /** The store holds level `l`, marked as the source requires. */
  ghost predicate Stored(s: Store, l: Level)
  {
    && WellFormed(l) && s.level.Some? && s.level.value.data == Text(l)
    && (s.level.value.attributes == NV_BS || s.level.value.attributes == NV_BS_TIMEAUTH)
  }

  ghost predicate IsLevel(s: seq<Byte>)
  {
    exists l :: WellFormed(l) && Text(l) == s && |s| < U64
  }

  /** A secure-mode call with well-formed levels and a store that works. */
  ghost predicate Clean(a: Action)
  {
    a.Set? ==> a.call.secure && a.call.faults == NO_FAULTS && IsLevel(a.call.automatic) && IsLevel(a.call.latest)
  }

  /** `m` replaces `l`: the same, or a later date and no lower version. */
  ghost predicate Rises(l: Level, m: Level)
    requires WellFormed(l) && WellFormed(m)
  {
    l == m || (Value(l.date) < Value(m.date) && Value(l.version) <= Value(m.version))
  }

  lemma {:induction false} StepRises(s: Store, a: Action, l: Level) returns (m: Level)
    requires Stored(s, l) && Clean(a)
    ensures WellFormed(l) && Stored(Step(s, a), m) && Rises(l, m)
  {
    hide Preserved, Text, Value;
    m := l;
    if a.Set? && Step(s, a).level != s.level {
      var c := Step(s, a).level.value.data;
      assert IsLevel(c);
      m :| WellFormed(m) && Text(m) == c && |c| < U64;
      PreservedIff(l, m, s.level.value.attributes);
    }
  }

  /** In every such run the stored version and datestamp never go down. */
  lemma {:induction false} LevelOnlyRises(s: Store, actions: seq<Action>, l: Level) returns (m: Level)
    requires Stored(s, l) && forall i :: 0 <= i < |actions| ==> Clean(actions[i])
    ensures Stored(Run(s, actions), m) && WellFormed(l)
    ensures Value(l.date) <= Value(m.date) && Value(l.version) <= Value(m.version)
    decreases |actions|
  {
    hide Text, Value, SetLevel;
    m := l;
    if actions != [] {
      var k := StepRises(s, actions[0], l);
      m := LevelOnlyRises(Step(s, actions[0]), actions[1..], k);
    }
  }

  /** A clean call leaves a well-formed level where there was none. */
  lemma {:induction false} FirstLevel(s: Store, c: Call) returns (m: Level)
    requires s.level.None? && Clean(Set(c))
    ensures Stored(SetLevel(s, c).store, m)
  {
    hide Text;
    var d := SetLevel(s, c).store.level.value.data;
    assert IsLevel(d);
    m :| WellFormed(m) && Text(m) == d && |d| < U64;
  }

  /** The hypothesis on the store is needed: a write that fails after the delete
      loses the level, and the next call may store an older one. */
  lemma {:induction false} LostWriteForgets(s: Store, l: Level, newer: Level, older: Level)
    requires Stored(s, l) && WellFormed(newer) && WellFormed(older) && s.policy == POLICY_AUTOMATIC
    requires |Text(newer)| < U64 && Value(l.date) < Value(newer.date) && Value(l.version) <= Value(newer.version)
    ensures var failing := Call(true, Text(newer), Text(newer), true, NO_FAULTS.(writeLevel := true));
            var next := Call(true, Text(older), Text(older), true, NO_FAULTS);
            Stored(Run(s, [Set(failing), Set(next)]), older)
  {
    hide Preserved, Text, Value;
    PreservedIff(l, newer, s.level.value.attributes);
    var failing := Call(true, Text(newer), Text(newer), true, NO_FAULTS.(writeLevel := true));
    var next := Call(true, Text(older), Text(older), true, NO_FAULTS);
    var actions := [Set(failing), Set(next)];
    assert actions[1..] == [Set(next)] && [Set(next)][1..] == [];
    var s1 := Step(s, actions[0]);
    assert s1.level.None?;
    assert Run(s, actions) == Run(s1, [Set(next)]);
    assert Run(s1, [Set(next)]) == Run(Step(s1, Set(next)), []);
  }

  /** A read that fails on its own lets an older candidate overwrite the level. */
  lemma {:induction false} FailedReadLowers(s: Store, l: Level, older: Level)
    requires Stored(s, l) && WellFormed(older) && Value(older.date) < Value(l.date) && s.policy == POLICY_AUTOMATIC
    ensures Stored(SetLevel(s, Call(true, Text(older), Text(older), true, NO_FAULTS.(readLevel := true))).store, older)
  {
    hide Preserved, Text, Value;
  }

  // ----- exactly when a call lowers the level

  /** The level a text spells. */
  function LevelIn(t: seq<Byte>): (l: Level)
  {
    var d := FieldFrom(t, 0, 2);
    if 6 <= d && d + DATE_SIZE <= |t| then Level(t[5..d - 1], t[d..d + DATE_SIZE], t[d + DATE_SIZE..])
    else Level([], [], [])
  }

  lemma {:induction false} LevelInText(l: Level)
    requires WellFormed(l)
    ensures LevelIn(Text(l)) == l
  {
    hide FieldFrom;
    TextFields(l);
    var s, v := Text(l), 5 + |l.version|;
    assert s[v + 1 + DATE_SIZE..] == l.rest;
  }

  /** `m` is not older than `l` in date or version. */
  predicate AtLeast(m: Level, l: Level)
    requires WellFormed(m) && WellFormed(l)
  {
    Value(l.date) <= Value(m.date) && Value(l.version) <= Value(m.version)
  }

  predicate HasLevel(s: Store)
  {
    && s.level.Some? && (s.level.value.attributes == NV_BS || s.level.value.attributes == NV_BS_TIMEAUTH)
    && WellFormed(LevelIn(s.level.value.data)) && Text(LevelIn(s.level.value.data)) == s.level.value.data
  }

  function LevelOf(s: Store): (l: Level)
    requires HasLevel(s)
    ensures WellFormed(l)
  {
    LevelIn(s.level.value.data)
  }

  predicate Spells(t: seq<Byte>)
  {
    WellFormed(LevelIn(t)) && Text(LevelIn(t)) == t && |t| < U64
  }

  /** The text a call would write. */
  function Candidate(s: Store, c: Call): (t: seq<Byte>)
  {
    var reading := s.policy == POLICY_NOTREAD;
    var defaulted := reading && (s.policyVar.None? || c.faults.readPolicy);
    Choose(defaulted, if reading && !defaulted then s.policyVar.value else s.policy, c).0
  }

  /** The call deletes the level for a newer one and then fails to write it. */
  predicate Loses(l: Level, m: Level, c: Call)
    requires WellFormed(l) && WellFormed(m)
  {
    && !c.faults.readLevel && Value(l.date) < Value(m.date) && Value(l.version) <= Value(m.version)
    && c.acceptable && !c.faults.deleteLevel && c.faults.writeLevel
  }

  /** The call cannot read the level and overwrites it with an older one. */
  predicate Lowers(l: Level, m: Level, c: Call)
    requires WellFormed(l) && WellFormed(m)
  {
    c.faults.readLevel && !c.faults.writeLevel && !AtLeast(m, l)
  }

  /** A secure-mode call leaves a level that is not below the stored one, if and
      only if it neither loses nor lowers it. */
  lemma {:induction false} KeptIff(s: Store, c: Call)
    requires HasLevel(s) && c.secure && Spells(Candidate(s, c))
    ensures var t := SetLevel(s, c).store;
            var l, m := LevelOf(s), LevelIn(Candidate(s, c));
            HasLevel(t) && AtLeast(LevelOf(t), l) <==> !Loses(l, m, c) && !Lowers(l, m, c)
  {
    hide Preserved, Text, Value, LevelIn, WellFormed, SIGNATURE;
    var l, m := LevelOf(s), LevelIn(Candidate(s, c));
    PreservedIff(l, m, s.level.value.attributes);
  }

  predicate Secure(a: Action)
  {
    a.Set? ==> a.call.secure && Spells(a.call.automatic) && Spells(a.call.latest)
  }

  predicate Harmless(s: Store, a: Action)
    requires HasLevel(s)
  {
    a.Set? && Spells(Candidate(s, a.call)) ==>
      var l, m := LevelOf(s), LevelIn(Candidate(s, a.call));
      !Loses(l, m, a.call) && !Lowers(l, m, a.call)
  }

  /** No step of the run leaves a level below the one before it. */
  predicate NeverFalls(s: Store, actions: seq<Action>)
    requires HasLevel(s)
    decreases |actions|
  {
    actions == [] ||
    (var t := Step(s, actions[0]); HasLevel(t) && AtLeast(LevelOf(t), LevelOf(s)) && NeverFalls(t, actions[1..]))
  }

  /** No step of the run loses or lowers the level it finds. */
  predicate AllHarmless(s: Store, actions: seq<Action>)
    requires HasLevel(s)
    decreases |actions|
  {
    actions == [] ||
    (Harmless(s, actions[0]) &&
     (HasLevel(Step(s, actions[0])) ==> AllHarmless(Step(s, actions[0]), actions[1..])))
  }

  lemma {:induction false} StepKeptIff(s: Store, a: Action)
    requires HasLevel(s) && Secure(a)
    ensures HasLevel(Step(s, a)) && AtLeast(LevelOf(Step(s, a)), LevelOf(s)) <==> Harmless(s, a)
  {
    hide Preserved, Text, Value, LevelIn, WellFormed, SetLevel, Loses, Lowers;
    if a.Set? {
      assert Spells(Candidate(s, a.call));
      KeptIff(s, a.call);
    }
  }

  /** In a secure-mode run with any failing store calls the level never falls, if
      and only if no call of the run loses or lowers the level it finds. */
  lemma {:induction false} NeverFallsIff(s: Store, actions: seq<Action>)
    requires HasLevel(s) && forall i :: 0 <= i < |actions| ==> Secure(actions[i])
    ensures NeverFalls(s, actions) <==> AllHarmless(s, actions)
    decreases |actions|
  {
    hide HasLevel, AtLeast, Harmless, Step, Secure;
    if actions != [] {
      StepKeptIff(s, actions[0]);
      if HasLevel(Step(s, actions[0])) {
        NeverFallsIff(Step(s, actions[0]), actions[1..]);
      }
    }
  }
}
