/** The rotor selection argument of `encode`, `R:P:N,R:P:N,R:P:N`: for each
    of the three slots a rotor number 1-5, a starting position 1-26 and a
    notch 1-26, written without leading zeros. */
module Selection {
  import opened Wrappers
  import opened Errors
  import opened Tables
  import opened Encoding

  predicate IsDigit(c: char) {
    '0' <= c <= '9'
  }

  function DigitValue(c: char): int
    requires IsDigit(c)
  {
    c as int - '0' as int
  }

  function Digit(d: int): (c: char)
    requires 0 <= d <= 9
    ensures IsDigit(c) && DigitValue(c) == d
  {
    ('0' as int + d) as char
  }

  /** A full configuration: three slots, each in range. */
  predicate IsConfig(config: seq<Slot>) {
    |config| == 3 && forall i :: 0 <= i < 3 ==> config[i].InRange()
  }

  /** No rotor is used in two slots. */
  predicate DistinctRotors(config: seq<Slot>)
    requires |config| == 3
  {
    config[0].rotor != config[1].rotor && config[0].rotor != config[2].rotor && config[1].rotor != config[2].rotor
  }

  /** The spelling of 1..26 that `2[0-6]|1[0-9]|[1-9]` accepts. */
  function ShowNumber(n: int): (s: string)
    requires 1 <= n <= N
  {
    if n < 10 then [Digit(n)] else [Digit(n / 10), Digit(n % 10)]
  }

  function ShowSlot(slot: Slot): string
    requires slot.InRange()
  {
    ShowNumber(slot.rotor) + ":" + ShowNumber(slot.position) + ":" + ShowNumber(slot.notch)
  }

  /** The selection string naming `config`. */
  function Format(config: seq<Slot>): string
    requires IsConfig(config)
  {
    ShowSlot(config[0]) + "," + ShowSlot(config[1]) + "," + ShowSlot(config[2])
  }

  /** Matches `2[0-6]|1[0-9]|[1-9]` at the front of `s`, giving the value and
      the rest. Taking two digits whenever they match agrees with the
      backtracking match, because a number is never followed by a digit. */
  function Number(s: string): (r: Option<(int, string)>)
    ensures r.Some? ==> 1 <= r.value.0 <= N && |r.value.1| < |s| && r.value.1 == s[|s| - |r.value.1|..]
  {
    if |s| >= 2 && s[0] == '1' && IsDigit(s[1]) then Some((10 + DigitValue(s[1]), s[2..]))
    else if |s| >= 2 && s[0] == '2' && '0' <= s[1] <= '6' then Some((20 + DigitValue(s[1]), s[2..]))
    else if |s| >= 1 && '1' <= s[0] <= '9' then Some((DigitValue(s[0]), s[1..]))
    else None
  }

  /** Matches `([1-5]):(number):(number)` at the front of `s`. */
  function SlotPrefix(s: string): (r: Option<(Slot, string)>)
    ensures r.Some? ==> r.value.0.InRange() && |r.value.1| < |s| && r.value.1 == s[|s| - |r.value.1|..]
  {
    if |s| >= 2 && '1' <= s[0] <= '5' && s[1] == ':' then
      match Number(s[2..])
      case None => None
      case Some((position, rest)) =>
        if |rest| >= 1 && rest[0] == ':' then
          match Number(rest[1..])
          case None => None
          case Some((notch, rest')) => Some((Slot(DigitValue(s[0]), position, notch), rest'))
        else None
    else None
  }

  /** Matches `,` and then a slot at the front of `s`. */
  function NextSlot(s: string): (r: Option<(Slot, string)>)
    ensures r.Some? ==> r.value.0.InRange() && |r.value.1| < |s| && r.value.1 == s[|s| - |r.value.1|..]
  {
    if |s| >= 1 && s[0] == ',' then SlotPrefix(s[1..]) else None
  }

  /** `regex_match` against the whole selection pattern, with the nine
      captured groups converted by `stoi`. */
  function Grammar(s: string): (r: Option<seq<Slot>>)
    ensures r.Some? ==> IsConfig(r.value)
  {
    var first := SlotPrefix(s);
    if first.None? then None
    else
      var second := NextSlot(first.value.1);
      if second.None? then None
      else
        var third := NextSlot(second.value.1);
        if third.None? || third.value.1 != [] then None
        else
          ConfigOf(first.value.0, second.value.0, third.value.0);
          Some([first.value.0, second.value.0, third.value.0])
  }

  /** The rotor selection check of `encodeSubcommand`: a string outside the
      pattern is an incorrect configuration, and a rotor named twice is
      refused. */
  function ParseSelection(s: string): (r: Result<seq<Slot>, EnigmaError>)
    ensures r.Success? ==> IsConfig(r.value) && DistinctRotors(r.value) && s == Format(r.value)
    ensures r.Failure? ==> r.error == IncorrectRotorConfig || r.error == RotorUsedTwice
  {
    match Grammar(s)
    case None => Failure(IncorrectRotorConfig)
    case Some(config) =>
      GrammarSound(s);
      if DistinctRotors(config) then Success(config) else Failure(RotorUsedTwice)
  }

  /** A char that cannot continue a number. */
  predicate EndsNumber(rest: string) {
    rest == [] || !IsDigit(rest[0])
  }

  lemma NumberShow(n: int, rest: string)
    requires 1 <= n <= N && EndsNumber(rest)
    ensures Number(ShowNumber(n) + rest) == Some((n, rest))
  {
    var s := ShowNumber(n) + rest;
    if n < 10 {
      assert s[1..] == rest;
    } else {
      assert s[2..] == rest;
    }
  }

  lemma NumberSound(s: string)
    requires Number(s).Some?
    ensures 1 <= Number(s).value.0 <= N
    ensures s == ShowNumber(Number(s).value.0) + Number(s).value.1
  {
    var (n, rest) := Number(s).value;
    if n < 10 {
      assert s == [s[0]] + s[1..];
    } else {
      assert s == [s[0], s[1]] + s[2..];
    }
  }

  /** The slot matcher succeeds once its two number matches do. */
  lemma SlotOf(s: string, r0: string, slot: Slot, rest: string)
    requires |s| >= 2 && '1' <= s[0] <= '5' && s[1] == ':' && slot.rotor == DigitValue(s[0])
    requires Number(s[2..]) == Some((slot.position, r0)) && |r0| >= 1 && r0[0] == ':'
    requires Number(r0[1..]) == Some((slot.notch, rest))
    ensures SlotPrefix(s) == Some((slot, rest))
  {
  }

  lemma SlotShow(slot: Slot, rest: string)
    requires slot.InRange() && EndsNumber(rest)
    ensures SlotPrefix(ShowSlot(slot) + rest) == Some((slot, rest))
  {
    var s := ShowSlot(slot) + rest;
    var r1 := ShowNumber(slot.notch) + rest;
    var r0 := ":" + r1;
    assert s == [Digit(slot.rotor), ':'] + ShowNumber(slot.position) + r0;
    assert s[2..] == ShowNumber(slot.position) + r0;
    NumberShow(slot.position, r0);
    assert r0[1..] == r1;
    NumberShow(slot.notch, rest);
    SlotOf(s, r0, slot, rest);
  }

  lemma SlotSound(s: string)
    requires SlotPrefix(s).Some?
    ensures SlotPrefix(s).value.0.InRange()
    ensures s == ShowSlot(SlotPrefix(s).value.0) + SlotPrefix(s).value.1
  {
    var (position, rest) := Number(s[2..]).value;
    NumberSound(s[2..]);
    var (notch, rest') := Number(rest[1..]).value;
    NumberSound(rest[1..]);
    var slot := SlotPrefix(s).value.0;
    assert slot == Slot(DigitValue(s[0]), position, notch);
    JoinFields(s, ShowNumber(slot.rotor), ShowNumber(position), ShowNumber(notch), rest, rest');
  }

  /** Reassembles `R:P:N` from its pieces as the slot matcher takes them apart. */
  lemma JoinFields(s: string, r: string, p: string, q: string, rest: string, rest': string)
    requires |s| >= 2 && s[1] == ':' && r == [s[0]]
    requires s[2..] == p + rest && |rest| >= 1 && rest[0] == ':' && rest[1..] == q + rest'
    ensures s == r + ":" + p + ":" + q + rest'
  {
    assert rest == ":" + q + rest';
    assert s == r + ":" + s[2..];
  }

  lemma NextSlotShow(slot: Slot, rest: string)
    requires slot.InRange() && EndsNumber(rest)
    ensures NextSlot("," + ShowSlot(slot) + rest) == Some((slot, rest))
  {
    assert ("," + ShowSlot(slot) + rest)[1..] == ShowSlot(slot) + rest;
    SlotShow(slot, rest);
  }

  lemma NextSlotSound(s: string)
    requires NextSlot(s).Some?
    ensures NextSlot(s).value.0.InRange()
    ensures s == "," + ShowSlot(NextSlot(s).value.0) + NextSlot(s).value.1
  {
    var t := s[1..];
    assert NextSlot(s) == SlotPrefix(t);
    SlotSound(t);
    var (slot, rest) := SlotPrefix(t).value;
    assert s == "," + t;
    assert t == ShowSlot(slot) + rest;
    assert s == "," + ShowSlot(slot) + rest;
  }

  /** The whole pattern matches once its three slot matches do. */
  lemma GrammarOf(s: string, a: Slot, r1: string, b: Slot, r2: string, c: Slot)
    requires SlotPrefix(s) == Some((a, r1))
    requires NextSlot(r1) == Some((b, r2)) && NextSlot(r2) == Some((c, []))
    ensures Grammar(s) == Some([a, b, c])
  {
  }

  /** Every configuration's string is accepted by the pattern and read back
      as that configuration. */
  lemma GrammarFormat(config: seq<Slot>)
    requires IsConfig(config)
    ensures Grammar(Format(config)) == Some(config)
  {
    var a, b, c := config[0], config[1], config[2];
    var x, y, z := ShowSlot(a), ShowSlot(b), ShowSlot(c);
    var r2 := "," + z + [];
    var r1 := "," + y + r2;
    JoinSlots(x, y, z, r1, r2);
    SlotShow(a, r1);
    NextSlotShow(b, r2);
    NextSlotShow(c, []);
    GrammarOf(Format(config), a, r1, b, r2, c);
    ThreeSlots(config);
  }

  lemma ConfigOf(a: Slot, b: Slot, c: Slot)
    requires a.InRange() && b.InRange() && c.InRange()
    ensures IsConfig([a, b, c])
  {
    var config := [a, b, c];
    assert config[0] == a && config[1] == b && config[2] == c;
  }

  lemma ThreeSlots(config: seq<Slot>)
    requires |config| == 3
    ensures config == [config[0], config[1], config[2]]
  {
  }

  /** The selection string split after its first slot. */
  lemma JoinSlots(x: string, y: string, z: string, r1: string, r2: string)
    requires r1 == "," + y + r2 && r2 == "," + z + []
    ensures x + r1 == x + "," + y + "," + z
  {
    assert r2 == "," + z;
  }

  /** Everything the pattern accepts is the string of an in-range
      configuration. */
  lemma GrammarSound(s: string)
    requires Grammar(s).Some?
    ensures IsConfig(Grammar(s).value) && s == Format(Grammar(s).value)
  {
    var (a, r1) := SlotPrefix(s).value;
    SlotSound(s);
    var (b, r2) := NextSlot(r1).value;
    NextSlotSound(r1);
    var (c, r3) := NextSlot(r2).value;
    NextSlotSound(r2);
    var config := [a, b, c];
    assert Grammar(s).value == config;
    ConfigOf(a, b, c);
    assert r2 == "," + ShowSlot(c) + [];
    JoinSlots(ShowSlot(a), ShowSlot(b), ShowSlot(c), r1, r2);
  }

  /** A well-formed selection is accepted exactly when its rotors are
      distinct, and is otherwise refused for reusing a rotor. */
  lemma ParseFormat(config: seq<Slot>)
    requires IsConfig(config)
    ensures ParseSelection(Format(config)) == if DistinctRotors(config) then Success(config) else Failure(RotorUsedTwice)
  {
    GrammarFormat(config);
  }

  /** A selection is refused as an incorrect configuration exactly when no
      in-range configuration is spelled that way. */
  lemma IncorrectExactlyOutsidePattern(s: string)
    ensures ParseSelection(s) == Failure(IncorrectRotorConfig) <==> forall config :: IsConfig(config) ==> Format(config) != s
  {
    if ParseSelection(s) == Failure(IncorrectRotorConfig) {
      forall config | IsConfig(config)
        ensures Format(config) != s
      {
        ParseFormat(config);
      }
    } else {
      assert Grammar(s).Some?;
      GrammarSound(s);
    }
  }
}
