/** The registers of the PWM block: what the driver writes and how the hardware reads it. */
module PwmDevice {
  import opened Bits
  import opened PwmSearch
  import opened PwmDriver

  const PM_PWM_CTL_REG_OFFSET := 0x41
  const PM_PWM_SYNC_REG_OFFSET := 0x47
  const NUM_PWM_CTL_REGS := 5

  datatype Write = Write(offset: nat, value: bv8)

  /** The settings that a set of control registers means to the hardware. */
  datatype Settings = Settings(nineBits: bool, glitchRemoval: bool, clock: bv8, preDivide: bv8, exponent: bv8, value: bv16)

  function Read(ctl: seq<bv8>): Settings
    requires |ctl| == NUM_PWM_CTL_REGS
  {
    var nine := ctl[0] & 0x04 != 0;
    Settings(nine, ctl[2] & 0x20 != 0, ctl[0] & 0x03, (ctl[1] & 0x60) >> 5, ctl[1] & 0x07,
             if nine then ((ctl[4] & 0x01) as bv16 << 8) | ctl[3] as bv16 else (ctl[3] & 0x3F) as bv16)
  }

  /** What a register holds: the value written to it last. */
  function Register(writes: seq<Write>, offset: nat): bv8 {
    if writes == [] then 0
    else
      var last := writes[|writes| - 1];
      if last.offset == offset then last.value else Register(writes[..|writes| - 1], offset)
  }

  datatype Force = Nothing | Force(settings: Settings)

  /** The settings in force: those that the control registers held when bit 0 of the register
      at 0x47 was last written. */
  function InForce(writes: seq<Write>): Force {
    if writes == [] then Nothing
    else
      var last, init := writes[|writes| - 1], writes[..|writes| - 1];
      if last.offset == 0x47 && last.value & 0x01 != 0 then
        Force(Read([Register(init, 0x41), Register(init, 0x42), Register(init, 0x43), Register(init, 0x44), Register(init, 0x45)]))
      else InForce(init)
  }

  // The hardware's own tables.

  /** The frequency of the clock that the clock field selects. */
  function Hertz(field: bv8): nat {
    if field == 1 then 1024 else if field == 2 then 32_768 else if field == 3 then 19_200_000 else 0
  }

  function Divisor(field: bv8): nat {
    if field == 0 then 1 else if field == 1 then 3 else if field == 2 then 5 else 6
  }

  /** The clock ticks of a whole period: 64 or 512 steps, each of the divisor times a power of two. */
  function Ticks(s: Settings): nat {
    (if s.nineBits then 512 else 64) * (Divisor(s.preDivide) * Pow2(s.exponent as nat))
  }

  /** The period in nanoseconds that the hardware makes of its settings. */
  function HardwareNs(s: Settings): real
    requires Hertz(s.clock) > 0
  {
    Ticks(s) as real * (1_000_000_000.0 / Hertz(s.clock) as real)
  }

  /** A period below the limit is met to a quarter, the rounding of the driver, and a 625th for
      its table of clock periods in whole nanoseconds; one that is not is missed by half. */
  ghost predicate Met(periodUs: nat, ns: real) {
    var want := 1000.0 * periodUs as real;
    && (periodUs < 274_877_952 ==>
          && 4.0 * (ns - want) <= want + 3.0 * Lost(periodUs) as real + ns * 4.0 / 625.0
          && 4.0 * (want - ns) <= want + 3.0 * Lost(periodUs) as real)
    && (2.0 * ns >= want <==> periodUs < 274_877_952)
  }

  /** The driver's period and the hardware's. */
  lemma HardwareMet(periodUs: nat, best: Choice, s: Settings)
    requires Accepted(0, periodUs) && Best(Target(periodUs).1, best) && InRange(best)
    requires s.nineBits == (Target(periodUs).0 == 9) && s.clock == best.clk as bv8 + 1
    requires s.preDivide == best.div as bv8 && s.exponent == best.m as bv8
    ensures Hertz(s.clock) > 0 && Met(periodUs, HardwareNs(s))
  {
    hide Best, Programmed, Lost, Met, Target, Ticks, Hertz, Ref, Divisor, PreDivide, HardwareNs;
    ProgrammedIff(periodUs, best);
    FieldsMean(best);
    TicksAre(periodUs, best, s);
    ClockTable(best.clk, s.clock);
    NsBetween(s, Ref(best.clk));
    MetBy(periodUs, Programmed(periodUs, best), HardwareNs(s));
  }

  lemma NsBetween(s: Settings, ref: nat)
    requires Hertz(s.clock) > 0
    requires var tick := 1_000_000_000.0 / Hertz(s.clock) as real; ref as real <= tick && 625.0 * (tick - ref as real) <= tick
    ensures var driver := (Ticks(s) * ref) as real;
      driver <= HardwareNs(s) && 625.0 * (HardwareNs(s) - driver) <= HardwareNs(s)
  {
    hide Hertz, Ticks;
    Scaled(Ticks(s) as real, 1_000_000_000.0 / Hertz(s.clock) as real, ref as real);
    RealProduct(Ticks(s), ref);
  }

  lemma RealProduct(a: nat, b: nat)
    ensures (a * b) as real == a as real * b as real
  {
  }

  lemma MetBy(periodUs: nat, programmed: nat, ns: real)
    requires periodUs < WRAPS ==>
      4 * Distance(programmed, NSEC_PER_USEC * periodUs) <= NSEC_PER_USEC * periodUs + 3 * Lost(periodUs)
    requires 2 * programmed >= NSEC_PER_USEC * periodUs <==> periodUs < WRAPS
    requires periodUs >= WRAPS ==> 5 * programmed < 2 * NSEC_PER_USEC * periodUs
    requires programmed as real <= ns && 625.0 * (ns - programmed as real) <= ns
    ensures Met(periodUs, ns)
  {
    hide Lost;
  }

  lemma Scaled(q: real, tick: real, ref: real)
    requires q >= 0.0 && ref <= tick && 625.0 * (tick - ref) <= tick
    ensures q * ref <= q * tick && 625.0 * (q * tick - q * ref) <= q * tick
  {
    assert q * (tick - ref) >= 0.0;
    assert q * (tick - 625.0 * (tick - ref)) >= 0.0;
  }

  /** The driver's table holds the clock periods in whole nanoseconds. */
  lemma ClockTable(clk: nat, field: bv8)
    requires clk < 3 && field == clk as bv8 + 1
    ensures Hertz(field) > 0
    ensures var tick, ref := 1_000_000_000.0 / Hertz(field) as real, Ref(clk) as real;
      ref <= tick && 625.0 * (tick - ref) <= tick
  {
    if clk == 0 {
      assert field == 1;
    } else if clk == 1 {
      assert field == 2;
    } else {
      assert field == 3;
    }
  }

  lemma FieldsMean(c: Choice)
    requires InRange(c)
    ensures Divisor(c.div as bv8) == PreDivide(c.div) && (c.m as bv8) as nat == c.m
  {
    if c.div == 0 {
      assert c.div as bv8 == 0;
    } else if c.div == 1 {
      assert c.div as bv8 == 1;
    } else if c.div == 2 {
      assert c.div as bv8 == 2;
    } else {
      assert c.div as bv8 == 3;
    }
  }

  lemma TicksAre(periodUs: nat, c: Choice, s: Settings)
    requires s.nineBits == (Target(periodUs).0 == 9)
    requires Divisor(s.preDivide) == PreDivide(c.div) && s.exponent as nat == c.m
    ensures Programmed(periodUs, c) == Ticks(s) * Ref(c.clk)
  {
    var n, d, p, r := Steps(Target(periodUs).0), PreDivide(c.div), Pow2(c.m), Ref(c.clk);
    hide Target, Pow2, Ref, PreDivide, Divisor;
    assert d * r * p == d * p * r;
    assert n * (d * p * r) == n * (d * p) * r;
  }

  /** The exact number of steps or one more, limited to what the size can hold. */
  ghost predicate NearestSteps(size: int, periodUs: nat, dutyUs: nat, value: nat)
    requires 0 < periodUs
  {
    var exact, most := Exact(size, periodUs, dutyUs), Steps(size) - 1;
    value <= most && (value == exact || value == exact + 1 || value == most <= exact)
  }

  lemma BestInRange(p: nat, best: Choice)
    requires Best(p, best)
    ensures InRange(best)
  {
  }

  lemma NarrowFits(clk: nat, div: nat, m: nat)
    requires clk < 3 && div < 4 && m < 8
    ensures clk as bv8 < 3 && div as bv8 < 4 && m as bv8 < 8
  {
  }

  lemma ValueFits(value: nat)
    requires value < 512
    ensures value as bv16 < 512
    ensures value < 64 ==> value as bv16 < 64
  {
  }

  /** The value that goes with a duty cycle: the exact number of steps or one more, limited to
      what the size can hold. */
  method CalcPwmValue(size: int, periodUs: nat, dutyUs: nat) returns (value: nat)
    requires (size == 6 || size == 9) && 0 < periodUs < WORD && dutyUs <= periodUs
    ensures value < Steps(size)
    ensures value == Quotient(size, periodUs, dutyUs) || value == Steps(size) - 1 <= Quotient(size, periodUs, dutyUs)
    ensures NearestSteps(size, periodUs, dutyUs, value)
  {
    hide Quotient, Exact;
    QuotientNear(size, periodUs, dutyUs);
    value := Divide(size, periodUs, dutyUs);
    var maxPwmValue := Steps(size) - 1;
    if value > maxPwmValue {
      value := maxPwmValue;
    }
  }

  /** The two ways to divide; neither overflows 32 bits or divides by zero. */
  method Divide(size: int, periodUs: nat, dutyUs: nat) returns (value: nat)
    requires (size == 6 || size == 9) && 0 < periodUs < WORD && dutyUs <= periodUs
    ensures value == Quotient(size, periodUs, dutyUs)
  {
    assert WORD / Steps(size) == if size == 9 then 0x80_0000 else 0x400_0000;
    var tmp := if size == 9 then 0x80_0000 else 0x400_0000;
    if dutyUs < tmp {
      tmp := dutyUs * Steps(size) % WORD;
      value := tmp / periodUs;
    } else {
      tmp := periodUs / Steps(size);
      value := dutyUs / tmp;
    }
  }

  /** One more than the exact value does occur. */
  lemma OneMoreOccurs()
    ensures Exact(9, 20_480_511, 16_000_000) == 399 && Quotient(9, 20_480_511, 16_000_000) == 400
  {
  }

  class Pwm {
    /** The writes to the registers of the block. */
    var writes: seq<Write>

    constructor ()
      ensures writes == []
    {
      writes := [];
    }

    method RegWrite(offset: nat, value: bv8)
      modifies this
      ensures writes == old(writes) + [Write(offset, value)]
    {
      writes := writes + [Write(offset, value)];
    }

    /** The control registers are written first, in order, and then the one that makes them
        take effect; they read back as the configuration. */
    method ConfigRegs(nine: bool, clk: bv8, preDiv: bv8, exponent: bv8, value: bv16, unset: bv8) returns (ctl: seq<bv8>)
      requires clk < 3 && preDiv < 4 && exponent < 8 && value < if nine then 512 else 64
      modifies this
      ensures |ctl| == NUM_PWM_CTL_REGS && Read(ctl) == Settings(nine, true, clk + 1, preDiv, exponent, value)
      ensures writes == old(writes) + ControlWrites(ctl) + [Write(PM_PWM_SYNC_REG_OFFSET, 1)]
    {
      hide Read;
      var pwmCtl := new bv8[NUM_PWM_CTL_REGS](_ => unset);
      var reg: bv8 := (if nine then 1 << 2 else 0 << 2) & 0x04;
      reg := reg | ((clk + 1) & 0x03);
      pwmCtl[0] := reg;
      reg := (preDiv << 5) & 0x60;
      reg := reg | (exponent & 0x07);
      pwmCtl[1] := reg;
      pwmCtl[2] := (1 << 5) & 0x20;
      if nine {
        pwmCtl[3] := Low8(value & 0xFF);
        pwmCtl[4] := Low8((value >> 8) & 0x01);
      } else {
        pwmCtl[3] := Low8(value & 0x3F);
      }
      ctl := pwmCtl[..];
      PackedReads(nine, clk, preDiv, exponent, value, ctl);
      WriteControls(ctl);
      RegWrite(PM_PWM_SYNC_REG_OFFSET, 1);
    }

    /** A request that is accepted programs the best divider for its period and the number of
        steps for its duty cycle; with the settings then in force the hardware meets the period
        exactly below the limit. One that is refused writes nothing. */
    method Configure(dutyUs: nat, periodUs: nat, unset: bv8) returns (ret: int, ghost best: Choice, ghost value: nat)
      requires dutyUs < WORD && periodUs < WORD
      modifies this
      ensures ret == if Accepted(dutyUs, periodUs) then 0 else -1
      ensures ret == 0 <==> dutyUs <= periodUs && 7 <= periodUs <= 384_000_000
      ensures ret != 0 ==> writes == old(writes)
      ensures ret == 0 ==>
        && Best(Target(periodUs).1, best) && best.clk < 3 && best.div < 4 && best.m < 8 && value < 512
        && NearestSteps(Target(periodUs).0, periodUs, dutyUs, value)
        && exists ctl: seq<bv8> ::
          && |ctl| == NUM_PWM_CTL_REGS
          && writes == old(writes) + ControlWrites(ctl) + [Write(PM_PWM_SYNC_REG_OFFSET, 1)]
          && Read(ctl) == Settings(Target(periodUs).0 == 9, true, best.clk as bv8 + 1, best.div as bv8, best.m as bv8, value as bv16)
      ensures ret == 0 ==>
        && InForce(writes).Force?
        && var s := InForce(writes).settings;
        && Hertz(s.clock) > 0 && Met(periodUs, HardwareNs(s))
        && s.value == value as bv16 && s.nineBits == (Target(periodUs).0 == 9) && s.glitchRemoval
    {
      hide Read, ControlWrites, FirstMin, Units, Quotient, Exact, Register, InForce, Hertz, Met, HardwareNs;
      value := 0;
      best := Choice(0, 0, 0);
      if dutyUs > periodUs || periodUs > PM_PWM_PERIOD_MAX || periodUs < PM_PWM_PERIOD_MIN {
        return -1, best, value;
      }
      var size, choice := CalcPeriod(periodUs);
      var v := CalcPwmValue(size, periodUs, dutyUs);
      best, value := choice, v;
      BestInRange(Target(periodUs).1, best);
      NarrowFits(best.clk, best.div, best.m);
      ValueFits(value);
      var ctl := ConfigRegs(size == 9, choice.clk as bv8, choice.div as bv8, choice.m as bv8, v as bv16, unset);
      ControlsInForce(old(writes), ctl);
      HardwareMet(periodUs, best, Read(ctl));
      ret := 0;
    }

    method WriteControls(ctl: seq<bv8>)
      requires |ctl| == NUM_PWM_CTL_REGS
      modifies this
      ensures writes == old(writes) + ControlWrites(ctl)
    {
      for i := 0 to NUM_PWM_CTL_REGS
        invariant writes == old(writes) + ControlWrites(ctl)[..i]
      {
        assert ControlWrites(ctl)[..i + 1] == ControlWrites(ctl)[..i] + [Write(PM_PWM_CTL_REG_OFFSET + i, ctl[i])];
        RegWrite(PM_PWM_CTL_REG_OFFSET + i, ctl[i]);
      }
    }
  }

  ghost function ControlWrites(ctl: seq<bv8>): (r: seq<Write>)
    ensures |r| == |ctl|
  {
    seq(|ctl|, i requires 0 <= i < |ctl| => Write(PM_PWM_CTL_REG_OFFSET + i, ctl[i]))
  }

  /** The control registers hold what was written to them. */
  lemma {:induction false} RegisterHolds(before: seq<Write>, ctl: seq<bv8>, k: nat, i: nat)
    requires i < k <= |ctl|
    ensures Register(before + ControlWrites(ctl)[..k], 0x41 + i) == ctl[i]
    decreases k
  {
    var w := before + ControlWrites(ctl)[..k];
    assert w[|w| - 1] == ControlWrites(ctl)[k - 1];
    assert w[..|w| - 1] == before + ControlWrites(ctl)[..k - 1];
    if i < k - 1 {
      RegisterHolds(before, ctl, k - 1, i);
    }
  }

  /** After the control writes and the one that follows them, their settings are in force. */
  lemma ControlsInForce(before: seq<Write>, ctl: seq<bv8>)
    requires |ctl| == NUM_PWM_CTL_REGS
    ensures InForce(before + ControlWrites(ctl) + [Write(PM_PWM_SYNC_REG_OFFSET, 1)]) == Force(Read(ctl))
  {
    var init := before + ControlWrites(ctl);
    var w := init + [Write(PM_PWM_SYNC_REG_OFFSET, 1)];
    assert w[..|w| - 1] == init && w[|w| - 1] == Write(PM_PWM_SYNC_REG_OFFSET, 1);
    assert ControlWrites(ctl)[..5] == ControlWrites(ctl);
    hide Register, ControlWrites, Read;
    forall i | 0 <= i < 5
      ensures Register(init, 0x41 + i) == ctl[i]
    {
      RegisterHolds(before, ctl, 5, i);
    }
    assert [Register(init, 0x41), Register(init, 0x42), Register(init, 0x43), Register(init, 0x44), Register(init, 0x45)] == ctl;
  }

  /** The low byte of a half word. */
  function Low8(x: bv16): bv8 {
    (x & 0xFF) as bv8
  }

  lemma PackedReads(nine: bool, clk: bv8, preDiv: bv8, exponent: bv8, value: bv16, ctl: seq<bv8>)
    requires clk < 3 && preDiv < 4 && exponent < 8 && value < if nine then 512 else 64
    requires |ctl| == NUM_PWM_CTL_REGS
    requires ctl[0] == ((if nine then 1 << 2 else 0 << 2) & 0x04) | ((clk + 1) & 0x03)
    requires ctl[1] == ((preDiv << 5) & 0x60) | (exponent & 0x07)
    requires ctl[2] == (1 << 5) & 0x20
    requires ctl[3] == if nine then Low8(value & 0xFF) else Low8(value & 0x3F)
    requires nine ==> ctl[4] == Low8((value >> 8) & 0x01)
    ensures Read(ctl) == Settings(nine, true, clk + 1, preDiv, exponent, value)
  {
    if nine {
      NineBits(value);
    } else {
      SixBits(value);
    }
    SizeAndClock(nine, clk);
    Divider(preDiv, exponent);
    hide Low8;
  }

  lemma SizeAndClock(nine: bool, clk: bv8)
    requires clk < 3
    ensures var r: bv8 := ((if nine then 1 << 2 else 0 << 2) & 0x04) | ((clk + 1) & 0x03);
      (r & 0x04 != 0) == nine && r & 0x03 == clk + 1
  {
  }

  lemma Divider(preDiv: bv8, exponent: bv8)
    requires preDiv < 4 && exponent < 8
    ensures var r := ((preDiv << 5) & 0x60) | (exponent & 0x07);
      (r & 0x60) >> 5 == preDiv && r & 0x07 == exponent
  {
  }

  lemma NineBits(value: bv16)
    requires value < 512
    ensures ((Low8((value >> 8) & 0x01) & 0x01) as bv16 << 8) | Low8(value & 0xFF) as bv16 == value
  {
  }

  lemma SixBits(value: bv16)
    requires value < 64
    ensures (Low8(value & 0x3F) & 0x3F) as bv16 == value
  {
  }
}
