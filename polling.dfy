/** The poll/send task (hid_task and the state handling of send_hid_report):
    the two statics kept across calls, `start_ms` and `has_gamepad_key`, and
    what one call does with the time, the transport flags and the buttons.
    The transport is outside the model: tud_suspended() and tud_hid_ready()
    arrive as inputs, and what the firmware hands to it (tud_hid_report,
    tud_remote_wakeup) is recorded as a list of effects. */
module Polling {
  import opened GamepadReport
  import opened ButtonSampler
  import opened ReportEncoder

  /** uint32_t, the type of board_millis() and start_ms. */
  const Modulus: int := 0x1_0000_0000
  newtype Uint32 = x: int | 0 <= x < 0x1_0000_0000

  /** uint32_t subtraction: wraps around modulo 2^32. */
  function Sub(a: Uint32, b: Uint32): (d: Uint32)
    ensures d as int == (a as int - b as int) % Modulus
  {
    if a >= b then a - b else (a as int - b as int + Modulus) as Uint32
  }

  /** uint32_t addition: wraps around modulo 2^32. */
  function Add(a: Uint32, b: Uint32): (d: Uint32)
    ensures d as int == (a as int + b as int) % Modulus
  {
    if a as int + b as int < Modulus then (a as int + b as int) as Uint32
    else (a as int + b as int - Modulus) as Uint32
  }

  /** The unsigned difference measures the time since `start` even when the
      clock has wrapped past 2^32 in between. */
  lemma ElapsedAcrossWrap(start: Uint32, d: Uint32)
    ensures Sub(Add(start, d), start) == d
  {
  }

  /** interval_ms: the poll period, 5 ms. */
  const IntervalMs: Uint32 := 5

  /** What one call hands to the USB stack. */
  datatype Effect = SendReport(report: Report) | RemoteWakeup

  /** start_ms (uint32) and has_gamepad_key. */
  datatype TaskState = TaskState(startMs: Uint32, hasGamepadKey: bool)

  /** The statics as the firmware starts. */
  const Boot := TaskState(0, false)

  /** What one call of hid_task reads from outside: board_millis(),
      tud_suspended(), tud_hid_ready(), and the sampled button mask. */
  datatype Tick = Tick(now: Uint32, suspended: bool, ready: bool, btn: bv32)

  /** A mask as getButtonsPressed produces it: nothing above bit 14. */
  predicate SampledMask(btn: bv32) {
    btn & !AllButtons == 0
  }

  /** The statics after a call and what the call handed to the stack. */
  datatype Outcome = Outcome(state: TaskState, effects: seq<Effect>)

  /** Whether the interval has not yet passed since `start_ms`; the
      subtraction wraps like uint32 arithmetic. */
  predicate TooEarly(s: TaskState, now: Uint32) {
    Sub(now, s.startMs) < IntervalMs
  }

  /** send_hid_report: nothing when the transport is not ready; otherwise a
      nonzero mask sends its report and sets the flag, and a zero mask clears
      the flag, sending the idle report only if the flag was set. */
  function SendHidReportStep(s: TaskState, ready: bool, btn: bv32): (o: Outcome)
    ensures o.state.startMs == s.startMs
    ensures !ready ==> o == Outcome(s, [])
    ensures ready ==> o.state.hasGamepadKey == (btn != 0)
    ensures ready && btn != 0 ==> o.effects == [SendReport(BuildReport(btn))]
    ensures ready && btn == 0 ==> o.effects == if s.hasGamepadKey then [SendReport(IdleReport)] else []
  {
    if !ready then
      Outcome(s, [])
    else if btn != 0 then
      Outcome(s.(hasGamepadKey := true), [SendReport(BuildReport(btn))])
    else
      Outcome(s.(hasGamepadKey := false), if s.hasGamepadKey then [SendReport(IdleReport)] else [])
  }

  /** hid_task: before the interval has passed nothing happens; otherwise
      `start_ms` advances by exactly the interval (mod 2^32), and a pressed
      button while suspended requests a wakeup instead of a report. */
  function HidTaskStep(s: TaskState, t: Tick): (o: Outcome)
    ensures TooEarly(s, t.now) ==> o == Outcome(s, [])
    ensures !TooEarly(s, t.now) ==> o.state.startMs == Add(s.startMs, IntervalMs)
    ensures !TooEarly(s, t.now) && t.suspended && t.btn != 0 ==>
              o.effects == [RemoteWakeup] && o.state.hasGamepadKey == s.hasGamepadKey
    ensures !TooEarly(s, t.now) && !(t.suspended && t.btn != 0) ==>
              o == SendHidReportStep(s.(startMs := Add(s.startMs, IntervalMs)), t.ready, t.btn)
    ensures |o.effects| <= 1
    ensures RemoteWakeup in o.effects ==> t.suspended && t.btn != 0
    ensures (exists r :: SendReport(r) in o.effects) ==> t.ready
  {
    if TooEarly(s, t.now) then
      Outcome(s, [])
    else
      var s1 := s.(startMs := Add(s.startMs, IntervalMs));
      if t.suspended && t.btn != 0 then Outcome(s1, [RemoteWakeup])
      else SendHidReportStep(s1, t.ready, t.btn)
  }

  /** The calls of hid_task over a sequence of ticks, effects in order. */
  function Run(s: TaskState, ticks: seq<Tick>): Outcome
    decreases |ticks|
  {
    if ticks == [] then Outcome(s, [])
    else
      var o := Run(s, ticks[..|ticks| - 1]);
      var last := HidTaskStep(o.state, ticks[|ticks| - 1]);
      Outcome(last.state, o.effects + last.effects)
  }

  /** Whether the last report handed to the stack was for a pressed button:
      the meaning of has_gamepad_key. */
  function LastSentPressed(effects: seq<Effect>): bool
    decreases |effects|
  {
    if effects == [] then false
    else match effects[|effects| - 1]
      case SendReport(r) => r != IdleReport
      case RemoteWakeup => LastSentPressed(effects[..|effects| - 1])
  }

  lemma LastSentPressedAppend(prior: seq<Effect>, more: seq<Effect>)
    requires |more| <= 1
    ensures more == [] ==> LastSentPressed(prior + more) == LastSentPressed(prior)
    ensures more == [RemoteWakeup] ==> LastSentPressed(prior + more) == LastSentPressed(prior)
    ensures forall r :: more == [SendReport(r)] ==> LastSentPressed(prior + more) == (r != IdleReport)
  {
    if more != [] {
      assert (prior + more)[..|prior + more| - 1] == prior;
    } else {
      assert prior + more == prior;
    }
  }

  /** One call keeps has_gamepad_key equal to "the last report sent was for
      a pressed button", provided the mask has no bit above the buttons. */
  lemma StepKeepsFlagMeaning(s: TaskState, t: Tick, prior: seq<Effect>)
    requires s.hasGamepadKey == LastSentPressed(prior)
    requires SampledMask(t.btn)
    ensures HidTaskStep(s, t).state.hasGamepadKey == LastSentPressed(prior + HidTaskStep(s, t).effects)
  {
    var o := HidTaskStep(s, t);
    LastSentPressedAppend(prior, o.effects);
    if !TooEarly(s, t.now) && !(t.suspended && t.btn != 0) && t.ready && t.btn != 0 {
      BuildReportIdleIff(t.btn);
    }
  }

  /** has_gamepad_key is true exactly when the last report sent since boot
      was for a pressed button, whatever the sequence of calls. */
  lemma {:induction false} FlagMeaningFromBoot(ticks: seq<Tick>)
    requires forall k :: 0 <= k < |ticks| ==> SampledMask(ticks[k].btn)
    ensures Run(Boot, ticks).state.hasGamepadKey == LastSentPressed(Run(Boot, ticks).effects)
    decreases |ticks|
  {
    if ticks != [] {
      var init, t := ticks[..|ticks| - 1], ticks[|ticks| - 1];
      assert ticks == init + [t];
      FlagMeaningFromBoot(init);
      RunSnoc(Boot, init, t);
      StepKeepsFlagMeaning(Run(Boot, init).state, t, Run(Boot, init).effects);
    }
  }

  /** Calls that all see no button pressed send at most one report, the idle
      one, and never a wakeup; with the flag clear at the start they send
      nothing at all. */
  lemma {:induction false} IdleRunSendsAtMostOne(s: TaskState, ticks: seq<Tick>)
    requires forall k :: 0 <= k < |ticks| ==> ticks[k].btn == 0
    ensures Run(s, ticks).effects == [] || Run(s, ticks).effects == [SendReport(IdleReport)]
    ensures Run(s, ticks).effects != [] ==> !Run(s, ticks).state.hasGamepadKey
    ensures !s.hasGamepadKey ==> Run(s, ticks).effects == [] && !Run(s, ticks).state.hasGamepadKey
    decreases |ticks|
  {
    if ticks != [] {
      var init := ticks[..|ticks| - 1];
      IdleRunSendsAtMostOne(s, init);
      var o := Run(s, init);
      var last := HidTaskStep(o.state, ticks[|ticks| - 1]);
      assert ticks[|ticks| - 1].btn == 0;
      assert o.effects != [] ==> last.effects == [];
      assert Run(s, ticks).effects == o.effects + last.effects;
    }
  }

  /** No press since boot: an idle run from boot sends nothing. */
  lemma IdleFromBootSendsNothing(ticks: seq<Tick>)
    requires forall k :: 0 <= k < |ticks| ==> ticks[k].btn == 0
    ensures Run(Boot, ticks).effects == []
  {
    IdleRunSendsAtMostOne(Boot, ticks);
  }

  /** One more call after a run. */
  lemma RunSnoc(s: TaskState, ticks: seq<Tick>, t: Tick)
    ensures Run(s, ticks + [t]).state == HidTaskStep(Run(s, ticks).state, t).state
    ensures Run(s, ticks + [t]).effects == Run(s, ticks).effects + HidTaskStep(Run(s, ticks).state, t).effects
  {
    assert (ticks + [t])[..|ticks|] == ticks;
  }

  /** Two calls in a row: the effects of the first, then those of the
      second from the state the first left. */
  lemma RunTwo(s: TaskState, a: Tick, b: Tick)
    ensures Run(s, [a, b]).state == HidTaskStep(HidTaskStep(s, a).state, b).state
    ensures Run(s, [a, b]).effects == HidTaskStep(s, a).effects + HidTaskStep(HidTaskStep(s, a).state, b).effects
  {
    RunSnoc(s, [], a);
    assert [] + [a] == [a];
    RunSnoc(s, [a], b);
    assert [a] + [b] == [a, b];
  }

  /** A press then a release, each on a call after the interval has passed,
      with the host awake and the transport ready, sends exactly the pressed
      report then the idle one. */
  lemma PressThenRelease(s: TaskState, press: Tick, release: Tick)
    requires !TooEarly(s, press.now) && press.ready && !press.suspended && press.btn != 0
    requires !TooEarly(s.(startMs := Add(s.startMs, IntervalMs)), release.now) && release.ready && release.btn == 0
    ensures Run(s, [press, release]).effects == [SendReport(BuildReport(press.btn)), SendReport(IdleReport)]
  {
    RunTwo(s, press, release);
    PressStep(s, press);
    var mid := s.(startMs := Add(s.startMs, IntervalMs), hasGamepadKey := true);
    assert TooEarly(mid, release.now) == TooEarly(s.(startMs := Add(s.startMs, IntervalMs)), release.now);
    ReleaseStep(mid, release);
    var pressed := SendReport(BuildReport(press.btn));
    assert HidTaskStep(s, press).state == mid;
    assert Run(s, [press, release]).effects == [pressed] + [SendReport(IdleReport)];
  }

  /** A call past the interval, awake and ready, with a button pressed. */
  lemma PressStep(s: TaskState, t: Tick)
    requires !TooEarly(s, t.now) && t.ready && !t.suspended && t.btn != 0
    ensures HidTaskStep(s, t).state == s.(startMs := Add(s.startMs, IntervalMs), hasGamepadKey := true)
    ensures HidTaskStep(s, t).effects == [SendReport(BuildReport(t.btn))]
  {
  }

  /** A call past the interval, ready, with nothing pressed, after a press. */
  lemma ReleaseStep(s: TaskState, t: Tick)
    requires s.hasGamepadKey
    requires !TooEarly(s, t.now) && t.ready && t.btn == 0
    ensures HidTaskStep(s, t).effects == [SendReport(IdleReport)]
  {
  }

  /** The two statics of hid_task and send_hid_report, with the effects they
      have handed to the USB stack so far. */
  class HidState {
    var startMs: Uint32
    var hasGamepadKey: bool
    ghost var effects: seq<Effect>

    function State(): TaskState
      reads this
    {
      TaskState(startMs, hasGamepadKey)
    }

    /** has_gamepad_key says whether the last report sent was for a pressed
        button. */
    ghost predicate Valid()
      reads this
    {
      hasGamepadKey == LastSentPressed(effects)
    }

    constructor ()
      ensures State() == Boot && effects == [] && Valid()
    {
      startMs := 0;
      hasGamepadKey := false;
      effects := [];
    }

    method SendHidReport(btn: bv32, ready: bool)
      modifies this
      ensures State() == SendHidReportStep(old(State()), ready, btn).state
      ensures effects == old(effects) + SendHidReportStep(old(State()), ready, btn).effects
      ensures old(Valid()) && SampledMask(btn) ==> Valid()
    {
      LastSentPressedAppend(effects, SendHidReportStep(State(), ready, btn).effects);
      if ready && btn != 0 {
        BuildReportIdleIff(btn);
      }
      if !ready {
        return;
      }
      if btn != 0 {
        var report := BuildReport(btn);
        effects := effects + [SendReport(report)];
        hasGamepadKey := true;
      } else {
        var report := IdleReport;
        if hasGamepadKey {
          effects := effects + [SendReport(report)];
        }
        hasGamepadKey := false;
      }
    }

    method HidTask(now: Uint32, suspended: bool, ready: bool, gpio: nat -> bool)
      requires Valid()
      modifies this
      ensures Valid()
      ensures State() == HidTaskStep(old(State()), Tick(now, suspended, ready, GetButtonsPressed(gpio))).state
      ensures effects == old(effects) + HidTaskStep(old(State()), Tick(now, suspended, ready, GetButtonsPressed(gpio))).effects
    {
      ghost var t := Tick(now, suspended, ready, GetButtonsPressed(gpio));
      StepKeepsFlagMeaning(State(), t, effects);
      if TooEarly(State(), now) {
        return;
      }
      startMs := Add(startMs, IntervalMs);
      var btn := GetButtonsPressed(gpio);
      if suspended && btn != 0 {
        effects := effects + [RemoteWakeup];
      } else {
        SendHidReport(btn, ready);
      }
    }
  }
}
