/** Byte accounting for the TLS 1.3 KeyUpdate message (section 4.6.3 of RFC 8446).
    The TLS library, the clock and the negotiated version are inputs; the counter,
    the limits and the decision to send the message are the model. */
module KeyUpdate {
  import opened Common

  const MIN_TIME: U32 := 1
  const MAX_TIME: U32 := 31536000
  const DEFAULT_TIME: U32 := 3600
  const MIN_TRAFFIC: U64 := 1000
  const DEFAULT_TRAFFIC: U64 := 0x4000_0000

  datatype Limits = Limits(enabled: bool, interval: U32, traffic: U64)

  datatype Meter = Meter(total: U64, lastTime: U64, updates: U32, lastOk: bool)

  /** What the TLS library answers to a write and to a key update. */
  datatype WriteResult = Wrote(len: U32) | WouldBlock | Broken
  datatype UpdateResult = Updated | NotFinished | Refused

  function UpdateStatus(r: UpdateResult): Status {
    match r
    case Updated => Success
    case NotFinished => InitNotFinished
    case Refused => KeyUpdateFailed
  }

  // ---------------------------------------------------------------- specification, over the integers

  datatype Check = Check(status: Status, needed: bool, total: U64)

  /** Counting `len` bytes at time `now`: the counter saturates, reaching the threshold asks
      for an update, and otherwise the clock decides. */
  function CheckSpec(limits: Limits, m: Meter, tls13: bool, len: U32, now: U64): Check {
    var sum := m.total + len;
    var counted := Min(U64_MAX, sum);
    if !tls13 then Check(Success, false, m.total)
    else if sum >= limits.traffic then Check(Success, true, counted)
    else if now < m.lastTime then Check(SystemTimeError, false, counted)
    else Check(Success, now - m.lastTime >= limits.interval, counted)
  }

  // A successful update resets the time stamp to 0, not to the current time.
  function MeterAfterUpdate(m: Meter, r: UpdateResult): Meter {
    if r == Updated then m.(total := 0, lastTime := 0, lastOk := true) else m
  }

  function WriteSpec(limits: Limits, m: Meter, w: WriteResult, tls13: bool, now: U64, r: UpdateResult): (Meter, Status) {
    match w
    case WouldBlock => (m, WantWrite)
    case Broken => (m, WriteFailed)
    case Wrote(len) =>
      if !limits.enabled then (m, Success)
      else
        var check := CheckSpec(limits, m, tls13, len, now);
        var counted := m.(total := check.total);
        if check.status == Success && check.needed then (MeterAfterUpdate(counted, r), UpdateStatus(r))
        else (counted, check.status)
  }

  // The counter is cleared and stamped before the library is asked.
  function ForceSpec(m: Meter, clock: Option<U64>, r: UpdateResult): (Meter, Status) {
    match clock
    case None => (m, SystemTimeError)
    case Some(now) =>
      var updated := MeterAfterUpdate(m.(total := 0, lastTime := now), r).(lastOk := r == Updated);
      (if r == Updated then updated.(updates := WrapU32(m.updates + 1)) else updated, UpdateStatus(r))
  }

  // The enable flag is stored before the numbers are validated.
  function SetParamSpec(limits: Limits, enable: bool, interval: U32, traffic: U64): (Limits, Status) {
    var switched := limits.(enabled := enable);
    if !enable then (switched, Success)
    else if interval < MIN_TIME || interval > MAX_TIME || traffic < MIN_TRAFFIC then (switched, SetUpdateParam)
    else (Limits(enable, interval, traffic), Success)
  }

  /** A refused call leaves the limits alone but switches automatic updates on, so it changes
      nothing exactly when they were on already. Only a call to enable is refused. */
  lemma RefusedCallSwitchesOn(limits: Limits, enable: bool, interval: U32, traffic: U64)
    ensures var (after, status) := SetParamSpec(limits, enable, interval, traffic);
            status != Success ==>
              enable && after == limits.(enabled := true) && (after == limits <==> limits.enabled)
  {
  }

  function Remaining(limits: Limits, m: Meter): U64 {
    if limits.traffic > m.total then limits.traffic - m.total else 0
  }

  predicate ValidLimits(limits: Limits) {
    MIN_TIME <= limits.interval <= MAX_TIME && MIN_TRAFFIC <= limits.traffic
  }

  // ---------------------------------------------------------------- every answer

  /** A check of a TLS 1.3 write, by the threshold and otherwise by the clock, for every stamp. */
  lemma CheckAnswersExactly(limits: Limits, m: Meter, tls13: bool, len: U32, now: U64)
    ensures var c := CheckSpec(limits, m, tls13, len, now);
            && (c.needed <==> tls13 && (m.total + len >= limits.traffic || now >= m.lastTime + limits.interval))
            && c.status == (if tls13 && m.total + len < limits.traffic && now < m.lastTime then SystemTimeError else Success)
            && c.total == if tls13 then Min(U64_MAX, m.total + len) else m.total
  {
  }

  /** Every answer of a write, and the meter it leaves. The library is asked for an update
      exactly when automatic updates are on and the check asks for one. */
  lemma WriteAnswersExactly(limits: Limits, m: Meter, w: WriteResult, tls13: bool, now: U64, r: UpdateResult)
    ensures var (after, status) := WriteSpec(limits, m, w, tls13, now, r);
            var counts := w.Wrote? && limits.enabled && tls13;
            var reached := counts && m.total + w.len >= limits.traffic;
            var late := counts && !reached && now < m.lastTime;
            var asks := reached || (counts && !late && now - m.lastTime >= limits.interval);
            && status == (if w == WouldBlock then WantWrite
                          else if w == Broken then WriteFailed
                          else if late then SystemTimeError
                          else if asks && r == NotFinished then InitNotFinished
                          else if asks && r == Refused then KeyUpdateFailed
                          else Success)
            && after.updates == m.updates
            && (if asks && r == Updated then after.total == 0 && after.lastTime == 0 && after.lastOk
                else && after.total == (if counts then Min(U64_MAX, m.total + w.len) else m.total)
                     && after.lastTime == m.lastTime && after.lastOk == m.lastOk)
  {
  }

  /** Every answer of a forced update, and the meter it leaves. */
  lemma ForceAnswersExactly(m: Meter, clock: Option<U64>, r: UpdateResult)
    ensures var (after, status) := ForceSpec(m, clock, r);
            match clock
            case None => after == m && status == SystemTimeError
            case Some(now) =>
              && status == (match r case Updated => Success case NotFinished => InitNotFinished case Refused => KeyUpdateFailed)
              && after.total == 0 && after.lastTime == (if r == Updated then 0 else now)
              && after.updates == (m.updates + if r == Updated then 1 else 0) % 0x1_0000_0000
              && (after.lastOk <==> r == Updated)
  {
  }

  /** Every answer of a parameter change, and the limits it leaves: disabling keeps the numbers
      for later, and enabling takes the new ones exactly when both are in range. */
  lemma ParamAnswersExactly(limits: Limits, enable: bool, interval: U32, traffic: U64)
    ensures var (after, status) := SetParamSpec(limits, enable, interval, traffic);
            var proper := 1 <= interval <= 31536000 && traffic >= 1000;
            && status == (if enable && !proper then SetUpdateParam else Success)
            && after == if enable && proper then Limits(true, interval, traffic)
                        else Limits(enable, limits.interval, limits.traffic)
  {
  }

  /** What is reported as remaining is what the counter still lacks of the threshold. */
  lemma RemainingCompletes(limits: Limits, m: Meter)
    ensures Remaining(limits, m) + Min(m.total, limits.traffic) == limits.traffic
  {
  }

  // ---------------------------------------------------------------- the code

  class UpdateContext {
    var isNeedKeyUpdate: bool
    var keyUpdateTime: U32
    var keyUpdateTraffic: U64

    ghost function State(): Limits
      reads this
    {
      Limits(isNeedKeyUpdate, keyUpdateTime, keyUpdateTraffic)
    }

    constructor ()
      ensures State() == Limits(false, DEFAULT_TIME, DEFAULT_TRAFFIC) && ValidLimits(State())
    {
      isNeedKeyUpdate := false;
      keyUpdateTime := DEFAULT_TIME;
      keyUpdateTraffic := DEFAULT_TRAFFIC;
    }

    method SetKeyAutoUpdateParam(enable: bool, interval: U32, traffic: U64) returns (status: Status)
      modifies this
      ensures (State(), status) == SetParamSpec(old(State()), enable, interval, traffic)
      ensures old(ValidLimits(State())) ==> ValidLimits(State())
    {
      isNeedKeyUpdate := enable;
      if !enable {
        return Success;
      }
      if interval < MIN_TIME || interval > MAX_TIME || traffic < MIN_TRAFFIC || traffic > U64_MAX {
        return SetUpdateParam;
      }
      keyUpdateTime := interval;
      keyUpdateTraffic := traffic;
      status := Success;
    }
  }

  class SecureObject {
    const policyCtx: UpdateContext
    var totalSizeOfWriteData: U64
    var lastKeyUpdateTime: U64
    var totalKeyUpdateCnt: U32
    var isLastUpdateSuccess: bool

    ghost function State(): Meter
      reads this
    {
      Meter(totalSizeOfWriteData, lastKeyUpdateTime, totalKeyUpdateCnt, isLastUpdateSuccess)
    }

    constructor (ctx: UpdateContext, now: U64)
      ensures policyCtx == ctx && State() == Meter(0, now, 0, true)
    {
      policyCtx := ctx;
      totalSizeOfWriteData := 0;
      lastKeyUpdateTime := now;
      totalKeyUpdateCnt := 0;
      isLastUpdateSuccess := true;
    }

    method CheckTimeInterval(now: U64) returns (status: Status, isTime: bool)
      ensures status == (if now < lastKeyUpdateTime then SystemTimeError else Success)
      ensures isTime <==> now >= lastKeyUpdateTime + policyCtx.keyUpdateTime
    {
      if now < lastKeyUpdateTime {
        return SystemTimeError, false;
      }
      var relativeSec := WrapU64(now - lastKeyUpdateTime);
      return Success, relativeSec >= policyCtx.keyUpdateTime;
    }

    /** Every 64-bit operator below wraps as in C; the contract is over the integers, so
        none of them ever does. The second threshold test cannot succeed. */
    method CheckNeedKeyUpdate(tls13: bool, len: U32, now: U64) returns (status: Status, needed: bool)
      modifies this`totalSizeOfWriteData
      ensures Check(status, needed, totalSizeOfWriteData)
              == CheckSpec(old(policyCtx.State()), old(State()), tls13, len, now)
      ensures !tls13 ==> status == Success && !needed && totalSizeOfWriteData == old(totalSizeOfWriteData)
      ensures tls13 ==> totalSizeOfWriteData == Min(U64_MAX, old(totalSizeOfWriteData) + len)
      ensures tls13 && old(totalSizeOfWriteData) + len >= policyCtx.keyUpdateTraffic ==> status == Success && needed
      ensures tls13 && old(totalSizeOfWriteData) + len < policyCtx.keyUpdateTraffic ==>
                && (needed <==> now >= lastKeyUpdateTime + policyCtx.keyUpdateTime)
                && status == if now < lastKeyUpdateTime then SystemTimeError else Success
    {
      if !tls13 {
        return Success, false;
      }
      if len >= policyCtx.keyUpdateTraffic
        || totalSizeOfWriteData >= WrapU64(policyCtx.keyUpdateTraffic - len)
      {
        totalSizeOfWriteData := WrapU64(totalSizeOfWriteData + Min(WrapU64(U64_MAX - totalSizeOfWriteData), len));
        return Success, true;
      }
      totalSizeOfWriteData := WrapU64(totalSizeOfWriteData + len);
      if totalSizeOfWriteData >= policyCtx.keyUpdateTraffic {
        assert false;
      }
      status, needed := CheckTimeInterval(now);
    }

    method AdaptorKeyUpdate(r: UpdateResult) returns (status: Status)
      modifies this
      ensures State() == MeterAfterUpdate(old(State()), r) && status == UpdateStatus(r)
    {
      if r == NotFinished {
        return InitNotFinished;
      }
      if r == Refused {
        return KeyUpdateFailed;
      }
      totalSizeOfWriteData := 0;
      lastKeyUpdateTime := 0;
      isLastUpdateSuccess := true;
      status := Success;
    }

    /** After the write itself: counting, and the update it may trigger. When an enabled
        TLS 1.3 write succeeds, traffic remains before the next threshold. */
    method Write(w: WriteResult, tls13: bool, now: U64, r: UpdateResult) returns (status: Status)
      requires ValidLimits(policyCtx.State())
      modifies this
      ensures (State(), status) == WriteSpec(old(policyCtx.State()), old(State()), w, tls13, now, r)
      ensures status == Success && tls13 && policyCtx.isNeedKeyUpdate ==>
                totalSizeOfWriteData < policyCtx.keyUpdateTraffic
    {
      match w
      case WouldBlock => return WantWrite;
      case Broken => return WriteFailed;
      case Wrote(len) =>
        status := Success;
        if policyCtx.isNeedKeyUpdate {
          var needed;
          status, needed := CheckNeedKeyUpdate(tls13, len, now);
          if status == Success && needed {
            status := AdaptorKeyUpdate(r);
          }
        }
    }

    method ObjKeyUpdate(clock: Option<U64>, r: UpdateResult) returns (status: Status)
      modifies this
      ensures (State(), status) == ForceSpec(old(State()), clock, r)
    {
      if clock == None {
        return SystemTimeError;
      }
      totalSizeOfWriteData := 0;
      lastKeyUpdateTime := clock.value;
      status := AdaptorKeyUpdate(r);
      isLastUpdateSuccess := status == Success;
      if status != Success {
        return status;
      }
      totalKeyUpdateCnt := WrapU32(totalKeyUpdateCnt + 1);
    }

    method GetKeyUpdateInfo() returns (lastTime: U64, interval: U32, remaining: U64)
      ensures lastTime == lastKeyUpdateTime && interval == policyCtx.keyUpdateTime
      ensures remaining == Remaining(policyCtx.State(), State())
    {
      lastTime := lastKeyUpdateTime;
      interval := policyCtx.keyUpdateTime;
      remaining := if policyCtx.keyUpdateTraffic > totalSizeOfWriteData
        then WrapU64(policyCtx.keyUpdateTraffic - totalSizeOfWriteData) else 0;
    }
  }

  // ---------------------------------------------------------------- runs

  datatype Event =
    | WriteEvent(w: WriteResult, tls13: bool, now: U64, r: UpdateResult)
    | Force(clock: Option<U64>, r: UpdateResult)
    | SetParam(enable: bool, interval: U32, traffic: U64)

  datatype Session = Session(limits: Limits, meter: Meter)

  function Step(s: Session, e: Event): (Session, Status) {
    match e
    case WriteEvent(w, tls13, now, r) =>
      var (m, status) := WriteSpec(s.limits, s.meter, w, tls13, now, r); (s.(meter := m), status)
    case Force(clock, r) =>
      var (m, status) := ForceSpec(s.meter, clock, r); (s.(meter := m), status)
    case SetParam(enable, interval, traffic) =>
      var (l, status) := SetParamSpec(s.limits, enable, interval, traffic); (s.(limits := l), status)
  }

  function Run(created: U64, events: seq<Event>): Session {
    if events == [] then Session(Limits(false, DEFAULT_TIME, DEFAULT_TRAFFIC), Meter(0, created, 0, true))
    else Step(Run(created, events[..|events| - 1]), events[|events| - 1]).0
  }

  /** A completed TLS 1.3 write while automatic updates are on: the writes that count. */
  predicate IsCounted(limits: Limits, e: Event) {
    e.WriteEvent? && e.w.Wrote? && limits.enabled && e.tls13
  }

  /** A forced update began, or a counted write made the library change the key. */
  predicate IsReset(s: Session, e: Event) {
    || (e.Force? && e.clock.Some?)
    || (IsCounted(s.limits, e) && CheckSpec(s.limits, s.meter, true, e.w.len, e.now).needed && e.r == Updated)
  }

  /** Bytes counted since the last reset, as an unbounded sum. */
  function SinceReset(created: U64, events: seq<Event>): nat {
    if events == [] then 0
    else
      var init, e := events[..|events| - 1], events[|events| - 1];
      var s := Run(created, init);
      if IsReset(s, e) then 0 else SinceReset(created, init) + if IsCounted(s.limits, e) then e.w.len else 0
  }

  /** In every run the counter is the saturated sum of the bytes counted since the last
      reset, and the limits are in their documented ranges. */
  lemma {:induction false} CounterIsSaturatedSum(created: U64, events: seq<Event>)
    ensures Run(created, events).meter.total == Min(U64_MAX, SinceReset(created, events))
    ensures ValidLimits(Run(created, events).limits)
  {
    if events != [] {
      CounterIsSaturatedSum(created, events[..|events| - 1]);
    }
  }

  /** In every run, a successful TLS 1.3 write with automatic updates on leaves the counter
      strictly below the threshold, and the reported remainder is what is left. */
  lemma SuccessfulWriteLeavesRoom(created: U64, events: seq<Event>, w: WriteResult, now: U64, r: UpdateResult)
    ensures var s := Run(created, events);
            var (t, status) := Step(s, WriteEvent(w, true, now, r));
            s.limits.enabled && status == Success ==>
              && t.meter.total < t.limits.traffic
              && Remaining(t.limits, t.meter) == t.limits.traffic - t.meter.total > 0
  {
    CounterIsSaturatedSum(created, events);
  }

  /** The run starts disabled, with the default limits and an empty meter. */
  lemma RunStarts(created: U64)
    ensures Run(created, []) == Session(Limits(false, 3600, 1073741824), Meter(0, created, 0, true))
  {
  }

  /** The forced updates that the library carried out. */
  function ForcedUpdates(events: seq<Event>): nat {
    if events == [] then 0
    else
      var e := events[|events| - 1];
      ForcedUpdates(events[..|events| - 1]) + if e.Force? && e.clock.Some? && e.r == Updated then 1 else 0
  }

  lemma StepCountsForced(s: Session, e: Event)
    ensures Step(s, e).0.meter.updates
            == (s.meter.updates + if e.Force? && e.clock.Some? && e.r == Updated then 1 else 0) % 0x1_0000_0000
  {
  }

  lemma WrapOfSum(n: nat, k: nat)
    ensures (n % 0x1_0000_0000 + k) % 0x1_0000_0000 == (n + k) % 0x1_0000_0000
  {
  }

  /** In every run the reported number of updates is that of the forced ones, in 32 bits. */
  lemma {:induction false} UpdatesAreCounted(created: U64, events: seq<Event>)
    ensures Run(created, events).meter.updates == ForcedUpdates(events) % 0x1_0000_0000
  {
    if events != [] {
      var init, e := events[..|events| - 1], events[|events| - 1];
      UpdatesAreCounted(created, init);
      StepCountsForced(Run(created, init), e);
      WrapOfSum(ForcedUpdates(init), if e.Force? && e.clock.Some? && e.r == Updated then 1 else 0);
    }
  }

  // ---------------------------------------------------------------- the stamp and the interval

  /** The library changed the key, for a forced update or for a write. */
  predicate IsUpdated(s: Session, e: Event) {
    IsReset(s, e) && e.r == Updated
  }

  /** The event moves the stamp: a forced update that could read the clock, or any update. */
  predicate MovesStamp(s: Session, e: Event) {
    (e.Force? && e.clock.Some?) || IsUpdated(s, e)
  }

  ghost predicate MovesStampAt(created: U64, events: seq<Event>, more: seq<Event>, n: nat)
    requires n < |more|
  {
    MovesStamp(Run(created, events + more[..n]), more[n])
  }

  ghost predicate KeepsStamp(created: U64, events: seq<Event>, more: seq<Event>) {
    forall n :: 0 <= n < |more| ==> !MovesStampAt(created, events, more, n)
  }

  lemma MovesInPrefix(created: U64, events: seq<Event>, more: seq<Event>, n: nat)
    requires n < |more| - 1
    ensures MovesStampAt(created, events, more[..|more| - 1], n) <==> MovesStampAt(created, events, more, n)
  {
    assert more[..|more| - 1][..n] == more[..n];
  }

  lemma StepKeepsStamp(s: Session, e: Event)
    requires !MovesStamp(s, e)
    ensures Step(s, e).0.meter.lastTime == s.meter.lastTime
  {
  }

  lemma LastStepKeepsStamp(created: U64, events: seq<Event>, more: seq<Event>)
    requires more != [] && !MovesStampAt(created, events, more, |more| - 1)
    ensures Run(created, events + more).meter.lastTime == Run(created, events + more[..|more| - 1]).meter.lastTime
  {
    var init, e := more[..|more| - 1], more[|more| - 1];
    assert (events + more)[..|events + more| - 1] == events + init;
    StepKeepsStamp(Run(created, events + init), e);
  }

  lemma {:induction false} StampIsKept(created: U64, events: seq<Event>, more: seq<Event>)
    requires KeepsStamp(created, events, more)
    ensures Run(created, events + more).meter.lastTime == Run(created, events).meter.lastTime
  {
    if more == [] {
      assert events + more == events;
    } else {
      var init := more[..|more| - 1];
      forall n | 0 <= n < |init|
        ensures !MovesStampAt(created, events, init, n)
      {
        MovesInPrefix(created, events, more, n);
      }
      StampIsKept(created, events, init);
      LastStepKeepsStamp(created, events, more);
    }
  }

  /** The write is asked for an update by the clock alone exactly from `since` plus the
      interval on, and fails exactly while the clock is before `since`. */
  ghost predicate ClockCountsFrom(s: Session, since: U64) {
    forall len: U32, now: U64 :: s.meter.total + len < s.limits.traffic ==>
      var check := CheckSpec(s.limits, s.meter, true, len, now);
      && (check.needed <==> now >= since + s.limits.interval)
      && (check.status == SystemTimeError <==> now < since)
  }

  /** While nothing has moved its stamp, the clock of an object counts from its creation. */
  lemma ClockCountsFromCreation(created: U64, events: seq<Event>)
    requires KeepsStamp(created, [], events)
    ensures ClockCountsFrom(Run(created, events), created)
  {
    StampIsKept(created, [], events);
    assert [] + events == events;
  }

  /** After a forced update that failed, the clock counts from the time of the attempt, and
      after any update that succeeded, from 0. */
  lemma ClockCountsFromForce(created: U64, events: seq<Event>, at: U64, r: UpdateResult, more: seq<Event>)
    requires KeepsStamp(created, events + [Force(Some(at), r)], more)
    ensures ClockCountsFrom(Run(created, events + [Force(Some(at), r)] + more), if r == Updated then 0 else at)
  {
    assert (events + [Force(Some(at), r)])[..|events|] == events;
    StampIsKept(created, events + [Force(Some(at), r)], more);
  }

  // ---------------------------------------------------------------- the interval

  /** A write asked for an update because of the clock alone. */
  predicate AskedByClock(limits: Limits, m: Meter, len: U32, now: U64) {
    CheckSpec(limits, m, true, len, now).needed && m.total + len < limits.traffic
  }

  /** The documented reading of the interval: after an update at `when`, the clock asks
      again only once the interval has passed. */
  ghost predicate IsSpaced(limits: Limits, after: Meter, when: U64) {
    forall now: U64, len: U32 :: when <= now && AskedByClock(limits, after, len, now) ==> now - when >= limits.interval
  }

  /** Since a successful update stamps time 0, updates by the clock are spaced by the
      interval exactly when the update happened at time 0. */
  lemma SpacedExactlyAtTimeZero(limits: Limits, m: Meter, when: U64)
    requires ValidLimits(limits)
    ensures IsSpaced(limits, MeterAfterUpdate(m, Updated), when) <==> when == 0
  {
    var after := MeterAfterUpdate(m, Updated);
    if when > 0 {
      var now: U64 := if when >= limits.interval then when else limits.interval;
      var len: U32 := 0;
      assert AskedByClock(limits, after, len, now);
    }
  }

  /** No forced update fails. */
  predicate ForcesSucceed(events: seq<Event>) {
    forall i :: 0 <= i < |events| ==> events[i].Force? && events[i].clock.Some? ==> events[i].r == Updated
  }

  lemma {:induction false} ZeroStampStays(created: U64, events: seq<Event>, more: seq<Event>)
    requires Run(created, events).meter.lastTime == 0
    requires ForcesSucceed(more)
    ensures Run(created, events + more).meter.lastTime == 0
  {
    if more == [] {
      assert events + more == events;
    } else {
      var init := more[..|more| - 1];
      ZeroStampStays(created, events, init);
      assert (events + more)[..|events + more| - 1] == events + init;
      assert more[|more| - 1] == (events + more)[|events + more| - 1];
    }
  }

  lemma UpdateStampsZero(created: U64, events: seq<Event>, e: Event)
    requires IsUpdated(Run(created, events), e)
    ensures Run(created, events + [e]).meter.lastTime == 0
  {
    assert (events + [e])[..|events|] == events;
  }

  /** From any successful update on, forced or by a write, the stamp is 0 for as long as no
      forced update fails. */
  lemma StampStaysZero(created: U64, events: seq<Event>, e: Event, more: seq<Event>)
    requires IsUpdated(Run(created, events), e) && ForcesSucceed(more)
    ensures Run(created, events + [e] + more).meter.lastTime == 0
  {
    UpdateStampsZero(created, events, e);
    ZeroStampStays(created, events + [e], more);
  }

  /** Once the stamp is 0, as after an update has succeeded, and as long as no forced update
      fails, every further TLS 1.3 write with automatic updates on asks for one, at any clock
      reading beyond the largest interval. */
  lemma EveryLaterWriteAsks(created: U64, events: seq<Event>, more: seq<Event>, len: U32, now: U64)
    requires Run(created, events).meter.lastTime == 0
    requires ForcesSucceed(more) && now >= MAX_TIME
    ensures var s := Run(created, events + more); CheckSpec(s.limits, s.meter, true, len, now).needed
  {
    ZeroStampStays(created, events, more);
    CounterIsSaturatedSum(created, events + more);
  }
}
