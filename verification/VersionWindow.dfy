/** The protocol-version window: a range, a set of forbidden versions that only
    grows while one TLS context lives, and the scan that asks whether any version
    is left. The TLS library's acceptance of each value is an input. */
module VersionWindow {
  import opened Common

  const TLS12: U32 := 0x0303
  const TLS13: U32 := 0x0304

  /** An option word, as the set of the positions of its one bits: bitwise or is union and
      bitwise and is intersection. */
  type Options = set<nat>

  const OP_NO_TLS12: Options := {27}
  const OP_NO_TLS13: Options := {29}
  const OP_NO_RENEGOTIATION: Options := {30}

  datatype Mode = High | Middle | Customer

  /** The version settings the TLS library keeps in one context. */
  datatype Window = Window(min: U32, max: U32, options: Options)

  predicate IsSupported(version: int) {
    version == TLS12 || version == TLS13
  }

  function MapVersion2NoOpt(version: int): Option<Options> {
    if version == TLS12 then Some(OP_NO_TLS12)
    else if version == TLS13 then Some(OP_NO_TLS13)
    else None
  }

  predicate IsForbidden(options: Options, version: int) {
    MapVersion2NoOpt(version).Some? && MapVersion2NoOpt(version).value * options != {}
  }

  // ---------------------------------------------------------------- the scan

  /** Some version of the range is left, and only supported versions come before it. A
      range of zeros is unrestricted. */
  ghost predicate HasVersion(w: Window) {
    || (w.min == 0 && w.max == 0)
    || exists v: int :: IsFirstFree(w, v)
  }

  ghost predicate IsFirstFree(w: Window, v: int) {
    && w.min <= v <= w.max
    && IsSupported(v) && !IsForbidden(w.options, v)
    && forall u :: w.min <= u < v ==> IsSupported(u) && IsForbidden(w.options, u)
  }

  method CheckVersion(w: Window) returns (ok: bool)
    ensures ok <==> HasVersion(w)
  {
    if w.min == 0 && w.max == 0 {
      return true;
    }
    var version := w.min;
    while version <= w.max
      invariant w.min <= version
      invariant forall u :: w.min <= u < version ==> IsSupported(u) && IsForbidden(w.options, u)
      decreases w.max - version
    {
      var sslOp := MapVersion2NoOpt(version);
      if sslOp.None? {
        // A free version cannot lie before this one, nor at it, nor behind it.
        forall v: int
          ensures !IsFirstFree(w, v)
        {
          assert v < version || v == version || !IsSupported(version);
        }
        return false;
      }
      if sslOp.value * w.options == {} {
        assert IsFirstFree(w, version);
        return true;
      }
      version := version + 1;
    }
    ok := false;
  }

  /** For every range, in plain terms: it is unrestricted, or it starts at TLS 1.2 (0x0303) or
      1.3 (0x0304) and one of these lies in it and is free. */
  lemma ScanExactly(w: Window)
    ensures HasVersion(w) <==>
            || (w.min == 0 && w.max == 0)
            || (w.min in {0x0303, 0x0304}
                && exists v: int :: w.min <= v <= w.max && v in {0x0303, 0x0304} && !IsForbidden(w.options, v))
  {
    if w.min in {0x0303, 0x0304} {
      if v: int :| w.min <= v <= w.max && v in {0x0303, 0x0304} && !IsForbidden(w.options, v) {
        if IsForbidden(w.options, w.min) {
          assert IsFirstFree(w, v);
        } else {
          assert IsFirstFree(w, w.min);
        }
      }
    }
    if v: int :| IsFirstFree(w, v) {
      assert v == w.min || IsSupported(w.min);
    }
  }

  /** For a range of supported ends the scan answers whether any version in it is free. */
  lemma ScanMeansFreeVersion(w: Window)
    requires IsSupported(w.min) && IsSupported(w.max)
    ensures HasVersion(w) <==>
            exists v: int :: w.min <= v <= w.max && IsSupported(v) && !IsForbidden(w.options, v)
  {
    if v: int :| w.min <= v <= w.max && IsSupported(v) && !IsForbidden(w.options, v) {
      if IsForbidden(w.options, w.min) {
        assert IsFirstFree(w, v);
      } else {
        assert IsFirstFree(w, w.min);
      }
    }
  }

  // ---------------------------------------------------------------- changing the window

  function ForbidBits(versions: seq<U32>): Options
    requires forall i :: 0 <= i < |versions| ==> IsSupported(versions[i])
  {
    if versions == [] then {}
    else
      assert IsSupported(versions[|versions| - 1]);
      ForbidBits(versions[..|versions| - 1]) + MapVersion2NoOpt(versions[|versions| - 1]).value
  }

  lemma OrForbidsEither(a: Options, b: Options, v: int)
    ensures IsForbidden(a + b, v) <==> IsForbidden(a, v) || IsForbidden(b, v)
  {
  }

  lemma BitForbidsItself(v: int, u: int)
    requires IsSupported(v) && IsSupported(u)
    ensures IsForbidden(MapVersion2NoOpt(v).value, u) <==> u == v
  {
    assert 27 in OP_NO_TLS12 * OP_NO_TLS12 && 29 in OP_NO_TLS13 * OP_NO_TLS13;
    assert OP_NO_TLS12 * OP_NO_TLS13 == {} && OP_NO_TLS13 * OP_NO_TLS12 == {};
  }

  lemma {:induction false} ForbidBitsMeaning(versions: seq<U32>, v: int)
    requires forall i :: 0 <= i < |versions| ==> IsSupported(versions[i])
    ensures IsForbidden(ForbidBits(versions), v) <==> IsSupported(v) && v in versions
  {
    if versions != [] {
      var init, last := versions[..|versions| - 1], versions[|versions| - 1];
      ForbidBitsMeaning(init, v);
      OrForbidsEither(ForbidBits(init), MapVersion2NoOpt(last).value, v);
      if IsSupported(v) {
        BitForbidsItself(last, v);
      }
      assert versions == init + [last];
    }
  }

  /** Whether the library took the new minimum and maximum. */
  datatype Accepts = Accepts(min: bool, max: bool)

  // A refused maximum leaves the new minimum in place, and a bad forbidden version leaves
  // the new range in place without forbidding anything.
  function SetVersions(w: Window, min: U32, max: U32, forbid: seq<U32>, a: Accepts): (Window, Status) {
    if !a.min then (w, SetProtocolVer)
    else if !a.max then (w.(min := min), SetProtocolVer)
    else if exists i :: 0 <= i < |forbid| && !IsSupported(forbid[i]) then (w.(min := min, max := max), SetVerForbid)
    else (Window(min, max, w.options + ForbidBits(forbid)), Success)
  }

  /** Every answer of the change, the ends it leaves, and what it forbids. */
  lemma ChangeExactly(w: Window, min: U32, max: U32, forbid: seq<U32>, a: Accepts)
    ensures var (t, status) := SetVersions(w, min, max, forbid, a);
            var proper := forall i :: 0 <= i < |forbid| ==> forbid[i] in {0x0303, 0x0304};
            && status == (if !a.min || !a.max then SetProtocolVer else if !proper then SetVerForbid else Success)
            && t.min == (if a.min then min else w.min)
            && t.max == (if a.min && a.max then max else w.max)
            && w.options <= t.options
            && forall v: int :: IsForbidden(t.options, v) <==>
                 IsForbidden(w.options, v) || (status == Success && v in {0x0303, 0x0304} && v in forbid)
  {
    if a.min && a.max && forall i :: 0 <= i < |forbid| ==> IsSupported(forbid[i]) {
      forall v: int
        ensures IsForbidden(w.options + ForbidBits(forbid), v) <==>
                IsForbidden(w.options, v) || (v in {0x0303, 0x0304} && v in forbid)
      {
        ForbidBitsMeaning(forbid, v);
        OrForbidsEither(w.options, ForbidBits(forbid), v);
      }
    } else if exists i :: 0 <= i < |forbid| && !IsSupported(forbid[i]) {
      assert !(forall i :: 0 <= i < |forbid| ==> forbid[i] in {0x0303, 0x0304});
    }
  }

  class TlsContext {
    var minVersion: U32
    var maxVersion: U32
    var options: Options

    ghost function State(): Window
      reads this
    {
      Window(minVersion, maxVersion, options)
    }

    constructor (initial: Window)
      ensures State() == initial
    {
      minVersion, maxVersion, options := initial.min, initial.max, initial.options;
    }

    method SetProtocolVersion(min: U32, max: U32, forbid: seq<U32>, a: Accepts) returns (status: Status)
      modifies this
      ensures (State(), status) == SetVersions(old(State()), min, max, forbid, a)
      ensures status == Success ==> minVersion == min && maxVersion == max
      ensures status == Success <==> a.min && a.max && forall i :: 0 <= i < |forbid| ==> IsSupported(forbid[i])
    {
      if !a.min {
        return SetProtocolVer;
      }
      minVersion := min;
      if !a.max {
        return SetProtocolVer;
      }
      maxVersion := max;
      if forbid == [] {
        assert options + {} == options;
        return Success;
      }
      var forbidOpt: Options := {};
      for i := 0 to |forbid|
        invariant forall j :: 0 <= j < i ==> IsSupported(forbid[j])
        invariant forbidOpt == ForbidBits(forbid[..i])
      {
        var sslOp := MapVersion2NoOpt(forbid[i]);
        if sslOp.None? {
          assert !IsSupported(forbid[i]);
          return SetVerForbid;
        }
        assert forbid[..i + 1][..i] == forbid[..i];
        forbidOpt := forbidOpt + sslOp.value;
      }
      assert forbid[..|forbid|] == forbid;
      if forbidOpt != {} {
        options := options + forbidOpt;
      } else {
        assert options + forbidOpt == options;
      }
      status := Success;
    }
  }

  // ---------------------------------------------------------------- policies and runs

  /** A policy context: whether a role was set, the mode, and the TLS context, if built. */
  datatype Policy = Policy(hasRole: bool, mode: Mode, config: Option<Window>)

  /** Building a TLS context: the library may hand out none, may insist on caching sessions,
      or hands out a fresh one. `verify` is its answer to the verify mode set afterwards. */
  datatype Build = NoContext | CacheStaysOn | Built(initial: Window, accepts: Accepts, verify: Status)

  function BuildWindow(mode: Mode, initial: Window, a: Accepts): (Window, Status) {
    match mode
    case Customer => (initial, Success)
    case High => SetVersions(initial, TLS13, TLS13, [], a)
    case Middle => SetVersions(initial, TLS12, TLS13, [], a)
  }

  // The mode and the role are stored before the TLS context is rebuilt, and the old context
  // is only given up once there is a new one.
  function SetPolicy(p: Policy, mode: Mode, b: Build): (Policy, Status) {
    var stored := p.(hasRole := true, mode := mode);
    match b
    case NoContext => (stored, MemAlloc)
    case CacheStaysOn => (stored, SetSessTicket)
    case Built(initial, a, verify) =>
      var (w, status) := BuildWindow(mode, initial, a);
      if status == Success then (stored.(config := Some(w.(options := w.options + OP_NO_RENEGOTIATION))), verify)
      else (stored.(config := None), status)
  }

  /** The call puts a new TLS context in place. */
  predicate Rebuilds(mode: Mode, b: Build) {
    b.Built? && BuildWindow(mode, b.initial, b.accepts).1 == Success
  }

  function SetProtocolVersion(p: Policy, min: U32, max: U32, forbid: seq<U32>, a: Accepts): (Policy, Status) {
    if !p.hasRole then (p, InvalidParam)
    else if p.mode == High && (min != TLS13 || max != TLS13) then (p, PolicyVersion)
    else
      match p.config
      case None => (p, SetProtocolVer)
      case Some(w) =>
        var (t, status) := SetVersions(w, min, max, forbid, a); (p.(config := Some(t)), status)
  }

  datatype Event =
    | PolicyEvent(mode: Mode, build: Build)
    | VersionEvent(min: U32, max: U32, forbid: seq<U32>, accepts: Accepts)

  const InitialPolicy := Policy(false, High, None)

  function Step(p: Policy, e: Event): (Policy, Status) {
    match e
    case PolicyEvent(mode, b) => SetPolicy(p, mode, b)
    case VersionEvent(min, max, forbid, a) => SetProtocolVersion(p, min, max, forbid, a)
  }

  function Run(events: seq<Event>): Policy {
    if events == [] then InitialPolicy else Step(Run(events[..|events| - 1]), events[|events| - 1]).0
  }

  /** The version was forbidden by the library's own initial options or by some successful
      call since the TLS context was built. */
  ghost predicate ForbiddenSinceBuild(events: seq<Event>, v: int) {
    events != [] &&
    var init, e := events[..|events| - 1], events[|events| - 1];
    var status := Step(Run(init), e).1;
    if e.PolicyEvent? && Rebuilds(e.mode, e.build) then IsForbidden(e.build.initial.options, v)
    else || ForbiddenSinceBuild(init, v)
         || (e.VersionEvent? && status == Success && IsSupported(v) && v in e.forbid)
  }

  lemma RenegotiationBitIsOther(options: Options, v: int)
    ensures IsForbidden(options + OP_NO_RENEGOTIATION, v) <==> IsForbidden(options, v)
  {
    OrForbidsEither(options, OP_NO_RENEGOTIATION, v);
  }

  lemma {:induction false} OptionsRecordForbids(events: seq<Event>, v: int)
    requires Run(events).config.Some?
    ensures IsForbidden(Run(events).config.value.options, v) <==> ForbiddenSinceBuild(events, v)
  {
    if events != [] {
      var init, e := events[..|events| - 1], events[|events| - 1];
      var p := Run(init);
      if p.config.Some? {
        OptionsRecordForbids(init, v);
      }
      match e
      case PolicyEvent(mode, b) =>
        if b.Built? {
          BuildKeepsForbids(mode, b.initial, b.accepts, v);
        }
      case VersionEvent(min, max, forbid, a) =>
        if Step(p, e).1 == Success {
          ForbidBitsMeaning(forbid, v);
          OrForbidsEither(p.config.value.options, ForbidBits(forbid), v);
        }
    }
  }

  lemma BuildKeepsForbids(mode: Mode, initial: Window, a: Accepts, v: int)
    ensures IsForbidden(BuildWindow(mode, initial, a).0.options + OP_NO_RENEGOTIATION, v)
            <==> IsForbidden(initial.options, v)
  {
    assert initial.options + ForbidBits([]) == initial.options;
    RenegotiationBitIsOther(BuildWindow(mode, initial, a).0.options, v);
  }

  // ---------------------------------------------------------------- the current range

  /** The call gets through to the library: a role is set, the mode allows the range, and
      there is a context. */
  predicate Reaches(p: Policy, min: U32, max: U32) {
    p.hasRole && (p.mode == High ==> min == 0x0304 && max == 0x0304) && p.config.Some?
  }

  /** Every answer of the two public calls. */
  lemma CallAnswersExactly(p: Policy, min: U32, max: U32, forbid: seq<U32>, a: Accepts, mode: Mode, b: Build)
    ensures SetProtocolVersion(p, min, max, forbid, a).1 ==
            (if !p.hasRole then InvalidParam
             else if p.mode == High && !(min == 0x0304 && max == 0x0304) then PolicyVersion
             else if p.config.None? || !a.min || !a.max then SetProtocolVer
             else if exists i :: 0 <= i < |forbid| && forbid[i] !in {0x0303, 0x0304} then SetVerForbid
             else Success)
    ensures SetPolicy(p, mode, b).1 ==
            (match b
             case NoContext => MemAlloc
             case CacheStaysOn => SetSessTicket
             case Built(_, accepts, verify) =>
               if mode != Customer && !(accepts.min && accepts.max) then SetProtocolVer else verify)
  {
    if p.config.Some? {
      ChangeExactly(p.config.value, min, max, forbid, a);
    }
  }

  /** A mode call stores its mode and a role in any case, and gives up an old context only for
      a new one or when building one fails half way; a version call keeps mode and role. */
  lemma ModeIsStored(p: Policy, mode: Mode, b: Build, min: U32, max: U32, forbid: seq<U32>, a: Accepts)
    ensures var t := SetPolicy(p, mode, b).0;
            && t.mode == mode && t.hasRole
            && (!b.Built? ==> t.config == p.config)
            && (b.Built? ==> (t.config.Some? <==> Rebuilds(mode, b)))
    ensures var t := SetProtocolVersion(p, min, max, forbid, a).0;
            t.mode == p.mode && t.hasRole == p.hasRole && (t.config.Some? <==> p.config.Some?)
  {
  }

  /** The range that building a context for the mode starts with, given the library's own. */
  function ModeRange(mode: Mode, initial: Window): (U32, U32) {
    match mode
    case High => (0x0304, 0x0304)
    case Middle => (0x0303, 0x0304)
    case Customer => (initial.min, initial.max)
  }

  /** The ends of the current range by the calls alone: those of the mode when the context was
      built, and since then the last minimum and the last maximum that the library accepted. A
      maximum is only asked for once the minimum has been accepted. */
  function LastRange(events: seq<Event>): Option<(U32, U32)> {
    if events == [] then None
    else
      var init, e := events[..|events| - 1], events[|events| - 1];
      var before := LastRange(init);
      match e
      case PolicyEvent(mode, b) =>
        if !b.Built? then before
        else if mode == Customer || (b.accepts.min && b.accepts.max) then Some(ModeRange(mode, b.initial))
        else None
      case VersionEvent(min, max, _, a) =>
        if before.Some? && Reaches(Run(init), min, max)
        then Some((if a.min then min else before.value.0, if a.min && a.max then max else before.value.1))
        else before
  }

  ghost predicate HasRange(p: Policy, ends: Option<(U32, U32)>) {
    && (p.config.Some? <==> ends.Some?)
    && (p.config.Some? ==> p.config.value.min == ends.value.0 && p.config.value.max == ends.value.1 && p.hasRole)
  }

  /** In every run the current range is the last one the library accepted. */
  lemma {:induction false} RangeIsLastAccepted(events: seq<Event>)
    ensures HasRange(Run(events), LastRange(events))
  {
    if events != [] {
      var init, e := events[..|events| - 1], events[|events| - 1];
      RangeIsLastAccepted(init);
      match e
      case PolicyEvent(mode, b) =>
        if b.Built? {
          BuildSetsRange(mode, b.initial, b.accepts);
        }
      case VersionEvent(min, max, forbid, a) =>
        if Run(init).config.Some? {
          ChangeExactly(Run(init).config.value, min, max, forbid, a);
        }
    }
  }

  lemma BuildSetsRange(mode: Mode, initial: Window, a: Accepts)
    ensures var (w, status) := BuildWindow(mode, initial, a);
            && (status == Success <==> mode == Customer || (a.min && a.max))
            && (status == Success ==> (w.min, w.max) == ModeRange(mode, initial))
  {
    ChangeExactly(initial, TLS13, TLS13, [], a);
    ChangeExactly(initial, TLS12, TLS13, [], a);
  }

  /** In every run, the check before a connection succeeds exactly when the current range is
      unrestricted, or starts at a supported version and some supported version in it has not
      been forbidden since the TLS context was built. The range is the last one accepted. */
  lemma CheckSeesWholeHistory(events: seq<Event>)
    requires Run(events).config.Some?
    ensures LastRange(events).Some?
    ensures var (min, max) := LastRange(events).value;
            HasVersion(Run(events).config.value) <==>
            || (min == 0 && max == 0)
            || (min in {0x0303, 0x0304}
                && exists v: int :: min <= v <= max && v in {0x0303, 0x0304} && !ForbiddenSinceBuild(events, v))
  {
    var w := Run(events).config.value;
    RangeIsLastAccepted(events);
    ScanExactly(w);
    if v: int :| w.min <= v <= w.max && v in {0x0303, 0x0304} && !IsForbidden(w.options, v) {
      OptionsRecordForbids(events, v);
      assert !ForbiddenSinceBuild(events, v);
    }
    if v: int :| w.min <= v <= w.max && v in {0x0303, 0x0304} && !ForbiddenSinceBuild(events, v) {
      OptionsRecordForbids(events, v);
      assert !IsForbidden(w.options, v);
    }
  }

  ghost predicate IsTls13Only(p: Policy) {
    p.config.Some? && p.config.value.min == p.config.value.max == TLS13
  }

  /** From a successful high-security call on, no version call moves the range, whether it
      succeeds or fails. */
  lemma {:induction false} HighStaysTls13(events: seq<Event>, build: Build, more: seq<Event>)
    requires SetPolicy(Run(events), High, build).1 == Success
    requires forall i :: 0 <= i < |more| ==> more[i].VersionEvent?
    ensures var p := Run(events + [PolicyEvent(High, build)] + more);
            p.mode == High && IsTls13Only(p)
  {
    var start := events + [PolicyEvent(High, build)];
    if more == [] {
      assert start + more == start;
      assert start[..|start| - 1] == events;
    } else {
      var init := more[..|more| - 1];
      HighStaysTls13(events, build, init);
      assert (start + more)[..|start + more| - 1] == start + init;
      assert (start + more)[|start + more| - 1] == more[|more| - 1];
    }
  }

  ghost predicate IsTls13AtMost(p: Policy) {
    p.mode == High && (p.config.None? || IsTls13Only(p))
  }

  /** From a high-security call that built a context on, whatever it returned: as long as every
      call that sets the mode sets this one, a context that exists is limited to TLS 1.3,
      through all successes and failures. */
  lemma {:induction false} HighCallsKeepTls13(events: seq<Event>, build: Build, more: seq<Event>)
    requires Rebuilds(High, build)
    requires forall i :: 0 <= i < |more| ==> more[i].PolicyEvent? ==> more[i].mode == High
    ensures IsTls13AtMost(Run(events + [PolicyEvent(High, build)] + more))
  {
    var start := events + [PolicyEvent(High, build)];
    if more == [] {
      assert start + more == start;
      assert start[..|start| - 1] == events;
    } else {
      var init := more[..|more| - 1];
      HighCallsKeepTls13(events, build, init);
      assert (start + more)[..|start + more| - 1] == start + init;
      assert (start + more)[|start + more| - 1] == more[|more| - 1];
    }
  }

  /** A call for the high-security mode always records the mode, but the range is limited to
      TLS 1.3 afterwards exactly when the call built a new context, or left the old one alone
      and that one was limited already. A successful call always built one. */
  lemma HighLimitsRangeExactly(p: Policy, build: Build)
    ensures var (t, status) := SetPolicy(p, High, build);
            && t.mode == High
            && (IsTls13Only(t) <==> Rebuilds(High, build) || (!build.Built? && IsTls13Only(p)))
            && (status == Success ==> Rebuilds(High, build))
  {
  }

  /** A run that ends in the high-security mode with TLS 1.2 allowed. */
  lemma HighModeMayAllowTls12(initial: Window)
    ensures var middle := PolicyEvent(Middle, Built(initial, Accepts(true, true), Success));
            var p := Run([middle, PolicyEvent(High, NoContext)]);
            p.mode == High && p.config.Some? && p.config.value.min == TLS12
  {
  }
}
