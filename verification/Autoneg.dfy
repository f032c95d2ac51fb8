/** 1000BASE-X auto-negotiation (section 37.3.1.5 of IEEE 802.3z): `Autoneg8023z`, one call per poll. */
module AutoNegotiation {
  import opened Common

  const LINK_TIMER_US: nat := 12000

  /** The sixteen bits D0-D15 of a configuration word, by name. */
  datatype ConfigWord = ConfigWord(
    d0: bool, d1: bool, d2: bool, d3: bool, d4: bool, fullDuplex: bool, halfDuplex: bool, symPause: bool,
    asymPause: bool, d9: bool, d10: bool, d11: bool, fault1: bool, fault2: bool, ack: bool, nextPage: bool)
  {
    /** D0-D4 and D9-D11 must be zero. */
    predicate Reserved() { d0 || d1 || d2 || d3 || d4 || d9 || d10 || d11 }
  }

  const ZERO := ConfigWord(
    false, false, false, false, false, false, false, false, false, false, false, false, false, false, false, false)

  /** The advertised bits D5, D6, D7, D8, D12, D13 and D15. */
  datatype Ability = Ability(
    fullDuplex: bool, halfDuplex: bool, symPause: bool, asymPause: bool, fault1: bool, fault2: bool, nextPage: bool)

  function Decode(w: ConfigWord): Ability {
    Ability(w.fullDuplex, w.halfDuplex, w.symPause, w.asymPause, w.fault1, w.fault2, w.nextPage)
  }

  function Encode(a: Ability): ConfigWord {
    ZERO.(fullDuplex := a.fullDuplex, halfDuplex := a.halfDuplex, symPause := a.symPause, asymPause := a.asymPause,
          fault1 := a.fault1, fault2 := a.fault2, nextPage := a.nextPage)
  }

  datatype Phase =
    | Unknown | AnEnable | RestartInit | Restart | DisableLinkOk | AbilityDetectInit | AbilityDetect
    | AckDetectInit | AckDetect | CompleteAckInit | CompleteAck | IdleDetectInit | IdleDetect | LinkOk
    | NextPageWaitInit | NextPageWait | Invalid

  datatype Status = Ok | Done | TimerEnabled | Failed

  datatype Matching = Matching(
    count: nat, cfg: ConfigWord, ability: bool, idle: bool, ack: bool, rx: ConfigWord)

  /** What the caller may set before a call. */
  datatype Control = Control(anEnable: bool, restartAn: bool, adv: Ability)

  datatype Registers = Registers(
    lp: Ability, anComplete: bool, linkUp: bool, toggleTx: bool, toggleRx: bool, npRx: bool, pageRx: bool, npLoaded: bool)

  /** AN_STATE_INFO; `sending` is whether configuration words are being transmitted. */
  datatype Info = Info(
    phase: Phase, linkTime: nat, now: nat, m: Matching, tx: ConfigWord, sending: bool, ctl: Control, mr: Registers)

  /** One call: the time and control bits the caller sets, and what the receiver then reports. The time is that
      of a clock that never wraps; the state keeps its low 32 bits. */
  datatype Call = Call(time: nat, ctl: Control, word: Option<ConfigWord>)

  // ----- the specification of one call -----

  const NO_MATCH := Matching(0, ZERO, false, false, false, ZERO)

  /** The match flags after one sample. */
  function Sample(m: Matching, word: Option<ConfigWord>): Matching {
    match word
    case None => NO_MATCH.(idle := true)
    case Some(w) =>
      var count := if m.count + 1 == WORD then 0 else m.count + 1;
      if w != m.cfg then Matching(0, w, false, false, w.ack, w)
      else Matching(count, w, m.ability || count > 1, false, w.ack, w)
  }

  /** The state in which the transition is taken: everything measured is forgotten on the very first call. */
  function Sampled(i: Info, c: Call): Info {
    if i.phase == Unknown then i.(ctl := c.ctl, now := 0, linkTime := 0, m := Sample(NO_MATCH, c.word))
    else i.(ctl := c.ctl, now := c.time % WORD, m := Sample(i.m, c.word))
  }

  /** The link timer has run for more than its interval. */
  predicate Expired(i: Info) { UnsignedMinus(i.now, i.linkTime) > LINK_TIMER_US }

  /** Subtraction of unsigned 32-bit numbers. */
  function UnsignedMinus(a: nat, b: nat): int { if b <= a then a - b else a - b + WORD }

  function Enter(i: Info): (Info, Status) {
    var mr := i.mr.(anComplete := false, pageRx := false);
    if i.ctl.anEnable then (i.(linkTime := 0, m := NO_MATCH.(rx := i.m.rx), mr := mr, phase := RestartInit), Ok)
    else (i.(mr := mr, phase := DisableLinkOk), Ok)
  }

  /** The partner went back to sending nothing but zero words. */
  predicate PartnerRestarts(m: Matching) { m.ability && m.rx == ZERO }

  function AckStep(i: Info): (Info, Status) {
    if i.m.ack then
      if i.m.rx.(ack := false) == i.m.cfg.(ack := false) then (i.(phase := CompleteAckInit), Ok)
      else (i.(phase := AnEnable), Ok)
    else if PartnerRestarts(i.m) then (i.(phase := AnEnable), Ok)
    else (i, Ok)
  }

  /** The link partner registers as the word received in COMPLETE_ACK_INIT sets them. */
  function Accepted(mr: Registers, rx: ConfigWord): Registers {
    mr.(lp := Decode(rx), toggleTx := !mr.toggleTx, toggleRx := rx.d11, npRx := rx.nextPage, pageRx := true)
  }

  /** The transition out of the current phase, after sampling. */
  function Transition(i: Info): (Info, Status) {
    match i.phase
    case Unknown => Enter(i)
    case AnEnable => Enter(i)
    case RestartInit =>
      (i.(linkTime := i.now, mr := i.mr.(npLoaded := false), tx := ZERO, sending := true, phase := Restart), TimerEnabled)
    case Restart => if Expired(i) then (i.(phase := AbilityDetectInit), Ok) else (i, TimerEnabled)
    case DisableLinkOk => (i, Done)
    case AbilityDetectInit =>
      (i.(mr := i.mr.(toggleTx := false), tx := Encode(i.ctl.adv), sending := true, phase := AbilityDetect), Ok)
    case AbilityDetect => (if i.m.ability && i.m.rx != ZERO then i.(phase := AckDetectInit) else i, Ok)
    case AckDetectInit => AckStep(i.(tx := i.tx.(ack := true), sending := true, phase := AckDetect))
    case AckDetect => AckStep(i)
    case CompleteAckInit =>
      if i.m.rx.Reserved() then (i, Failed)
      else (i.(linkTime := i.now, mr := Accepted(i.mr, i.m.rx), phase := CompleteAck), TimerEnabled)
    case CompleteAck =>
      if PartnerRestarts(i.m) then (i.(phase := AnEnable), Ok)
      else if !Expired(i) then (i, Ok)
      else if !i.ctl.adv.nextPage || !i.mr.lp.nextPage || (!i.tx.nextPage && !i.mr.npRx) then
        (i.(phase := IdleDetectInit), Ok)
      else (i, Failed)
    case IdleDetectInit => (i.(linkTime := i.now, sending := false, phase := IdleDetect), TimerEnabled)
    case IdleDetect =>
      if PartnerRestarts(i.m) then (i.(phase := AnEnable), Ok)
      else if Expired(i) then (i.(phase := LinkOk), Ok)
      else (i, Ok)
    case LinkOk => (i.(mr := i.mr.(anComplete := true, linkUp := true)), Done)
    case NextPageWaitInit => (i, Ok)
    case NextPageWait => (i, Ok)
    case Invalid => (i, Failed)
  }

  function Step(i: Info, c: Call): (Info, Status) { Transition(Sampled(i, c)) }

  // ----- whole runs -----

  /** What is remembered about a run: the state, the time of the latest call, the time of the latest
      RESTART_INIT step and of the latest step that may start the link timer, the samples since the latest
      AN_ENABLE step, and which of them the latest COMPLETE_ACK_INIT step saw. */
  datatype History = History(
    info: Info, time: nat, restart: Option<nat>, started: nat, samples: seq<Option<ConfigWord>>, taken: Option<nat>)

  predicate StartsTimer(phase: Phase) { phase.RestartInit? || phase.CompleteAckInit? || phase.IdleDetectInit? }

  function Record(h: History, c: Call): History {
    History(
      Step(h.info, c).0,
      c.time,
      if h.info.phase == RestartInit then Some(c.time) else h.restart,
      if StartsTimer(h.info.phase) then c.time else h.started,
      if h.info.phase == AnEnable || h.info.phase == Unknown then [] else h.samples + [c.word],
      if h.info.phase == CompleteAckInit then Some(|h.samples|) else h.taken)
  }

  /** A run of any length from the state `AutonegInit` leaves. */
  function Play(h: History, calls: seq<Call>): History {
    if calls == [] then h else Record(Play(h, calls[..|calls| - 1]), calls[|calls| - 1])
  }

  const NOTHING := Ability(false, false, false, false, false, false, false)

  /** `AutonegInit`. */
  function Initial(): Info {
    Info(Unknown, 0, 0, Matching(0, ZERO, false, false, false, ZERO), ZERO, false,
         Control(true, false, NOTHING.(fullDuplex := true, symPause := true, asymPause := true)),
         Registers(NOTHING, false, false, false, false, false, false, false))
  }

  function Begin(): History { History(Initial(), 0, None, 0, [], None) }

  /** The caller's clock does not run backwards. */
  ghost predicate Clocked(calls: seq<Call>) {
    forall i, j | 0 <= i < j < |calls| :: calls[i].time <= calls[j].time
  }

  // ----- the link timer -----

  /** In `phase`, at time `t` with the link timer started at `s`, the latest RESTART_INIT step was at
      `r`: how long ago that is at least. */
  predicate Elapsed(phase: Phase, s: nat, t: nat, r: nat) {
    && r <= s <= t
    && (phase.Restart? ==> s == r)
    && (Detecting(phase) ==> t - r > LINK_TIMER_US)
    && (phase.CompleteAck? ==> s - r > LINK_TIMER_US)
    && (phase.IdleDetectInit? ==> t - r > 2 * LINK_TIMER_US)
    && (phase.IdleDetect? ==> s - r > 2 * LINK_TIMER_US)
    && (phase.LinkOk? ==> t - r > 3 * LINK_TIMER_US)
  }

  predicate Detecting(phase: Phase) {
    phase.AbilityDetectInit? || phase.AbilityDetect? || phase.AckDetectInit? || phase.AckDetect? || phase.CompleteAckInit?
  }

  predicate Restarted(phase: Phase) {
    !(phase.Unknown? || phase.AnEnable? || phase.RestartInit? || phase.DisableLinkOk? || Unreached(phase))
  }

  predicate Unreached(phase: Phase) { phase.NextPageWaitInit? || phase.NextPageWait? || phase.Invalid? }

  /** The phases that wait for the link timer. */
  predicate Timing(phase: Phase) { phase.Restart? || phase.CompleteAck? || phase.IdleDetect? }

  /** `field` is what the timer field holds while it is used. */
  predicate Timed(i: Info, s: nat, field: nat, t: nat, r: nat) {
    Elapsed(i.phase, s, t, r) && (Timing(i.phase) ==> i.linkTime == field)
  }

  predicate TimerInv(h: History) {
    && !Unreached(h.info.phase) && h.started <= h.time
    && (Restarted(h.info.phase) ==> h.restart.Some? && Timed(h.info, h.started, h.started % WORD, h.time, h.restart.value))
  }

  /** What the transition out of `i` at time `t` does to the timer. */
  predicate TimerKept(i: Info, j: Info, s: nat, field: nat, t: nat, r: nat) {
    && !Unreached(j.phase)
    && (Restarted(j.phase) ==>
         && (Restarted(i.phase) || i.phase == RestartInit)
         && if StartsTimer(i.phase) then Timed(j, t, i.now, t, r) else Timed(j, s, field, t, r))
  }

  predicate Early(phase: Phase) {
    || phase.Unknown? || phase.AnEnable? || phase.RestartInit? || phase.Restart? || phase.DisableLinkOk?
    || phase.AbilityDetectInit? || phase.AbilityDetect?
  }

  /** A wrapped clock can only make the timer look younger. */
  lemma ExpiredReally(i: Info, s: nat, t: nat)
    requires s <= t && i.now == t % WORD && i.linkTime == s % WORD && Expired(i)
    ensures t - s > LINK_TIMER_US
  {
    var q := t / WORD - s / WORD;
    assert t - s == q * WORD + (i.now - i.linkTime);
    if i.linkTime <= i.now { assert q >= 0; } else { assert q >= 1; }
  }

  lemma TransitionTimerEarly(i: Info, s: nat, field: nat, t: nat, r: nat)
    requires Early(i.phase) && (Restarted(i.phase) ==> Timed(i, s, field, t, r))
    requires i.phase == Restart && Expired(i) ==> t - s > LINK_TIMER_US
    requires i.phase == RestartInit ==> r == t
    ensures TimerKept(i, Transition(i).0, s, field, t, r)
  {}

  lemma TransitionTimerLate(i: Info, s: nat, field: nat, t: nat, r: nat)
    requires !Early(i.phase) && !Unreached(i.phase) && Timed(i, s, field, t, r)
    requires Timing(i.phase) && Expired(i) ==> t - s > LINK_TIMER_US
    ensures TimerKept(i, Transition(i).0, s, field, t, r)
  {}

  /** Time passing does not change what has elapsed. */
  lemma TimePasses(i: Info, s: nat, field: nat, t: nat, t': nat, r: nat)
    requires Timed(i, s, field, t, r) && t <= t'
    ensures Timed(i, s, field, t', r)
  {}

  lemma TimerStep(h: History, c: Call)
    requires TimerInv(h) && h.time <= c.time
    ensures TimerInv(Record(h, c))
  {
    var i := Sampled(h.info, c);
    if h.info.phase == Unknown {
      EnterTimer(i);
    } else {
      var s, field := h.started, h.started % WORD;
      var r := if h.info.phase == RestartInit then c.time else if h.restart.Some? then h.restart.value else 0;
      if Restarted(h.info.phase) {
        TimePasses(h.info, s, field, h.time, c.time, r);
        if Timing(i.phase) && Expired(i) { ExpiredReally(i, s, c.time); }
      }
      if Early(i.phase) { TransitionTimerEarly(i, s, field, c.time, r); } else { TransitionTimerLate(i, s, field, c.time, r); }
    }
  }

  lemma EnterTimer(i: Info)
    ensures var j := Enter(i).0; !Unreached(j.phase) && !Restarted(j.phase)
  {}

  lemma {:induction false} TimerRun(calls: seq<Call>)
    requires Clocked(calls)
    ensures TimerInv(Play(Begin(), calls))
    ensures Play(Begin(), calls).time == if calls == [] then 0 else calls[|calls| - 1].time
  {
    if calls != [] {
      var n := |calls| - 1;
      TimerRun(calls[..n]);
      if n > 0 { assert calls[..n][n - 1].time <= calls[n].time; }
      TimerStep(Play(Begin(), calls[..n]), calls[n]);
    }
  }

  /** In every run, through any number of wraps of the clock, LINK_OK is reached only more than three full link
      timers after the latest RESTART_INIT step. */
  lemma LinkOkTakesThreeTimers(calls: seq<Call>)
    requires Clocked(calls)
    ensures var h := Play(Begin(), calls);
      && (calls != [] ==> h.time == calls[|calls| - 1].time)
      && (h.info.phase == LinkOk ==> h.restart.Some? && h.time - h.restart.value > 3 * LINK_TIMER_US)
  {
    TimerRun(calls);
  }

  // ----- what must have been received -----

  function WordOf(w: Option<ConfigWord>): ConfigWord { if w.Some? then w.value else ZERO }

  /** Three consecutive samples, from `a` on, are the same non-zero word. */
  predicate Matched(samples: seq<Option<ConfigWord>>, a: nat) {
    && a + 2 < |samples|
    && samples[a].Some? && samples[a].value != ZERO
    && samples[a + 1] == samples[a] && samples[a + 2] == samples[a]
  }

  /** ... and sample `b`, later, carries ACK. */
  predicate Acknowledged(samples: seq<Option<ConfigWord>>, a: nat, b: nat) {
    Matched(samples, a) && a + 2 < b < |samples| && samples[b].Some? && samples[b].value.ack
  }

  /** ... and sample `d`, later still, has no reserved bit and is what the link partner fields decode. */
  predicate Completed(samples: seq<Option<ConfigWord>>, a: nat, b: nat, d: nat, lp: Ability) {
    && Acknowledged(samples, a, b) && b < d < |samples|
    && !WordOf(samples[d]).Reserved()
    && lp == Decode(WordOf(samples[d]))
  }

  /** The last `n` samples are all the word `w`. */
  ghost predicate Tail(samples: seq<Option<ConfigWord>>, n: nat, w: ConfigWord) {
    n <= |samples| && forall k | |samples| - n <= k < |samples| :: samples[k] == Some(w)
  }

  /** A non-zero candidate word is what the latest samples were. */
  ghost predicate MatchInv(m: Matching, samples: seq<Option<ConfigWord>>) {
    m.cfg != ZERO ==>
      && Tail(samples, if m.ability then 3 else m.count + 1, m.cfg)
      && (!m.ability ==> m.count <= 1)
  }

  predicate Confirmed(phase: Phase) {
    phase.CompleteAck? || phase.IdleDetectInit? || phase.IdleDetect? || phase.LinkOk?
  }

  ghost predicate HasMatch(s: seq<Option<ConfigWord>>) { exists a :: Matched(s, a) }

  ghost predicate HasAck(s: seq<Option<ConfigWord>>) { exists a, b :: Acknowledged(s, a, b) }

  ghost predicate HasCompletion(s: seq<Option<ConfigWord>>, d: Option<nat>, lp: Ability) {
    d.Some? && exists a, b :: Completed(s, a, b, d.value, lp)
  }

  /** What must have been acknowledged or completed when a phase is reached. */
  ghost predicate Trail(phase: Phase, lp: Ability, s: seq<Option<ConfigWord>>, taken: Option<nat>) {
    && (phase.AckDetectInit? || phase.AckDetect? ==> HasMatch(s))
    && (phase.CompleteAckInit? ==> HasAck(s))
    && (Confirmed(phase) ==> HasCompletion(s, taken, lp))
  }

  ghost predicate EvidenceInv(h: History) {
    && !Unreached(h.info.phase)
    && (Tracked(h.info.phase) ==> MatchInv(h.info.m, h.samples))
    && Trail(h.info.phase, h.info.mr.lp, h.samples, h.taken)
  }

  lemma MatchStep(m: Matching, samples: seq<Option<ConfigWord>>, word: Option<ConfigWord>)
    requires MatchInv(m, samples)
    ensures var n := Sample(m, word);
      && MatchInv(n, samples + [word])
      && (n.ability && n.rx != ZERO ==> Matched(samples + [word], |samples| - 2))
  {
  }

  /** Evidence is not lost when more samples arrive. */
  lemma EvidenceGrows(s: seq<Option<ConfigWord>>, w: Option<ConfigWord>, d: Option<nat>, lp: Ability)
    ensures HasMatch(s) ==> HasMatch(s + [w])
    ensures HasAck(s) ==> HasAck(s + [w])
    ensures HasCompletion(s, d, lp) ==> HasCompletion(s + [w], d, lp)
  {
    assert forall a | Matched(s, a) :: Matched(s + [w], a);
    assert forall a, b | Acknowledged(s, a, b) :: Acknowledged(s + [w], a, b);
    assert d.Some? ==> forall a, b | Completed(s, a, b, d.value, lp) :: Completed(s + [w], a, b, d.value, lp);
  }

  /** Where a phase can have been entered from, as far as evidence is concerned. */
  ghost predicate Origin(i: Info, j: Info) {
    && !Unreached(j.phase) && j.m == i.m && !j.phase.Unknown?
    && (j.phase.AckDetectInit? ==> i.phase.AbilityDetect? && i.m.ability && i.m.rx != ZERO)
    && (j.phase.AckDetect? ==> i.phase.AckDetectInit? || i.phase.AckDetect?)
    && (j.phase.CompleteAckInit? ==> i.phase.CompleteAckInit? || ((i.phase.AckDetectInit? || i.phase.AckDetect?) && i.m.ack))
    && (Confirmed(j.phase) ==>
         || (Confirmed(i.phase) && j.mr.lp == i.mr.lp)
         || (i.phase.CompleteAckInit? && !i.m.rx.Reserved() && j.mr.lp == Decode(i.m.rx)))
  }

  predicate Tracked(phase: Phase) { !phase.AnEnable? && !phase.Unknown? && !phase.DisableLinkOk? }

  lemma TransitionOrigin(i: Info)
    requires Tracked(i.phase) && !Unreached(i.phase)
    ensures Origin(i, Transition(i).0)
  {}

  lemma EnterEvidence(i: Info)
    ensures var j := Enter(i).0;
      (j.phase.RestartInit? && j.m.cfg == ZERO) || j.phase.DisableLinkOk?
  {}

  /** The acknowledgement is the word just received. */
  lemma AckCarries(s: seq<Option<ConfigWord>>, w: Option<ConfigWord>)
    requires HasMatch(s) && w.Some? && w.value.ack
    ensures HasAck(s + [w])
  {
    var a :| Matched(s, a);
    assert Acknowledged(s + [w], a, |s|);
  }

  /** The abilities are decoded from the word just received. */
  lemma CompleteCarries(s: seq<Option<ConfigWord>>, w: Option<ConfigWord>)
    requires HasAck(s) && !WordOf(w).Reserved()
    ensures HasCompletion(s + [w], Some(|s|), Decode(WordOf(w)))
  {
    var a, b :| Acknowledged(s, a, b);
    assert Completed(s + [w], a, b, |s|, Decode(WordOf(w)));
  }

  lemma TrailCarries(h: History, w: Option<ConfigWord>, i: Info, j: Info)
    requires EvidenceInv(h) && i.phase == h.info.phase && i.mr == h.info.mr && i.m.rx == WordOf(w)
    requires i.m.ability && i.m.rx != ZERO ==> HasMatch(h.samples + [w])
    requires (i.m.ack ==> w.Some? && w.value.ack) && Origin(i, j)
    ensures Trail(j.phase, j.mr.lp, h.samples + [w], if i.phase == CompleteAckInit then Some(|h.samples|) else h.taken)
  {
    EvidenceGrows(h.samples, w, h.taken, h.info.mr.lp);
    if j.phase.CompleteAckInit? && !i.phase.CompleteAckInit? {
      AckCarries(h.samples, w);
    } else if Confirmed(j.phase) && !Confirmed(i.phase) {
      CompleteCarries(h.samples, w);
    }
  }

  lemma EvidenceStep(h: History, c: Call)
    requires EvidenceInv(h)
    ensures EvidenceInv(Record(h, c))
  {
    var i := Sampled(h.info, c);
    if Tracked(h.info.phase) {
      TransitionOrigin(i);
      MatchStep(h.info.m, h.samples, c.word);
      TrailCarries(h, c.word, i, Transition(i).0);
    } else {
      EnterEvidence(i);
    }
  }

  lemma {:induction false} EvidenceRun(calls: seq<Call>)
    ensures EvidenceInv(Play(Begin(), calls))
  {
    if calls != [] {
      var n := |calls| - 1;
      EvidenceRun(calls[..n]);
      EvidenceStep(Play(Begin(), calls[..n]), calls[n]);
    }
  }

  /** In every run, with any clock, LINK_OK is reached only if since the latest AN_ENABLE step one non-zero
      word was received three times in a row, later a word with ACK, and later still, in the latest
      COMPLETE_ACK_INIT step, the word without reserved bits that the link partner fields decode. */
  lemma LinkOkIsEarned(calls: seq<Call>)
    ensures var h := Play(Begin(), calls);
      h.info.phase == LinkOk ==> h.taken.Some? && exists a, b :: Completed(h.samples, a, b, h.taken.value, h.info.mr.lp)
  {
    EvidenceRun(calls);
  }

  // ----- the acknowledged word -----

  /** The candidate word is always the word just received, so the consistency test of ACK_DETECT cannot fail. */
  lemma ConsistencyTestPasses(m: Matching, word: Option<ConfigWord>)
    ensures var n := Sample(m, word); n.ack ==> n.rx == n.cfg
  {}

  /** Any word with ACK is taken as the acknowledgement, whatever word was matched before: the state
      machine of the standard would restart when the two differ. */
  lemma AnyAckCompletes(i: Info, c: Call)
    requires i.phase.AckDetect? || i.phase.AckDetectInit?
    requires c.word.Some? && c.word.value.ack
    ensures Step(i, c).0.phase == CompleteAckInit
  {
    ConsistencyTestPasses(i.m, c.word);
  }

  /** AN_ENABLE is entered again only when the partner has sent zero words. */
  lemma RestartOnlyByPartner(i: Info, c: Call)
    requires i.phase != AnEnable && Step(i, c).0.phase == AnEnable
    ensures c.word == Some(ZERO) && Step(i, c).0.m.ability
  {
    ConsistencyTestPasses(i.m, c.word);
  }

  // ----- the state record, updated in place -----

  class Negotiator {
    var phase: Phase
    var linkTime: nat
    var now: nat
    var m: Matching
    var tx: ConfigWord
    var sending: bool
    var ctl: Control
    var mr: Registers

    function Snapshot(): Info
      reads this
    {
      Info(phase, linkTime, now, m, tx, sending, ctl, mr)
    }

    /** `AutonegInit`. */
    constructor ()
      ensures Snapshot() == Initial()
    {
      phase, linkTime, now, m, tx, sending := Unknown, 0, 0, NO_MATCH, ZERO, false;
      ctl := Control(true, false, NOTHING.(fullDuplex := true, symPause := true, asymPause := true));
      mr := Registers(NOTHING, false, false, false, false, false, false, false);
    }

    /** The caller sets the time and the control bits, then `Autoneg8023z` runs once. */
    method Poll(c: Call) returns (status: Status)
      modifies this
      ensures Snapshot() == Step(old(Snapshot()), c).0
      ensures status == Step(old(Snapshot()), c).1
    {
      now, ctl := c.time % WORD, c.ctl;
      if phase == Unknown {
        now, linkTime, m := 0, 0, NO_MATCH;
      }
      TakeSample(c.word);
      if Early(phase) {
        status := LeaveEarly();
      } else {
        status := LeaveLate();
      }
    }

    /** The first half of the state machine. */
    method LeaveEarly() returns (status: Status)
      requires Early(phase) && (phase == Unknown ==> now == 0)
      modifies this
      ensures (Snapshot(), status) == Transition(old(Snapshot()))
    {
      status := Ok;
      match phase {
        case Unknown =>
          if ctl.anEnable || ctl.restartAn {
            now := 0;
            phase := AnEnable;
          }
          EnableAutoneg();
        case AnEnable =>
          EnableAutoneg();
        case RestartInit =>
          linkTime := now;
          mr := mr.(npLoaded := false);
          tx, sending := ZERO, true;
          phase := Restart;
          status := WaitRestart();
        case Restart =>
          status := WaitRestart();
        case DisableLinkOk =>
          status := Done;
        case AbilityDetectInit =>
          mr := mr.(toggleTx := false);
          tx, sending := Encode(ctl.adv), true;
          phase := AbilityDetect;
        case AbilityDetect =>
          if m.ability && m.rx != ZERO {
            phase := AckDetectInit;
          }
      }
    }

    /** The second half. */
    method LeaveLate() returns (status: Status)
      requires !Early(phase)
      modifies this
      ensures (Snapshot(), status) == Transition(old(Snapshot()))
    {
      status := Ok;
      match phase {
        case AckDetectInit =>
          tx, sending := tx.(ack := true), true;
          phase := AckDetect;
          DetectAck();
        case AckDetect =>
          DetectAck();
        case CompleteAckInit =>
          if m.rx.Reserved() {
            status := Failed;
          } else {
            mr := Accepted(mr, m.rx);
            linkTime := now;
            phase := CompleteAck;
            status := TimerEnabled;
          }
        case CompleteAck =>
          status := WaitComplete();
        case IdleDetectInit =>
          linkTime, sending := now, false;
          phase := IdleDetect;
          status := TimerEnabled;
        case IdleDetect =>
          if m.ability && m.rx == ZERO {
            phase := AnEnable;
          } else if UnsignedMinus(now, linkTime) > LINK_TIMER_US {
            phase := LinkOk;
          }
        case LinkOk =>
          mr := mr.(anComplete := true, linkUp := true);
          status := Done;
        case NextPageWaitInit =>
        case NextPageWait =>
        case Invalid =>
          status := Failed;
      }
    }

    /** The match flags. */
    method TakeSample(word: Option<ConfigWord>)
      modifies this`m
      ensures m == Sample(old(m), word)
    {
      match word {
        case Some(w) =>
          if w != m.cfg {
            m := m.(cfg := w, ability := false, count := 0);
          } else {
            m := m.(count := if m.count + 1 == WORD then 0 else m.count + 1);
            if m.count > 1 {
              m := m.(ability := true, cfg := w);
            }
          }
          m := m.(ack := w.ack, idle := false, rx := w);
        case None =>
          m := m.(idle := true, cfg := ZERO, count := 0, ability := false, ack := false, rx := ZERO);
      }
    }

    method EnableAutoneg()
      modifies this`mr, this`linkTime, this`m, this`phase
      ensures Snapshot() == Enter(old(Snapshot())).0
    {
      mr := mr.(anComplete := false, pageRx := false);
      if ctl.anEnable {
        linkTime := 0;
        m := m.(cfg := ZERO, count := 0, ability := false, idle := false, ack := false);
        phase := RestartInit;
      } else {
        phase := DisableLinkOk;
      }
    }

    method WaitRestart() returns (status: Status)
      requires phase == Restart
      modifies this`phase
      ensures (Snapshot(), status) == Transition(old(Snapshot()))
    {
      if UnsignedMinus(now, linkTime) > LINK_TIMER_US {
        phase := AbilityDetectInit;
        status := Ok;
      } else {
        status := TimerEnabled;
      }
    }

    method DetectAck()
      modifies this`phase
      ensures Snapshot() == AckStep(old(Snapshot())).0
    {
      if m.ack {
        if m.rx.(ack := false) == m.cfg.(ack := false) {
          phase := CompleteAckInit;
        } else {
          phase := AnEnable;
        }
      } else if m.ability && m.rx == ZERO {
        phase := AnEnable;
      }
    }

    method WaitComplete() returns (status: Status)
      requires phase == CompleteAck
      modifies this`phase
      ensures (Snapshot(), status) == Transition(old(Snapshot()))
    {
      status := Ok;
      if m.ability && m.rx == ZERO {
        phase := AnEnable;
        return;
      }
      if UnsignedMinus(now, linkTime) > LINK_TIMER_US {
        if !ctl.adv.nextPage || !mr.lp.nextPage {
          phase := IdleDetectInit;
        } else if !tx.nextPage && !mr.npRx {
          phase := IdleDetectInit;
        } else {
          status := Failed;
        }
      }
    }
  }
}
