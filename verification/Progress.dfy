/** The phases of `Autoneg8023z` as a function of what was received and when, and the run that brings the link up. */
module NegotiationProgress {
  import opened Common
  import opened AutoNegotiation

  // ----- the configuration word -----

  /** The word carries the ability: bits D5 to D8, D12, D13 and D15. */
  predicate Carries(w: ConfigWord, a: Ability) {
    && w.fullDuplex == a.fullDuplex && w.halfDuplex == a.halfDuplex && w.symPause == a.symPause
    && w.asymPause == a.asymPause && w.fault1 == a.fault1 && w.fault2 == a.fault2 && w.nextPage == a.nextPage
  }

  /** The bits that must be clear: D0 to D4 and D9 to D11. */
  predicate Clear(w: ConfigWord) { !w.d0 && !w.d1 && !w.d2 && !w.d3 && !w.d4 && !w.d9 && !w.d10 && !w.d11 }

  /** An ability is sent in these bits with every other bit clear, and read from them. */
  lemma AbilityBits(a: Ability, w: ConfigWord)
    ensures Encode(a) == w <==> Carries(w, a) && Clear(w) && !w.ack
    ensures Decode(w) == a <==> Carries(w, a)
    ensures w.Reserved() <==> !Clear(w)
  {}

  /** What one side sends the other reads, with or without ACK; and a word is determined by the ability it carries
      exactly when it has no reserved bit and no ACK. */
  lemma AbilityRoundTrip(a: Ability, w: ConfigWord, ack: bool)
    ensures Decode(Encode(a).(ack := ack)) == a
    ensures Encode(Decode(w)) == w <==> !w.Reserved() && !w.ack
  {}

  // ----- what was received -----

  type Samples = seq<Option<ConfigWord>>

  /** The last three samples are the same non-zero word. */
  predicate Triple(s: Samples) {
    var n := |s|;
    n >= 3 && s[n - 1].Some? && s[n - 1].value != ZERO && s[n - 2] == s[n - 1] && s[n - 3] == s[n - 1]
  }

  /** The last two samples are zero words, and no non-zero word came right before them. */
  predicate Silence(s: Samples) {
    var n := |s|;
    && n >= 2 && s[n - 1] == Some(ZERO) && s[n - 2] == Some(ZERO)
    && (n >= 3 ==> s[n - 3] in {None, Some(ZERO)})
  }

  /** How often the current word has been seen again while it is not matched yet. */
  function Seen(s: Samples): nat {
    var n := |s|;
    if n == 0 || s[n - 1].None? then 0
    else if n == 1 || s[n - 2].None? then if s[n - 1] == Some(ZERO) then 1 else 0
    else if s[n - 2] == s[n - 1] then 1 else 0
  }

  /** The match flags say exactly that. */
  predicate MatchExact(m: Matching, s: Samples) {
    && (s == [] ==> m.cfg == ZERO)
    && (s != [] ==> m.cfg == WordOf(s[|s| - 1]) && m.rx == m.cfg && m.ack == m.cfg.ack)
    && (m.ability <==> Triple(s) || Silence(s))
    && (!m.ability ==> m.count == Seen(s))
  }

  lemma MatchExactStep(m: Matching, s: Samples, w: Option<ConfigWord>)
    requires MatchExact(m, s)
    ensures MatchExact(Sample(m, w), s + [w])
  {
    var t := s + [w];
    assert t[|t| - 1] == w && (|s| >= 1 ==> t[|t| - 2] == s[|s| - 1]) && (|s| >= 2 ==> t[|t| - 3] == s[|s| - 2]);
  }

  // ----- the phase table -----

  /** More than the link timer interval has passed since `start`, on a clock of 32 bits. */
  predicate Late(start: nat, now: nat) { (now - start) % WORD > LINK_TIMER_US }

  lemma ClockDifference(s: nat, t: nat)
    ensures UnsignedMinus(t % WORD, s % WORD) == (t - s) % WORD
  {
    var a, b := t / WORD, s / WORD;
    var d := UnsignedMinus(t % WORD, s % WORD);
    assert t == a * WORD + t % WORD && s == b * WORD + s % WORD;
    var q := if s % WORD <= t % WORD then a - b else a - b - 1;
    assert t - s == q * WORD + d && 0 <= d < WORD;
    Remainder(t - s, q, d);
  }

  lemma Remainder(x: int, q: int, d: int)
    requires x == q * WORD + d && 0 <= d < WORD
    ensures x % WORD == d
  {
    var p := x / WORD;
    assert x == p * WORD + x % WORD;
    assert (p - q) * WORD == d - x % WORD;
  }

  /** What a call finds: a word seen three times, silence, and whether the timer started at `start` has run out. */
  datatype Finding = Finding(triple: bool, silent: bool, late: bool)

  function Found(s: Samples, start: nat, now: nat): Finding { Finding(Triple(s), Silence(s), Late(start, now)) }

  /** The phase after a call that received `w`; `page` is whether the partner asked for a next page. */
  function NextPhase(phase: Phase, f: Finding, ctl: Control, w: ConfigWord, page: bool): Phase {
    match phase
    case Unknown => if ctl.anEnable then RestartInit else DisableLinkOk
    case AnEnable => if ctl.anEnable then RestartInit else DisableLinkOk
    case DisableLinkOk => DisableLinkOk
    case RestartInit => Restart
    case Restart => if f.late then AbilityDetectInit else Restart
    case AbilityDetectInit => AbilityDetect
    case AbilityDetect => if f.triple then AckDetectInit else AbilityDetect
    case AckDetectInit => if w.ack then CompleteAckInit else if f.silent then AnEnable else AckDetect
    case AckDetect => if w.ack then CompleteAckInit else if f.silent then AnEnable else AckDetect
    case CompleteAckInit => if w.Reserved() then CompleteAckInit else CompleteAck
    case CompleteAck =>
      if f.silent then AnEnable
      else if f.late && !(ctl.adv.nextPage && page) then IdleDetectInit
      else CompleteAck
    case IdleDetectInit => IdleDetect
    case IdleDetect => if f.silent then AnEnable else if f.late then LinkOk else IdleDetect
    case LinkOk => LinkOk
    case other => other
  }

  /** What the call returns: done in the two final phases, failed on reserved bits and when both sides ask for a next
      page, and otherwise whether the caller has to keep the timer running. */
  function NextStatus(phase: Phase, f: Finding, ctl: Control, w: ConfigWord, page: bool): Status {
    match phase
    case LinkOk => Done
    case DisableLinkOk => Done
    case RestartInit => TimerEnabled
    case Restart => if f.late then Ok else TimerEnabled
    case CompleteAckInit => if w.Reserved() then Failed else TimerEnabled
    case CompleteAck => if !f.silent && f.late && ctl.adv.nextPage && page then Failed else Ok
    case IdleDetectInit => TimerEnabled
    case Invalid => Failed
    case _ => Ok
  }

  /** The phase the table gives after the call `c`. */
  function Tabled(h: History, c: Call): Phase {
    NextPhase(h.info.phase, Found(h.samples + [c.word], h.started, c.time), c.ctl, WordOf(c.word), h.info.mr.lp.nextPage)
  }

  function TabledStatus(h: History, c: Call): Status {
    NextStatus(h.info.phase, Found(h.samples + [c.word], h.started, c.time), c.ctl, WordOf(c.word), h.info.mr.lp.nextPage)
  }

  /** What every run keeps. */
  predicate Kept(h: History) {
    && !Unreached(h.info.phase)
    && (Tracked(h.info.phase) ==> MatchExact(h.info.m, h.samples))
    && (Timing(h.info.phase) ==> h.info.linkTime == h.started % WORD)
    && (Confirmed(h.info.phase) ==> h.info.mr.npRx == h.info.mr.lp.nextPage)
  }

  /** The transition, given what the flags mean. */
  lemma TransitionPhase(i: Info, s: Samples, c: Call, start: nat)
    requires !Unreached(i.phase) && i.ctl == c.ctl && s != [] && s[|s| - 1] == c.word
    requires Tracked(i.phase) ==> MatchExact(i.m, s) && i.now == c.time % WORD
    requires Timing(i.phase) ==> i.linkTime == start % WORD
    requires Confirmed(i.phase) ==> i.mr.npRx == i.mr.lp.nextPage
    ensures Transition(i).0.phase == NextPhase(i.phase, Found(s, start, c.time), c.ctl, WordOf(c.word), i.mr.lp.nextPage)
  {
    ClockDifference(start, c.time);
    assert Expired(i) <==> UnsignedMinus(i.now, i.linkTime) > LINK_TIMER_US;
    assert Tracked(i.phase) ==> i.m.rx.(ack := false) == i.m.cfg.(ack := false);
    assert Tracked(i.phase) && Silence(s) ==> !Triple(s);
  }

  lemma TransitionStatus(i: Info, s: Samples, c: Call, start: nat)
    requires !Unreached(i.phase) && i.ctl == c.ctl && s != [] && s[|s| - 1] == c.word
    requires Tracked(i.phase) ==> MatchExact(i.m, s) && i.now == c.time % WORD
    requires Timing(i.phase) ==> i.linkTime == start % WORD
    requires Confirmed(i.phase) ==> i.mr.npRx == i.mr.lp.nextPage
    ensures Transition(i).1 == NextStatus(i.phase, Found(s, start, c.time), c.ctl, WordOf(c.word), i.mr.lp.nextPage)
  {
    ClockDifference(start, c.time);
    assert Expired(i) <==> UnsignedMinus(i.now, i.linkTime) > LINK_TIMER_US;
    assert Tracked(i.phase) && Silence(s) ==> !Triple(s);
  }

  lemma TransitionKept(i: Info)
    requires !Unreached(i.phase) && (Confirmed(i.phase) ==> i.mr.npRx == i.mr.lp.nextPage)
    ensures var j := Transition(i).0;
      && !Unreached(j.phase)
      && (Tracked(i.phase) ==> j.m == i.m)
      && (!Tracked(i.phase) && Tracked(j.phase) ==> j.m.cfg == ZERO && j.m.count == 0 && !j.m.ability)
      && (Timing(j.phase) ==> if StartsTimer(i.phase) then j.linkTime == i.now else Timing(i.phase) && j.linkTime == i.linkTime)
      && (Confirmed(j.phase) ==> j.mr.npRx == j.mr.lp.nextPage)
  {
    match i.phase
    case Unknown =>
    case AnEnable =>
    case Restart =>
    case AckDetectInit =>
    case AckDetect =>
    case CompleteAckInit =>
    case CompleteAck =>
    case IdleDetect =>
    case _ =>
  }

  /** One call of any run. */
  lemma PhaseStep(h: History, c: Call)
    requires Kept(h)
    ensures Kept(Record(h, c))
    ensures Record(h, c).info.phase == Tabled(h, c) && Step(h.info, c).1 == TabledStatus(h, c)
  {
    var i := Sampled(h.info, c);
    if Tracked(h.info.phase) { MatchExactStep(h.info.m, h.samples, c.word); }
    TransitionPhase(i, h.samples + [c.word], c, h.started);
    TransitionStatus(i, h.samples + [c.word], c, h.started);
    TransitionKept(i);
  }

  lemma {:induction false} KeptAlways(calls: seq<Call>)
    ensures Kept(Play(Begin(), calls))
  {
    if calls != [] {
      var n := |calls| - 1;
      KeptAlways(calls[..n]);
      PhaseStep(Play(Begin(), calls[..n]), calls[n]);
    }
  }

  /** In every run, on any clock, each call leaves the phase for the one in the table. */
  lemma PhaseTable(calls: seq<Call>, c: Call)
    ensures Play(Begin(), calls + [c]).info.phase == Tabled(Play(Begin(), calls), c)
    ensures Step(Play(Begin(), calls).info, c).1 == TabledStatus(Play(Begin(), calls), c)
  {
    KeptAlways(calls);
    assert (calls + [c])[..|calls|] == calls;
    PhaseStep(Play(Begin(), calls), c);
  }

  // ----- the registers -----

  predicate BeforeAck(phase: Phase) { Tracked(phase) && !Confirmed(phase) && !Unreached(phase) }

  /** The link is reported, and the negotiation complete, in LINK_OK only; a page has been received exactly from
      COMPLETE_ACK on, where the toggle bits are fixed: this side's is set and the partner's, a reserved bit, is not. */
  predicate RegistersKept(i: Info) {
    && (i.mr.anComplete || i.mr.linkUp ==> i.phase == LinkOk) && i.mr.anComplete == i.mr.linkUp
    && (BeforeAck(i.phase) ==> !i.mr.pageRx)
    && (i.phase in {AbilityDetect, AckDetectInit, AckDetect, CompleteAckInit} ==> !i.mr.toggleTx)
    && (Confirmed(i.phase) ==> i.mr.pageRx && i.mr.toggleTx && !i.mr.toggleRx)
    && !i.mr.npLoaded
  }

  lemma TransitionRegisters(i: Info)
    requires !Unreached(i.phase) && RegistersKept(i)
    ensures RegistersKept(Transition(i).0)
    ensures i.phase == LinkOk ==> Transition(i).0.mr.linkUp
  {
    match i.phase
    case Unknown =>
    case AnEnable =>
    case Restart =>
    case AckDetectInit =>
    case AckDetect =>
    case CompleteAckInit =>
    case CompleteAck =>
    case IdleDetect =>
    case _ =>
  }

  lemma {:induction false} RegistersRun(calls: seq<Call>)
    ensures RegistersKept(Play(Begin(), calls).info)
  {
    if calls != [] {
      var n := |calls| - 1;
      RegistersRun(calls[..n]);
      KeptAlways(calls[..n]);
      TransitionRegisters(Sampled(Play(Begin(), calls[..n]).info, calls[n]));
    }
  }

  // ----- the run that brings the link up -----

  /** The samples since the first call, up to and including call `k`. */
  function Received(calls: seq<Call>, k: nat): (s: Samples)
    requires k < |calls|
    ensures |s| == k
  {
    seq(k, j requires 0 <= j < k => calls[j + 1].word)
  }

  /** The points of a run at which something happens: the restart timer has run out (`detect`), a word was received
      three times (`found`), a word with ACK was received (`ack`), and the timer has run out twice more. */
  datatype Milestones = Milestones(detect: nat, found: nat, ack: nat, complete: nat, idle: nat)

  predicate Ordered(m: Milestones) {
    1 < m.detect && m.detect + 1 < m.found < m.ack && m.ack + 1 < m.complete && m.complete + 1 < m.idle
  }

  /** What the call `k` must find for the run to go on: auto-negotiation is enabled; each timer runs out at its
      milestone and not before; `found` is the first call with a word seen three times, `ack` the first later one with
      ACK; the word after that has no reserved bit; there is no silence; not both sides ask for a next page. */
  predicate Answers(calls: seq<Call>, m: Milestones, k: nat)
    requires Ordered(m) && k < |calls|
  {
    var c, w, s := calls[k], WordOf(calls[k].word), Received(calls, k);
    if k == 0 then c.ctl.anEnable
    else if k == 1 || k == m.detect + 1 || k == m.complete + 1 || k > m.idle then true
    else if k <= m.detect then Late(calls[1].time, c.time) == (k == m.detect)
    else if k <= m.found then Triple(s) == (k == m.found)
    else if k < m.ack then !w.ack && !Silence(s)
    else if k == m.ack then w.ack
    else if k == m.ack + 1 then !w.Reserved()
    else if k <= m.complete then
      && !Silence(s) && Late(calls[m.ack + 1].time, c.time) == (k == m.complete)
      && (k == m.complete ==> !(c.ctl.adv.nextPage && WordOf(calls[m.ack + 1].word).nextPage))
    else !Silence(s) && Late(calls[m.complete + 1].time, c.time) == (k == m.idle)
  }

  ghost predicate Partner(calls: seq<Call>, m: Milestones)
    requires Ordered(m)
  {
    forall k | 0 <= k < |calls| :: Answers(calls, m, k)
  }

  /** The phase after the first `k` calls. */
  function Due(m: Milestones, k: nat): Phase {
    if k == 0 then Unknown
    else if k == 1 then RestartInit
    else if k <= m.detect then Restart
    else if k == m.detect + 1 then AbilityDetectInit
    else if k <= m.found then AbilityDetect
    else if k == m.found + 1 then AckDetectInit
    else if k <= m.ack then AckDetect
    else if k == m.ack + 1 then CompleteAckInit
    else if k <= m.complete then CompleteAck
    else if k == m.complete + 1 then IdleDetectInit
    else if k <= m.idle then IdleDetect
    else LinkOk
  }

  /** When the timer in use was started. */
  function Start(m: Milestones, k: nat): nat {
    if k <= m.ack + 1 then 1 else if k <= m.complete + 1 then m.ack + 1 else m.complete + 1
  }

  /** Where the run is after the first `k` calls. */
  ghost predicate OnTrack(calls: seq<Call>, m: Milestones, k: nat, h: History)
    requires Ordered(m) && k <= |calls|
  {
    && h.info.phase == Due(m, k)
    && (k >= 1 ==> h.samples == Received(calls, k - 1))
    && (k >= 2 ==> h.started == calls[Start(m, k)].time)
    && (k > m.ack + 1 ==> h.info.mr.lp == Decode(WordOf(calls[m.ack + 1].word)))
  }

  /** What this side is sending then, and whether it reports the link. */
  predicate Sending(calls: seq<Call>, m: Milestones, k: nat, i: Info)
    requires Ordered(m) && k <= |calls|
  {
    && (k > m.detect + 1 ==> i.tx == Encode(calls[m.detect + 1].ctl.adv).(ack := k > m.found + 1))
    && (k >= 2 ==> (i.sending <==> k <= m.complete + 1))
    && (k > m.idle + 1 ==> i.mr.linkUp && i.mr.anComplete)
  }

  /** What is sent and what is learnt, phase by phase. */
  lemma TransitionFields(i: Info)
    ensures var j := Transition(i).0;
      && j.tx == (match i.phase
                  case RestartInit => ZERO case AbilityDetectInit => Encode(i.ctl.adv)
                  case AckDetectInit => i.tx.(ack := true) case _ => i.tx)
      && j.sending == (match i.phase
                       case RestartInit => true case AbilityDetectInit => true case AckDetectInit => true
                       case IdleDetectInit => false case _ => i.sending)
      && j.mr.lp == (if i.phase.CompleteAckInit? && !i.m.rx.Reserved() then Decode(i.m.rx) else i.mr.lp)
      && (i.phase.LinkOk? ==> j.mr.linkUp && j.mr.anComplete)
  {}

  /** With such a partner the table leads to the phase that is due. */
  lemma DueNext(calls: seq<Call>, m: Milestones, k: nat, f: Finding, page: bool)
    requires Ordered(m) && k < |calls| && Answers(calls, m, k)
    requires f.triple == Triple(Received(calls, k)) && f.silent == Silence(Received(calls, k))
    requires k >= 2 ==> f.late == Late(calls[Start(m, k)].time, calls[k].time)
    requires k > m.ack + 1 ==> page == WordOf(calls[m.ack + 1].word).nextPage
    ensures Due(m, k + 1) == NextPhase(Due(m, k), f, calls[k].ctl, WordOf(calls[k].word), page)
  {
  }

  /** What the record of a call says, without the state machine. */
  ghost predicate Follows(h: History, c: Call, h': History) {
    var i, j := h.info, h'.info;
    && j.phase == Tabled(h, c)
    && h'.samples == (if i.phase == AnEnable || i.phase == Unknown then [] else h.samples + [c.word])
    && h'.started == (if StartsTimer(i.phase) then c.time else h.started)
    && j.tx == (match i.phase
                case RestartInit => ZERO case AbilityDetectInit => Encode(c.ctl.adv)
                case AckDetectInit => i.tx.(ack := true) case _ => i.tx)
    && j.sending == (match i.phase
                     case RestartInit => true case AbilityDetectInit => true case AckDetectInit => true
                     case IdleDetectInit => false case _ => i.sending)
    && j.mr.lp == (if i.phase.CompleteAckInit? && !WordOf(c.word).Reserved() then Decode(WordOf(c.word)) else i.mr.lp)
    && (i.phase.LinkOk? ==> j.mr.linkUp && j.mr.anComplete)
  }

  lemma RecordFollows(h: History, c: Call)
    requires Kept(h)
    ensures Kept(Record(h, c)) && Follows(h, c, Record(h, c))
  {
    PhaseStep(h, c);
    TransitionFields(Sampled(h.info, c));
  }

  lemma DueStep(calls: seq<Call>, m: Milestones, k: nat, h: History, h': History)
    requires Ordered(m) && k < |calls| && Answers(calls, m, k) && OnTrack(calls, m, k, h) && Follows(h, calls[k], h')
    ensures h'.info.phase == Due(m, k + 1)
    ensures h'.samples == Received(calls, k)
  {
    var c := calls[k];
    if k >= 1 {
      assert Received(calls, k) == h.samples + [c.word];
      DueNext(calls, m, k, Found(h.samples + [c.word], h.started, c.time), h.info.mr.lp.nextPage);
    }
  }

  lemma OnTrackStep(calls: seq<Call>, m: Milestones, k: nat, h: History, h': History)
    requires Ordered(m) && k < |calls| && OnTrack(calls, m, k, h) && Follows(h, calls[k], h')
    requires h'.info.phase == Due(m, k + 1) && h'.samples == Received(calls, k)
    requires k == m.ack + 1 ==> !WordOf(calls[k].word).Reserved()
    ensures OnTrack(calls, m, k + 1, h')
  {}

  lemma SendingStep(calls: seq<Call>, m: Milestones, k: nat, h: History, h': History)
    requires Ordered(m) && k < |calls| && h.info.phase == Due(m, k) && Follows(h, calls[k], h')
    requires Sending(calls, m, k, h.info)
    ensures Sending(calls, m, k + 1, h'.info)
  {}

  /** One call of such a run. */
  lemma TrackStep(calls: seq<Call>, m: Milestones, k: nat, h: History, h': History)
    requires Ordered(m) && k < |calls| && Answers(calls, m, k) && Follows(h, calls[k], h')
    requires OnTrack(calls, m, k, h) && Sending(calls, m, k, h.info)
    ensures OnTrack(calls, m, k + 1, h') && Sending(calls, m, k + 1, h'.info)
  {
    DueStep(calls, m, k, h, h');
    OnTrackStep(calls, m, k, h, h');
    SendingStep(calls, m, k, h, h');
  }

  lemma PlayNext(h: History, calls: seq<Call>, k: nat)
    requires k < |calls|
    ensures Play(h, calls[..k + 1]) == Record(Play(h, calls[..k]), calls[k])
  {
    assert calls[..k + 1][..k] == calls[..k];
  }

  ghost predicate Tracks(calls: seq<Call>, m: Milestones, k: nat, h: History)
    requires Ordered(m) && k <= |calls|
  {
    Kept(h) && OnTrack(calls, m, k, h) && Sending(calls, m, k, h.info)
  }

  lemma RecordTracks(calls: seq<Call>, m: Milestones, k: nat, h: History)
    requires Ordered(m) && k < |calls| && Partner(calls, m) && Tracks(calls, m, k, h)
    ensures Tracks(calls, m, k + 1, Record(h, calls[k]))
  {
    PartnerAnswers(calls, m, k);
    RecordFollows(h, calls[k]);
    TrackStep(calls, m, k, h, Record(h, calls[k]));
  }

  lemma PartnerAnswers(calls: seq<Call>, m: Milestones, k: nat)
    requires Ordered(m) && k < |calls| && Partner(calls, m)
    ensures Answers(calls, m, k)
  {}

  lemma StartsOnTrack(calls: seq<Call>, m: Milestones)
    requires Ordered(m)
    ensures Tracks(calls, m, 0, Begin())
  {}

  lemma {:induction false} StaysOnTrack(calls: seq<Call>, m: Milestones, k: nat)
    requires Ordered(m) && k <= |calls| && Partner(calls, m)
    ensures Tracks(calls, m, k, Play(Begin(), calls[..k]))
  {
    if k == 0 {
      StartsOnTrack(calls, m);
      assert calls[..0] == [];
    } else {
      StaysOnTrack(calls, m, k - 1);
      PlayNext(Begin(), calls, k - 1);
      RecordTracks(calls, m, k - 1, Play(Begin(), calls[..k - 1]));
    }
  }

  /** The state with the link up. */
  predicate Up(calls: seq<Call>, m: Milestones, i: Info)
    requires Ordered(m) && m.idle < |calls|
  {
    && i.phase == LinkOk && !i.sending
    && Carries(WordOf(calls[m.ack + 1].word), i.mr.lp)
    && Carries(i.tx, calls[m.detect + 1].ctl.adv) && Clear(i.tx) && i.tx.ack
    && (m.idle + 1 < |calls| ==> i.mr.linkUp && i.mr.anComplete)
  }

  lemma Arrived(calls: seq<Call>, m: Milestones, h: History)
    requires Ordered(m) && m.idle < |calls| && Tracks(calls, m, |calls|, h)
    ensures Up(calls, m, h.info)
  {
  }

  /** With a partner that answers, LINK_OK is reached at the call where the last timer has run out, however long each
      wait is, and is not left: the abilities are those of the word received after the acknowledgement, and this side
      has advertised its own, has acknowledged, and has gone back to sending idle. */
  lemma LinkComesUp(calls: seq<Call>, m: Milestones)
    requires Ordered(m) && m.idle < |calls| && Partner(calls, m)
    ensures Up(calls, m, Play(Begin(), calls).info)
    ensures Play(Begin(), calls[..m.idle]).info.phase == IdleDetect
  {
    StaysOnTrack(calls, m, m.idle);
    StaysOnTrack(calls, m, |calls|);
    assert calls[..|calls|] == calls;
    Arrived(calls, m, Play(Begin(), calls));
  }

  /** A partner as call `k` meets it: it sends `w` from call 3 on and `v` from call 6 on. */
  function Meeting(k: nat, w: ConfigWord, v: ConfigWord): Call {
    Call(if k < 2 then 0 else if k < 8 then 12001 else if k < 10 then 24002 else 36003,
         Control(true, false, NOTHING), if k < 3 then None else Some(if k < 6 then w else v))
  }

  function Meetings(n: nat, w: ConfigWord, v: ConfigWord): (s: seq<Call>)
    ensures |s| == n && forall k | 0 <= k < n :: s[k] == Meeting(k, w, v)
  {
    seq(n, k requires 0 <= k => Meeting(k, w, v))
  }

  /** Eleven calls are enough, whatever word is matched and whatever word with ACK and no reserved bits follows. */
  lemma MeetingComesUp(w: ConfigWord, v: ConfigWord, n: nat)
    requires w != ZERO && v.ack && !v.Reserved() && n > 10
    ensures var i := Play(Begin(), Meetings(n, w, v)).info; i.phase == LinkOk && Carries(v, i.mr.lp)
  {
    var calls, m := Meetings(n, w, v), Milestones(2, 5, 6, 8, 10);
    forall k | 0 <= k < n ensures Answers(calls, m, k) { MeetingAnswers(w, v, n, k); }
    LinkComesUp(calls, m);
  }

  lemma MeetingReceived(w: ConfigWord, v: ConfigWord, n: nat, k: nat)
    requires w != ZERO && v != ZERO && k < n
    ensures var s := Received(Meetings(n, w, v), k); !Silence(s) && (k <= 5 ==> (Triple(s) <==> k == 5))
  {
    var s := Received(Meetings(n, w, v), k);
    assert forall j | 0 <= j < k :: s[j] == Meeting(j + 1, w, v).word;
    assert s != [] ==> s[k - 1] != Some(ZERO);
  }

  lemma MeetingAnswers(w: ConfigWord, v: ConfigWord, n: nat, k: nat)
    requires w != ZERO && v.ack && !v.Reserved() && k < n && n > 10
    ensures Answers(Meetings(n, w, v), Milestones(2, 5, 6, 8, 10), k)
  {
    if k <= 5 { MeetingFound(w, v, n, k); } else { MeetingDone(w, v, n, k); }
  }

  lemma MeetingFound(w: ConfigWord, v: ConfigWord, n: nat, k: nat)
    requires w != ZERO && v != ZERO && k <= 5 && k < n
    ensures Answers(Meetings(n, w, v), Milestones(2, 5, 6, 8, 10), k)
  {
    var calls := Meetings(n, w, v);
    if k == 2 {
      assert calls[1].time == 0 && calls[2].time == 12001;
      assert Late(0, 12001);
    } else if k >= 4 {
      MeetingReceived(w, v, n, k);
    }
  }

  lemma MeetingDone(w: ConfigWord, v: ConfigWord, n: nat, k: nat)
    requires w != ZERO && v.ack && !v.Reserved() && 5 < k < n
    ensures Answers(Meetings(n, w, v), Milestones(2, 5, 6, 8, 10), k)
  {
    MeetingReceived(w, v, n, k);
  }
}
