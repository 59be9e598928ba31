/** The emulator's timer. Instead of comparing the clock with stimecmp at every step, rv_run counts steps down; the
    count is set whenever stimecmp is written and at the start of each run. */
module Timer {
  import opened Words
  import opened Align

  // ---------------------------------------------------------------- the clock

  /** What the guest does in a step: whether it accepts a timer interrupt, and the write its instruction makes. */
  datatype Event = Nothing | WriteStimecmp(v: u64) | WriteSip(stip: bool)

  datatype Turn = Turn(accepts: bool, event: Event)

  datatype Outcome = Quiet | Raised | Trapped

  /** The clock that a run keeps to: it is compared with stimecmp while `waiting`, which is from a write of stimecmp or
      the start of a call until the interrupt is taken. */
  datatype Clock = Clock(now: nat, cmp: u64, waiting: bool, stip: bool)

  function Due(c: Clock): bool { c.waiting && c.now >= c.cmp }

  function Rearmed(c: Clock, v: u64): Clock {
    Clock(c.now, v, v != 0, c.stip && v != 0 && v <= c.now)
  }

  function Apply(c: Clock, e: Event): Clock {
    match e
    case Nothing => c
    case WriteStimecmp(v) => Rearmed(c, v)
    case WriteSip(b) => c.(stip := b)
  }

  function Tick(c: Clock, step: nat, turn: Turn): (Clock, Outcome) {
    var t := c.(now := c.now + step);
    if !Due(t) then (Apply(t, turn.event), Quiet)
    else if turn.accepts then (t.(waiting := false, stip := true), Trapped)
    else (Apply(t.(stip := true), turn.event), Raised)
  }

  function After(c: Clock, step: nat, turns: seq<Turn>): Clock {
    if turns == [] then c
    else Tick(After(c, step, turns[..|turns| - 1]), step, turns[|turns| - 1]).0
  }

  function Outcomes(c: Clock, step: nat, turns: seq<Turn>): (s: seq<Outcome>)
    ensures |s| == |turns|
  {
    if turns == [] then []
    else
      var early := turns[..|turns| - 1];
      Outcomes(c, step, early) + [Tick(After(c, step, early), step, turns[|turns| - 1]).1]
  }

  /** A step of the clock: below stimecmp, or not waiting for it, only the guest's own write happens; otherwise the pending
      bit is set before it, or in place of it if the interrupt is taken, which ends the waiting. */
  lemma TickMeans(c: Clock, step: nat, turn: Turn)
    ensures var (t, o) := Tick(c, step, turn);
            var due, e := c.waiting && c.now + step >= c.cmp, turn.event;
            && t.now == c.now + step
            && (o == Quiet <==> !due) && (o == Trapped <==> due && turn.accepts)
            && (o == Trapped ==> t.cmp == c.cmp && !t.waiting && t.stip)
            && (o != Trapped ==>
                  match e
                  case Nothing => t.cmp == c.cmp && t.waiting == c.waiting && t.stip == (due || c.stip)
                  case WriteSip(b) => t.cmp == c.cmp && t.waiting == c.waiting && t.stip == b
                  case WriteStimecmp(v) => t.cmp == v && (t.waiting <==> v != 0) && (t.stip <==> (due || c.stip) && 0 < v <= t.now))
  {
  }

  // ---------------------------------------------------------------- what the clock does

  /** The clock's reading after `j` more steps. */
  function At(now: nat, step: nat, j: nat): nat { now + j * step }

  lemma AtNext(now: nat, step: nat, j: nat)
    ensures At(now + step, step, j) == At(now, step, j + 1) && At(now, step, 0) == now && At(now, step, 1) == now + step
  {
    Distribute(step, j, 1);
  }

  lemma AtMono(now: nat, step: nat, i: nat, j: nat)
    requires i <= j
    ensures At(now, step, i) <= At(now, step, j)
  {
    assert j * step == i * step + (j - i) * step;
  }

  lemma TickNow(c: Clock, step: nat, turn: Turn)
    ensures Tick(c, step, turn).0.now == c.now + step
    ensures c.waiting ==> (Tick(c, step, turn).1 != Quiet <==> c.now + step >= c.cmp)
    ensures c.waiting && !turn.event.WriteStimecmp? && c.now + step < c.cmp ==>
              Tick(c, step, turn).1 == Quiet && Tick(c, step, turn).0.waiting && Tick(c, step, turn).0.cmp == c.cmp
  {
  }

  lemma {:induction false} NowAfter(c: Clock, step: nat, turns: seq<Turn>)
    ensures After(c, step, turns).now == At(c.now, step, |turns|)
  {
    hide Tick;
    if turns == [] {
      AtNext(c.now, step, 0);
    } else {
      var early := turns[..|turns| - 1];
      NowAfter(c, step, early);
      TickNow(After(c, step, early), step, turns[|turns| - 1]);
      Distribute(step, |turns| - 1, 1);
    }
  }

  predicate WritesCmp(turns: seq<Turn>) { exists i :: 0 <= i < |turns| && turns[i].event.WriteStimecmp? }

  /** As long as the clock is below stimecmp, nothing happens; `Quiet` up to that step. */
  lemma {:induction false} QuietBefore(c: Clock, step: nat, turns: seq<Turn>)
    requires c.waiting && !WritesCmp(turns) && At(c.now, step, |turns|) < c.cmp
    ensures forall i :: 0 <= i < |turns| ==> Outcomes(c, step, turns)[i] == Quiet
    ensures After(c, step, turns).waiting && After(c, step, turns).cmp == c.cmp
  {
    hide Tick, At;
    if turns != [] {
      var early := turns[..|turns| - 1];
      AtMono(c.now, step, |early|, |turns|);
      assert !WritesCmp(early) by { assert forall i :: 0 <= i < |early| ==> early[i] == turns[i]; }
      QuietBefore(c, step, early);
      NowAfter(c, step, early);
      AtSum(c.now, step, |early|);
      TickNow(After(c, step, early), step, turns[|turns| - 1]);
      assert Outcomes(c, step, turns)[|early|] == Quiet;
      assert forall i :: 0 <= i < |early| ==> Outcomes(c, step, turns)[i] == Outcomes(c, step, early)[i];
    }
  }

  lemma AtSum(now: nat, step: nat, j: nat)
    ensures At(now, step, j + 1) == At(now, step, j) + step
  {
    Distribute(step, j, 1);
  }

  /** After stimecmp was written, the interrupt is raised first at exactly the first step whose clock has reached it. */
  lemma FirstRaise(c: Clock, v: u64, step: nat, turns: seq<Turn>, i: nat)
    requires v != 0 && i < |turns| && !WritesCmp(turns[..i])
    requires forall k :: 0 <= k < i ==> Outcomes(Rearmed(c, v), step, turns[..i])[k] == Quiet
    ensures Outcomes(Rearmed(c, v), step, turns[..i + 1])[i] != Quiet <==> At(c.now, step, i + 1) >= v
  {
    hide Tick, At;
    var w := Rearmed(c, v);
    assert turns[..i + 1][..i] == turns[..i];
    StillWaiting(w, step, turns[..i]);
    NowAfter(w, step, turns[..i]);
    AtSum(c.now, step, i);
    TickNow(After(w, step, turns[..i]), step, turns[i]);
    assert turns[..i + 1][i] == turns[i];
  }

  lemma {:induction false} StillWaiting(c: Clock, step: nat, turns: seq<Turn>)
    requires c.waiting && !WritesCmp(turns) && forall k :: 0 <= k < |turns| ==> Outcomes(c, step, turns)[k] == Quiet
    ensures After(c, step, turns).waiting && After(c, step, turns).cmp == c.cmp
  {
    if turns != [] {
      var early := turns[..|turns| - 1];
      assert !WritesCmp(early) by { assert forall i :: 0 <= i < |early| ==> early[i] == turns[i]; }
      assert forall k :: 0 <= k < |early| ==> Outcomes(c, step, turns)[k] == Outcomes(c, step, early)[k];
      StillWaiting(c, step, early);
      assert Outcomes(c, step, turns)[|early|] == Quiet;
      assert !turns[|turns| - 1].event.WriteStimecmp?;
    }
  }

  // ---------------------------------------------------------------- comparing at every step

  /** The plain comparison: a step is due whenever stimecmp is set and the clock has reached it. */
  datatype Plain = Plain(now: nat, cmp: u64, stip: bool)

  function PlainApply(p: Plain, e: Event): Plain {
    match e
    case Nothing => p
    case WriteStimecmp(v) => Plain(p.now, v, p.stip && v != 0 && v <= p.now)
    case WriteSip(b) => p.(stip := b)
  }

  function PlainTick(p: Plain, step: nat, turn: Turn): (Plain, Outcome) {
    var t := p.(now := p.now + step);
    if t.cmp == 0 || t.now < t.cmp then (PlainApply(t, turn.event), Quiet)
    else if turn.accepts then (t.(stip := true), Trapped)
    else (PlainApply(t.(stip := true), turn.event), Raised)
  }

  function PlainAfter(p: Plain, step: nat, turns: seq<Turn>): Plain {
    if turns == [] then p
    else PlainTick(PlainAfter(p, step, turns[..|turns| - 1]), step, turns[|turns| - 1]).0
  }

  function PlainOutcomes(p: Plain, step: nat, turns: seq<Turn>): (s: seq<Outcome>)
    ensures |s| == |turns|
  {
    if turns == [] then []
    else
      var early := turns[..|turns| - 1];
      PlainOutcomes(p, step, early) + [PlainTick(PlainAfter(p, step, early), step, turns[|turns| - 1]).1]
  }

  function Stripped(c: Clock): Plain { Plain(c.now, c.cmp, c.stip) }

  /** The latch is as the comparison needs it. */
  predicate Latched(c: Clock) { c.waiting || c.cmp == 0 }

  /** What a run keeps: an interrupt that was taken was due. */
  predicate Sane(c: Clock) {
    (c.waiting ==> c.cmp != 0) && (!Latched(c) ==> c.now >= c.cmp)
  }

  /** A step agrees with the plain comparison exactly if the latch is set; taking an interrupt unsets it, and only a
      write of stimecmp sets it again. */
  lemma TickAgainstPlain(c: Clock, step: nat, turn: Turn)
    requires Sane(c)
    ensures var t, p := Tick(c, step, turn), PlainTick(Stripped(c), step, turn);
            && Sane(t.0) && (t.1 == p.1 <==> Latched(c)) && (t.1 == p.1 ==> Stripped(t.0) == p.0)
            && (Latched(t.0) <==> t.1 != Trapped && (Latched(c) || turn.event.WriteStimecmp?))
  {
  }

  lemma {:induction false} SaneAfter(c: Clock, step: nat, turns: seq<Turn>)
    requires Sane(c)
    ensures Sane(After(c, step, turns))
  {
    hide Tick, Sane;
    if turns != [] {
      SaneAfter(c, step, turns[..|turns| - 1]);
      TickAgainstPlain(After(c, step, turns[..|turns| - 1]), step, turns[|turns| - 1]);
    }
  }

  /** No interrupt is taken in these steps. */
  predicate NoneTaken(outcomes: seq<Outcome>) { forall k :: 0 <= k < |outcomes| ==> outcomes[k] != Trapped }

  lemma {:induction false} AgreesUntilTaken(c: Clock, step: nat, turns: seq<Turn>)
    requires Sane(c) && Latched(c) && NoneTaken(Outcomes(c, step, turns))
    ensures Outcomes(c, step, turns) == PlainOutcomes(Stripped(c), step, turns)
    ensures Latched(After(c, step, turns)) && Stripped(After(c, step, turns)) == PlainAfter(Stripped(c), step, turns)
  {
    hide Tick, PlainTick, Sane, Latched;
    if turns != [] {
      var early := turns[..|turns| - 1];
      var o := Outcomes(c, step, turns);
      assert NoneTaken(Outcomes(c, step, early)) by {
        assert forall k :: 0 <= k < |early| ==> Outcomes(c, step, early)[k] == o[k];
      }
      assert o[|early|] != Trapped;
      AgreesUntilTaken(c, step, early);
      SaneAfter(c, step, early);
      TickAgainstPlain(After(c, step, early), step, turns[|early|]);
    }
  }

  /** The value of stimecmp after these turns: the last one written, if any. */
  function InForce(cmp: u64, turns: seq<Turn>): u64 {
    if turns == [] then cmp
    else
      var e := turns[|turns| - 1].event;
      if e.WriteStimecmp? then e.v else InForce(cmp, turns[..|turns| - 1])
  }

  /** The guest accepts in step `k`, with the clock not below the value last written. */
  predicate AcceptsDue(now: nat, cmp: u64, step: nat, turns: seq<Turn>, k: nat)
    requires k < |turns|
  {
    turns[k].accepts && var v := InForce(cmp, turns[..k]); v != 0 && At(now, step, k + 1) >= v
  }

  ghost predicate NeverAcceptsDue(now: nat, cmp: u64, step: nat, turns: seq<Turn>, n: nat)
    requires n <= |turns|
  {
    forall k :: 0 <= k < n ==> !AcceptsDue(now, cmp, step, turns, k)
  }

  lemma NeverAcceptsDueSnoc(now: nat, cmp: u64, step: nat, turns: seq<Turn>, n: nat)
    requires n < |turns|
    ensures NeverAcceptsDue(now, cmp, step, turns, n) <==> NeverAcceptsDue(now, cmp, step, turns[..n], n)
    ensures NeverAcceptsDue(now, cmp, step, turns, n + 1)
       <==> NeverAcceptsDue(now, cmp, step, turns, n) && !AcceptsDue(now, cmp, step, turns, n)
  {
    hide At;
    forall k | 0 <= k < n
      ensures AcceptsDue(now, cmp, step, turns, k) <==> AcceptsDue(now, cmp, step, turns[..n], k)
    {
      assert turns[..n][..k] == turns[..k];
    }
  }

  /** Whether an interrupt is taken, told from the turns alone. */
  lemma {:induction false} TakenExactly(c: Clock, step: nat, turns: seq<Turn>)
    requires Sane(c) && Latched(c)
    ensures NoneTaken(Outcomes(c, step, turns)) <==> NeverAcceptsDue(c.now, c.cmp, step, turns, |turns|)
    ensures NoneTaken(Outcomes(c, step, turns)) ==> After(c, step, turns).cmp == InForce(c.cmp, turns)
  {
    if turns != [] {
      hide At, NeverAcceptsDue, Tick, NoneTaken;
      var early, last := turns[..|turns| - 1], turns[|turns| - 1];
      TakenExactly(c, step, early);
      NeverAcceptsDueSnoc(c.now, c.cmp, step, turns, |early|);
      NoneTakenSnoc(Outcomes(c, step, early), Tick(After(c, step, early), step, last).1);
      if NoneTaken(Outcomes(c, step, early)) {
        AgreesUntilTaken(c, step, early);
        SaneAfter(c, step, early);
        NowAfter(c, step, early);
        AtSum(c.now, step, |early|);
        TakenInTick(After(c, step, early), step, last);
      }
    }
  }

  lemma NoneTakenSnoc(o: seq<Outcome>, x: Outcome)
    ensures NoneTaken(o + [x]) <==> NoneTaken(o) && x != Trapped
  {
    assert forall k :: 0 <= k < |o| ==> (o + [x])[k] == o[k];
    assert (o + [x])[|o|] == x;
  }

  lemma TakenInTick(c: Clock, step: nat, turn: Turn)
    requires Sane(c) && Latched(c)
    ensures var t := Tick(c, step, turn);
            && (t.1 == Trapped <==> turn.accepts && c.cmp != 0 && c.now + step >= c.cmp)
            && (t.1 != Trapped ==> t.0.cmp == if turn.event.WriteStimecmp? then turn.event.v else c.cmp)
  {
  }

  /** A call does in every step what comparing the clock each time would if and only if in no step before its last does
      the guest accept with the clock not below stimecmp.  After an interrupt is taken the next step is due again, the
      clock being past stimecmp, but stays quiet. */
  lemma AgreesExactly(c: Clock, step: nat, turns: seq<Turn>)
    requires Sane(c) && Latched(c)
    ensures Outcomes(c, step, turns) == PlainOutcomes(Stripped(c), step, turns)
       <==> NeverAcceptsDue(c.now, c.cmp, step, turns, if turns == [] then 0 else |turns| - 1)
  {
    AgreesIfNoneTaken(c, step, turns);
    if turns != [] {
      hide Outcomes, PlainOutcomes, NeverAcceptsDue, Sane, Latched, NoneTaken;
      var early := turns[..|turns| - 1];
      NeverAcceptsDueSnoc(c.now, c.cmp, step, turns, |early|);
      TakenExactly(c, step, early);
    }
  }

  /** The same, by what happens in the call: no interrupt is taken before its last step. */
  lemma {:induction false} AgreesIfNoneTaken(c: Clock, step: nat, turns: seq<Turn>)
    requires Sane(c) && Latched(c)
    ensures Outcomes(c, step, turns) == PlainOutcomes(Stripped(c), step, turns)
       <==> turns == [] || NoneTaken(Outcomes(c, step, turns[..|turns| - 1]))
  {
    if turns != [] {
      hide Tick, PlainTick, Sane, Latched, NoneTaken;
      var early, last := turns[..|turns| - 1], turns[|turns| - 1];
      var o, p := Outcomes(c, step, turns), PlainOutcomes(Stripped(c), step, turns);
      assert o[..|early|] == Outcomes(c, step, early) && p[..|early|] == PlainOutcomes(Stripped(c), step, early);
      if NoneTaken(Outcomes(c, step, early)) {
        AgreesUntilTaken(c, step, early);
        SaneAfter(c, step, early);
        TickAgainstPlain(After(c, step, early), step, last);
      } else {
        AgreesIfNoneTaken(c, step, early);
        TakenDiffers(c, step, early, last);
        assert early + [last] == turns;
      }
    }
  }

  /** The step after a taken interrupt. */
  lemma TakenDiffers(c: Clock, step: nat, early: seq<Turn>, last: Turn)
    requires Sane(c) && Latched(c) && !NoneTaken(Outcomes(c, step, early))
    requires Outcomes(c, step, early) == PlainOutcomes(Stripped(c), step, early)
        <==> early == [] || NoneTaken(Outcomes(c, step, early[..|early| - 1]))
    ensures Outcomes(c, step, early + [last]) != PlainOutcomes(Stripped(c), step, early + [last])
  {
    hide Tick, PlainTick, Sane, Latched, NoneTaken;
    var turns, n := early + [last], |early| - 1;
    assert turns[..|early|] == early;
    var o, p := Outcomes(c, step, early), PlainOutcomes(Stripped(c), step, early);
    assert Outcomes(c, step, turns)[..|early|] == o && PlainOutcomes(Stripped(c), step, turns)[..|early|] == p;
    assert early != [] by { NothingTaken(); }
    if o == p {
      var first := early[..n];
      NoneTakenSnoc(Outcomes(c, step, first), Tick(After(c, step, first), step, early[n]).1);
      AgreesUntilTaken(c, step, first);
      SaneAfter(c, step, first);
      TickAgainstPlain(After(c, step, first), step, early[n]);
      TickAgainstPlain(After(c, step, early), step, last);
      assert Outcomes(c, step, turns)[|early|] == Tick(After(c, step, early), step, last).1;
      assert PlainOutcomes(Stripped(c), step, turns)[|early|] == PlainTick(PlainAfter(Stripped(c), step, early), step, last).1;
    }
  }

  lemma NothingTaken()
    ensures NoneTaken([])
  {
  }

  // ---------------------------------------------------------------- what the guest can tell

  /** What a guest sees of a step: whether it was interrupted, and the pending bit. */
  datatype Sight = Sight(trapped: bool, stip: bool)

  function Seen(c: Clock, step: nat, turns: seq<Turn>): (s: seq<Sight>)
    ensures |s| == |turns|
  {
    if turns == [] then []
    else
      var t := Tick(After(c, step, turns[..|turns| - 1]), step, turns[|turns| - 1]);
      Seen(c, step, turns[..|turns| - 1]) + [Sight(t.1 == Trapped, t.0.stip)]
  }

  function PlainSeen(p: Plain, step: nat, turns: seq<Turn>): (s: seq<Sight>)
    ensures |s| == |turns|
  {
    if turns == [] then []
    else
      var t := PlainTick(PlainAfter(p, step, turns[..|turns| - 1]), step, turns[|turns| - 1]);
      PlainSeen(p, step, turns[..|turns| - 1]) + [Sight(t.1 == Trapped, t.0.stip)]
  }

  /** After a taken interrupt and before stimecmp is rewritten, the guest accepts the next one, or has cleared the pending
      bit and neither sets it itself nor puts stimecmp ahead of the clock. */
  predicate Clashes(c: Clock, step: nat, turn: Turn) {
    !Latched(c)
    && (turn.accepts
        || (!c.stip && match turn.event
                       case Nothing => true
                       case WriteStimecmp(v) => v != 0 && v <= c.now + step
                       case WriteSip(_) => false))
  }

  lemma TickSight(c: Clock, step: nat, turn: Turn)
    requires Sane(c)
    ensures var t, p := Tick(c, step, turn), PlainTick(Stripped(c), step, turn);
            && (Sight(t.1 == Trapped, t.0.stip) == Sight(p.1 == Trapped, p.0.stip) <==> !Clashes(c, step, turn))
            && (!Clashes(c, step, turn) ==> Stripped(t.0) == p.0)
  {
  }

  ghost predicate NeverClashes(c: Clock, step: nat, turns: seq<Turn>) {
    forall i :: 0 <= i < |turns| ==> !Clashes(After(c, step, turns[..i]), step, turns[i])
  }

  lemma NeverClashesSnoc(c: Clock, step: nat, turns: seq<Turn>)
    requires turns != []
    ensures var early := turns[..|turns| - 1];
            (NeverClashes(c, step, turns)
             <==> NeverClashes(c, step, early) && !Clashes(After(c, step, early), step, turns[|early|]))
  {
    hide After, Clashes;
    var early := turns[..|turns| - 1];
    assert forall i :: 0 <= i < |early| ==> early[..i] == turns[..i] && early[i] == turns[i];
    if NeverClashes(c, step, turns) {
      forall i | 0 <= i < |early| ensures !Clashes(After(c, step, early[..i]), step, early[i]) {
        assert !Clashes(After(c, step, turns[..i]), step, turns[i]);
      }
    }
  }

  /** The guest sees what it would see if the clock were compared in every step, if and only if no step clashes. */
  lemma {:induction false} SeenExactly(c: Clock, step: nat, turns: seq<Turn>)
    requires Sane(c)
    ensures Seen(c, step, turns) == PlainSeen(Stripped(c), step, turns) <==> NeverClashes(c, step, turns)
    ensures NeverClashes(c, step, turns) ==> Stripped(After(c, step, turns)) == PlainAfter(Stripped(c), step, turns)
  {
    if turns != [] {
      hide Tick, PlainTick, Sane, Clashes, NeverClashes, Stripped;
      var early, last := turns[..|turns| - 1], turns[|turns| - 1];
      SeenExactly(c, step, early);
      SaneAfter(c, step, early);
      TickSight(After(c, step, early), step, last);
      NeverClashesSnoc(c, step, turns);
      var s, p := Seen(c, step, turns), PlainSeen(Stripped(c), step, turns);
      assert s[..|early|] == Seen(c, step, early) && p[..|early|] == PlainSeen(Stripped(c), step, early);
      assert s == p <==> s[..|early|] == p[..|early|] && s[|early|] == p[|early|];
    }
  }

  // ---------------------------------------------------------------- one call or two

  /** The clock as the next call finds it: rearmed if stimecmp is set. */
  function Resumed(c: Clock): Clock { if c.cmp != 0 then Rearmed(c, c.cmp) else c }

  lemma {:induction false} RunsSplit(c: Clock, step: nat, a: seq<Turn>, b: seq<Turn>)
    ensures After(c, step, a + b) == After(After(c, step, a), step, b)
    ensures Outcomes(c, step, a + b) == Outcomes(c, step, a) + Outcomes(After(c, step, a), step, b)
  {
    hide Tick;
    if b == [] {
      assert a + b == a;
    } else {
      RunsSplit(c, step, a, b[..|b| - 1]);
      assert (a + b)[..|a + b| - 1] == a + b[..|b| - 1];
    }
  }

  lemma {:induction false} PendingBitDoesNotMatter(c: Clock, d: Clock, step: nat, turns: seq<Turn>)
    requires d == c.(stip := d.stip)
    ensures Outcomes(c, step, turns) == Outcomes(d, step, turns)
    ensures After(d, step, turns) == After(c, step, turns).(stip := After(d, step, turns).stip)
  {
    hide Tick;
    if turns != [] {
      var early := turns[..|turns| - 1];
      PendingBitDoesNotMatter(c, d, step, early);
      TickIgnoresPending(After(c, step, early), After(d, step, early), step, turns[|early|]);
    }
  }

  lemma TickIgnoresPending(c: Clock, d: Clock, step: nat, turn: Turn)
    requires d == c.(stip := d.stip)
    ensures var t, u := Tick(c, step, turn), Tick(d, step, turn); t.1 == u.1 && u.0 == t.0.(stip := u.0.stip)
  {
  }

  lemma FirstOutcome(c: Clock, step: nat, turns: seq<Turn>)
    requires turns != []
    ensures Outcomes(c, step, turns)[0] == Tick(c, step, turns[0]).1
  {
    hide Tick;
    assert turns == [turns[0]] + turns[1..];
    RunsSplit(c, step, [turns[0]], turns[1..]);
    assert [turns[0]][..0] == [];
  }

  /** Two calls do what one call does with all the turns, if and only if the first does not end with an interrupt taken
      and stimecmp not yet rewritten. */
  lemma TwoCallsAreOne(c: Clock, step: nat, a: seq<Turn>, b: seq<Turn>)
    requires Sane(c) && b != []
    ensures Outcomes(c, step, a + b) == Outcomes(c, step, a) + Outcomes(Resumed(After(c, step, a)), step, b)
       <==> Latched(After(c, step, a))
  {
    hide After, Outcomes, Tick;
    var d := After(c, step, a);
    SaneAfter(c, step, a);
    RunsSplit(c, step, a, b);
    if Latched(d) {
      PendingBitDoesNotMatter(d, Resumed(d), step, b);
    } else {
      FirstOutcome(d, step, b);
      FirstOutcome(Resumed(d), step, b);
      LateStep(d, step, b[0]);
      var one, two := Outcomes(c, step, a) + Outcomes(d, step, b), Outcomes(c, step, a) + Outcomes(Resumed(d), step, b);
      assert one[|a|] != two[|a|];
    }
  }

  lemma LateStep(c: Clock, step: nat, turn: Turn)
    requires Sane(c) && !Latched(c)
    ensures Tick(c, step, turn).1 == Quiet && Tick(Resumed(c), step, turn).1 != Quiet
  {
  }

  const ACCEPTS := Turn(true, Nothing)

  /** A guest that accepts and rewrites nothing: one call of two steps interrupts it once, two calls of one step, or the
      plain comparison, twice. */
  lemma LatchExample()
    ensures var c := Clock(0, 1, true, false);
            && Outcomes(c, 1, [ACCEPTS, ACCEPTS]) == [Trapped, Quiet]
            && PlainOutcomes(Stripped(c), 1, [ACCEPTS, ACCEPTS]) == [Trapped, Trapped]
            && Outcomes(c, 1, [ACCEPTS]) + Outcomes(Resumed(After(c, 1, [ACCEPTS])), 1, [ACCEPTS]) == [Trapped, Trapped]
  {
    var c := Clock(0, 1, true, false);
    assert [ACCEPTS, ACCEPTS][..1] == [ACCEPTS] && [ACCEPTS][..0] == [];
    assert After(c, 1, [ACCEPTS]) == Clock(1, 1, false, true);
    assert PlainAfter(Stripped(c), 1, [ACCEPTS]) == Plain(1, 1, true);
  }

  // ---------------------------------------------------------------- the countdown

  const MAX_32 := 0xffff_ffff

  /** The number of steps that set_csr computes, 64-bit wrap and saturation included. */
  function Countdown(v: u64, ticks: u64, step: u32): u32 {
    var steps := Steps(v, ticks, step);
    if steps > MAX_32 then MAX_32 else steps
  }

  function Steps(v: u64, ticks: u64, step: u32): nat {
    if v > ticks && step != 0 then ((v - ticks + step - 1) % TWO_64) / step else if v != 0 then 1 else 0
  }

  /** Within `rest` steps the countdown reaches zero exactly when the clock reaches the comparison value. */
  ghost predicate Counts(until: u32, cmp: u64, now: nat, step: nat, rest: nat) {
    forall j :: 1 <= j <= rest ==> (At(now, step, j) >= cmp <==> until != 0 && j >= until)
  }

  lemma CeilingReaches(d: nat, step: nat, j: nat)
    requires step > 0 && d > 0
    ensures (d + step - 1) / step >= 1 && (j * step >= d <==> j >= (d + step - 1) / step)
  {
    var x := d + step - 1;
    var q := x / step;
    assert x == step * q + x % step;
    MulSign(step, q);
    var e := j - q;
    assert j * step == step * q + step * e by { Distribute(step, q, e); }
    MulSign(step, e);
  }

  lemma ShortProduct(j: nat, step: nat)
    requires j < MAX_32 && step <= MAX_32
    ensures j * step <= (MAX_32 - 1) * MAX_32
  {
    MulMono(j, MAX_32 - 1, step);
    MulMono(step, MAX_32, MAX_32 - 1);
  }

  /** Neither the 64-bit wrap of the division nor saturation matters within fewer than 2^32 - 1 steps. */
  lemma CountdownCounts(v: u64, ticks: u64, step: u32, rest: nat)
    requires step > 0 && v != 0 && rest < MAX_32
    ensures Counts(Countdown(v, ticks, step), v, ticks, step, rest)
  {
    forall j | 1 <= j <= rest
      ensures At(ticks, step, j) >= v <==> Countdown(v, ticks, step) != 0 && j >= Countdown(v, ticks, step)
    {
      if v <= ticks {
        assert j * step >= 0;
      } else {
        var d := v - ticks;
        var x: nat := d + step - 1;
        if x < TWO_64 {
          QuotientIs(x, TWO_64, 0, x);
          CeilingReaches(d, step, j);
        } else {
          QuotientIs(x, TWO_64, 1, x - TWO_64);
          QuotientIs(x - TWO_64, step, 0, x - TWO_64);
          ShortProduct(j, step);
        }
      }
    }
  }

  /** The countdown is right for the clock, with `rest` steps to go. */
  ghost predicate Linked(c: Clock, until: u32, step: nat, rest: nat) {
    if c.waiting then c.cmp != 0 && Counts(until, c.cmp, c.now, step, rest) else until == 0
  }

  /** The countdown ends exactly in a step in which the clock is due. */
  lemma EndsWhenDue(c: Clock, until: u32, step: nat, rest: nat)
    requires Linked(c, until, step, rest) && rest > 0
    ensures Due(c.(now := c.now + step)) <==> until == 1
    ensures until != 1 ==> Linked(c.(now := c.now + step), if until != 0 then until - 1 else 0, step, rest - 1)
    ensures until == 1 ==> Linked(c.(now := c.now + step), 1, step, rest - 1)
  {
    AtNext(c.now, step, 0);
    var u: u32 := if until > 1 then until - 1 else until;
    if c.waiting {
      assert At(c.now, step, 1) >= c.cmp <==> until == 1;
      var next := c.now + step;
      forall j | 1 <= j <= rest - 1
        ensures At(next, step, j) >= c.cmp <==> u != 0 && j >= u
      {
        AtNext(c.now, step, j);
        AtMono(next, step, 0, j);
        AtNext(next, step, 0);
        assert At(c.now, step, j + 1) >= c.cmp <==> until != 0 && j + 1 >= until;
      }
    }
  }

  lemma ZeroCountdown(ticks: u64, step: u32)
    ensures Countdown(0, ticks, step) == 0
  {
  }

  lemma Rearms(c: Clock, v: u64, step: u32, rest: nat)
    requires step > 0 && rest < MAX_32 && c.now < TWO_64
    ensures Linked(Rearmed(c, v), Countdown(v, c.now, step), step, rest)
  {
    hide Counts, Countdown;
    ZeroCountdown(c.now, step);
    if v != 0 { CountdownCounts(v, c.now, step, rest); }
  }

  lemma TrappedOrKept(c: Clock, until: u32, step: nat, rest: nat)
    ensures Linked(c.(waiting := false, stip := true), 0, step, rest)
    ensures Linked(c, until, step, rest) ==> forall b :: Linked(c.(stip := b), until, step, rest)
  {
  }

  lemma StartLinked(c: Clock, until: u32, step: nat, rest: nat)
    requires c.waiting || until == 0
    ensures !c.waiting ==> Linked(c, until, step, rest)
  {
  }

  lemma EndsValid(c: Clock, until: u32, step: nat)
    requires Linked(c, until, step, 0)
    ensures c.cmp == 0 ==> until == 0
  {
  }

  lemma StepLinked(c: Clock, until: u32, step: u32, rest: nat, e: Event)
    requires step > 0 && rest < MAX_32 && c.now < TWO_64 && Linked(c, until, step, rest)
    ensures Linked(Apply(c, e), if e.WriteStimecmp? then Countdown(e.v, c.now, step) else until, step, rest)
  {
    hide Counts, Countdown;
    if e.WriteStimecmp? { Rearms(c, e.v, step, rest); }
  }

  lemma NothingRun(c: Clock, step: nat)
    ensures After(c, step, []) == c && Outcomes(c, step, []) == []
  {
  }

  lemma OneMore(c: Clock, step: nat, turns: seq<Turn>, i: nat)
    requires i < |turns|
    ensures var t := Tick(After(c, step, turns[..i]), step, turns[i]);
            After(c, step, turns[..i + 1]) == t.0 && Outcomes(c, step, turns[..i + 1]) == Outcomes(c, step, turns[..i]) + [t.1]
  {
    assert turns[..i + 1][..i] == turns[..i];
  }

  class Emulator {
    var ticks: u64
    var timecmp: u64
    var tickStep: u32
    var timerSteps: u32
    var stip: bool

    ghost predicate Valid()
      reads this
    {
      timecmp == 0 ==> timerSteps == 0
    }

    /** The clock as it stands when a run starts. */
    ghost function Start(): (c: Clock)
      reads this
    {
      var c := Clock(ticks, timecmp, false, stip);
      if timecmp != 0 then Rearmed(c, timecmp) else c
    }

    /** set_csr for STIMECMP. */
    method SetStimecmp(v: u64)
      modifies this`timecmp, this`timerSteps, this`stip
      ensures timecmp == v && timerSteps == Countdown(v, ticks, tickStep)
      ensures stip == (old(stip) && v != 0 && v <= ticks)
    {
      hide Steps;
      var steps := Steps(v, ticks, tickStep);
      timecmp := v;
      if v == 0 || ticks < v { stip := false; }
      timerSteps := if steps > MAX_32 then MAX_32 else steps;
    }

    /** The timer part of rv_run: the countdown follows the clock, and the plain comparison in every step if and only if
        the guest accepts in no step before the last with the clock not below stimecmp. */
    method RvRun(turns: seq<Turn>, timeAdvance: u32) returns (outcomes: seq<Outcome>)
      requires Valid() && timeAdvance > 0 && |turns| < MAX_32 && At(ticks, timeAdvance, |turns|) < TWO_64
      modifies this
      ensures Valid() && outcomes == Outcomes(old(Start()), timeAdvance, turns)
      ensures var c := After(old(Start()), timeAdvance, turns); ticks == c.now && timecmp == c.cmp && stip == c.stip
      ensures Start() == Resumed(After(old(Start()), timeAdvance, turns))
      ensures outcomes == PlainOutcomes(old(Stripped(Start())), timeAdvance, turns)
         <==> NeverAcceptsDue(old(ticks), old(timecmp), timeAdvance, turns, if turns == [] then 0 else |turns| - 1)
    {
      hide Linked, Outcomes, After, Countdown, At, PlainOutcomes, NeverAcceptsDue;
      ghost var start := Start();
      ghost var c := start;
      tickStep := timeAdvance;
      if timecmp != 0 {
        Rearms(Clock(ticks, timecmp, false, stip), timecmp, timeAdvance, |turns|);
        SetStimecmp(timecmp);
      }
      var now: u64, until: u32, i: nat := ticks, timerSteps, 0;
      outcomes := [];
      assert turns[..0] == [];
      NothingRun(start, timeAdvance);
      StartLinked(start, until, timeAdvance, |turns|);
      while i < |turns|
        invariant 0 <= i <= |turns| && tickStep == timeAdvance
        invariant At(now, timeAdvance, |turns| - i) < TWO_64
        invariant c == After(start, timeAdvance, turns[..i]) && outcomes == Outcomes(start, timeAdvance, turns[..i])
        invariant c.now == now && c.cmp == timecmp && c.stip == stip && Linked(c, until, timeAdvance, |turns| - i)
      {
        var turn := turns[i];
        OneMore(start, timeAdvance, turns, i);
        EndsWhenDue(c, until, timeAdvance, |turns| - i);
        AtNext(now, timeAdvance, |turns| - i - 1);
        AtMono(now, timeAdvance, 1, |turns| - i);
        ghost var due := c.(now := c.now + timeAdvance);
        c := Tick(c, timeAdvance, turn).0;
        now, i := now + timeAdvance, i + 1;
        TrappedOrKept(due, if until > 1 then until - 1 else until, timeAdvance, |turns| - i);
        var fires := false;
        if until != 0 {
          until := until - 1;
          fires := until == 0;
        }
        if fires {
          stip := true;
          if turn.accepts {
            ticks, timerSteps := now, until;
            outcomes := outcomes + [Trapped];
            continue;
          }
          until := 1;
        }
        outcomes := outcomes + [if fires then Raised else Quiet];
        StepLinked(due.(stip := stip), until, timeAdvance, |turns| - i, turn.event);
        match turn.event {
          case Nothing =>
          case WriteStimecmp(v) =>
            ticks, timerSteps := now, until;
            SetStimecmp(v);
            until := timerSteps;
          case WriteSip(b) => stip := b;
        }
      }
      ticks, timerSteps := now, until;
      assert turns[..i] == turns;
      EndsValid(c, until, timeAdvance);
      AgreesExactly(start, timeAdvance, turns);
      SaneAfter(start, timeAdvance, turns);
    }
  }
}
