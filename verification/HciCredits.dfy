/**
 Host to controller flow control: the host counts the ACL data packets it has handed
 over and not yet seen completed, and waits while the count has reached what the
 controller can hold (Bluetooth Core Specification, Vol 4 Part E, section 4.1).
 */
module HciCredits {
  import opened Bytes

  /** The count after a report of `n` completed packets. A report of none clears it. */
  function Credited(pending: byte, n: u16): byte {
    if n != 0 && pending > n then pending - n else 0
  }

  function CreditedAll(pending: byte, reports: seq<u16>): byte {
    if reports == [] then pending
    else Credited(CreditedAll(pending, reports[..|reports| - 1]), reports[|reports| - 1])
  }

  /** A report takes its count off, down to zero, if and only if it counts at least
      one packet or there is nothing to take off. */
  lemma CreditedSubtracts(pending: byte, n: u16)
    ensures Credited(pending, n) as int == (if pending > n then pending as int - n else 0) <==> n != 0 || pending == 0
  {
  }

  // An event of the controller: its code, its length, the number of connection
  // handles, and for each of them the handle and a count.

  predicate HoldsCounts(pdata: seq<byte>) {
    3 <= |pdata| && 3 + 4 * pdata[2] as int <= |pdata|
  }

  function Counts(pdata: seq<byte>): (ns: seq<u16>)
    requires HoldsCounts(pdata)
    ensures |ns| == pdata[2] as int
  {
    seq(pdata[2] as int, i requires 0 <= i < pdata[2] as int => U16At(pdata, 5 + 4 * i))
  }

  const NUM_COMP_PKTS: byte := 0x13

  function CountRecords(reports: seq<(u16, u16)>): (rs: seq<seq<byte>>)
    ensures |rs| == |reports| && AllOfLength(rs, 4)
  {
    seq(|reports|, i requires 0 <= i < |reports| => Le16(reports[i].0) + Le16(reports[i].1))
  }

  function CountEvent(reports: seq<(u16, u16)>): seq<byte>
    requires |reports| < 64
  {
    [NUM_COMP_PKTS, 1 + 4 * |reports|, |reports|] + Flat(CountRecords(reports))
  }

  lemma {:induction false} RecordAt(rs: seq<seq<byte>>, i: nat)
    requires AllOfLength(rs, 4) && i < |rs|
    ensures |Flat(rs)| == 4 * |rs| && Flat(rs)[4 * i..4 * i + 4] == rs[i]
  {
    SplitFlat(rs, 4);
    var k := |rs| - 1;
    if i < k {
      RecordAt(rs[..k], i);
    } else {
      SplitFlat(rs[..k], 4);
    }
  }

  /** The host reads from an event what the controller put there, handle by handle. */
  lemma EventRead(reports: seq<(u16, u16)>)
    requires |reports| < 64
    ensures HoldsCounts(CountEvent(reports)) && |Counts(CountEvent(reports))| == |reports|
    ensures forall i :: 0 <= i < |reports| ==> Counts(CountEvent(reports))[i] == reports[i].1
  {
    var rs, pdata := CountRecords(reports), CountEvent(reports);
    SplitFlat(rs, 4);
    forall i | 0 <= i < |reports|
      ensures U16At(pdata, 5 + 4 * i) == reports[i].1
    {
      RecordAt(rs, i);
      assert pdata[3 + 4 * i..3 + 4 * i + 4] == rs[i];
      assert pdata[5 + 4 * i] == rs[i][2] && pdata[6 + 4 * i] == rs[i][3];
    }
  }

  /** Two completed packets of connection 0x40, octet by octet. */
  lemma TwoCompleted()
    ensures CountEvent([(0x40, 2)]) == [0x13, 5, 1, 0x40, 0, 2, 0]
  {
    var rs := CountRecords([(0x40, 2)]);
    assert rs == [rs[0]] && rs[0] == [0x40, 0, 2, 0];
    FlatFirst(rs);
  }

  /** The reports of an event together: their counts are taken off, down to zero, and
      everything is if one of them counts no packets. */
  lemma {:induction false} AllSubtracted(pending: byte, reports: seq<u16>)
    ensures CreditedAll(pending, reports) as int ==
      if 0 in reports || Total(reports) >= pending as int then (if reports == [] then pending as int else 0)
      else pending as int - Total(reports)
  {
    if reports != [] {
      var front, last := reports[..|reports| - 1], reports[|reports| - 1];
      assert reports == front + [last];
      AllSubtracted(pending, front);
    }
  }

  function Total(reports: seq<u16>): nat {
    if reports == [] then 0 else Total(reports[..|reports| - 1]) + reports[|reports| - 1]
  }

  class Host {
    var pendingPkt: byte
    var maxPkt: byte

    constructor (maxPkt: byte)
      ensures pendingPkt == 0 && this.maxPkt == maxPkt
    {
      pendingPkt, this.maxPkt := 0, maxPkt;
    }

    method HandleNumCompPkts(handle: u16, numPkts: u16)
      modifies this`pendingPkt
      ensures pendingPkt == Credited(old(pendingPkt), numPkts)
    {
      if numPkts != 0 && pendingPkt > numPkts {
        pendingPkt := pendingPkt - numPkts;
      } else {
        pendingPkt := 0;
      }
    }

    /** The branch of the event handler for Number Of Completed Packets. */
    method HandleNumCompEvent(pdata: seq<byte>)
      requires HoldsCounts(pdata)
      modifies this`pendingPkt
      ensures pendingPkt == CreditedAll(old(pendingPkt), Counts(pdata))
    {
      var numHandles := pdata[2];
      for i := 0 to numHandles
        invariant pendingPkt == CreditedAll(old(pendingPkt), Counts(pdata)[..i])
      {
        assert Counts(pdata)[..i + 1][..i] == Counts(pdata)[..i];
        HandleNumCompPkts(U16At(pdata, 3 + 4 * i), U16At(pdata, 5 + 4 * i));
      }
      assert Counts(pdata)[..numHandles] == Counts(pdata);
    }

    /** One look at the guard of the wait loop in `sendAclPkt`, and the rest of the
        method when it lets through. No event is handled in between. */
    method TrySend() returns (sent: bool)
      modifies this`pendingPkt
      ensures sent == (old(pendingPkt) < maxPkt)
      ensures pendingPkt == if sent then old(pendingPkt) + 1 else old(pendingPkt)
    {
      if pendingPkt >= maxPkt {
        return false;
      }
      pendingPkt := pendingPkt + 1;
      sent := true;
    }
  }

  // ---------- host and controller together ----------

  /** `waiting` counts the calls of `sendAclPkt` that have been entered and not yet
      let through; a handler run by `poll` may enter another one. `reports` are the
      counts on their way to the host. */
  datatype System = System(pending: byte, max: byte, held: nat, reports: seq<u16>, waiting: nat)

  datatype Step =
    | EnterSend
    | FinishSend
    | Report(n: u16)
    | HandleReport
    | Flush(dropped: nat)

  /** The controller reports only packets it holds, at least one at a time; on a
      disconnection it drops packets without a report. */
  ghost predicate Next(s: System, step: Step, t: System) {
    match step
    case EnterSend => t == s.(waiting := s.waiting + 1)
    case FinishSend =>
      && 0 < s.waiting && s.pending < s.max
      && t == s.(waiting := s.waiting - 1, pending := s.pending + 1, held := s.held + 1)
    case Report(n) => 1 <= n <= s.held && t == s.(held := s.held - n, reports := s.reports + [n])
    case HandleReport =>
      s.reports != [] && t == s.(pending := Credited(s.pending, s.reports[0]), reports := s.reports[1..])
    case Flush(n) => n <= s.held && t == s.(held := s.held - n)
  }

  /** The host's own state in a system. */
  ghost predicate Stands(host: Host, s: System)
    reads host
  {
    host.pendingPkt == s.pending && host.maxPkt == s.max
  }

  /** The host's methods take the steps that are the host's, whichever connection a
      report is for; a send is let through only where the step is possible. */
  method TakeStep(host: Host, handle: u16, s: System, step: Step) returns (done: bool, t: System)
    requires Stands(host, s) && (step.HandleReport? ==> s.reports != []) && (step.FinishSend? ==> 0 < s.waiting)
    requires step.FinishSend? || step.HandleReport?
    modifies host
    ensures done <==> exists u :: Next(s, step, u)
    ensures if done then Next(s, step, t) else t == s
    ensures Stands(host, t)
  {
    done, t := true, s;
    if step.FinishSend? {
      done := host.TrySend();
      if done {
        t := s.(waiting := s.waiting - 1, pending := s.pending + 1, held := s.held + 1);
        assert Next(s, step, t);
      }
    } else {
      host.HandleNumCompPkts(handle, s.reports[0]);
      t := s.(pending := Credited(s.pending, s.reports[0]), reports := s.reports[1..]);
      assert Next(s, step, t);
    }
  }

  ghost predicate IsRun(states: seq<System>, steps: seq<Step>) {
    && |states| == |steps| + 1
    && states[0].pending == 0 && states[0].held == 0 && states[0].reports == []
    && forall i :: 0 <= i < |steps| ==> Next(states[i], steps[i], states[i + 1])
  }

  function Sum(ns: seq<u16>): nat {
    if ns == [] then 0 else ns[0] + Sum(ns[1..])
  }

  lemma {:induction false} SumAppend(ns: seq<u16>, n: u16)
    ensures Sum(ns + [n]) == Sum(ns) + n
  {
    if ns == [] {
      assert ns + [n] == [n];
    } else {
      SumAppend(ns[1..], n);
      assert (ns + [n])[1..] == ns[1..] + [n];
    }
  }

  ghost predicate AllPositive(ns: seq<u16>) {
    forall i :: 0 <= i < |ns| ==> 1 <= ns[i]
  }

  /** Packets held and reports under way never exceed the host's count. */
  ghost predicate Covered(s: System) {
    AllPositive(s.reports) && s.held + Sum(s.reports) <= s.pending <= s.max
  }

  /** The packets that a step drops without a report. */
  function DroppedBy(step: Step): nat {
    if step.Flush? then step.dropped else 0
  }

  function Dropped(steps: seq<Step>): nat {
    if steps == [] then 0 else Dropped(steps[..|steps| - 1]) + DroppedBy(steps[|steps| - 1])
  }

  /** A step keeps the cover, and only a drop widens the gap under the count. */
  lemma StepKeepsCovered(s: System, step: Step, t: System)
    requires Covered(s) && Next(s, step, t)
    ensures Covered(t) && t.max == s.max
    ensures t.pending - t.held - Sum(t.reports) == s.pending - s.held - Sum(s.reports) + DroppedBy(step)
  {
    if step.Report? {
      SumAppend(s.reports, step.n);
    }
  }

  /** Safety over every run, sends nested in any way: the controller is never handed
      more packets than it can hold. */
  lemma {:induction false} NeverOverrun(states: seq<System>, steps: seq<Step>)
    requires IsRun(states, steps)
    ensures forall i :: 0 <= i < |states| ==>
      Covered(states[i]) && states[i].held <= states[i].pending <= states[i].max == states[0].max
  {
    if steps != [] {
      var k := |steps| - 1;
      NeverOverrun(states[..k + 1], steps[..k]);
      assert Covered(states[..k + 1][k]);
      StepKeepsCovered(states[k], steps[k], states[k + 1]);
    }
  }

  /** Over every run the count is what the controller holds, what it has reported, and
      what it ever dropped. */
  lemma {:induction false} CountExact(states: seq<System>, steps: seq<Step>)
    requires IsRun(states, steps)
    ensures var s := states[|steps|];
      Covered(s) && s.max == states[0].max && s.held + Sum(s.reports) + Dropped(steps) == s.pending
  {
    if steps != [] {
      var k := |steps| - 1;
      CountExact(states[..k + 1], steps[..k]);
      StepKeepsCovered(states[k], steps[k], states[k + 1]);
    }
  }

  /** A send that waits can be let through now or after reports still to come. */
  ghost predicate CanProceed(s: System) {
    s.pending < s.max || s.reports != [] || 0 < s.held
  }

  /** A run has got stuck if and only if the packets dropped in it amount to all that
      the controller can hold. */
  lemma StuckExactly(states: seq<System>, steps: seq<Step>)
    requires IsRun(states, steps)
    ensures CanProceed(states[|steps|]) <==> Dropped(steps) < states[0].max
  {
    CountExact(states, steps);
    var s := states[|steps|];
    assert s.reports != [] ==> 0 < Sum(s.reports);
  }

  lemma {:induction false} NothingDropped(steps: seq<Step>)
    requires forall i :: 0 <= i < |steps| ==> !steps[i].Flush?
    ensures Dropped(steps) == 0
  {
    if steps != [] {
      NothingDropped(steps[..|steps| - 1]);
    }
  }

  /** In particular, without flushes a send never waits for a report that will not come. */
  lemma NoDeadlock(states: seq<System>, steps: seq<Step>)
    requires IsRun(states, steps) && forall i :: 0 <= i < |steps| ==> !steps[i].Flush?
    ensures CanProceed(states[|steps|]) <==> 0 < states[0].max
  {
    NothingDropped(steps);
    StuckExactly(states, steps);
  }

  /** The steps from `s` on lead through `states`. */
  ghost predicate Continues(s: System, states: seq<System>, steps: seq<Step>) {
    && |states| == |steps| + 1 && states[0] == s
    && forall i :: 0 <= i < |steps| ==> Next(states[i], steps[i], states[i + 1])
  }

  /** A system that can proceed has a continuation that lets a waiting send through. */
  lemma Proceeds(s: System) returns (states: seq<System>, steps: seq<Step>)
    requires Covered(s) && CanProceed(s) && 0 < s.waiting
    ensures Continues(s, states, steps) && steps != [] && steps[|steps| - 1] == FinishSend
  {
    states, steps := [s], [];
    if s.pending == s.max {
      if s.reports == [] {
        steps, states := [Report(s.held)], states + [s.(held := 0, reports := [s.held])];
      }
      var t := states[|steps|];
      steps := steps + [HandleReport];
      states := states + [t.(pending := Credited(t.pending, t.reports[0]), reports := t.reports[1..])];
    }
    var u := states[|steps|];
    steps := steps + [FinishSend];
    states := states + [u.(waiting := u.waiting - 1, pending := u.pending + 1, held := u.held + 1)];
  }

  /** A system that cannot proceed never will: no continuation lets a send through. */
  lemma {:induction false} StuckForever(s: System, states: seq<System>, steps: seq<Step>)
    requires Continues(s, states, steps) && !CanProceed(s)
    ensures !CanProceed(states[|steps|])
    ensures forall i :: 0 <= i < |steps| ==> !steps[i].FinishSend?
  {
    if steps != [] {
      var k := |steps| - 1;
      StuckForever(s, states[..k + 1], steps[..k]);
      assert Next(states[k], steps[k], states[k + 1]);
    }
  }

  /** Flushed packets do lose their credits: one send, its packet flushed, and the
      next send waits for ever. */
  lemma FlushLosesCredit() returns (states: seq<System>, steps: seq<Step>)
    ensures IsRun(states, steps)
    ensures states[|steps|].waiting == 1 && Dropped(steps) == states[0].max && !CanProceed(states[|steps|])
  {
    var s0 := System(0, 1, 0, [], 0);
    var s1 := System(0, 1, 0, [], 1);
    var s2 := System(1, 1, 1, [], 0);
    var s3 := System(1, 1, 0, [], 0);
    var s4 := System(1, 1, 0, [], 1);
    states, steps := [s0, s1, s2, s3, s4], [EnterSend, FinishSend, Flush(1), EnterSend];
    CountExact(states, steps);
  }

  /** A report of no packets is what the rule on counts keeps out: the host would
      forget every packet the controller holds. */
  lemma EmptyReportUncovers(s: System)
    requires Covered(s) && 0 < s.held
    ensures !Covered(s.(pending := Credited(s.pending, 0)))
  {
  }
}
