/** PCIe error recovery (src/txgbe_pcierr.c:116-343): votes folded over all devices of a bus tree
    drive a sequence of phases. */
module PcieRecovery {
  import opened Bits
  import opened BusWalk

  /** enum pci_ers_result */
  datatype Ers = None_ | CanRecover | NeedReset | Disconnect | Recovered | NoAerDriver

  /** merge_result */
  function Merge(orig: Ers, vote: Ers): Ers {
    if vote == NoAerDriver then NoAerDriver
    else if vote == None_ then orig
    else
      match orig
      case CanRecover => vote
      case Recovered => vote
      case Disconnect => if vote == NeedReset then NeedReset else orig
      case _ => orig
  }

  function Fold(orig: Ers, votes: seq<Ers>): Ers
    decreases |votes|
  {
    if votes == [] then orig else Fold(Merge(orig, votes[0]), votes[1..])
  }

  lemma {:induction false} FoldConcat(orig: Ers, a: seq<Ers>, b: seq<Ers>)
    ensures Fold(orig, a + b) == Fold(Fold(orig, a), b)
    decreases |a|
  {
    if a == [] {
      assert a + b == b;
    } else {
      assert (a + b)[0] == a[0] && (a + b)[1..] == a[1..] + b;
      FoldConcat(Merge(orig, a[0]), a[1..], b);
    }
  }

  // ----- what a fold computes

  predicate Mild(e: Ers) {
    e == CanRecover || e == Recovered
  }

  /** The last CAN_RECOVER or RECOVERED, or the start value. */
  function LastMild(start: Ers, votes: seq<Ers>): Ers {
    if votes == [] then start
    else if Mild(votes[|votes| - 1]) then votes[|votes| - 1]
    else LastMild(start, votes[..|votes| - 1])
  }

  /** The worst vote wins in the order NO_AER_DRIVER, NEED_RESET, DISCONNECT; otherwise the last one. */
  function Verdict(start: Ers, votes: seq<Ers>): Ers {
    if NoAerDriver in votes then NoAerDriver
    else if NeedReset in votes then NeedReset
    else if Disconnect in votes then Disconnect
    else LastMild(start, votes)
  }

  /** The fold, closed: for every sequence of votes. */
  lemma {:induction false} FoldIsVerdict(start: Ers, votes: seq<Ers>)
    requires Mild(start)
    ensures Fold(start, votes) == Verdict(start, votes)
    decreases |votes|
  {
    if votes != [] {
      var front, last := votes[..|votes| - 1], votes[|votes| - 1];
      assert votes == front + [last];
      FoldIsVerdict(start, front);
      FoldConcat(start, front, [last]);
      assert Fold(Fold(start, front), [last]) == Merge(Fold(start, front), last) by {
        assert [last][1..] == [];
      }
      MildOrStart(start, front);
      InLast(front, last, NoAerDriver);
      InLast(front, last, NeedReset);
      InLast(front, last, Disconnect);
    }
  }

  lemma InLast(front: seq<Ers>, last: Ers, e: Ers)
    ensures e in front + [last] <==> e in front || e == last
  {}

  lemma {:induction false} MildOrStart(start: Ers, votes: seq<Ers>)
    requires Mild(start)
    ensures Mild(LastMild(start, votes))
    decreases |votes|
  {
    if votes != [] {
      MildOrStart(start, votes[..|votes| - 1]);
    }
  }

  predicate Severe(votes: seq<Ers>) {
    NoAerDriver in votes || NeedReset in votes || Disconnect in votes
  }

  /** Reordering cannot matter: a severe vote decides, or the mild votes all agree. */
  predicate OrderFree(votes: seq<Ers>) {
    Severe(votes) || Recovered !in votes || CanRecover !in votes
  }

  lemma {:induction false} OneMildKind(start: Ers, votes: seq<Ers>, kind: Ers)
    requires Mild(start) && Mild(kind) && forall v | v in votes && Mild(v) :: v == kind
    ensures LastMild(start, votes) == if kind in votes then kind else start
    decreases |votes|
  {
    if votes != [] {
      var front, last := votes[..|votes| - 1], votes[|votes| - 1];
      assert votes == front + [last];
      assert forall v | v in front :: v in votes;
      OneMildKind(start, front, kind);
      InLast(front, last, kind);
    }
  }

  /** In detection every order of order-free votes gives the same status. */
  lemma DetectionOrderFree(votes: seq<Ers>, votes': seq<Ers>)
    requires multiset(votes) == multiset(votes') && OrderFree(votes)
    ensures Fold(CanRecover, votes) == Fold(CanRecover, votes')
  {
    FoldIsVerdict(CanRecover, votes);
    FoldIsVerdict(CanRecover, votes');
    forall e: Ers ensures e in votes <==> e in votes' {
      assert e in votes <==> e in multiset(votes);
      assert e in votes' <==> e in multiset(votes');
    }
    var kind := if Recovered in votes then Recovered else CanRecover;
    if !Severe(votes) {
      OneMildKind(CanRecover, votes, kind);
      OneMildKind(CanRecover, votes', kind);
    }
  }

  /** Move the vote at position i to the end. */
  function MoveLast(votes: seq<Ers>, i: nat): seq<Ers>
    requires i < |votes|
  {
    votes[..i] + votes[i + 1..] + [votes[i]]
  }

  lemma MoveLastFold(votes: seq<Ers>, i: nat)
    requires i < |votes| && !Severe(votes) && Mild(votes[i])
    ensures multiset(MoveLast(votes, i)) == multiset(votes)
    ensures Fold(CanRecover, MoveLast(votes, i)) == votes[i]
  {
    var moved := MoveLast(votes, i);
    assert votes == votes[..i] + [votes[i]] + votes[i + 1..];
    assert forall e: Ers :: e in moved ==> e in votes;
    FoldIsVerdict(CanRecover, moved);
  }

  /** Otherwise two orders of the same votes differ. */
  lemma DetectionOrderMatters(votes: seq<Ers>) returns (a: seq<Ers>, b: seq<Ers>)
    requires !OrderFree(votes)
    ensures multiset(a) == multiset(b) == multiset(votes)
    ensures Fold(CanRecover, a) != Fold(CanRecover, b)
  {
    var i :| 0 <= i < |votes| && votes[i] == Recovered;
    var j :| 0 <= j < |votes| && votes[j] == CanRecover;
    a, b := MoveLast(votes, i), MoveLast(votes, j);
    MoveLastFold(votes, i);
    MoveLastFold(votes, j);
  }

  // ----- devices and their votes

  /** What recovery sees of a device: its callbacks, whether it is a bridge, and its votes. */
  datatype Device = Device(bridge: bool, detect: Handler, mmio: Handler, slot: Handler, resume: bool)

  datatype Handler = Absent | Votes(vote: Ers)

  /** txgbe_report_frozen_detected: no handler is a veto unless the device is a bridge. */
  function DetectVote(d: Device): Ers {
    if d.detect.Absent? then (if d.bridge then None_ else NoAerDriver) else d.detect.vote
  }

  /** txgbe_report_mmio_enabled and txgbe_report_slot_reset: a missing handler casts no vote. */
  function HandlerVote(h: Handler): Ers {
    if h.Absent? then None_ else h.vote
  }

  datatype Phase = Detect | Mmio | Slot

  function VoteIn(p: Phase, d: Device): Ers {
    match p
    case Detect => DetectVote(d)
    case Mmio => HandlerVote(d.mmio)
    case Slot => HandlerVote(d.slot)
  }

  function HandlerFor(p: Phase, d: Device): Handler {
    match p
    case Detect => d.detect
    case Mmio => d.mmio
    case Slot => d.slot
  }

  function VotesOf(p: Phase, order: seq<nat>, dev: nat -> Device): (r: seq<Ers>)
    ensures |r| == |order| && forall i | 0 <= i < |order| :: r[i] == VoteIn(p, dev(order[i]))
  {
    if order == [] then [] else [VoteIn(p, dev(order[0]))] + VotesOf(p, order[1..], dev)
  }

  /** What happens on the bus, in order. */
  datatype Event = Polled(phase: Phase, dev: nat) | BusReset | Ready | GaveUp | Resumed(dev: nat)

  /** The poll events of one walk; only devices with the handler are called. */
  function PollEvents(p: Phase, order: seq<nat>, dev: nat -> Device): seq<Event> {
    if order == [] then []
    else
      (if HandlerFor(p, dev(order[0])).Votes? then [Polled(p, order[0])] else []) + PollEvents(p, order[1..], dev)
  }

  function ResumeEvents(order: seq<nat>, dev: nat -> Device): seq<Event> {
    if order == [] then []
    else (if dev(order[0]).resume then [Resumed(order[0])] else []) + ResumeEvents(order[1..], dev)
  }

  // ----- the phases

  /** Status after detection, after the mmio phase and after the slot phase. */
  function AfterDetect(order: seq<nat>, dev: nat -> Device): Ers {
    Fold(CanRecover, VotesOf(Detect, order, dev))
  }

  function AfterMmio(order: seq<nat>, dev: nat -> Device): Ers {
    var s := AfterDetect(order, dev);
    if s == CanRecover then Fold(Recovered, VotesOf(Mmio, order, dev)) else s
  }

  function AfterSlot(order: seq<nat>, dev: nat -> Device): Ers {
    var s := AfterMmio(order, dev);
    if s == NeedReset then Fold(Recovered, VotesOf(Slot, order, dev)) else s
  }

  /** The events of a whole recovery; `up` if the link came back. */
  function Trace(order: seq<nat>, dev: nat -> Device, up: bool): seq<Event> {
    PollEvents(Detect, order, dev) + [BusReset] +
    (if !up then [GaveUp]
     else
       [Ready]
       + (if AfterDetect(order, dev) == CanRecover then PollEvents(Mmio, order, dev) else [])
       + (if AfterMmio(order, dev) == NeedReset then PollEvents(Slot, order, dev) else [])
       + (if AfterSlot(order, dev) == Recovered then ResumeEvents(order, dev) else []))
  }

  /** The last phase that polls the devices. */
  function LastPhase(order: seq<nat>, dev: nat -> Device): Phase {
    if AfterMmio(order, dev) == NeedReset then Slot
    else if AfterDetect(order, dev) == CanRecover then Mmio
    else Detect
  }

  /** One veto in detection silences every later callback. */
  lemma VetoSilences(order: seq<nat>, dev: nat -> Device)
    requires NoAerDriver in VotesOf(Detect, order, dev)
    ensures Trace(order, dev, true) == PollEvents(Detect, order, dev) + [BusReset, Ready]
  {
    hide PollEvents, ResumeEvents, Fold;
    FoldIsVerdict(CanRecover, VotesOf(Detect, order, dev));
    assert PollEvents(Detect, order, dev) + [BusReset] + ([Ready] + [] + [] + [])
        == PollEvents(Detect, order, dev) + [BusReset, Ready];
  }

  /** Resume is broadcast exactly when the last phase run had no severe vote and its last opinion,
      or else its start value, was RECOVERED. */
  lemma ResumeExactly(order: seq<nat>, dev: nat -> Device)
    ensures var p := LastPhase(order, dev);
      var votes := VotesOf(p, order, dev);
      AfterSlot(order, dev) == Recovered <==>
      !Severe(votes) && LastMild(if p == Detect then CanRecover else Recovered, votes) == Recovered
  {
    hide Fold, LastMild, VotesOf;
    FoldIsVerdict(CanRecover, VotesOf(Detect, order, dev));
    FoldIsVerdict(Recovered, VotesOf(Mmio, order, dev));
    FoldIsVerdict(Recovered, VotesOf(Slot, order, dev));
    MildOrStart(CanRecover, VotesOf(Detect, order, dev));
    MildOrStart(Recovered, VotesOf(Mmio, order, dev));
  }

  /** In particular all votes of that phase were NONE, CAN_RECOVER or RECOVERED. */
  lemma ResumeNeedsConsent(order: seq<nat>, dev: nat -> Device, i: nat)
    requires AfterSlot(order, dev) == Recovered && i < |order|
    ensures var v := VoteIn(LastPhase(order, dev), dev(order[i]));
      v == None_ || v == CanRecover || v == Recovered
  {
    hide AfterSlot, LastPhase, LastMild;
    ResumeExactly(order, dev);
    var votes := VotesOf(LastPhase(order, dev), order, dev);
    assert votes[i] in votes;
  }

  // ----- what devices do to a recovery

  lemma VotedFor(p: Phase, order: seq<nat>, dev: nat -> Device, e: Ers)
    ensures e in VotesOf(p, order, dev) <==> exists i :: 0 <= i < |order| && VoteIn(p, dev(order[i])) == e
  {
    var votes := VotesOf(p, order, dev);
    if e in votes {
      var i :| 0 <= i < |votes| && votes[i] == e;
      assert VoteIn(p, dev(order[i])) == e;
    }
    if i :| 0 <= i < |order| && VoteIn(p, dev(order[i])) == e {
      assert votes[i] == e;
    }
  }

  /** A device that is no bridge and has no error_detected handler silences every later callback. */
  lemma HandlerlessVetoes(order: seq<nat>, dev: nat -> Device, i: nat)
    requires i < |order| && dev(order[i]).detect.Absent? && !dev(order[i]).bridge
    ensures Trace(order, dev, true) == PollEvents(Detect, order, dev) + [BusReset, Ready]
  {
    hide Trace, PollEvents, VotesOf;
    VotedFor(Detect, order, dev, NoAerDriver);
    assert VoteIn(Detect, dev(order[i])) == NoAerDriver;
    VetoSilences(order, dev);
  }

  /** The votes of a phase, and so its status, are the same without a device that has nothing to say. */
  lemma {:induction false} SilentVote(p: Phase, order: seq<nat>, dev: nat -> Device, i: nat, start: Ers)
    requires i < |order| && VoteIn(p, dev(order[i])) == None_
    ensures Fold(start, VotesOf(p, order, dev)) == Fold(start, VotesOf(p, order[..i] + order[i + 1..], dev))
    decreases i
  {
    hide Merge, VoteIn, VotesOf;
    var rest := order[..i] + order[i + 1..];
    VotesStep(p, order, dev, start);
    if i == 0 {
      assert rest == order[1..];
      NoneMerges(start);
    } else {
      assert rest[0] == order[0] && rest[1..] == order[1..][..i - 1] + order[1..][i..];
      VotesStep(p, rest, dev, start);
      SilentVote(p, order[1..], dev, i - 1, Merge(start, VoteIn(p, dev(order[0]))));
    }
  }

  lemma NoneMerges(start: Ers)
    ensures Merge(start, None_) == start
  {}

  lemma {:induction false} SilentPoll(p: Phase, order: seq<nat>, dev: nat -> Device, i: nat)
    requires i < |order| && HandlerFor(p, dev(order[i])).Absent?
    ensures PollEvents(p, order, dev) == PollEvents(p, order[..i] + order[i + 1..], dev)
    decreases i
  {
    var rest := order[..i] + order[i + 1..];
    if i == 0 {
      assert rest == order[1..];
    } else {
      assert rest[0] == order[0] && rest[1..] == order[1..][..i - 1] + order[1..][i..];
      SilentPoll(p, order[1..], dev, i - 1);
    }
  }

  lemma {:induction false} SilentResume(order: seq<nat>, dev: nat -> Device, i: nat)
    requires i < |order| && !dev(order[i]).resume
    ensures ResumeEvents(order, dev) == ResumeEvents(order[..i] + order[i + 1..], dev)
    decreases i
  {
    var rest := order[..i] + order[i + 1..];
    if i == 0 {
      assert rest == order[1..];
    } else {
      assert rest[0] == order[0] && rest[1..] == order[1..][..i - 1] + order[1..][i..];
      SilentResume(order[1..], dev, i - 1);
    }
  }

  /** A bridge without any handler changes neither a status nor an event: it might as well be absent. */
  lemma BareBridgeIgnored(order: seq<nat>, dev: nat -> Device, i: nat, up: bool)
    requires i < |order| && dev(order[i]) == Device(true, Absent, Absent, Absent, false)
    ensures Trace(order, dev, up) == Trace(order[..i] + order[i + 1..], dev, up)
    ensures AfterSlot(order, dev) == AfterSlot(order[..i] + order[i + 1..], dev)
  {
    hide Fold, VotesOf, PollEvents, ResumeEvents;
    SilentVote(Detect, order, dev, i, CanRecover);
    SilentVote(Mmio, order, dev, i, Recovered);
    SilentVote(Slot, order, dev, i, Recovered);
    SilentPoll(Detect, order, dev, i);
    SilentPoll(Mmio, order, dev, i);
    SilentPoll(Slot, order, dev, i);
    SilentResume(order, dev, i);
  }

  /** A missing mmio_enabled or slot_reset handler leaves the status and the events of its phase alone. */
  lemma MissingHandlerIgnored(order: seq<nat>, dev: nat -> Device, i: nat)
    requires i < |order|
    ensures dev(order[i]).mmio.Absent? ==>
      && Fold(Recovered, VotesOf(Mmio, order, dev)) == Fold(Recovered, VotesOf(Mmio, order[..i] + order[i + 1..], dev))
      && PollEvents(Mmio, order, dev) == PollEvents(Mmio, order[..i] + order[i + 1..], dev)
    ensures dev(order[i]).slot.Absent? ==>
      && Fold(Recovered, VotesOf(Slot, order, dev)) == Fold(Recovered, VotesOf(Slot, order[..i] + order[i + 1..], dev))
      && PollEvents(Slot, order, dev) == PollEvents(Slot, order[..i] + order[i + 1..], dev)
  {
    hide Fold, VotesOf, PollEvents;
    if dev(order[i]).mmio.Absent? {
      SilentVote(Mmio, order, dev, i, Recovered);
      SilentPoll(Mmio, order, dev, i);
    }
    if dev(order[i]).slot.Absent? {
      SilentVote(Slot, order, dev, i, Recovered);
      SilentPoll(Slot, order, dev, i);
    }
  }

  /** A device has a handler for the phase. */
  predicate Handles(p: Phase, d: Device) {
    match p
    case Detect => d.detect != Absent
    case Mmio => d.mmio != Absent
    case Slot => d.slot != Absent
  }

  /** A walk calls exactly the devices with a handler, once each and in the order of the walk. */
  lemma {:induction false} PolledExactly(p: Phase, order: seq<nat>, dev: nat -> Device)
    ensures PollEvents(p, order, dev) == Calls(p, Chosen(order, (d: nat) => Handles(p, dev(d))))
    decreases |order|
  {
    if order != [] {
      PolledExactly(p, order[1..], dev);
      var rest := Chosen(order[1..], (d: nat) => Handles(p, dev(d)));
      if Handles(p, dev(order[0])) {
        assert ([order[0]] + rest)[1..] == rest;
      }
    }
  }

  /** The broadcast resumes exactly the devices with a resume handler, once each and in that order. */
  lemma {:induction false} ResumedExactly(order: seq<nat>, dev: nat -> Device)
    ensures var devs := Chosen(order, (d: nat) => dev(d).resume);
      |ResumeEvents(order, dev)| == |devs| && forall i | 0 <= i < |devs| :: ResumeEvents(order, dev)[i] == Resumed(devs[i])
    decreases |order|
  {
    if order != [] {
      ResumedExactly(order[1..], dev);
      var rest := Chosen(order[1..], (d: nat) => dev(d).resume);
      assert Chosen(order, (d: nat) => dev(d).resume) == (if dev(order[0]).resume then [order[0]] else []) + rest;
    }
  }

  /** The devices of a walk that have a property, in order. */
  function Chosen(order: seq<nat>, has: nat -> bool): seq<nat> {
    if order == [] then []
    else (if has(order[0]) then [order[0]] else []) + Chosen(order[1..], has)
  }

  function Calls(p: Phase, devs: seq<nat>): (r: seq<Event>)
    ensures |r| == |devs| && forall i | 0 <= i < |r| :: r[i] == Polled(p, devs[i])
  {
    if devs == [] then [] else [Polled(p, devs[0])] + Calls(p, devs[1..])
  }

  // ----- which phases run, read off the votes

  /** The votes of a device, by its handlers: nobody asked votes nothing, except that in detection a
      device without handler that is no bridge vetoes. */
  function OpinionOf(p: Phase, d: Device): Ers {
    match p
    case Detect => if d.detect.Votes? then d.detect.vote else if d.bridge then None_ else NoAerDriver
    case Mmio => if d.mmio.Votes? then d.mmio.vote else None_
    case Slot => if d.slot.Votes? then d.slot.vote else None_
  }

  function Opinions(p: Phase, order: seq<nat>, dev: nat -> Device): (r: seq<Ers>)
    ensures |r| == |order| && forall i | 0 <= i < |order| :: r[i] == OpinionOf(p, dev(order[i]))
  {
    seq(|order|, i requires 0 <= i < |order| => OpinionOf(p, dev(order[i])))
  }

  /** The mmio phase runs if no device objected and the last opinion, if any, is CAN_RECOVER. */
  predicate MmioRuns(order: seq<nat>, dev: nat -> Device) {
    var d := Opinions(Detect, order, dev);
    !Severe(d) && LastMild(CanRecover, d) == CanRecover
  }

  /** The slot phase runs if the phase before it asked for a reset and nobody vetoed. */
  predicate SlotRuns(order: seq<nat>, dev: nat -> Device) {
    var d := Opinions(if MmioRuns(order, dev) then Mmio else Detect, order, dev);
    NeedReset in d && NoAerDriver !in d
  }

  predicate Resumes(order: seq<nat>, dev: nat -> Device) {
    var last := if SlotRuns(order, dev) then Slot else if MmioRuns(order, dev) then Mmio else Detect;
    var d := Opinions(last, order, dev);
    !Severe(d) && LastMild(if last == Detect then CanRecover else Recovered, d) == Recovered
  }

  lemma OpinionsAreVotes(p: Phase, order: seq<nat>, dev: nat -> Device)
    ensures Opinions(p, order, dev) == VotesOf(p, order, dev)
  {}

  /** The whole trace from the devices' opinions: detection, reset, and, once the link is up, the phases
      those opinions call for. */
  lemma TraceByOpinions(order: seq<nat>, dev: nat -> Device)
    ensures Trace(order, dev, false) == PollEvents(Detect, order, dev) + [BusReset, GaveUp]
    ensures Trace(order, dev, true) == PollEvents(Detect, order, dev) + [BusReset, Ready]
      + (if MmioRuns(order, dev) then PollEvents(Mmio, order, dev) else [])
      + (if SlotRuns(order, dev) then PollEvents(Slot, order, dev) else [])
      + (if Resumes(order, dev) then ResumeEvents(order, dev) else [])
  {
    hide Fold, LastMild, PollEvents, ResumeEvents, Opinions, VotesOf;
    OpinionsAreVotes(Detect, order, dev);
    OpinionsAreVotes(Mmio, order, dev);
    OpinionsAreVotes(Slot, order, dev);
    var d, m, s := VotesOf(Detect, order, dev), VotesOf(Mmio, order, dev), VotesOf(Slot, order, dev);
    FoldIsVerdict(CanRecover, d);
    FoldIsVerdict(Recovered, m);
    FoldIsVerdict(Recovered, s);
    MildOrStart(CanRecover, d);
    MildOrStart(Recovered, m);
    MildOrStart(Recovered, s);
    var a := PollEvents(Detect, order, dev);
    var x := if MmioRuns(order, dev) then PollEvents(Mmio, order, dev) else [];
    var y := if SlotRuns(order, dev) then PollEvents(Slot, order, dev) else [];
    var z := if Resumes(order, dev) then ResumeEvents(order, dev) else [];
    assert a + [BusReset] + [GaveUp] == a + [BusReset, GaveUp];
    assert a + [BusReset] + ([Ready] + x + y + z) == a + [BusReset, Ready] + x + y + z;
  }

  // ----- running it

  /** The reporting callback on each device in turn: the votes are merged in that order. */
  method PollEach(p: Phase, order: seq<nat>, dev: nat -> Device, start: Ers)
    returns (status: Ers, events: seq<Event>)
    ensures status == Fold(start, VotesOf(p, order, dev))
    ensures events == PollEvents(p, order, dev)
  {
    hide VotesOf, VoteIn, Merge, Fold, PollEvents;
    status, events := start, [];
    assert order[0..] == order;
    assert [] + PollEvents(p, order, dev) == PollEvents(p, order, dev);
    for i := 0 to |order|
      invariant Fold(start, VotesOf(p, order, dev)) == Fold(status, VotesOf(p, order[i..], dev))
      invariant events + PollEvents(p, order[i..], dev) == PollEvents(p, order, dev)
    {
      var d := order[i];
      assert order[i..][1..] == order[i + 1..];
      VotesStep(p, order[i..], dev, status);
      PollStep(events, p, order, dev, i);
      events := events + (if HandlerFor(p, dev(d)).Votes? then [Polled(p, d)] else []);
      status := Merge(status, VoteIn(p, dev(d)));
    }
    NonePolled(status, events, p, order[|order|..], dev);
  }

  lemma PollStep(done: seq<Event>, p: Phase, order: seq<nat>, dev: nat -> Device, i: nat)
    requires i < |order|
    ensures done + PollEvents(p, order[i..], dev)
         == done + (if HandlerFor(p, dev(order[i])).Votes? then [Polled(p, order[i])] else [])
            + PollEvents(p, order[i + 1..], dev)
  {
    assert order[i..][1..] == order[i + 1..];
    var e := if HandlerFor(p, dev(order[i])).Votes? then [Polled(p, order[i])] else [];
    assert PollEvents(p, order[i..], dev) == e + PollEvents(p, order[i + 1..], dev);
  }

  lemma NonePolled(status: Ers, done: seq<Event>, p: Phase, none: seq<nat>, dev: nat -> Device)
    requires none == []
    ensures done + PollEvents(p, none, dev) == done && Fold(status, VotesOf(p, none, dev)) == status
  {}

  /** One walk of the bus with a reporting callback. */
  method Poll(p: Phase, t: Topology, top: nat, ghost root: Chain, dev: nat -> Device, start: Ers)
    returns (status: Ers, events: seq<Event>)
    requires Shows(t, top, t.first(top), root)
    ensures status == Fold(start, VotesOf(p, Preorder(root), dev))
    ensures events == PollEvents(p, Preorder(root), dev)
  {
    hide *;
    var order := Walk(t, top, root, _ => false);
    NeverStops(Preorder(root));
    status, events := PollEach(p, order, dev, start);
  }

  lemma VotesStep(p: Phase, order: seq<nat>, dev: nat -> Device, status: Ers)
    requires order != []
    ensures Fold(status, VotesOf(p, order, dev))
         == Fold(Merge(status, VoteIn(p, dev(order[0]))), VotesOf(p, order[1..], dev))
  {
    assert VotesOf(p, order, dev)[1..] == VotesOf(p, order[1..], dev);
  }

  lemma {:induction false} NeverStops(devs: seq<nat>)
    ensures Until(devs, _ => false) == devs
    decreases |devs|
  {
    if devs != [] {
      NeverStops(devs[1..]);
      assert devs == [devs[0]] + devs[1..];
    }
  }

  /** The doubling wait after the bus reset: the k-th configuration read succeeds if ready(k). */
  method WaitReady(ready: nat -> bool) returns (up: bool, waited: nat)
    ensures up <==> exists k :: 0 <= k <= 16 && ready(k)
    ensures !up ==> waited == 65535
  {
    var delay, tries := 1, 0;
    waited := 0;
    var id := ready(0);
    while !id
      invariant 0 <= tries <= 16 && delay == Pow2(tries) && waited == delay - 1
      invariant id == ready(tries) && forall k | 0 <= k < tries :: !ready(k)
      decreases 17 - tries
    {
      if delay > 60000 {
        DelayValues();
        return false, waited;
      }
      DelayValues();
      waited := waited + delay;
      delay := delay * 2;
      tries := tries + 1;
      id := ready(tries);
    }
    up := true;
  }

  lemma DelayValues()
    ensures Pow2(16) == 65536
    ensures forall n | 0 <= n < 16 :: Pow2(n) <= 32768
  {
    hide Pow2;
    Pow2Values();
    Pow2Next(15);
    forall n | 0 <= n < 16 ensures Pow2(n) <= 32768 {
      Pow2Monotone(n, 15);
    }
  }

  /** txgbe_pcie_do_recovery on the bus below the port. */
  method DoRecovery(t: Topology, top: nat, ghost root: Chain, dev: nat -> Device, ready: nat -> bool)
    returns (events: seq<Event>)
    requires Shows(t, top, t.first(top), root)
    ensures events == Trace(Preorder(root), dev, exists k :: 0 <= k <= 16 && ready(k))
  {
    hide Preorder, Fold, PollEvents, ResumeEvents, VotesOf, Shows;
    var status, e := Poll(Detect, t, top, root, dev, CanRecover);
    events := e + [BusReset];
    var up, waited := WaitReady(ready);
    if !up {
      events := events + [GaveUp];
      return;
    }
    ghost var head := events;
    ghost var mmio: seq<Event> := [];
    ghost var slot: seq<Event> := [];
    ghost var resume: seq<Event> := [];
    events := events + [Ready];
    if status == CanRecover {
      status, e := Poll(Mmio, t, top, root, dev, Recovered);
      events := events + e;
      mmio := e;
    } else {
      assert events + [] == events;
    }
    if status == NeedReset {
      status, e := Poll(Slot, t, top, root, dev, Recovered);
      events := events + e;
      slot := e;
    } else {
      assert events + [] == events;
    }
    if status == Recovered {
      e := Resume(t, top, root, dev);
      events := events + e;
      resume := e;
    } else {
      assert events + [] == events;
    }
    assert events == head + ([Ready] + mmio + slot + resume);
  }

  /** The resume broadcast. */
  method Resume(t: Topology, top: nat, ghost root: Chain, dev: nat -> Device) returns (events: seq<Event>)
    requires Shows(t, top, t.first(top), root)
    ensures events == ResumeEvents(Preorder(root), dev)
  {
    hide *;
    var order := Walk(t, top, root, _ => false);
    NeverStops(Preorder(root));
    events := ResumeEach(order, dev);
  }

  method ResumeEach(order: seq<nat>, dev: nat -> Device) returns (events: seq<Event>)
    ensures events == ResumeEvents(order, dev)
  {
    hide ResumeEvents;
    events := [];
    assert order[0..] == order;
    assert [] + ResumeEvents(order, dev) == ResumeEvents(order, dev);
    for i := 0 to |order|
      invariant events + ResumeEvents(order[i..], dev) == ResumeEvents(order, dev)
    {
      ResumeStep(events, order, dev, i);
      events := events + (if dev(order[i]).resume then [Resumed(order[i])] else []);
    }
    NoneResumed(events, order[|order|..], dev);
  }

  lemma ResumeStep(done: seq<Event>, order: seq<nat>, dev: nat -> Device, i: nat)
    requires i < |order|
    ensures done + ResumeEvents(order[i..], dev)
         == done + (if dev(order[i]).resume then [Resumed(order[i])] else []) + ResumeEvents(order[i + 1..], dev)
  {
    assert order[i..][1..] == order[i + 1..];
    var e := if dev(order[i]).resume then [Resumed(order[i])] else [];
    assert ResumeEvents(order[i..], dev) == e + ResumeEvents(order[i + 1..], dev);
  }

  lemma NoneResumed(done: seq<Event>, none: seq<nat>, dev: nat -> Device)
    requires none == []
    ensures done + ResumeEvents(none, dev) == done
  {}
}
