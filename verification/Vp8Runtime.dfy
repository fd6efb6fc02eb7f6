/** The frame reader of vp8channel against carrier reconnects that replace the
    KCP runtime from other goroutines, at the granularity of the kcpMu sections. */
module Vp8Runtime {
  import opened Bytes
  import opened Vp8Epoch

  /** Where the reader is inside handleIncomingFrame; empty says that the frame
      it has taken carries no packet. */
  datatype Reader =
    | Idle
    | First(epoch: u32, empty: bool)                      // hadPeer swapped, peerEpoch stored, kcpOnce next
    | FirstStarted(epoch: u32, empty: bool, rt: nat)
    | Resetting(epoch: u32)                               // peerEpoch swapped, runtime not yet taken
    | Closing(epoch: u32, rt: nat)                        // old runtime taken, about to be closed
    | Cleared(epoch: u32)
    | Restarted(epoch: u32, rt: nat)
    | Delivering(epoch: u32, empty: bool)                 // about to load the runtime
    | Loaded(epoch: u32, rt: nat)

  /** Runtimes are numbered as they are started; open are those not yet closed, and
      fed is a history: the epochs of the packets given to each.  A reconnect takes
      the current runtime (closing), closes it, is counted as cleared until it has
      started another (pending), and stores that. */
  datatype State = Runtimes(
    track: Tracking, kcp: Option<nat>, once: bool, reader: Reader,
    closing: set<nat>, cleared: nat, pending: set<nat>, open: set<nat>, fed: seq<set<u32>>)

  datatype Event =
    | Take(frameToken: u32, epoch: u32, empty: bool)
    | FirstSkip | FirstStart | FirstFail | FirstStore
    | ResetClear | ResetClose | ResetStart | ResetFail | ResetStore
    | Load | NoPacket | Feed
    | CarrierClear | CarrierClose(rt: nat) | CarrierStart | CarrierFail | CarrierStore(rt: nat)

  function Init(local: u32): State {
    Runtimes(Tracking(local, false, 0), None, false, Idle, {}, 0, {}, {}, [])
  }

  /** What the reader does after its decision on a frame. */
  function AfterVerdict(v: Verdict, epoch: u32, empty: bool): Reader {
    match v
    case Foreign => Idle
    case Echo => Idle
    case FirstPeer => First(epoch, empty)
    case NewLife => Resetting(epoch)
    case Known => Delivering(epoch, empty)
  }

  function Started(s: State): State {
    s.(open := s.open + {|s.fed|}, fed := s.fed + [{}])
  }

  function Fed(s: State, rt: nat, epoch: u32): State
    requires rt < |s.fed|
  {
    s.(fed := s.fed[rt := s.fed[rt] + {epoch}])
  }

  ghost predicate Step(token: u32, s: State, e: Event, s': State) {
    match e
    case Take(frameToken, epoch, empty) =>
      var (track, v) := Observe(s.track, token, frameToken, epoch);
      s.reader.Idle? && s' == s.(track := track, reader := AfterVerdict(v, epoch, empty))
    case FirstSkip =>
      s.reader.First? && s.once && s' == s.(reader := Delivering(s.reader.epoch, s.reader.empty))
    case FirstStart =>
      s.reader.First? && !s.once &&
      s' == Started(s).(once := true, reader := FirstStarted(s.reader.epoch, s.reader.empty, |s.fed|))
    case FirstFail =>
      s.reader.First? && !s.once && s' == s.(once := true, reader := Delivering(s.reader.epoch, s.reader.empty))
    case FirstStore =>
      s.reader.FirstStarted? &&
      s' == s.(kcp := Some(s.reader.rt), reader := Delivering(s.reader.epoch, s.reader.empty))
    case ResetClear =>
      s.reader.Resetting? &&
      s' == s.(kcp := None,
               reader := if s.kcp.Some? then Closing(s.reader.epoch, s.kcp.value) else Cleared(s.reader.epoch))
    case ResetClose =>
      s.reader.Closing? && s' == s.(open := s.open - {s.reader.rt}, reader := Cleared(s.reader.epoch))
    case ResetStart =>
      s.reader.Cleared? && s' == Started(s).(reader := Restarted(s.reader.epoch, |s.fed|))
    case ResetFail =>
      s.reader.Cleared? && s' == s.(reader := Idle)
    case ResetStore =>
      s.reader.Restarted? && s' == s.(kcp := Some(s.reader.rt), reader := Idle)
    case Load =>
      s.reader.Delivering? && !s.reader.empty &&
      s' == s.(reader := if s.kcp.Some? then Loaded(s.reader.epoch, s.kcp.value) else Idle)
    case NoPacket =>
      s.reader.Delivering? && s.reader.empty && s' == s.(reader := Idle)
    case Feed =>
      s.reader.Loaded? && s.reader.rt < |s.fed| && s' == Fed(s, s.reader.rt, s.reader.epoch).(reader := Idle)
    case CarrierClear =>
      s' == if s.kcp.Some? then s.(kcp := None, closing := s.closing + {s.kcp.value})
            else s.(cleared := s.cleared + 1)
    case CarrierClose(rt) =>
      rt in s.closing && s' == s.(closing := s.closing - {rt}, open := s.open - {rt}, cleared := s.cleared + 1)
    case CarrierStart =>
      s.cleared > 0 && s' == Started(s).(cleared := s.cleared - 1, pending := s.pending + {|s.fed|})
    case CarrierFail =>
      s.cleared > 0 && s' == s.(cleared := s.cleared - 1)
    case CarrierStore(rt) =>
      rt in s.pending && s' == s.(kcp := Some(rt), pending := s.pending - {rt})
  }

  ghost predicate IsRun(token: u32, start: State, events: seq<Event>, trace: seq<State>) {
    && |trace| == |events| + 1 && trace[0] == start
    && forall k :: 0 <= k < |events| ==> Step(token, trace[k], events[k], trace[k + 1])
  }

  // ----------------------------------------------- one epoch to each runtime

  /** A started runtime no one has stored yet: known, unfed, and not current. */
  ghost predicate Untouched(s: State, rt: nat) {
    rt < |s.fed| && s.fed[rt] == {} && s.kcp != Some(rt)
  }

  ghost predicate OneEpoch(epochs: set<u32>) {
    forall x, y :: x in epochs && y in epochs ==> x == y
  }

  ghost predicate Inv(s: State) {
    && (forall rt :: 0 <= rt < |s.fed| ==> OneEpoch(s.fed[rt]))
    && (forall rt :: rt in s.pending ==> Untouched(s, rt))
    && (!s.track.hadPeer ==> forall rt :: 0 <= rt < |s.fed| ==> s.fed[rt] == {})
    && (s.kcp.Some? ==> s.kcp.value < |s.fed| && (!s.reader.Resetting? ==> s.fed[s.kcp.value] <= {s.track.peer}))
    && (s.reader != Idle ==> s.track.hadPeer && s.reader.epoch == s.track.peer)
    && (s.reader.FirstStarted? || s.reader.Restarted? ==> Untouched(s, s.reader.rt) && s.reader.rt !in s.pending)
    && (s.reader.Loaded? ==>
          s.reader.rt < |s.fed| && s.reader.rt !in s.pending && s.fed[s.reader.rt] <= {s.track.peer})
  }

  lemma FeedKeeps(s: State)
    requires Inv(s) && s.reader.Loaded? && s.reader.rt < |s.fed|
    ensures Inv(Fed(s, s.reader.rt, s.reader.epoch).(reader := Idle))
  {
    var e := s.track.peer;
    assert s.fed[s.reader.rt] + {s.reader.epoch} == {e};
    assert OneEpoch({e});
    hide OneEpoch;
  }

  lemma StartKeeps(token: u32, s: State, e: Event, s': State)
    requires Inv(s) && Step(token, s, e, s') && (e.FirstStart? || e.ResetStart? || e.CarrierStart?)
    ensures Inv(s')
  {
    assert OneEpoch({});
    hide OneEpoch;
    assert forall rt :: 0 <= rt < |s.fed| ==> s'.fed[rt] == s.fed[rt];
  }

  lemma StepKeeps(token: u32, s: State, e: Event, s': State)
    requires Inv(s) && Step(token, s, e, s')
    ensures Inv(s')
  {
    if e.Feed? {
      FeedKeeps(s);
    } else if e.FirstStart? || e.ResetStart? || e.CarrierStart? {
      StartKeeps(token, s, e, s');
    } else {
      hide OneEpoch;
      assert s'.fed == s.fed;
    }
  }

  lemma {:induction false} RunKeeps(token: u32, local: u32, events: seq<Event>, trace: seq<State>, k: nat)
    requires IsRun(token, Init(local), events, trace) && k < |trace|
    ensures Inv(trace[k])
  {
    if k == 0 {
    } else {
      RunKeeps(token, local, events, trace, k - 1);
      assert Step(token, trace[k - 1], events[k - 1], trace[k - 1 + 1]);
      hide Inv, Step;
      StepKeeps(token, trace[k - 1], events[k - 1], trace[k]);
    }
  }

  /** No runtime is ever fed packets of two peer epochs, however reconnects
      interleave with first contact and with epoch changes. */
  lemma NoMixing(token: u32, local: u32, events: seq<Event>, trace: seq<State>, k: nat, rt: nat, x: u32, y: u32)
    requires IsRun(token, Init(local), events, trace) && k < |trace|
    requires rt < |trace[k].fed| && x in trace[k].fed[rt] && y in trace[k].fed[rt]
    ensures x == y
  {
    RunKeeps(token, local, events, trace, k);
  }

  /** Nor is one ever fed a packet stamped by this process itself. */
  ghost predicate NeverOwn(s: State) {
    && (s.reader != Idle ==> s.reader.epoch != s.track.local)
    && forall rt :: 0 <= rt < |s.fed| ==> s.track.local !in s.fed[rt]
  }

  lemma {:induction false} OwnFramesIgnored(token: u32, local: u32, events: seq<Event>, trace: seq<State>, k: nat)
    requires IsRun(token, Init(local), events, trace) && k < |trace|
    ensures NeverOwn(trace[k]) && trace[k].track.local == local
  {
    if k == 0 {
    } else {
      OwnFramesIgnored(token, local, events, trace, k - 1);
      assert Step(token, trace[k - 1], events[k - 1], trace[k - 1 + 1]);
    }
  }

  // ------------------------------------------------------- the reader undisturbed

  /** handleIncomingFrame with nothing in between: the same decision, change of
      runtime and delivery as the method HandleIncomingFrame promises. */
  function Undisturbed(s: State, token: u32, frameToken: u32, epoch: u32, empty: bool, startOk: bool): State {
    var (track, v) := Observe(s.track, token, frameToken, epoch);
    var closed := if v.NewLife? && s.kcp.Some? then s.(open := s.open - {s.kcp.value}) else s;
    var s1 := closed.(track := track, once := s.once || v.FirstPeer?);
    var s2 := match ChangeOf(v, s.once, startOk)
              case Keep => s1
              case Fresh => Started(s1).(kcp := Some(|s.fed|))
              case Gone => s1.(kcp := None);
    if Feeds(v, empty) && s2.kcp.Some? && s2.kcp.value < |s2.fed| then Fed(s2, s2.kcp.value, epoch) else s2
  }

  predicate ByReader(e: Event) {
    !e.Take? && !e.CarrierClear? && !e.CarrierClose? && !e.CarrierStart? && !e.CarrierFail? && !e.CarrierStore?
  }

  /** Steps of the reader and of nothing else, up to the moment it is idle. */
  ghost predicate Finishes(token: u32, s: State, events: seq<Event>, s': State)
    decreases |events|
  {
    if events == [] then s.reader.Idle? && s == s'
    else
      && !s.reader.Idle? && ByReader(events[0])
      && exists m :: Step(token, s, events[0], m) && Finishes(token, m, events[1..], s')
  }

  lemma OneFinishes(token: u32, s: State, events: seq<Event>, s': State) returns (m: State)
    requires Finishes(token, s, events, s') && !s.reader.Idle?
    ensures events != [] && Step(token, s, events[0], m) && Finishes(token, m, events[1..], s') && ByReader(events[0])
    ensures forall e :: e in events <==> e == events[0] || e in events[1..]
  {
    m :| Step(token, s, events[0], m) && Finishes(token, m, events[1..], s');
    assert events == [events[0]] + events[1..];
  }

  lemma IdleFinishes(token: u32, s: State, events: seq<Event>, s': State)
    requires Finishes(token, s, events, s') && s.reader.Idle?
    ensures events == [] && s' == s
  {
  }

  ghost predicate AllStarted(events: seq<Event>) {
    FirstFail !in events && ResetFail !in events
  }

  lemma FeedsAlone(token: u32, s: State, events: seq<Event>, s': State)
    requires Finishes(token, s, events, s') && s.reader.Loaded?
    ensures s.reader.rt < |s.fed| && s' == Fed(s, s.reader.rt, s.reader.epoch).(reader := Idle) && AllStarted(events)
  {
    var m := OneFinishes(token, s, events, s');
    hide Finishes;
    IdleFinishes(token, m, events[1..], s');
  }

  lemma DeliversAlone(token: u32, s: State, events: seq<Event>, s': State)
    requires Finishes(token, s, events, s') && s.reader.Delivering? && (s.kcp.Some? ==> s.kcp.value < |s.fed|)
    ensures s' == (if !s.reader.empty && s.kcp.Some? then Fed(s, s.kcp.value, s.reader.epoch) else s).(reader := Idle)
    ensures AllStarted(events)
  {
    var m := OneFinishes(token, s, events, s');
    hide Finishes;
    if m.reader.Idle? {
      IdleFinishes(token, m, events[1..], s');
    } else {
      FeedsAlone(token, m, events[1..], s');
    }
  }

  lemma MeetsAlone(token: u32, s: State, events: seq<Event>, s': State)
    requires Finishes(token, s, events, s') && s.reader.First? && (s.kcp.Some? ==> s.kcp.value < |s.fed|)
    ensures var met := (if !s.once && AllStarted(events) then Started(s).(kcp := Some(|s.fed|)) else s)
                       .(once := true, reader := Idle);
            s' == if !s.reader.empty && met.kcp.Some? then Fed(met, met.kcp.value, s.reader.epoch) else met
  {
    var m := OneFinishes(token, s, events, s');
    if events[0] == FirstStart {
      var rest := events[1..];
      var stored := OneFinishes(token, m, rest, s');
      hide Finishes;
      DeliversAlone(token, stored, rest[1..], s');
    } else {
      hide Finishes;
      DeliversAlone(token, m, events[1..], s');
    }
  }

  lemma RestartsAlone(token: u32, s: State, events: seq<Event>, s': State)
    requires Finishes(token, s, events, s') && s.reader.Cleared?
    ensures s' == (if AllStarted(events) then Started(s).(kcp := Some(|s.fed|)) else s).(reader := Idle)
  {
    var m := OneFinishes(token, s, events, s');
    var rest := events[1..];
    if events[0] == ResetStart {
      var stored := OneFinishes(token, m, rest, s');
      hide Finishes;
      IdleFinishes(token, stored, rest[1..], s');
    } else {
      hide Finishes;
      IdleFinishes(token, m, rest, s');
    }
  }

  lemma ResetsAlone(token: u32, s: State, events: seq<Event>, s': State)
    requires Finishes(token, s, events, s') && s.reader.Resetting?
    ensures var clear := s.(kcp := None, open := if s.kcp.Some? then s.open - {s.kcp.value} else s.open);
            s' == (if AllStarted(events) then Started(clear).(kcp := Some(|s.fed|)) else clear).(reader := Idle)
  {
    var m := OneFinishes(token, s, events, s');
    var rest := events[1..];
    if s.kcp.Some? {
      var closed := OneFinishes(token, m, rest, s');
      hide Finishes;
      RestartsAlone(token, closed, rest[1..], s');
    } else {
      hide Finishes;
      RestartsAlone(token, m, rest, s');
    }
  }

  /** However the reader goes through one frame, with no reconnect in between its
      steps amount to HandleIncomingFrame, for the answer startKCP gave. */
  lemma ReaderAlone(token: u32, s: State, frameToken: u32, epoch: u32, empty: bool, m: State,
                    events: seq<Event>, s': State)
    requires s.kcp.Some? ==> s.kcp.value < |s.fed|
    requires Step(token, s, Take(frameToken, epoch, empty), m) && Finishes(token, m, events, s')
    ensures s' == Undisturbed(s, token, frameToken, epoch, empty, AllStarted(events))
  {
    var v := Observe(s.track, token, frameToken, epoch).1;
    hide Finishes, AllStarted;
    match v
    case FirstPeer => MeetsAlone(token, m, events, s');
    case NewLife => ResetsAlone(token, m, events, s');
    case Known => DeliversAlone(token, m, events, s');
    case Foreign => IdleFinishes(token, m, events, s');
    case Echo => IdleFinishes(token, m, events, s');
  }

  function Ahead(r: Reader): nat {
    match r
    case Idle => 0
    case Loaded(_, _) => 1
    case Delivering(_, _) => 2
    case Restarted(_, _) => 1
    case Cleared(_) => 2
    case Closing(_, _) => 3
    case Resetting(_) => 4
    case FirstStarted(_, _, _) => 3
    case First(_, _) => 4
  }

  ghost predicate KnownRuntimes(s: State) {
    && (s.kcp.Some? ==> s.kcp.value < |s.fed|) && (s.reader.Loaded? ==> s.reader.rt < |s.fed|)
    && (s.reader.FirstStarted? || s.reader.Restarted? ==> s.reader.rt < |s.fed|)
  }

  lemma ReaderStep(token: u32, s: State, startOk: bool) returns (e: Event, m: State)
    requires KnownRuntimes(s) && !s.reader.Idle?
    ensures Step(token, s, e, m) && ByReader(e) && KnownRuntimes(m) && Ahead(m.reader) < Ahead(s.reader)
    ensures if startOk then e != FirstFail && e != ResetFail else e != FirstStart && e != ResetStart
  {
    match s.reader {
      case First(epoch, empty) =>
        if s.once {
          e, m := FirstSkip, s.(reader := Delivering(epoch, empty));
        } else if startOk {
          e, m := FirstStart, Started(s).(once := true, reader := FirstStarted(epoch, empty, |s.fed|));
        } else {
          e, m := FirstFail, s.(once := true, reader := Delivering(epoch, empty));
        }
      case FirstStarted(epoch, empty, rt) =>
        e, m := FirstStore, s.(kcp := Some(rt), reader := Delivering(epoch, empty));
      case Resetting(epoch) =>
        e := ResetClear;
        m := s.(kcp := None, reader := if s.kcp.Some? then Closing(epoch, s.kcp.value) else Cleared(epoch));
      case Closing(epoch, rt) =>
        e, m := ResetClose, s.(open := s.open - {rt}, reader := Cleared(epoch));
      case Cleared(epoch) =>
        if startOk {
          e, m := ResetStart, Started(s).(reader := Restarted(epoch, |s.fed|));
        } else {
          e, m := ResetFail, s.(reader := Idle);
        }
      case Restarted(epoch, rt) =>
        e, m := ResetStore, s.(kcp := Some(rt), reader := Idle);
      case Delivering(epoch, empty) =>
        if empty {
          e, m := NoPacket, s.(reader := Idle);
        } else {
          e, m := Load, s.(reader := if s.kcp.Some? then Loaded(epoch, s.kcp.value) else Idle);
        }
      case Loaded(epoch, rt) =>
        e, m := Feed, Fed(s, rt, epoch).(reader := Idle);
    }
  }

  /** And it always can go through, whichever answer startKCP gives. */
  lemma {:induction false} ReaderCanFinish(token: u32, s: State, startOk: bool) returns (events: seq<Event>, s': State)
    requires KnownRuntimes(s)
    ensures Finishes(token, s, events, s')
    ensures if startOk then AllStarted(events) else FirstStart !in events && ResetStart !in events
    decreases Ahead(s.reader)
  {
    if s.reader.Idle? {
      events, s' := [], s;
    } else {
      hide Step, KnownRuntimes, Ahead;
      var e, m := ReaderStep(token, s, startOk);
      events, s' := ReaderCanFinish(token, m, startOk);
      assert ([e] + events)[1..] == events;
      events := [e] + events;
    }
  }

  // ----------------------------------------------------- runtimes left unclosed

  ghost predicate HeldByReader(r: Reader, rt: nat) {
    (r.FirstStarted? || r.Restarted? || r.Closing?) && r.rt == rt
  }

  /** Someone will still close or store this runtime, or it is the current one. */
  ghost predicate Held(s: State, rt: nat) {
    s.kcp == Some(rt) || rt in s.pending || rt in s.closing || HeldByReader(s.reader, rt)
  }

  /** Open, and known to no one who could close it. */
  ghost predicate Lost(s: State, rt: nat) {
    rt in s.open && rt < |s.fed| && !Held(s, rt)
  }

  /** What is held is open, and held once. */
  ghost predicate Owned(s: State) {
    && (forall rt :: rt in s.open ==> rt < |s.fed|)
    && (forall rt :: Held(s, rt) ==> rt in s.open)
    && s.pending !! s.closing
    && (s.kcp.Some? ==>
          s.kcp.value !in s.pending && s.kcp.value !in s.closing && !HeldByReader(s.reader, s.kcp.value))
    && (forall rt :: HeldByReader(s.reader, rt) ==> rt !in s.pending && rt !in s.closing)
  }

  lemma ReaderKeepsOwned(token: u32, s: State, e: Event, s': State)
    requires Owned(s) && Step(token, s, e, s') && (ByReader(e) || e.Take?)
    ensures Owned(s')
  {
    assert |s.fed| !in s.open;
    forall rt | Held(s', rt) ensures rt in s'.open {
      assert rt != |s.fed| ==> Held(s, rt);
    }
    forall rt | HeldByReader(s'.reader, rt) ensures rt !in s'.pending && rt !in s'.closing {
      assert rt != |s.fed| ==> Held(s, rt);
      assert Held(s, |s.fed|) ==> |s.fed| in s.open;
    }
  }

  lemma CarrierKeepsOwned(token: u32, s: State, e: Event, s': State)
    requires Owned(s) && Step(token, s, e, s') && !ByReader(e) && !e.Take?
    ensures Owned(s')
  {
    assert |s.fed| !in s.open && !Held(s, |s.fed|);
    forall rt | Held(s', rt) ensures rt in s'.open {
      assert rt != |s.fed| ==> Held(s, rt);
    }
  }

  lemma OwnedKeeps(token: u32, s: State, e: Event, s': State)
    requires Owned(s) && Step(token, s, e, s')
    ensures Owned(s')
  {
    hide Owned, Step;
    if ByReader(e) || e.Take? {
      ReaderKeepsOwned(token, s, e, s');
    } else {
      CarrierKeepsOwned(token, s, e, s');
    }
  }

  lemma {:induction false} OwnedRun(token: u32, local: u32, events: seq<Event>, trace: seq<State>, k: nat)
    requires IsRun(token, Init(local), events, trace) && k < |trace|
    ensures Owned(trace[k])
  {
    if k == 0 {
    } else {
      OwnedRun(token, local, events, trace, k - 1);
      assert Step(token, trace[k - 1], events[k - 1], trace[k - 1 + 1]);
      hide Owned, Step;
      OwnedKeeps(token, trace[k - 1], events[k - 1], trace[k]);
    }
  }

  lemma LostStep(token: u32, s: State, e: Event, s': State, rt: nat)
    requires Lost(s, rt) && Step(token, s, e, s')
    ensures Lost(s', rt)
  {
  }

  /** A lost runtime is never closed. */
  lemma {:induction false} LostStays(
      token: u32, s: State, events: seq<Event>, trace: seq<State>, k: nat, rt: nat)
    requires Lost(s, rt) && IsRun(token, s, events, trace) && k < |trace|
    ensures Lost(trace[k], rt)
  {
    if k == 0 {
    } else {
      LostStays(token, s, events, trace, k - 1, rt);
      assert Step(token, trace[k - 1], events[k - 1], trace[k - 1 + 1]);
      hide Lost, Step;
      LostStep(token, trace[k - 1], events[k - 1], trace[k], rt);
    }
  }

  /** The reader, if it is past the point where it would take the current runtime
      away before storing its own. */
  function Starting(s: State): nat {
    match s.reader
    case First(_, _) => if s.once then 0 else 1
    case FirstStarted(_, _, _) => 1
    case Closing(_, _) => 1
    case Cleared(_) => 1
    case Restarted(_, _) => 1
    case _ => 0
  }

  /** The current runtime, and those that will be stored without a further look
      at what is current. */
  function Occupants(s: State): nat {
    (if s.kcp.Some? then 1 else 0) + |s.closing| + s.cleared + |s.pending| + Starting(s)
  }

  ghost predicate AllHeld(s: State) {
    forall rt :: rt in s.open ==> Held(s, rt)
  }

  lemma Removed(xs: set<nat>, x: nat)
    requires x in xs
    ensures |xs - {x}| == |xs| - 1
  {
  }

  lemma StoreKeepsHeld(s: State, rt: nat)
    requires AllHeld(s) && rt in s.pending && s.kcp.None?
    ensures AllHeld(s.(kcp := Some(rt), pending := s.pending - {rt}))
  {
    var s' := s.(kcp := Some(rt), pending := s.pending - {rt});
    forall x | x in s'.open ensures Held(s', x) {
      assert Held(s, x);
    }
  }

  lemma CarrierKeepsHeld(token: u32, s: State, e: Event, s': State)
    requires AllHeld(s) && Step(token, s, e, s') && !ByReader(e) && !e.Take? && !e.CarrierStore?
    ensures AllHeld(s')
  {
    forall x | x in s'.open ensures Held(s', x) {
      assert x in s.open ==> Held(s, x);
    }
  }

  lemma ReaderKeepsHeld(token: u32, s: State, e: Event, s': State)
    requires AllHeld(s) && Step(token, s, e, s') && (ByReader(e) || e.Take?)
    requires e.FirstStore? || e.ResetStore? ==> s.kcp.None?
    ensures AllHeld(s')
  {
    forall x | x in s'.open ensures Held(s', x) {
      assert x in s.open ==> Held(s, x);
    }
  }

  lemma AllHeldKeeps(token: u32, s: State, e: Event, s': State)
    requires Owned(s) && AllHeld(s) && Occupants(s) <= 1 && Step(token, s, e, s')
    ensures AllHeld(s')
  {
    if e.CarrierStore? {
      Removed(s.pending, e.rt);
      hide AllHeld, Owned;
      StoreKeepsHeld(s, e.rt);
    } else if ByReader(e) || e.Take? {
      hide AllHeld, Owned;
      ReaderKeepsHeld(token, s, e, s');
    } else {
      hide AllHeld, Owned, Step;
      CarrierKeepsHeld(token, s, e, s');
    }
  }

  lemma Single(xs: set<nat>, x: nat)
    requires x in xs && |xs| <= 1
    ensures xs == {x}
  {
    Removed(xs, x);
    assert xs - {x} == {};
  }

  lemma AtMostOne(s: State)
    requires AllHeld(s) && Occupants(s) <= 1
    ensures |s.open| <= 1
  {
    if one :| one in s.open {
      assert Held(s, one);
      if one in s.pending {
        Single(s.pending, one);
      } else if one in s.closing {
        Single(s.closing, one);
      }
      forall rt | rt in s.open ensures rt == one {
        assert Held(s, rt);
      }
      assert s.open == {one};
    }
  }

  ghost predicate NeverCrowded(trace: seq<State>, k: nat)
    requires k < |trace|
  {
    forall i :: 0 <= i <= k ==> Occupants(trace[i]) <= 1
  }

  lemma LessCrowded(trace: seq<State>, k: nat)
    requires k + 1 < |trace| && NeverCrowded(trace, k + 1)
    ensures NeverCrowded(trace, k) && Occupants(trace[k]) <= 1 && Occupants(trace[k + 1]) <= 1
  {
  }

  lemma StepAt(token: u32, start: State, events: seq<Event>, trace: seq<State>, k: nat)
    requires IsRun(token, start, events, trace) && k < |events|
    ensures k + 1 < |trace| && Step(token, trace[k], events[k], trace[k + 1])
  {
  }

  lemma InitHeld(token: u32, local: u32, events: seq<Event>, trace: seq<State>)
    requires IsRun(token, Init(local), events, trace)
    ensures |trace| == |events| + 1 && AllHeld(trace[0]) && |trace[0].open| <= 1
  {
  }

  /** As long as there has never been more than one occupant, at most one runtime
      is open and none is lost. */
  lemma {:induction false} OneRuntime(token: u32, local: u32, events: seq<Event>, trace: seq<State>, k: nat)
    requires IsRun(token, Init(local), events, trace) && k < |trace|
    requires NeverCrowded(trace, k)
    ensures |trace[k].open| <= 1 && AllHeld(trace[k])
    decreases k
  {
    hide *;
    InitHeld(token, local, events, trace);
    if k == 0 {
    } else {
      StepAt(token, Init(local), events, trace, k - 1);
      LessCrowded(trace, k - 1);
      OneRuntime(token, local, events, trace, k - 1);
      OwnedRun(token, local, events, trace, k - 1);
      AllHeldKeeps(token, trace[k - 1], events[k - 1], trace[k]);
      AtMostOne(trace[k]);
    }
  }

  /** No further reset takes the current runtime, and no further frame is taken. */
  predicate Calm(e: Event) {
    !e.Take? && !e.ResetClear? && !e.CarrierClear?
  }

  /** Without either, some continuation loses a runtime. */
  ghost predicate LosesIn(token: u32, s: State, n: nat)
    decreases n
  {
    if n == 0 then exists rt :: Lost(s, rt)
    else exists e, m :: Step(token, s, e, m) && Calm(e) && LosesIn(token, m, n - 1)
  }

  /** What is left to do before every start in progress has been stored. */
  function Work(s: State): nat {
    3 * |s.closing| + 2 * s.cleared + |s.pending| +
    match s.reader
    case First(_, _) => if s.once then 0 else 2
    case FirstStarted(_, _, _) => 1
    case Closing(_, _) => 3
    case Cleared(_) => 2
    case Restarted(_, _) => 1
    case _ => 0
  }

  lemma CarrierIsCalm(rt: nat)
    ensures Calm(CarrierStore(rt))
  {
  }

  lemma CarrierStores(token: u32, s: State, rt: nat) returns (s': State)
    requires Owned(s) && Occupants(s) >= 2 && rt in s.pending
    ensures Step(token, s, CarrierStore(rt), s')
    ensures (exists x :: Lost(s', x)) || (Occupants(s') >= 2 && Work(s') < Work(s))
  {
    s' := s.(kcp := Some(rt), pending := s.pending - {rt});
    Removed(s.pending, rt);
    if s.kcp.Some? {
      assert Held(s, s.kcp.value) && Lost(s', s.kcp.value);
    }
  }

  /** The next step of a reconnect in progress. */
  lemma CarrierGoesOn(token: u32, s: State) returns (e: Event, s': State)
    requires Owned(s) && Occupants(s) >= 2 && (s.pending != {} || s.cleared > 0 || s.closing != {})
    ensures Step(token, s, e, s') && Calm(e)
    ensures (exists rt :: Lost(s', rt)) || (Occupants(s') >= 2 && Work(s') < Work(s))
  {
    if rt :| rt in s.pending {
      hide *;
      e := CarrierStore(rt);
      s' := CarrierStores(token, s, rt);
      assert Calm(e) by { CarrierIsCalm(rt); }
    } else if s.cleared > 0 {
      hide Owned, Lost;
      e, s' := CarrierStart, Started(s).(cleared := s.cleared - 1, pending := {|s.fed|});
      assert s.pending + {|s.fed|} == {|s.fed|};
    } else {
      hide Owned, Lost;
      var rt :| rt in s.closing;
      e := CarrierClose(rt);
      s' := s.(closing := s.closing - {rt}, open := s.open - {rt}, cleared := s.cleared + 1);
      Removed(s.closing, rt);
    }
  }

  /** The next step of the reader's start, when there is no other. */
  lemma ReaderGoesOn(token: u32, s: State) returns (e: Event, s': State)
    requires Owned(s) && s.kcp.Some? && Starting(s) == 1
    ensures Step(token, s, e, s') && Calm(e)
    ensures (exists rt :: Lost(s', rt)) || (s'.kcp == s.kcp && Starting(s') == 1 && Work(s') < Work(s))
  {
    assert Held(s, s.kcp.value);
    match s.reader {
      case First(epoch, empty) =>
        e, s' := FirstStart, Started(s).(once := true, reader := FirstStarted(epoch, empty, |s.fed|));
      case FirstStarted(epoch, empty, rt) =>
        e, s' := FirstStore, s.(kcp := Some(rt), reader := Delivering(epoch, empty));
        assert Lost(s', s.kcp.value);
      case Closing(epoch, rt) =>
        e, s' := ResetClose, s.(open := s.open - {rt}, reader := Cleared(epoch));
      case Cleared(epoch) =>
        e, s' := ResetStart, Started(s).(reader := Restarted(epoch, |s.fed|));
      case Restarted(epoch, rt) =>
        e, s' := ResetStore, s.(kcp := Some(rt), reader := Idle);
        assert Lost(s', s.kcp.value);
    }
  }

  /** A start in progress goes on; storing over a current runtime loses that. */
  lemma GoesOn(token: u32, s: State) returns (e: Event, s': State)
    requires Owned(s) && Occupants(s) >= 2
    ensures Step(token, s, e, s') && Calm(e)
    ensures (exists rt :: Lost(s', rt)) || (Occupants(s') >= 2 && Work(s') < Work(s))
  {
    if s.pending != {} || s.cleared > 0 || s.closing != {} {
      e, s' := CarrierGoesOn(token, s);
    } else {
      e, s' := ReaderGoesOn(token, s);
      hide Owned, Step, Lost, Work, Starting;
    }
  }

  lemma {:induction false} CrowdedLoses(token: u32, s: State) returns (n: nat)
    requires Owned(s) && Occupants(s) >= 2
    ensures LosesIn(token, s, n)
    decreases Work(s)
  {
    var e, m := GoesOn(token, s);
    OwnedKeeps(token, s, e, m);
    hide Owned, Occupants, Step, Lost, Work;
    if rt :| Lost(m, rt) {
      assert LosesIn(token, m, 0);
      n := 1;
    } else {
      n := CrowdedLoses(token, m);
      n := n + 1;
    }
  }

  lemma CalmOccupies(token: u32, s: State, e: Event, s': State)
    requires Occupants(s) <= 1 && Step(token, s, e, s') && Calm(e)
    ensures Occupants(s') <= 1
  {
    if e.CarrierStore? {
      Removed(s.pending, e.rt);
    } else if e.CarrierClose? {
      Removed(s.closing, e.rt);
    } else if e.CarrierStart? {
      assert s.pending == {} && s'.pending == {|s.fed|};
    }
  }

  lemma CalmKeeps(token: u32, s: State, e: Event, s': State)
    requires Owned(s) && AllHeld(s) && Occupants(s) <= 1 && Step(token, s, e, s') && Calm(e)
    ensures AllHeld(s') && Occupants(s') <= 1
  {
    hide *;
    AllHeldKeeps(token, s, e, s');
    CalmOccupies(token, s, e, s');
  }

  lemma {:induction false} CalmLosesNothing(token: u32, s: State, n: nat)
    requires Owned(s) && AllHeld(s) && Occupants(s) <= 1
    ensures !LosesIn(token, s, n)
    decreases n
  {
    if n == 0 {
    } else if LosesIn(token, s, n) {
      var e, m :| Step(token, s, e, m) && Calm(e) && LosesIn(token, m, n - 1);
      hide Owned, AllHeld, Step, Occupants, Calm;
      OwnedKeeps(token, s, e, m);
      CalmKeeps(token, s, e, m);
      CalmLosesNothing(token, m, n - 1);
    }
  }

  /** The exact condition, in every reachable state: with no further reset and no
      further frame a runtime can be lost if and only if one already is, or of the
      current runtime and the starts in progress there are two.  A runtime stored
      by a reconnect before first contact is such a case, and so are two resets
      that overlap. */
  lemma LosesExactly(token: u32, local: u32, events: seq<Event>, trace: seq<State>, k: nat)
    requires IsRun(token, Init(local), events, trace) && k < |trace|
    ensures (exists n :: LosesIn(token, trace[k], n)) <==>
            Occupants(trace[k]) >= 2 || exists rt :: Lost(trace[k], rt)
  {
    OwnedRun(token, local, events, trace, k);
    var s := trace[k];
    if rt :| Lost(s, rt) {
      assert LosesIn(token, s, 0);
    } else if Occupants(s) >= 2 {
      var n := CrowdedLoses(token, s);
    } else {
      forall rt | rt in s.open ensures Held(s, rt) {
        assert !Lost(s, rt);
      }
      if n :| LosesIn(token, s, n) {
        hide LosesIn;
        CalmLosesNothing(token, s, n);
      }
    }
  }

  /** And one can be: a reconnect before first contact stores a runtime, which the
      first peer frame overwrites. */
  lemma EarlyReconnectLoses(token: u32, local: u32, peer: u32) returns (events: seq<Event>, trace: seq<State>)
    requires peer != local
    ensures IsRun(token, Init(local), events, trace) && Lost(trace[|events|], 0)
  {
    var s0 := Init(local);
    var s1 := s0.(cleared := 1);
    var s2 := Started(s1).(cleared := 0, pending := {0});
    var s3 := s2.(kcp := Some(0), pending := {});
    var s4 := s3.(track := Tracking(local, true, peer), reader := First(peer, true));
    var s5 := Started(s4).(once := true, reader := FirstStarted(peer, true, 1));
    var s6 := s5.(kcp := Some(1), reader := Delivering(peer, true));
    events := [CarrierClear, CarrierStart, CarrierStore(0), Take(token, peer, true), FirstStart, FirstStore];
    trace := [s0, s1, s2, s3, s4, s5, s6];
  }
}
