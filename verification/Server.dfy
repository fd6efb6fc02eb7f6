/** Replacing the smux session of the server: compare under sessMu, close, and
    install a new one, the whole replacement serialised by reinstallMu. */
module Server {
  import opened Bytes

  /** What sessMu guards, with sessions numbered as they are made.  A session and
      the muxconn made for it carry the same number; openSessions and openConns
      are the ones this code has made and not closed, and dropped the muxconns it
      has let go of, unclosed, because smux.Server failed on them. */
  datatype Table = Table(
    session: Option<nat>, conn: Option<nat>, made: nat,
    openSessions: set<nat>, openConns: set<nat>, dropped: set<nat>)

  const EMPTY: Table := Table(None, None, 0, {}, {}, {})

  function Drop(open: set<nat>, held: Option<nat>): set<nat> {
    match held
    case None => open
    case Some(id) => open - {id}
  }

  function Shut(t: Table): Table {
    t.(session := None, conn := None,
       openSessions := Drop(t.openSessions, t.session), openConns := Drop(t.openConns, t.conn))
  }

  function Made(t: Table): Table {
    t.(made := t.made + 1, openSessions := t.openSessions + {t.made}, openConns := t.openConns + {t.made})
  }

  function Failing(t: Table): Table {
    t.(made := t.made + 1, openConns := t.openConns + {t.made}, dropped := t.dropped + {t.made})
  }

  function Put(t: Table, id: nat): Table {
    t.(session := Some(id), conn := Some(id))
  }

  /** A whole replacement that nothing interrupts; ok says whether smux.Server succeeds. */
  function Replaced(t: Table, dead: Option<nat>, ok: bool): Table {
    if t.session != dead then t else if ok then Put(Made(Shut(t)), t.made) else Failing(Shut(t))
  }

  class Server {
    var session: Option<nat>
    var conn: Option<nat>
    var made: nat
    var openSessions: set<nat>
    var openConns: set<nat>
    var dropped: set<nat>

    ghost function View(): Table
      reads this
    {
      Table(session, conn, made, openSessions, openConns, dropped)
    }

    constructor ()
      ensures View() == EMPTY
    {
      session, conn, made, openSessions, openConns, dropped := None, None, 0, {}, {}, {};
    }

    /** The conn is made first; ok says whether smux.Server accepts it. */
    method InstallSession(ok: bool)
      modifies this
      ensures View() == if ok then Put(Made(old(View())), old(made)) else Failing(old(View()))
    {
      var id := made;
      made := made + 1;
      openConns := openConns + {id};
      if !ok {
        dropped := dropped + {id};
        return;
      }
      openSessions := openSessions + {id};
      conn := Some(id);
      session := Some(id);
    }

    method CloseSession()
      modifies this
      ensures View() == Shut(old(View()))
    {
      if session.Some? {
        openSessions := openSessions - {session.value};
        session := None;
      }
      if conn.Some? {
        openConns := openConns - {conn.value};
        conn := None;
      }
    }

    method ReinstallSession(dead: Option<nat>, ok: bool)
      modifies this
      ensures View() == Replaced(old(View()), dead, ok)
    {
      if session != dead { return; }
      if session.Some? {
        openSessions := openSessions - {session.value};
        session := None;
      }
      if conn.Some? {
        openConns := openConns - {conn.value};
        conn := None;
      }
      InstallSession(ok);
    }

    /** With no other caller, the live session is always the one replaced. */
    method HandleReconnect(ok: bool)
      modifies this
      ensures View() == Replaced(old(View()), old(session), ok)
    {
      var current := session;
      ReinstallSession(current, ok);
    }
  }

  // Interleavings: any number of callers, one step per critical section.

  /** Where a caller is.  handleReconnect and the accept loop of serve differ
      only in how they come by the session they call dead. */
  datatype Phase =
    | Idle
    | Serving(id: nat)              // serve, inside AcceptStream on this session
    | Waiting(dead: Option<nat>)    // about to take reinstallMu
    | Holding(dead: Option<nat>)    // has reinstallMu, about to compare
    | Building                      // compared equal and cleared, smux.Server running
    | Built(id: nat)                // session made, about to be stored
    | Leaving                       // about to release reinstallMu

  /** What happened to the table, in order; the first install is told apart. */
  datatype Note =
    | Cleared(dead: Option<nat>) | Installed(id: nat) | Failed
    | FirstInstalled(id: nat) | FirstFailed | ShutDown

  /** first is where bringUpLink is with the install that takes no lock: Building,
      Built or, once over, Leaving.  raced is a history: some caller's comparison
      has found the table empty before that install was over. */
  datatype State = State(
    table: Table, mutex: Option<nat>, callers: map<nat, Phase>, first: Phase, raced: bool, notes: seq<Note>)

  datatype Event =
    | ReadCurrent(c: nat) | ReadServed(c: nat) | AcceptOk(c: nat) | AcceptFails(c: nat)
    | Lock(c: nat) | Compare(c: nat) | Make(c: nat) | MakeFails(c: nat) | Store(c: nat) | Unlock(c: nat)
    | FirstMake | FirstFails | FirstStore | Close

  function At(s: State, c: nat): Phase {
    if c in s.callers then s.callers[c] else Idle
  }

  function Go(s: State, c: nat, p: Phase): State {
    s.(callers := s.callers[c := p])
  }

  function Noted(s: State, n: Note): State {
    s.(notes := s.notes + [n])
  }

  predicate Replacing(p: Phase) {
    p.Building? || p.Built?
  }

  /** bringUpLink has made the conn of the first session; callers may come at any time. */
  function Start(): State {
    State(EMPTY, None, map[], Building, false, [])
  }

  ghost predicate Step(s: State, e: Event, s': State) {
    match e
    case ReadCurrent(c) =>
      At(s, c) == Idle && s' == Go(s, c, Waiting(s.table.session))
    case ReadServed(c) =>
      At(s, c) == Idle && s.table.session.Some? && s' == Go(s, c, Serving(s.table.session.value))
    case AcceptOk(c) =>
      At(s, c).Serving? && s' == Go(s, c, Idle)
    case AcceptFails(c) =>
      At(s, c).Serving? && s' == Go(s, c, Waiting(Some(At(s, c).id)))
    case Lock(c) =>
      At(s, c).Waiting? && s.mutex.None? && s' == Go(s, c, Holding(At(s, c).dead)).(mutex := Some(c))
    case Compare(c) =>
      At(s, c).Holding? &&
      s' == if s.table.session != At(s, c).dead then Go(s, c, Leaving)
            else Noted(Go(s, c, Building).(table := Shut(s.table), raced := s.raced || Replacing(s.first)),
                       Cleared(At(s, c).dead))
    case Make(c) =>
      At(s, c).Building? && s' == Go(s, c, Built(s.table.made)).(table := Made(s.table))
    case MakeFails(c) =>
      At(s, c).Building? && s' == Noted(Go(s, c, Leaving).(table := Failing(s.table)), Failed)
    case Store(c) =>
      At(s, c).Built? &&
      s' == Noted(Go(s, c, Leaving).(table := Put(s.table, At(s, c).id)), Installed(At(s, c).id))
    case Unlock(c) =>
      At(s, c).Leaving? && s' == Go(s, c, Idle).(mutex := None)
    case FirstMake =>
      s.first.Building? && s' == s.(first := Built(s.table.made), table := Made(s.table))
    case FirstFails =>
      s.first.Building? && s' == Noted(s.(first := Leaving, table := Failing(s.table)), FirstFailed)
    case FirstStore =>
      s.first.Built? &&
      s' == Noted(s.(first := Leaving, table := Put(s.table, s.first.id)), FirstInstalled(s.first.id))
    case Close =>
      s' == Noted(s.(table := Shut(s.table)), ShutDown)
  }

  ghost predicate IsRun(start: State, events: seq<Event>, trace: seq<State>) {
    && |trace| == |events| + 1 && trace[0] == start
    && forall k :: 0 <= k < |events| ==> Step(trace[k], events[k], trace[k + 1])
  }

  // The sequential story the notes must tell.

  /** Replaying notes one at a time: the session installed, whether the first
      install and a replacement are in progress, and the numbers installed so far. */
  datatype Story = Story(current: Option<nat>, first: bool, replacing: bool, used: set<nat>)

  ghost predicate Fits(t: Story, n: Note) {
    match n
    case Cleared(dead) => !t.replacing && dead == t.current
    case Installed(id) => t.replacing && id !in t.used
    case Failed => t.replacing
    case FirstInstalled(id) => t.first && id !in t.used
    case FirstFailed => t.first
    case ShutDown => true
  }

  function Then(t: Story, n: Note): Story {
    match n
    case Cleared(_) => t.(current := None, replacing := true)
    case Installed(id) => t.(current := Some(id), replacing := false, used := t.used + {id})
    case Failed => t.(replacing := false)
    case FirstInstalled(id) => t.(current := Some(id), first := false, used := t.used + {id})
    case FirstFailed => t.(first := false)
    case ShutDown => t.(current := None)
  }

  function Told(notes: seq<Note>): Story {
    if notes == [] then Story(None, true, false, {}) else Then(Told(notes[..|notes| - 1]), notes[|notes| - 1])
  }

  ghost predicate Consistent(notes: seq<Note>) {
    forall k {:trigger notes[k]} :: 0 <= k < |notes| ==> Fits(Told(notes[..k]), notes[k])
  }

  lemma ToldSnoc(notes: seq<Note>, n: Note)
    requires Consistent(notes) && Fits(Told(notes), n)
    ensures Told(notes + [n]) == Then(Told(notes), n) && Consistent(notes + [n])
  {
    hide Fits, Then;
    var all := notes + [n];
    assert all[..|all| - 1] == notes;
    forall k {:trigger all[k]} | 0 <= k < |all| ensures Fits(Told(all[..k]), all[k]) {
      hide Told;
      assert all[..k] == if k < |notes| then notes[..k] else notes;
    }
  }

  // The invariant.

  ghost predicate Inside(p: Phase) {
    p.Holding? || p.Building? || p.Built? || p.Leaving?
  }

  /** Only the holder of reinstallMu is inside it. */
  ghost predicate Exclusive(s: State) {
    && (forall c :: c in s.callers && Inside(s.callers[c]) ==> s.mutex == Some(c))
    && (s.mutex.Some? ==> Inside(At(s, s.mutex.value)))
    && (s.first.Building? || s.first.Built? || s.first.Leaving?)
  }

  /** Where the holder of reinstallMu is. */
  function Holder(s: State): Phase {
    if s.mutex.Some? then At(s, s.mutex.value) else Idle
  }

  /** A session made and not yet stored: open, and known to no one else. */
  ghost predicate Kept(s: State, p: Phase) {
    p.Built? ==> p.id in s.table.openSessions && s.table.session != Some(p.id)
  }

  /** What holds of the table whatever races. */
  ghost predicate Sound(s: State) {
    && s.table.conn == s.table.session
    && (s.table.session.Some? ==> s.table.session.value in s.table.openSessions)
    && Kept(s, s.first) && Kept(s, Holder(s)) && (s.first.Built? ==> Holder(s) != s.first)
    && (forall id :: id in s.table.openSessions ==> id < s.table.made)
    && (forall id :: id in s.table.dropped ==> id < s.table.made && id !in s.table.openSessions)
    && s.table.openConns == s.table.openSessions + s.table.dropped
  }

  /** The install in progress, if there is one and no more. */
  function Maker(s: State): Phase {
    if Replacing(s.first) then s.first else Holder(s)
  }

  /** The one session that may be open without a race: the installed one, or the one just made. */
  function Owned(s: State): set<nat> {
    match s.table.session
    case Some(id) => {id}
    case None => if Maker(s).Built? then {Maker(s).id} else {}
  }

  ghost predicate Orderly(s: State) {
    && s.table.openSessions == Owned(s)
    && (Replacing(Maker(s)) ==> s.table.session.None?)
    && (Replacing(s.first) ==> !Replacing(Holder(s)))
  }

  /** Where the state stands in the sequential story. */
  ghost predicate Stands(s: State, t: Story) {
    && t.current == s.table.session && t.first == Replacing(s.first) && t.replacing == Replacing(Holder(s))
    && (forall id :: id in t.used ==> id < s.table.made)
    && (s.first.Built? ==> s.first.id !in t.used) && (Holder(s).Built? ==> Holder(s).id !in t.used)
  }

  /** Every open session is the installed one or one just made. */
  ghost predicate AllHeld(s: State) {
    forall id :: id in s.table.openSessions ==>
      s.table.session == Some(id) || s.first == Built(id) || Holder(s) == Built(id)
  }

  /** While the first install lasts, nothing has been stored over anything. */
  ghost predicate Early(s: State) {
    Replacing(s.first) ==> AllHeld(s) && (Replacing(Holder(s)) ==> s.table.session.None?)
  }

  ghost predicate Inv(s: State) {
    && Exclusive(s) && Sound(s) && Early(s) && (!s.raced ==> Orderly(s))
    && Consistent(s.notes) && Stands(s, Told(s.notes))
  }

  lemma InstallExclusiveKeeps(s: State, e: Event, s': State)
    requires Exclusive(s) && Step(s, e, s')
    requires e.Make? || e.MakeFails? || e.Store? || e.Unlock?
    ensures Exclusive(s')
  {
  }

  lemma CallerExclusiveKeeps(s: State, e: Event, s': State)
    requires Exclusive(s) && Step(s, e, s')
    requires e.Lock? || e.Compare? || e.ReadCurrent? || e.ReadServed?
    ensures Exclusive(s')
  {
  }

  lemma ExclusiveKeeps(s: State, e: Event, s': State)
    requires Exclusive(s) && Step(s, e, s')
    ensures Exclusive(s')
  {
    if e.Make? || e.MakeFails? || e.Store? || e.Unlock? {
      hide *;
      InstallExclusiveKeeps(s, e, s');
    } else if e.Lock? || e.Compare? || e.ReadCurrent? || e.ReadServed? {
      hide *;
      CallerExclusiveKeeps(s, e, s');
    }
  }

  lemma FirstKeepsSound(s: State, e: Event, s': State)
    requires Exclusive(s) && Sound(s) && Step(s, e, s') && (e.FirstMake? || e.FirstFails? || e.FirstStore?)
    ensures Sound(s')
  {
  }

  lemma InstallKeepsSound(s: State, e: Event, s': State)
    requires Exclusive(s) && Sound(s) && Step(s, e, s') && (e.Make? || e.MakeFails? || e.Store?)
    ensures Sound(s')
  {
  }

  lemma SoundKeeps(s: State, e: Event, s': State)
    requires Exclusive(s) && Sound(s) && Step(s, e, s')
    ensures Sound(s')
  {
    if e.FirstMake? || e.FirstFails? || e.FirstStore? {
      hide Step, Exclusive, Sound;
      FirstKeepsSound(s, e, s');
    } else if e.Make? || e.MakeFails? || e.Store? {
      hide Step, Exclusive, Sound;
      InstallKeepsSound(s, e, s');
    }
  }

  lemma InstallOrderlyKeeps(s: State, e: Event, s': State)
    requires Exclusive(s) && Sound(s) && Orderly(s) && Step(s, e, s') && !s'.raced
    requires e.Make? || e.MakeFails? || e.Store? || e.Unlock?
    ensures Orderly(s')
  {
  }

  lemma CallerOrderlyKeeps(s: State, e: Event, s': State)
    requires Exclusive(s) && Sound(s) && Orderly(s) && Step(s, e, s') && !s'.raced
    requires e.Lock? || e.Compare? || e.ReadCurrent? || e.ReadServed?
    ensures Orderly(s')
  {
  }

  lemma OrderlyKeeps(s: State, e: Event, s': State)
    requires Exclusive(s) && Sound(s) && Orderly(s) && Step(s, e, s') && !s'.raced
    ensures Orderly(s')
  {
    if e.Make? || e.MakeFails? || e.Store? || e.Unlock? {
      hide *;
      InstallOrderlyKeeps(s, e, s');
    } else if e.Lock? || e.Compare? || e.ReadCurrent? || e.ReadServed? {
      hide *;
      CallerOrderlyKeeps(s, e, s');
    }
  }

  lemma InstallEarlyKeeps(s: State, e: Event, s': State)
    requires Exclusive(s) && Sound(s) && Early(s) && Step(s, e, s')
    requires e.Make? || e.MakeFails? || e.Store? || e.Unlock?
    ensures Early(s')
  {
  }

  lemma CallerEarlyKeeps(s: State, e: Event, s': State)
    requires Exclusive(s) && Sound(s) && Early(s) && Step(s, e, s')
    requires e.Lock? || e.Compare? || e.ReadCurrent? || e.ReadServed?
    ensures Early(s')
  {
  }

  lemma EarlyKeeps(s: State, e: Event, s': State)
    requires Exclusive(s) && Sound(s) && Early(s) && Step(s, e, s')
    ensures Early(s')
  {
    if e.Make? || e.MakeFails? || e.Store? || e.Unlock? {
      hide *;
      InstallEarlyKeeps(s, e, s');
    } else if e.Lock? || e.Compare? || e.ReadCurrent? || e.ReadServed? {
      hide *;
      CallerEarlyKeeps(s, e, s');
    }
  }

  /** One step of the story, or none, takes t to where s' stands. */
  ghost predicate Told1(s: State, s': State, t: Story) {
    if s'.notes == s.notes then Stands(s', t)
    else exists n :: s'.notes == s.notes + [n] && Fits(t, n) && Stands(s', Then(t, n))
  }

  lemma FirstTold(s: State, e: Event, s': State, t: Story)
    requires Exclusive(s) && Sound(s) && Stands(s, t) && Step(s, e, s')
    requires e.FirstMake? || e.FirstFails? || e.FirstStore?
    ensures Told1(s, s', t)
  {
    if !e.FirstMake? {
      var n := s'.notes[|s.notes|];
      assert s'.notes == s.notes + [n] && Fits(t, n) && Stands(s', Then(t, n));
    }
  }

  lemma InstallTold(s: State, e: Event, s': State, t: Story)
    requires Exclusive(s) && Sound(s) && Stands(s, t) && Step(s, e, s') && (e.Make? || e.MakeFails? || e.Store?)
    ensures Told1(s, s', t)
  {
    if !e.Make? {
      var n := s'.notes[|s.notes|];
      assert s'.notes == s.notes + [n] && Fits(t, n) && Stands(s', Then(t, n));
    }
  }

  lemma ClearTold(s: State, e: Event, s': State, t: Story)
    requires Exclusive(s) && Sound(s) && Stands(s, t) && Step(s, e, s') && (e.Compare? || e.Close?)
    ensures Told1(s, s', t)
  {
    if s'.notes != s.notes {
      var n := s'.notes[|s.notes|];
      assert s'.notes == s.notes + [n] && Fits(t, n) && Stands(s', Then(t, n));
    }
  }

  /** Each step is invisible or one step of the story. */
  lemma StoryFollows(s: State, e: Event, s': State, t: Story)
    requires Exclusive(s) && Sound(s) && Stands(s, t) && Step(s, e, s')
    ensures s'.notes == s.notes ==> Stands(s', t)
    ensures s'.notes != s.notes ==> exists n :: s'.notes == s.notes + [n] && Fits(t, n) && Stands(s', Then(t, n))
  {
    if e.FirstMake? || e.FirstFails? || e.FirstStore? {
      hide Step, Stands, Fits, Exclusive, Sound;
      FirstTold(s, e, s', t);
    } else if e.Make? || e.MakeFails? || e.Store? {
      hide Step, Stands, Fits, Exclusive, Sound;
      InstallTold(s, e, s', t);
    } else if e.Compare? || e.Close? {
      hide Step, Stands, Fits, Exclusive, Sound;
      ClearTold(s, e, s', t);
    }
  }

  lemma StoryKeeps(s: State, e: Event, s': State)
    requires Inv(s) && Step(s, e, s')
    ensures Consistent(s'.notes) && Stands(s', Told(s'.notes))
  {
    StoryFollows(s, e, s', Told(s.notes));
    hide Step, Stands, Fits, Then, Exclusive, Sound, Early, Orderly, Consistent, Told;
    if s'.notes != s.notes {
      var t := Told(s.notes);
      var n :| s'.notes == s.notes + [n] && Fits(t, n) && Stands(s', Then(t, n));
      ToldSnoc(s.notes, n);
    }
  }

  lemma RacedStays(s: State, e: Event, s': State)
    requires Step(s, e, s')
    ensures s.raced ==> s'.raced
    ensures s'.raced && !Replacing(s.first) ==> s.raced
    ensures Replacing(s'.first) ==> Replacing(s.first)
  {
  }

  lemma StepKeeps(s: State, e: Event, s': State)
    requires Inv(s) && Step(s, e, s')
    ensures Inv(s')
  {
    ExclusiveKeeps(s, e, s');
    SoundKeeps(s, e, s');
    EarlyKeeps(s, e, s');
    RacedStays(s, e, s');
    if !s'.raced {
      OrderlyKeeps(s, e, s');
    }
    StoryKeeps(s, e, s');
    hide Step, Exclusive, Sound, Early, Orderly, Consistent, Stands, Told;
  }

  lemma {:induction false} RunKeeps(events: seq<Event>, trace: seq<State>, k: nat)
    requires IsRun(Start(), events, trace) && k < |trace|
    ensures Inv(trace[k])
  {
    if k == 0 {
    } else {
      RunKeeps(events, trace, k - 1);
      assert Step(trace[k - 1], events[k - 1], trace[k - 1 + 1]);
      hide Inv, Step;
      StepKeeps(trace[k - 1], events[k - 1], trace[k]);
    }
  }

  // What every run keeps.

  /** Session and conn are set and cleared together, and what is installed is
      open; the conns open are those of open sessions and the dropped ones. */
  lemma TableSound(events: seq<Event>, trace: seq<State>, k: nat)
    requires IsRun(Start(), events, trace) && k < |trace|
    ensures trace[k].table.conn == trace[k].table.session
    ensures trace[k].table.session.Some? ==> trace[k].table.session.value in trace[k].table.openSessions
    ensures trace[k].table.openConns == trace[k].table.openSessions + trace[k].table.dropped
    ensures trace[k].table.openSessions !! trace[k].table.dropped
  {
    RunKeeps(events, trace, k);
    hide IsRun, Exclusive, Early, Orderly, Consistent, Stands, Told;
  }

  /** As long as no comparison has found the table empty before the first install
      was over, at most one session is open, and with no install in progress only
      the installed one is. */
  lemma OneSession(events: seq<Event>, trace: seq<State>, k: nat)
    requires IsRun(Start(), events, trace) && k < |trace| && !trace[k].raced
    ensures |trace[k].table.openSessions| <= 1 && |trace[k].table.openConns - trace[k].table.dropped| <= 1
    ensures !Replacing(Maker(trace[k])) && trace[k].table.session.None? ==> trace[k].table.openSessions == {}
  {
    RunKeeps(events, trace, k);
    TableSound(events, trace, k);
    var t := trace[k].table;
    assert t.openSessions == Owned(trace[k]);
    hide IsRun, Inv;
    assert t.openConns - t.dropped == t.openSessions;
  }

  /** The notes of every run are a legal sequential history ending in its table. */
  lemma Sequential(events: seq<Event>, trace: seq<State>, k: nat)
    requires IsRun(Start(), events, trace) && k < |trace|
    ensures Consistent(trace[k].notes) && Told(trace[k].notes).current == trace[k].table.session
  {
    RunKeeps(events, trace, k);
    hide Step, Exclusive, Sound, Early, Orderly, Consistent, Told;
  }

  /** Once past, session id is not the installed one and no later session bears its number. */
  ghost predicate Past(t: Story, id: nat) {
    id in t.used && t.current != Some(id)
  }

  lemma ToldStep(notes: seq<Note>, k: nat)
    requires Consistent(notes) && k < |notes|
    ensures Fits(Told(notes[..k]), notes[k]) && Told(notes[..k + 1]) == Then(Told(notes[..k]), notes[k])
  {
    assert notes[..k + 1][..k] == notes[..k];
  }

  lemma {:induction false} CurrentIsUsed(notes: seq<Note>, k: nat)
    requires Consistent(notes) && k <= |notes|
    ensures Told(notes[..k]).current.Some? ==> Told(notes[..k]).current.value in Told(notes[..k]).used
  {
    if k == 0 {
    } else {
      CurrentIsUsed(notes, k - 1);
      ToldStep(notes, k - 1);
    }
  }

  lemma {:induction false} StaysPast(notes: seq<Note>, j: nat, k: nat, id: nat)
    requires Consistent(notes) && j <= k <= |notes| && Past(Told(notes[..j]), id)
    ensures Past(Told(notes[..k]), id)
  {
    if j == k {
    } else {
      StaysPast(notes, j, k - 1, id);
      ToldStep(notes, k - 1);
    }
  }

  lemma ClearedIsPast(notes: seq<Note>, j: nat, id: nat)
    requires Consistent(notes) && j < |notes| && notes[j] == Cleared(Some(id))
    ensures Past(Told(notes[..j + 1]), id)
  {
    ToldStep(notes, j);
    CurrentIsUsed(notes, j);
  }

  /** However many callers hold the same dead session, it is replaced once. */
  lemma ReplacedOnce(events: seq<Event>, trace: seq<State>, n: nat, j: nat, k: nat, id: nat)
    requires IsRun(Start(), events, trace) && n < |trace| && j < |trace[n].notes| && k < |trace[n].notes|
    requires trace[n].notes[j] == Cleared(Some(id)) && trace[n].notes[k] == Cleared(Some(id))
    ensures j == k
  {
    Sequential(events, trace, n);
    var notes, a, b := trace[n].notes, if j < k then j else k, if j < k then k else j;
    ToldStep(notes, b);
    if a < b {
      ClearedIsPast(notes, a, id);
      StaysPast(notes, a + 1, b, id);
    }
  }

  /** So a caller that was too late finds another session, or none, and leaves. */
  lemma LateRacerLeaves(events: seq<Event>, trace: seq<State>, k: nat, j: nat, c: nat, id: nat)
    requires IsRun(Start(), events, trace) && k < |events| && j < |trace[k].notes|
    requires trace[k].notes[j] == Cleared(Some(id))
    requires At(trace[k], c) == Holding(Some(id)) && events[k] == Compare(c)
    ensures trace[k + 1].table == trace[k].table && At(trace[k + 1], c) == Leaving
  {
    Sequential(events, trace, k);
    var notes := trace[k].notes;
    ClearedIsPast(notes, j, id);
    StaysPast(notes, j + 1, |notes|, id);
    assert notes[..|notes|] == notes;
    assert Step(trace[k], events[k], trace[k + 1]);
  }

  ghost predicate Settled(t: Story) {
    t.replacing || t.current.Some?
  }

  lemma {:induction false} StaysSettled(notes: seq<Note>, j: nat, k: nat)
    requires Consistent(notes) && j <= k <= |notes| && Settled(Told(notes[..j]))
    requires forall m {:trigger notes[m]} :: j <= m < k ==> !notes[m].Failed? && !notes[m].ShutDown?
    ensures Settled(Told(notes[..k]))
  {
    if j == k {
    } else {
      StaysSettled(notes, j, k - 1);
      ToldStep(notes, k - 1);
    }
  }

  /** Callers that found no session at all share one replacement too, unless a
      failed smux.Server or a closeSession comes between. */
  lemma NoneReplacedOnce(events: seq<Event>, trace: seq<State>, n: nat, j: nat, k: nat)
    requires IsRun(Start(), events, trace) && n < |trace| && j < k < |trace[n].notes|
    requires trace[n].notes[j] == Cleared(None) && trace[n].notes[k] == Cleared(None)
    ensures exists m :: j < m < k && (trace[n].notes[m].Failed? || trace[n].notes[m].ShutDown?)
  {
    Sequential(events, trace, n);
    var notes := trace[n].notes;
    ToldStep(notes, j);
    ToldStep(notes, k);
    if forall m {:trigger notes[m]} :: j + 1 <= m < k ==> !notes[m].Failed? && !notes[m].ShutDown? {
      StaysSettled(notes, j + 1, k);
    }
  }

  /** The run goes on by one step. */
  lemma Extend(s: State, events: seq<Event>, trace: seq<State>, e: Event, s': State)
    requires IsRun(s, events, trace) && Step(trace[|events|], e, s')
    ensures IsRun(s, events + [e], trace + [s'])
  {
    var all, path := events + [e], trace + [s'];
    forall k | 0 <= k < |all| ensures Step(path[k], all[k], path[k + 1]) {
      hide Step;
      if k < |events| {
        assert Step(trace[k], events[k], trace[k + 1]);
      }
    }
  }

  /** Or is preceded by one. */
  lemma Precede(s: State, e: Event, s': State, events: seq<Event>, trace: seq<State>)
    requires Step(s, e, s') && IsRun(s', events, trace)
    ensures IsRun(s, [e] + events, [s] + trace)
  {
    var all, path := [e] + events, [s] + trace;
    forall k | 0 <= k < |all| ensures Step(path[k], all[k], path[k + 1]) {
      hide Step;
      if k > 0 {
        assert Step(trace[k - 1], events[k - 1], trace[k - 1 + 1]);
      }
    }
  }

  /** Alone inside reinstallMu, having compared equal: what is left of a replacement. */
  lemma FinishAlone(s: State, events: seq<Event>, trace: seq<State>, c: nat, ok: bool)
    returns (events': seq<Event>, trace': seq<State>)
    requires IsRun(s, events, trace) && At(trace[|events|], c).Building?
    ensures IsRun(s, events', trace') && At(trace'[|events'|], c) == Idle && trace'[|events'|].mutex.None?
    ensures trace'[|events'|].table ==
            if ok then Put(Made(trace[|events|].table), trace[|events|].table.made) else Failing(trace[|events|].table)
  {
    var t := trace[|events|];
    events', trace' := events, trace;
    var left := Noted(Go(t, c, Leaving).(table := Failing(t.table)), Failed);
    if ok {
      var made := Go(t, c, Built(t.table.made)).(table := Made(t.table));
      Extend(s, events', trace', Make(c), made);
      events', trace' := events' + [Make(c)], trace' + [made];
      left := Noted(Go(made, c, Leaving).(table := Put(made.table, t.table.made)), Installed(t.table.made));
      Extend(s, events', trace', Store(c), left);
      events', trace' := events' + [Store(c)], trace' + [left];
    } else {
      Extend(s, events', trace', MakeFails(c), left);
      events', trace' := events' + [MakeFails(c)], trace' + [left];
    }
    hide IsRun;
    var out := Go(left, c, Idle).(mutex := None);
    Extend(s, events', trace', Unlock(c), out);
    events', trace' := events' + [Unlock(c)], trace' + [out];
  }

  /** Undisturbed, a caller can finish either way. */
  lemma UninterruptedCan(s: State, c: nat, ok: bool) returns (events: seq<Event>, trace: seq<State>)
    requires Inv(s) && s.mutex.None? && At(s, c).Waiting?
    ensures IsRun(s, events, trace)
    ensures trace[|events|].table == Replaced(s.table, At(s, c).dead, ok)
    ensures trace[|events|].mutex.None? && At(trace[|events|], c) == Idle
  {
    hide Inv;
    var dead := At(s, c).dead;
    var held := Go(s, c, Holding(dead)).(mutex := Some(c));
    events, trace := [Lock(c)], [s, held];
    if s.table.session != dead {
      var left := Go(held, c, Leaving);
      Extend(s, events, trace, Compare(c), left);
      events, trace := events + [Compare(c)], trace + [left];
      var out := Go(left, c, Idle).(mutex := None);
      Extend(s, events, trace, Unlock(c), out);
      events, trace := events + [Unlock(c)], trace + [out];
    } else {
      var shut := Noted(Go(held, c, Building).(table := Shut(held.table), raced := s.raced || Replacing(s.first)),
                        Cleared(dead));
      Extend(s, events, trace, Compare(c), shut);
      events, trace := FinishAlone(s, events + [Compare(c)], trace + [shut], c, ok);
    }
  }

  /** The caller that takes a step, if it is one. */
  function Actor(e: Event): Option<nat> {
    match e
    case ReadCurrent(c) => Some(c)
    case ReadServed(c) => Some(c)
    case AcceptOk(c) => Some(c)
    case AcceptFails(c) => Some(c)
    case Lock(c) => Some(c)
    case Compare(c) => Some(c)
    case Make(c) => Some(c)
    case MakeFails(c) => Some(c)
    case Store(c) => Some(c)
    case Unlock(c) => Some(c)
    case _ => None
  }

  /** Steps of one caller and of nothing else, up to the moment it is done. */
  ghost predicate Alone(s: State, c: nat, events: seq<Event>, s': State)
    decreases |events|
  {
    if events == [] then At(s, c) == Idle && s == s'
    else
      && At(s, c) != Idle && Actor(events[0]) == Some(c)
      && exists m :: Step(s, events[0], m) && Alone(m, c, events[1..], s')
  }

  lemma OneAlone(s: State, c: nat, events: seq<Event>, s': State) returns (m: State)
    requires Alone(s, c, events, s') && At(s, c) != Idle
    ensures events != [] && Step(s, events[0], m) && Alone(m, c, events[1..], s') && Actor(events[0]) == Some(c)
    ensures forall e :: e in events <==> e == events[0] || e in events[1..]
  {
    m :| Step(s, events[0], m) && Alone(m, c, events[1..], s');
    assert events == [events[0]] + events[1..];
  }

  lemma LeavesAlone(s: State, c: nat, events: seq<Event>, s': State)
    requires Alone(s, c, events, s') && At(s, c).Leaving?
    ensures s'.table == s.table && s'.mutex.None? && At(s', c) == Idle && MakeFails(c) !in events
  {
    var m := OneAlone(s, c, events, s');
    assert events[1..] == [] && s' == m;
  }

  lemma StoresAlone(s: State, c: nat, events: seq<Event>, s': State)
    requires Alone(s, c, events, s') && At(s, c).Built?
    ensures s'.table == Put(s.table, At(s, c).id) && s'.mutex.None? && At(s', c) == Idle && MakeFails(c) !in events
  {
    var m := OneAlone(s, c, events, s');
    assert At(m, c).Leaving?;
    hide Step, Alone;
    LeavesAlone(m, c, events[1..], s');
  }

  lemma BuildsAlone(s: State, c: nat, events: seq<Event>, s': State)
    requires Alone(s, c, events, s') && At(s, c).Building?
    ensures s'.mutex.None? && At(s', c) == Idle
    ensures s'.table == if MakeFails(c) in events then Failing(s.table) else Put(Made(s.table), s.table.made)
  {
    var m := OneAlone(s, c, events, s');
    assert if events[0] == MakeFails(c) then At(m, c).Leaving? else At(m, c) == Built(s.table.made);
    hide Alone;
    if events[0] == MakeFails(c) {
      LeavesAlone(m, c, events[1..], s');
    } else {
      StoresAlone(m, c, events[1..], s');
    }
  }

  /** Every replacement that nothing interrupts, however it goes, is the atomic
      one for the answer smux.Server gave. */
  lemma Uninterrupted(s: State, c: nat, events: seq<Event>, s': State)
    requires s.mutex.None? && At(s, c).Waiting? && Alone(s, c, events, s')
    ensures s'.table == Replaced(s.table, At(s, c).dead, MakeFails(c) !in events)
    ensures s'.mutex.None? && At(s', c) == Idle
  {
    var held := OneAlone(s, c, events, s');
    assert At(held, c) == Holding(At(s, c).dead) && held.table == s.table && events[0] != MakeFails(c);
    hide Alone;
    var rest := events[1..];
    var next := OneAlone(held, c, rest, s');
    assert rest[0] != MakeFails(c);
    if s.table.session != At(s, c).dead {
      LeavesAlone(next, c, rest[1..], s');
    } else {
      BuildsAlone(next, c, rest[1..], s');
    }
  }

  // When closeSession is final.

  /** A caller past the point where closeSession can turn it away. */
  ghost predicate Reopens(p: Phase) {
    p == Waiting(None) || p == Holding(None) || p.Building? || p.Built?
  }

  ghost predicate NoArrival(events: seq<Event>) {
    forall k {:trigger events[k]} :: 0 <= k < |events| ==> !events[k].ReadCurrent?
  }

  /** Some continuation in which no new caller arrives installs a session; if
      firstWaits, one that does not touch the first install either. */
  ghost predicate CanReopen(s: State, firstWaits: bool) {
    exists events: seq<Event>, trace: seq<State> ::
      IsRun(s, events, trace) && NoArrival(events) && trace[|events|].table.session.Some? &&
      (firstWaits ==> trace[|events|].first == s.first)
  }

  lemma StepThenReopen(s: State, e: Event, s': State, firstWaits: bool)
    requires Step(s, e, s') && !e.ReadCurrent? && CanReopen(s', firstWaits) && (firstWaits ==> s'.first == s.first)
    ensures CanReopen(s, firstWaits)
  {
    var events: seq<Event>, trace: seq<State> :|
      IsRun(s', events, trace) && NoArrival(events) && trace[|events|].table.session.Some? &&
      (firstWaits ==> trace[|events|].first == s'.first);
    Precede(s, e, s', events, trace);
    var all, path := [e] + events, [s] + trace;
    assert NoArrival(all) && path[|all|] == trace[|events|];
  }

  lemma OpenAlready(s: State, firstWaits: bool)
    requires s.table.session.Some?
    ensures CanReopen(s, firstWaits)
  {
    assert IsRun(s, [], [s]) && NoArrival([]);
  }

  function Rank(s: State, c: nat): nat {
    match At(s, c)
    case Built(_) => 0
    case Building => 1
    case Holding(_) => 2
    case _ => 3 + if s.mutex.None? then 0 else if At(s, s.mutex.value).Leaving? then 1 else 2
  }

  /** Such a caller, or the holder of reinstallMu in its way, can take a step
      that brings the new session nearer. */
  lemma Nearer(s: State, c: nat) returns (e: Event, s': State)
    requires Exclusive(s) && s.table.session.None? && Reopens(At(s, c))
    requires At(s, c).Waiting? && s.mutex.Some? ==> !Reopens(At(s, s.mutex.value))
    ensures Step(s, e, s') && !e.ReadCurrent? && s'.first == s.first
    ensures s'.table.session.Some? || (Reopens(At(s', c)) && Rank(s', c) < Rank(s, c))
  {
    match At(s, c) {
      case Built(id) =>
        e, s' := Store(c), Noted(Go(s, c, Leaving).(table := Put(s.table, id)), Installed(id));
      case Building =>
        e, s' := Make(c), Go(s, c, Built(s.table.made)).(table := Made(s.table));
      case Holding(_) =>
        e := Compare(c);
        s' := Noted(Go(s, c, Building).(table := Shut(s.table), raced := s.raced || Replacing(s.first)), Cleared(None));
      case Waiting(_) =>
        if s.mutex.None? {
          e, s' := Lock(c), Go(s, c, Holding(None)).(mutex := Some(c));
        } else {
          var u := s.mutex.value;
          if At(s, u).Leaving? {
            e, s' := Unlock(u), Go(s, u, Idle).(mutex := None);
          } else {
            e, s' := Compare(u), Go(s, u, Leaving);
          }
        }
    }
  }

  lemma {:induction false} OneReopens(s: State, c: nat)
    requires Exclusive(s) && s.table.session.None? && Reopens(At(s, c))
    ensures CanReopen(s, true)
    decreases Rank(s, c)
  {
    if At(s, c).Waiting? && s.mutex.Some? && Reopens(At(s, s.mutex.value)) {
      hide CanReopen;
      OneReopens(s, s.mutex.value);
    } else {
      hide Step, CanReopen, Rank, Reopens, Exclusive;
      var e, s' := Nearer(s, c);
      ExclusiveKeeps(s, e, s');
      if s'.table.session.Some? {
        OpenAlready(s', true);
      } else {
        OneReopens(s', c);
      }
      StepThenReopen(s, e, s', true);
    }
  }

  /** The first install, from either of its steps, with another session in the table or not. */
  lemma FirstReopens(s: State)
    requires Replacing(s.first)
    ensures CanReopen(s, false)
  {
    var made := if s.first.Building? then s.(first := Built(s.table.made), table := Made(s.table)) else s;
    var id := made.first.id;
    var stored := Noted(made.(first := Leaving, table := Put(made.table, id)), FirstInstalled(id));
    assert Step(made, FirstStore, stored);
    assert s.first.Building? ==> Step(s, FirstMake, made);
    hide Step, CanReopen;
    OpenAlready(stored, false);
    StepThenReopen(made, FirstStore, stored, false);
    if s.first.Building? {
      StepThenReopen(s, FirstMake, made, false);
    }
  }

  ghost predicate AllTurnedAway(s: State) {
    s.table.session.None? && !Replacing(s.first) && forall c :: c in s.callers ==> !Reopens(s.callers[c])
  }

  lemma {:induction false} TurnedAwayStays(s: State, events: seq<Event>, trace: seq<State>, k: nat)
    requires AllTurnedAway(s) && IsRun(s, events, trace) && NoArrival(events) && k < |trace|
    ensures AllTurnedAway(trace[k])
  {
    if k == 0 {
    } else {
      TurnedAwayStays(s, events, trace, k - 1);
      assert Step(trace[k - 1], events[k - 1], trace[k - 1 + 1]);
      assert !events[k - 1].ReadCurrent?;
    }
  }

  /** With no session installed, one can come back without a new reconnect
      exactly when the first install is not over or some caller has already read
      "none" or cleared the old one: closeSession during a replacement does not
      stop the new session. */
  lemma ClosedStaysClosedExactly(events: seq<Event>, trace: seq<State>, k: nat)
    requires IsRun(Start(), events, trace) && k < |trace| && trace[k].table.session.None?
    ensures CanReopen(trace[k], false) <==>
            Replacing(trace[k].first) || exists c :: c in trace[k].callers && Reopens(trace[k].callers[c])
  {
    var s := trace[k];
    RunKeeps(events, trace, k);
    assert Exclusive(s);
    hide Inv, Exclusive, Step;
    if Replacing(s.first) {
      FirstReopens(s);
    } else if c :| c in s.callers && Reopens(s.callers[c]) {
      OneReopens(s, c);
    } else if CanReopen(s, false) {
      var more: seq<Event>, path: seq<State> :|
        IsRun(s, more, path) && NoArrival(more) && path[|more|].table.session.Some?;
      TurnedAwayStays(s, more, path, |more|);
    }
  }

  // What a race with the first install leaves behind.

  /** Session id is open, and neither the table nor anyone installing has it. */
  ghost predicate Orphaned(s: State, id: nat) {
    && id in s.table.openSessions && id < s.table.made
    && s.table.session != Some(id) && s.first != Built(id)
    && forall c :: c in s.callers ==> s.callers[c] != Built(id)
  }

  lemma OrphanStep(s: State, e: Event, s': State, id: nat)
    requires Orphaned(s, id) && Step(s, e, s')
    ensures Orphaned(s', id)
  {
  }

  /** Nothing will ever close an orphan. */
  lemma {:induction false} OrphanStays(s: State, events: seq<Event>, trace: seq<State>, k: nat, id: nat)
    requires Orphaned(s, id) && IsRun(s, events, trace) && k < |trace|
    ensures Orphaned(trace[k], id)
  {
    if k == 0 {
    } else {
      OrphanStays(s, events, trace, k - 1, id);
      assert Step(trace[k - 1], events[k - 1], trace[k - 1 + 1]);
      hide Orphaned, Step;
      OrphanStep(trace[k - 1], events[k - 1], trace[k], id);
    }
  }

  /** A comparison that finds the table empty before the first install is over. */
  ghost predicate Races(s: State, e: Event) {
    e.Compare? && Replacing(s.first) && s.table.session.None? && At(s, e.c) == Holding(None)
  }

  ghost predicate RaceFree(events: seq<Event>, trace: seq<State>)
    requires |trace| == |events| + 1
  {
    forall k {:trigger events[k]} :: 0 <= k < |events| ==> !Races(trace[k], events[k])
  }

  /** Some continuation, one without such comparisons if raceFree, orphans a session. */
  ghost predicate CanLeak(s: State, raceFree: bool) {
    exists events: seq<Event>, trace: seq<State>, id: nat ::
      IsRun(s, events, trace) && (raceFree ==> RaceFree(events, trace)) && Orphaned(trace[|events|], id)
  }

  /** Two sessions are, or may come to be, where there is room for one: of a
      session installed, the first install and a replacement in progress, two. */
  ghost predicate Crowded(s: State) {
    || (s.table.session.Some? && Replacing(s.first))
    || (s.table.session.Some? && Replacing(Holder(s)))
    || (Replacing(s.first) && Replacing(Holder(s)))
  }

  lemma StepThenLeak(s: State, e: Event, s': State, raceFree: bool)
    requires Step(s, e, s') && CanLeak(s', raceFree) && (raceFree ==> !Races(s, e))
    ensures CanLeak(s, raceFree)
  {
    var events: seq<Event>, trace: seq<State>, id: nat :|
      IsRun(s', events, trace) && (raceFree ==> RaceFree(events, trace)) && Orphaned(trace[|events|], id);
    Precede(s, e, s', events, trace);
    hide Step, Races;
    var all, path := [e] + events, [s] + trace;
    assert path[|all|] == trace[|events|];
    if raceFree {
      assert RaceFree(all, path);
    }
  }

  lemma LeakedAlready(s: State, id: nat, raceFree: bool)
    requires Orphaned(s, id)
    ensures CanLeak(s, raceFree)
  {
    assert IsRun(s, [], [s]) && RaceFree([], [s]);
  }

  /** Storing over an installed session orphans it. */
  lemma FirstOverwrites(s: State, raceFree: bool)
    requires Exclusive(s) && Sound(s) && s.table.session.Some? && s.first.Built?
    ensures CanLeak(s, raceFree)
  {
    var s' := Noted(s.(first := Leaving, table := Put(s.table, s.first.id)), FirstInstalled(s.first.id));
    assert Step(s, FirstStore, s');
    assert Orphaned(s', s.table.session.value);
    hide Step, Orphaned;
    LeakedAlready(s', s.table.session.value, raceFree);
    StepThenLeak(s, FirstStore, s', raceFree);
  }

  lemma HolderOverwrites(s: State, raceFree: bool)
    requires Exclusive(s) && Sound(s) && s.table.session.Some? && Holder(s).Built?
    ensures CanLeak(s, raceFree)
  {
    var c := s.mutex.value;
    var s' := Noted(Go(s, c, Leaving).(table := Put(s.table, At(s, c).id)), Installed(At(s, c).id));
    assert Step(s, Store(c), s');
    assert Orphaned(s', s.table.session.value);
    hide Step, Orphaned;
    LeakedAlready(s', s.table.session.value, raceFree);
    StepThenLeak(s, Store(c), s', raceFree);
  }

  /** With a session installed, whoever is installing another will overwrite it. */
  lemma SecondOverwrites(s: State, raceFree: bool)
    requires Exclusive(s) && Sound(s) && s.table.session.Some? && (Replacing(s.first) || Replacing(Holder(s)))
    ensures CanLeak(s, raceFree)
  {
    if s.first.Building? {
      var s' := s.(first := Built(s.table.made), table := Made(s.table));
      assert Step(s, FirstMake, s');
      ExclusiveKeeps(s, FirstMake, s');
      SoundKeeps(s, FirstMake, s');
      hide Step, Exclusive, Sound;
      FirstOverwrites(s', raceFree);
      StepThenLeak(s, FirstMake, s', raceFree);
    } else if s.first.Built? {
      FirstOverwrites(s, raceFree);
    } else if Holder(s).Building? {
      var c := s.mutex.value;
      var s' := Go(s, c, Built(s.table.made)).(table := Made(s.table));
      assert Step(s, Make(c), s') && Holder(s').Built?;
      ExclusiveKeeps(s, Make(c), s');
      SoundKeeps(s, Make(c), s');
      hide Step, Exclusive, Sound;
      HolderOverwrites(s', raceFree);
      StepThenLeak(s, Make(c), s', raceFree);
    } else {
      HolderOverwrites(s, raceFree);
    }
  }

  /** With a replacement in progress beside the first install, the replacement
      stores its session and the first install overwrites it. */
  lemma {:induction false} TwoInstalls(s: State, raceFree: bool)
    requires Exclusive(s) && Sound(s) && Replacing(s.first) && Replacing(Holder(s))
    ensures CanLeak(s, raceFree)
    decreases if Holder(s).Building? then 1 else 0
  {
    var c := s.mutex.value;
    if Holder(s).Building? {
      var s' := Go(s, c, Built(s.table.made)).(table := Made(s.table));
      assert Step(s, Make(c), s') && Holder(s').Built?;
      ExclusiveKeeps(s, Make(c), s');
      SoundKeeps(s, Make(c), s');
      hide Step, Exclusive, Sound;
      TwoInstalls(s', raceFree);
      StepThenLeak(s, Make(c), s', raceFree);
    } else {
      var s' := Noted(Go(s, c, Leaving).(table := Put(s.table, At(s, c).id)), Installed(At(s, c).id));
      assert Step(s, Store(c), s');
      ExclusiveKeeps(s, Store(c), s');
      SoundKeeps(s, Store(c), s');
      hide Step, Exclusive, Sound;
      SecondOverwrites(s', raceFree);
      StepThenLeak(s, Store(c), s', raceFree);
    }
  }

  lemma CrowdedLeaks(s: State, raceFree: bool)
    requires Exclusive(s) && Sound(s) && Crowded(s)
    ensures CanLeak(s, raceFree)
  {
    hide Exclusive, Sound, CanLeak;
    if s.table.session.Some? {
      SecondOverwrites(s, raceFree);
    } else {
      TwoInstalls(s, raceFree);
    }
  }

  /** Room enough, and nothing orphaned. */
  ghost predicate Roomy(s: State) {
    AllHeld(s) && !Crowded(s)
  }

  lemma InstallRoomyKeeps(s: State, e: Event, s': State)
    requires Exclusive(s) && Sound(s) && Roomy(s) && Step(s, e, s') && !Races(s, e)
    requires e.Make? || e.MakeFails? || e.Store? || e.Unlock?
    ensures Roomy(s')
  {
  }

  lemma CallerRoomyKeeps(s: State, e: Event, s': State)
    requires Exclusive(s) && Sound(s) && Roomy(s) && Step(s, e, s') && !Races(s, e)
    requires e.Lock? || e.Compare? || e.ReadCurrent? || e.ReadServed?
    ensures Roomy(s')
  {
  }

  lemma RoomyKeeps(s: State, e: Event, s': State)
    requires Exclusive(s) && Sound(s) && Roomy(s) && Step(s, e, s') && !Races(s, e)
    ensures Roomy(s')
  {
    if e.Make? || e.MakeFails? || e.Store? || e.Unlock? {
      hide *;
      InstallRoomyKeeps(s, e, s');
    } else if e.Lock? || e.Compare? || e.ReadCurrent? || e.ReadServed? {
      hide *;
      CallerRoomyKeeps(s, e, s');
    }
  }

  lemma {:induction false} StaysRoomy(s: State, events: seq<Event>, trace: seq<State>, k: nat)
    requires Exclusive(s) && Sound(s) && Roomy(s) && IsRun(s, events, trace) && k < |trace|
    requires RaceFree(events, trace)
    ensures Exclusive(trace[k]) && Sound(trace[k]) && Roomy(trace[k])
  {
    if k == 0 {
    } else {
      StaysRoomy(s, events, trace, k - 1);
      assert Step(trace[k - 1], events[k - 1], trace[k - 1 + 1]);
      assert !Races(trace[k - 1], events[k - 1]);
      hide Exclusive, Sound, Roomy, Step, Races;
      ExclusiveKeeps(trace[k - 1], events[k - 1], trace[k]);
      SoundKeeps(trace[k - 1], events[k - 1], trace[k]);
      RoomyKeeps(trace[k - 1], events[k - 1], trace[k]);
    }
  }

  lemma RoomyHasNoOrphan(s: State, id: nat)
    requires AllHeld(s)
    ensures !Orphaned(s, id)
  {
  }

  lemma OrphanUnlessHeld(s: State) returns (id: nat)
    requires Exclusive(s) && Sound(s) && !AllHeld(s)
    ensures Orphaned(s, id)
  {
    id :| id in s.table.openSessions && s.table.session != Some(id) && s.first != Built(id) && Holder(s) != Built(id);
  }

  /** The exact condition, in every reachable state: without a further comparison
      that races with the first install, a session can be orphaned if and only if
      one is already, or of a session installed, the first install and a
      replacement in progress there are two. */
  lemma LeakExactly(events: seq<Event>, trace: seq<State>, k: nat)
    requires IsRun(Start(), events, trace) && k < |trace|
    ensures CanLeak(trace[k], true) <==> Crowded(trace[k]) || exists id :: Orphaned(trace[k], id)
  {
    RunKeeps(events, trace, k);
    var s := trace[k];
    assert Exclusive(s) && Sound(s);
    hide Inv, Exclusive, Sound, Crowded, Orphaned;
    if Crowded(s) {
      CrowdedLeaks(s, true);
    } else if !AllHeld(s) {
      var id := OrphanUnlessHeld(s);
      LeakedAlready(s, id, true);
    } else if CanLeak(s, true) {
      var more: seq<Event>, path: seq<State>, id: nat :|
        IsRun(s, more, path) && RaceFree(more, path) && Orphaned(path[|more|], id);
      StaysRoomy(s, more, path, |more|);
      RoomyHasNoOrphan(path[|more|], id);
    } else if id :| Orphaned(s, id) {
      RoomyHasNoOrphan(s, id);
    }
  }

  /** While the first install lasts nothing is orphaned yet, and what tells is
      whether a session is installed or a replacement is in progress. */
  lemma LeakWhileFirstLasts(events: seq<Event>, trace: seq<State>, k: nat)
    requires IsRun(Start(), events, trace) && k < |trace| && Replacing(trace[k].first)
    ensures forall id :: !Orphaned(trace[k], id)
    ensures CanLeak(trace[k], true) <==> trace[k].table.session.Some? || Replacing(Holder(trace[k]))
  {
    RunKeeps(events, trace, k);
    assert AllHeld(trace[k]);
    hide Inv, IsRun, CanLeak;
    LeakExactly(events, trace, k);
  }

  lemma {:induction false} FirstStaysOver(s: State, events: seq<Event>, trace: seq<State>, k: nat)
    requires IsRun(s, events, trace) && !Replacing(s.first) && k < |trace|
    ensures !Replacing(trace[k].first)
  {
    if k == 0 {
    } else {
      FirstStaysOver(s, events, trace, k - 1);
      assert Step(trace[k - 1], events[k - 1], trace[k - 1 + 1]);
    }
  }

  lemma NoFirstNoRace(s: State, events: seq<Event>, trace: seq<State>)
    requires IsRun(s, events, trace) && !Replacing(s.first)
    ensures RaceFree(events, trace)
  {
    forall k {:trigger events[k]} | 0 <= k < |events| ensures !Races(trace[k], events[k]) {
      FirstStaysOver(s, events, trace, k);
    }
  }

  /** Once it is over, no continuation at all orphans a session unless one is
      orphaned already or a replacement is in progress over an installed one. */
  lemma LeakAfterFirst(events: seq<Event>, trace: seq<State>, k: nat)
    requires IsRun(Start(), events, trace) && k < |trace| && !Replacing(trace[k].first)
    ensures CanLeak(trace[k], false) <==>
            (trace[k].table.session.Some? && Replacing(Holder(trace[k]))) || exists id :: Orphaned(trace[k], id)
  {
    LeakExactly(events, trace, k);
    var s := trace[k];
    if CanLeak(s, false) {
      var more: seq<Event>, path: seq<State>, id: nat :| IsRun(s, more, path) && Orphaned(path[|more|], id);
      NoFirstNoRace(s, more, path);
      assert CanLeak(s, true);
    }
  }

  lemma Smaller(a: set<nat>, b: set<nat>)
    requires a < b
    ensures |a| < |b|
  {
    var rest := b - a;
    assert b == a + rest && rest != {};
  }

  lemma FreshCaller(callers: map<nat, Phase>) returns (c: nat)
    ensures c !in callers
  {
    c := 0;
    var seen: set<nat> := {};
    while c in callers
      invariant seen <= callers.Keys && |seen| == c && forall i :: i in seen ==> i < c
      decreases |callers.Keys - seen|
    {
      assert callers.Keys - (seen + {c}) < callers.Keys - seen by { assert c !in seen; }
      Smaller(callers.Keys - (seen + {c}), callers.Keys - seen);
      seen, c := seen + {c}, c + 1;
    }
  }

  lemma {:induction false} RunStays(s: State, events: seq<Event>, trace: seq<State>, k: nat)
    requires IsRun(s, events, trace) && k < |trace| && Exclusive(s) && Sound(s)
    ensures Exclusive(trace[k]) && Sound(trace[k])
  {
    if k == 0 {
    } else {
      RunStays(s, events, trace, k - 1);
      assert Step(trace[k - 1], events[k - 1], trace[k - 1 + 1]);
      hide Exclusive, Sound, Step;
      ExclusiveKeeps(trace[k - 1], events[k - 1], trace[k]);
      SoundKeeps(trace[k - 1], events[k - 1], trace[k]);
    }
  }

  /** A leak at the end of a run is a leak from its start. */
  lemma {:induction false} RunThenLeak(s: State, events: seq<Event>, trace: seq<State>, k: nat)
    requires IsRun(s, events, trace) && k < |trace| && CanLeak(trace[k], false)
    ensures CanLeak(s, false)
  {
    if k == 0 {
    } else {
      assert Step(trace[k - 1], events[k - 1], trace[k - 1 + 1]);
      hide Step, CanLeak;
      StepThenLeak(trace[k - 1], events[k - 1], trace[k], false);
      RunThenLeak(s, events, trace, k - 1);
    }
  }

  lemma LeaksOnceOpen(s: State)
    requires Exclusive(s) && Sound(s) && Replacing(s.first) && CanReopen(s, true)
    ensures CanLeak(s, false)
  {
    var events: seq<Event>, trace: seq<State> :|
      IsRun(s, events, trace) && NoArrival(events) && trace[|events|].table.session.Some? &&
      trace[|events|].first == s.first;
    assert |events| < |trace|;
    hide IsRun, CanLeak, Exclusive, Sound;
    RunStays(s, events, trace, |events|);
    SecondOverwrites(trace[|events|], false);
    RunThenLeak(s, events, trace, |events|);
  }

  /** As long as the first install is not over, some continuation orphans a
      session: a caller puts one in the table for the first install to overwrite. */
  lemma FirstMayLeak(s: State)
    requires Exclusive(s) && Sound(s) && Replacing(s.first)
    ensures CanLeak(s, false)
  {
    hide Sound, CanLeak, CanReopen;
    if s.table.session.Some? {
      SecondOverwrites(s, false);
    } else if c :| c in s.callers && Reopens(s.callers[c]) {
      OneReopens(s, c);
      LeaksOnceOpen(s);
    } else {
      var c := FreshCaller(s.callers);
      var s' := Go(s, c, Waiting(None));
      assert Step(s, ReadCurrent(c), s');
      ExclusiveKeeps(s, ReadCurrent(c), s');
      SoundKeeps(s, ReadCurrent(c), s');
      OneReopens(s', c);
      LeaksOnceOpen(s');
      StepThenLeak(s, ReadCurrent(c), s', false);
    }
  }

  /** And such a comparison can happen: the first install takes no lock. */
  lemma FirstInstallUnguarded(c: nat) returns (events: seq<Event>, trace: seq<State>)
    ensures IsRun(Start(), events, trace)
    ensures trace[|events|].raced && Replacing(trace[|events|].first)
  {
    var s0 := Start();
    var s1 := Go(s0, c, Waiting(None));
    var s2 := Go(s1, c, Holding(None)).(mutex := Some(c));
    var s3 := Noted(Go(s2, c, Building).(table := Shut(s2.table), raced := true), Cleared(None));
    events, trace := [ReadCurrent(c), Lock(c), Compare(c)], [s0, s1, s2, s3];
  }
}
