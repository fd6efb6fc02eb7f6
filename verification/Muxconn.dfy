/** The adapter that turns link messages into a byte stream. */
module Muxconn {
  import opened Bytes

  type Decrypt = bytes -> Option<bytes>

  datatype ReadResult = Blocked | Eof | Got(n: nat)
  datatype WriteResult = Wrote(n: nat) | ErrClosed | ErrEncrypt | ErrSend

  /** One look at the conn and the link by the polling loop of Write. */
  datatype Poll = Poll(closed: bool, canSend: bool)

  /** What another goroutine does to the conn while Read waits. */
  datatype Happening = Pushed(ciphertext: bytes) | ClosedNow

  /** The buffer and the closed flag once the given things have happened. */
  function After(dec: Decrypt, buf: bytes, closed: bool, happened: seq<Happening>): (bytes, bool) {
    if happened == [] then (buf, closed)
    else
      var (b, c) := After(dec, buf, closed, happened[..|happened| - 1]);
      match happened[|happened| - 1]
      case Pushed(ciphertext) => (if c || dec(ciphertext).None? then b else b + dec(ciphertext).value, c)
      case ClosedNow => (b, true)
  }

  predicate Ready(state: (bytes, bool)) {
    state.1 || state.0 != []
  }

  lemma AfterOne(dec: Decrypt, buf: bytes, closed: bool, happenings: seq<Happening>, k: nat)
    requires k < |happenings|
    ensures After(dec, buf, closed, happenings[..k + 1]) ==
            var (b, c) := After(dec, buf, closed, happenings[..k]);
            match happenings[k]
            case Pushed(ciphertext) => (if c || dec(ciphertext).None? then b else b + dec(ciphertext).value, c)
            case ClosedNow => (b, true)
  {
    assert happenings[..k + 1][..k] == happenings[..k];
  }

  /** What a conn goes through: the happenings, and its reader taking bytes. */
  datatype Moment = Happens(h: Happening) | Takes(n: nat)

  /** The bytes taken so far, those still buffered, and the closed flag. */
  datatype Stream = Stream(got: bytes, buf: bytes, closed: bool)

  function Live(dec: Decrypt, s: Stream, e: Moment): Stream {
    match e
    case Happens(h) => var (b, c) := After(dec, s.buf, s.closed, [h]); Stream(s.got, b, c)
    case Takes(n) =>
      var m := if n < |s.buf| then n else |s.buf|;
      Stream(s.got + s.buf[..m], s.buf[m..], s.closed)
  }

  function Lived(dec: Decrypt, life: seq<Moment>): Stream {
    if life == [] then Stream([], [], false)
    else Live(dec, Lived(dec, life[..|life| - 1]), life[|life| - 1])
  }

  /** What one moment adds to the bytes taken and buffered. */
  lemma LiveAdds(dec: Decrypt, s: Stream, e: Moment)
    ensures var s', opens := Live(dec, s, e), e.Happens? && e.h.Pushed? && dec(e.h.ciphertext).Some?;
            && s'.closed == (s.closed || e == Happens(ClosedNow))
            && (opens && !s.closed ==> s'.got + s'.buf == s.got + s.buf + dec(e.h.ciphertext).value)
            && (!opens || s.closed ==> s'.got + s'.buf == s.got + s.buf)
  {
    match e {
      case Happens(h) =>
        AfterOne(dec, s.buf, s.closed, [h], 0);
        assert [h][..1] == [h] && [h][..0] == [];
        assert After(dec, s.buf, s.closed, []) == (s.buf, s.closed);
        hide After;
        if h.Pushed? && dec(h.ciphertext).Some? {
          var plain := dec(h.ciphertext).value;
          assert s.got + (s.buf + plain) == s.got + s.buf + plain;
        }
      case Takes(n) =>
        var m := if n < |s.buf| then n else |s.buf|;
        assert s.buf == s.buf[..m] + s.buf[m..];
    }
  }

  ghost predicate ClosedBefore(life: seq<Moment>, i: nat) {
    exists j :: 0 <= j < i && j < |life| && life[j] == Happens(ClosedNow)
  }

  /** Moment i is a push that opens, on a conn not yet closed. */
  ghost predicate Opens(dec: Decrypt, life: seq<Moment>, i: nat)
  {
    && i < |life| && life[i].Happens? && life[i].h.Pushed? && dec(life[i].h.ciphertext).Some?
    && !ClosedBefore(life, i)
  }

  /** at lists those pushes, and plains has what they open to. */
  ghost predicate Opened(dec: Decrypt, life: seq<Moment>, at: seq<nat>, plains: seq<bytes>) {
    && Lists(at, set i: nat | i < |life| && Opens(dec, life, i)) && |plains| == |at|
    && forall k :: 0 <= k < |at| ==> Opens(dec, life, at[k]) && dec(life[at[k]].h.ciphertext) == Some(plains[k])
  }

  lemma OpensPrefix(dec: Decrypt, life: seq<Moment>, i: nat)
    requires i + 1 < |life|
    ensures Opens(dec, life, i) <==> Opens(dec, life[..|life| - 1], i)
  {
    var front := life[..|life| - 1];
    assert forall j :: 0 <= j < i ==> front[j] == life[j];
  }

  lemma OpenedSnoc(dec: Decrypt, life: seq<Moment>, at: seq<nat>, plains: seq<bytes>)
    requires life != [] && Opened(dec, life[..|life| - 1], at, plains)
    ensures var i := |life| - 1;
            if Opens(dec, life, i) then Opened(dec, life, at + [i], plains + [dec(life[i].h.ciphertext).value])
            else Opened(dec, life, at, plains)
  {
    var last, front := |life| - 1, life[..|life| - 1];
    var before := set i: nat | i < |front| && Opens(dec, front, i);
    var all := set i: nat | i < |life| && Opens(dec, life, i);
    forall i: nat | i < last ensures Opens(dec, life, i) <==> Opens(dec, front, i) {
      OpensPrefix(dec, life, i);
    }
    hide Opens;
    if Opens(dec, life, last) {
      ListsSnoc(at, before, last);
      assert all == before + {last};
    } else {
      assert all == before;
    }
  }

  lemma ClosedPrefix(life: seq<Moment>, n: nat)
    requires n < |life|
    ensures ClosedBefore(life, n) <==> ClosedBefore(life[..n], n)
    ensures ClosedBefore(life, n + 1) <==> ClosedBefore(life, n) || life[n] == Happens(ClosedNow)
  {
    assert forall j :: 0 <= j < n ==> life[..n][j] == life[j];
  }

  lemma {:induction false} LivedClosed(dec: Decrypt, life: seq<Moment>)
    ensures Lived(dec, life).closed <==> ClosedBefore(life, |life|)
  {
    if life == [] {
    } else {
      var last := |life| - 1;
      LivedClosed(dec, life[..last]);
      ClosedPrefix(life, last);
      hide Live, ClosedBefore;
      LiveAdds(dec, Lived(dec, life[..last]), life[last]);
    }
  }

  /** The bytes taken and those buffered are always exactly the plaintexts of the
      payloads that open, pushed before the conn is closed, in order; one that
      does not open leaves no trace. */
  lemma {:induction false} StreamOfPushes(dec: Decrypt, life: seq<Moment>) returns (at: seq<nat>, plains: seq<bytes>)
    ensures Opened(dec, life, at, plains)
    ensures Lived(dec, life).got + Lived(dec, life).buf == Flatten(plains)
  {
    if life == [] {
      at, plains := [], [];
    } else {
      var last := |life| - 1;
      at, plains := StreamOfPushes(dec, life[..last]);
      OpenedSnoc(dec, life, at, plains);
      LivedClosed(dec, life[..last]);
      ClosedPrefix(life, last);
      LiveAdds(dec, Lived(dec, life[..last]), life[last]);
      hide Opened, ClosedBefore, Live, Flatten;
      if Opens(dec, life, last) {
        var plain := dec(life[last].h.ciphertext).value;
        FlattenSnoc(plains, plain);
        at, plains := at + [last], plains + [plain];
      }
    }
  }

  class Conn {
    const dec: Decrypt
    var buf: bytes
    var closed: bool

    constructor (dec: Decrypt)
      ensures buf == [] && !closed && this.dec == dec
    {
      this.dec := dec;
      buf, closed := [], false;
    }

    method Push(ciphertext: bytes)
      modifies this
      ensures closed == old(closed)
      ensures closed || dec(ciphertext) == None ==> buf == old(buf)
      ensures !closed && dec(ciphertext).Some? ==> buf == old(buf) + dec(ciphertext).value
    {
      var pt := dec(ciphertext);
      if pt.None? {
        return;
      }
      if closed {
        return;
      }
      buf := buf + pt.value;
    }

    /** Read, with what happens to the conn while it waits given in order: it stops
        waiting at the first moment there is something to read or the conn is
        closed, and waited is how many of the happenings that took. */
    method Read(p: array<byte>, happenings: seq<Happening>) returns (r: ReadResult, waited: nat)
      modifies this, p
      ensures waited <= |happenings|
      ensures forall k :: 0 <= k < waited ==> !Ready(After(dec, old(buf), old(closed), happenings[..k]))
      ensures var (b, c) := After(dec, old(buf), old(closed), happenings[..waited]);
              && closed == c
              && (r == Blocked <==> !Ready((b, c)))
              && (r == Blocked ==> waited == |happenings|)
              && (r == Eof <==> c && b == [])
              && (r.Got? ==>
                    && r.n <= p.Length && (r.n == p.Length || r.n == |b|)
                    && b == p[..r.n] + buf && p[r.n..] == old(p[r.n..]))
              && (!r.Got? ==> buf == b && p[..] == old(p[..]))
    {
      waited := 0;
      ghost var seen := p[..];
      while !closed && |buf| == 0 && waited < |happenings|
        invariant waited <= |happenings| && p[..] == seen
        invariant (buf, closed) == After(dec, old(buf), old(closed), happenings[..waited])
        invariant forall k :: 0 <= k < waited ==> !Ready(After(dec, old(buf), old(closed), happenings[..k]))
      {
        AfterOne(dec, old(buf), old(closed), happenings, waited);
        hide After;
        match happenings[waited] {
          case Pushed(ciphertext) => Push(ciphertext);
          case ClosedNow => Close();
        }
        waited := waited + 1;
      }
      if !closed && |buf| == 0 {
        return Blocked, waited;
      }
      if |buf| == 0 {
        return Eof, waited;
      }
      var n := if p.Length < |buf| then p.Length else |buf|;
      CopyInto(p, 0, buf[..n]);
      buf := buf[n..];
      return Got(n), waited;
    }

    /** Write with its polls given: it ships the encrypted buffer as one message
        if an open conn sees the link ready before it is seen closed. */
    method Write(p: bytes, polls: seq<Poll>, enc: Option<bytes>, sendOk: bool)
      returns (result: WriteResult, shipped: seq<bytes>)
      requires exists i :: 0 <= i < |polls| && (polls[i].closed || polls[i].canSend)
      ensures shipped == [] || (enc.Some? && shipped == [enc.value])
      ensures result == ErrClosed <==>
              exists i :: 0 <= i < |polls| && polls[i].closed && forall j :: 0 <= j < i ==> !polls[j].canSend
      ensures shipped != [] <==> result.Wrote? || result.ErrSend?
      ensures result.Wrote? <==> sendOk && shipped != []
      ensures result.Wrote? ==> result.n == |p|
      ensures result.ErrEncrypt? ==> enc.None?
      ensures result.ErrSend? ==> !sendOk && shipped != []
    {
      var attempt := 0;
      while !polls[attempt].canSend || polls[attempt].closed
        invariant 0 <= attempt < |polls|
        invariant forall j :: 0 <= j < attempt ==> !polls[j].closed && !polls[j].canSend
        decreases |polls| - attempt
      {
        if polls[attempt].closed {
          return ErrClosed, [];
        }
        attempt := attempt + 1;
      }
      if enc.None? {
        return ErrEncrypt, [];
      }
      if !sendOk {
        return ErrSend, [enc.value];
      }
      return Wrote(|p|), [enc.value];
    }

    method Close()
      modifies this`closed
      ensures closed
    {
      if closed {
        return;
      }
      closed := true;
    }
  }
}
