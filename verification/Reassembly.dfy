/** Fragmentation of a payload, and the receiving half of the ARQ: the
    reassembly table and the duplicate table, as functions of their contents. */
module Reassembly {
  import opened Bytes
  import opened Frames

  type Checksum = bytes -> u32

  const DELIVERED_LIMIT := 256

  // ---------------------------------------------------------------- sending side

  function Chunks(data: bytes, size: nat): (r: seq<bytes>)
    requires size > 0 && data != []
    decreases |data|
  {
    if |data| <= size then [data] else [data[..size]] + Chunks(data[size..], size)
  }

  /** The fragments of a payload: an empty payload is one empty fragment. */
  function Fragments(data: bytes, size: nat): seq<bytes>
    requires size > 0
  {
    if data == [] then [[]] else Chunks(data, size)
  }

  method FragmentPayload(data: bytes, maxSize: nat) returns (out: seq<bytes>)
    requires maxSize > 0
    ensures out == Fragments(data, maxSize)
  {
    if |data| == 0 {
      return [[]];
    }
    out := [];
    var start := 0;
    while start < |data|
      invariant start < |data| ==> out + Chunks(data[start..], maxSize) == Chunks(data, maxSize)
      invariant start >= |data| ==> out == Chunks(data, maxSize)
    {
      var end := if start + maxSize < |data| then start + maxSize else |data|;
      ghost var rest := data[start..];
      assert rest[..end - start] == data[start..end] && rest[end - start..] == data[end..];
      assert end == |data| ==> rest == data[start..end];
      out := out + [data[start..end]];
      start := start + maxSize;
    }
  }

  lemma {:induction false} ChunksJoin(data: bytes, size: nat)
    requires size > 0 && data != []
    ensures Flatten(Chunks(data, size)) == data
    decreases |data|
  {
    if |data| <= size {
      assert Flatten([data]) == data + Flatten([]);
    } else {
      ChunksJoin(data[size..], size);
      var rest := Chunks(data[size..], size);
      assert ([data[..size]] + rest)[1..] == rest;
    }
  }

  /** Cutting a payload and gluing the pieces loses nothing. */
  lemma FragmentsJoin(data: bytes, size: nat)
    requires size > 0
    ensures Flatten(Fragments(data, size)) == data
  {
    if data == [] {
      assert Flatten([[]]) == [] + Flatten([]);
    } else {
      ChunksJoin(data, size);
    }
  }

  lemma MulStep(i: nat, size: nat)
    requires i > 0
    ensures i * size == (i - 1) * size + size >= size && (i + 1) * size == i * size + size
  {
  }

  lemma {:induction false} ChunkAt(data: bytes, size: nat, i: nat)
    requires size > 0 && data != []
    ensures i < |Chunks(data, size)| <==> i * size < |data|
    ensures i < |Chunks(data, size)| ==>
              Chunks(data, size)[i] == data[i * size..if (i + 1) * size < |data| then (i + 1) * size else |data|]
    decreases |data|
  {
    if i > 0 {
      MulStep(i, size);
      if |data| > size {
        ChunkAt(data[size..], size, i - 1);
      }
    } else {
      assert 0 * size == 0;
    }
  }

  /** Fragment i is the i-th slice of the given size, and there are exactly as
      many fragments as slices that start inside the payload. */
  lemma FragmentAt(data: bytes, size: nat, i: nat)
    requires size > 0
    ensures i < |Fragments(data, size)| <==> i == 0 || i * size < |data|
    ensures i < |Fragments(data, size)| ==>
              0 <= i * size <= |data| &&
              Fragments(data, size)[i] == data[i * size..if (i + 1) * size < |data| then (i + 1) * size else |data|]
  {
    assert 0 * size == 0;
    if data != [] {
      ChunkAt(data, size, i);
    } else if i > 0 {
      assert i * size >= 0;
    }
  }

  /** Frame i of the transmission of a payload under sequence number q. */
  function MessageFrame(crc32: Checksum, size: nat, q: u32, data: bytes, i: nat): (f: Frame)
    requires size > 0 && i < |Fragments(data, size)|
    ensures f.Data?
  {
    DataFrame(q, crc32(data), |data|, i, |Fragments(data, size)|, Fragments(data, size)[i])
  }

  // -------------------------------------------------------------- receiving side

  /** A message being reassembled; None is the source's nil fragment. */
  datatype Pending = Pending(totalLen: u32, crc: u32, frags: seq<Option<bytes>>, remain: int)

  datatype Receiver = Receiver(inbound: map<u32, Pending>, delivered: map<u32, u32>)

  /** What the frame handler does once it has released its lock. */
  datatype Reaction = Quiet | Reack | Hand(data: bytes)

  function Joined(frags: seq<Option<bytes>>): bytes {
    if frags == [] then [] else
      (match frags[0] case Some(b) => b case None => []) + Joined(frags[1..])
  }

  /** assembleMessage: the length test works on uint32(len(data)). */
  function Assemble(p: Pending): bytes {
    var data := Joined(p.frags);
    if ToU32(|data|) > p.totalLen then data[..p.totalLen] else data
  }

  function Matches(p: Pending, f: Frame): bool
    requires f.Data?
  {
    p.crc == f.crc && p.totalLen == f.totalLen && |p.frags| == f.fragTotal
  }

  function NewPending(f: Frame): Pending
    requires f.Data?
  {
    Pending(f.totalLen, f.crc, seq(f.fragTotal, i => None), f.fragTotal)
  }

  function Entry(inbound: map<u32, Pending>, f: Frame): (p: Pending)
    requires f.Data?
    ensures Matches(p, f)
  {
    if f.seqno in inbound && Matches(inbound[f.seqno], f) then inbound[f.seqno] else NewPending(f)
  }

  function Fill(p: Pending, i: nat, payload: bytes): Pending
    requires i < |p.frags|
  {
    if p.frags[i].None? then p.(frags := p.frags[i := Some(payload)], remain := p.remain - 1) else p
  }

  /** upsertInbound: the touched entry and whether it is now complete. */
  function Upsert(inbound: map<u32, Pending>, f: Frame): (Pending, bool)
    requires f.Data?
  {
    var p := Entry(inbound, f);
    if f.fragIdx >= |p.frags| then (p, false)
    else var filled := Fill(p, f.fragIdx, f.payload); (filled, filled.remain == 0)
  }

  function Remember(delivered: map<u32, u32>, q: u32, crc: u32): map<u32, u32> {
    (if |delivered| > DELIVERED_LIMIT then map[] else delivered)[q := crc]
  }

  /** The complete branch of handleInboundFrame: the entry goes, and the payload
      counts only if it matches the checksum it was announced with. */
  function Conclude(crc32: Checksum, r: Receiver, q: u32, p: Pending): (Receiver, Reaction) {
    var r' := r.(inbound := r.inbound - {q});
    var data := Assemble(p);
    if crc32(data) != p.crc then (r', Quiet)
    else (r'.(delivered := Remember(r.delivered, q, p.crc)), Hand(data))
  }

  /** handleInboundFrame, up to the release of recvMu. */
  function Handle(crc32: Checksum, r: Receiver, f: Frame): (Receiver, Reaction)
    requires f.Data?
  {
    if f.seqno in r.delivered && r.delivered[f.seqno] == f.crc then (r, Reack)
    else
      var (p, complete) := Upsert(r.inbound, f);
      if !complete then (r.(inbound := r.inbound[f.seqno := p]), Quiet)
      else Conclude(crc32, r, f.seqno, p)
  }

  // ---------------------------------------------------------------- table facts

  function Missing(frags: seq<Option<bytes>>): nat {
    if frags == [] then 0 else (if frags[0].None? then 1 else 0) + Missing(frags[1..])
  }

  lemma {:induction false} MissingAppend(a: seq<Option<bytes>>, b: seq<Option<bytes>>)
    ensures Missing(a + b) == Missing(a) + Missing(b)
  {
    if a == [] {
      assert a + b == b;
    } else {
      MissingAppend(a[1..], b);
      assert (a + b)[1..] == a[1..] + b;
    }
  }

  lemma MissingFill(frags: seq<Option<bytes>>, i: nat, x: bytes)
    requires i < |frags|
    ensures Missing(frags[i := Some(x)]) == Missing(frags) - (if frags[i].None? then 1 else 0)
  {
    var a, b := frags[..i], frags[i + 1..];
    assert frags == a + ([frags[i]] + b) && frags[i := Some(x)] == a + ([Some(x)] + b);
    MissingAppend(a, [frags[i]] + b);
    MissingAppend(a, [Some(x)] + b);
    assert ([frags[i]] + b)[1..] == b && ([Some(x)] + b)[1..] == b;
  }

  lemma {:induction false} MissingZero(frags: seq<Option<bytes>>)
    ensures Missing(frags) == 0 <==> forall i :: 0 <= i < |frags| ==> frags[i].Some?
  {
    if frags == [] {
    } else {
      MissingZero(frags[1..]);
      assert forall i :: 1 <= i < |frags| ==> frags[i] == frags[1..][i - 1];
    }
  }

  lemma {:induction false} MissingAll(frags: seq<Option<bytes>>)
    requires forall i :: 0 <= i < |frags| ==> frags[i].None?
    ensures Missing(frags) == |frags|
  {
    if frags == [] {
    } else {
      MissingAll(frags[1..]);
    }
  }

  lemma {:induction false} JoinedParts(frags: seq<Option<bytes>>, parts: seq<bytes>)
    requires |frags| == |parts|
    requires forall i :: 0 <= i < |frags| ==> frags[i] == Some(parts[i])
    ensures Joined(frags) == Flatten(parts)
  {
    if frags == [] {
    } else {
      JoinedParts(frags[1..], parts[1..]);
    }
  }

  // -------------------------------------------------------- arbitrary traffic

  ghost predicate PendingSound(p: Pending) {
    p.remain == Missing(p.frags) && (p.frags == [] || p.remain > 0)
  }

  /** What the tables keep at rest, whatever has been received. */
  ghost predicate Sound(r: Receiver) {
    && |r.delivered| <= DELIVERED_LIMIT + 1
    && forall q :: q in r.inbound ==> PendingSound(r.inbound[q])
  }

  lemma RememberBound(delivered: map<u32, u32>, q: u32, crc: u32)
    ensures |Remember(delivered, q, crc)| <= 257
  {
    var base := if |delivered| > DELIVERED_LIMIT then map[] else delivered;
    assert base[q := crc].Keys == base.Keys + {q};
  }

  lemma EntrySound(inbound: map<u32, Pending>, f: Frame)
    requires f.Data? && (f.seqno in inbound ==> PendingSound(inbound[f.seqno]))
    ensures PendingSound(Entry(inbound, f))
  {
    MissingAll(NewPending(f).frags);
  }

  lemma UpsertSound(inbound: map<u32, Pending>, f: Frame)
    requires f.Data? && (f.seqno in inbound ==> PendingSound(inbound[f.seqno]))
    ensures Upsert(inbound, f).1 || PendingSound(Upsert(inbound, f).0)
    ensures Upsert(inbound, f).0.crc == f.crc && Upsert(inbound, f).0.totalLen == f.totalLen
  {
    EntrySound(inbound, f);
    var p := Entry(inbound, f);
    if f.fragIdx < |p.frags| {
      MissingFill(p.frags, f.fragIdx, f.payload);
    }
  }

  /** The length test is on uint32(len(data)): that much is never over the
      announced length, and the length itself exactly when it fits 32 bits. */
  ghost predicate Bounded(data: bytes, totalLen: u32) {
    ToU32(|data|) <= totalLen && (|data| <= totalLen <==> |data| < 0x1_0000_0000)
  }

  lemma AssembleLength(p: Pending)
    ensures Bounded(Assemble(p), p.totalLen)
  {
    hide Joined;
  }

  /** Any frame, honest or not, keeps the tables sound; a payload handed up
      matches the checksum it was announced with and is within the announced
      length, as 32-bit lengths go. */
  lemma HandleSound(crc32: Checksum, r: Receiver, f: Frame)
    requires f.Data? && Sound(r)
    ensures Sound(Handle(crc32, r, f).0)
    ensures Handle(crc32, r, f).1.Hand? ==>
              var data := Handle(crc32, r, f).1.data;
              crc32(data) == f.crc && Bounded(data, f.totalLen)
  {
    UpsertSound(r.inbound, f);
    RememberBound(r.delivered, f.seqno, f.crc);
    AssembleLength(Upsert(r.inbound, f).0);
    hide Upsert, Remember, Assemble, PendingSound, Bounded;
  }

  /** The handler over a whole sequence of frames. */
  function Feed(crc32: Checksum, r: Receiver, frames: seq<Frame>): (out: (Receiver, seq<Reaction>))
    requires forall f :: f in frames ==> f.Data?
    ensures |out.1| == |frames|
  {
    if frames == [] then (r, [])
    else
      var (r0, rs) := Feed(crc32, r, frames[..|frames| - 1]);
      var (r1, x) := Handle(crc32, r0, frames[|frames| - 1]);
      (r1, rs + [x])
  }

  /** Every reaction is the handler's reaction in the state the frames before it left. */
  lemma {:induction false} FeedAt(crc32: Checksum, r: Receiver, frames: seq<Frame>, k: nat)
    requires forall f :: f in frames ==> f.Data?
    requires k < |frames|
    ensures Feed(crc32, r, frames).1[k] == Handle(crc32, Feed(crc32, r, frames[..k]).0, frames[k]).1
    decreases |frames|
  {
    hide Handle;
    var init := frames[..|frames| - 1];
    if k == |init| {
    } else {
      FeedAt(crc32, r, init, k);
      assert init[..k] == frames[..k];
    }
  }

  lemma {:induction false} FeedSound(crc32: Checksum, r: Receiver, frames: seq<Frame>)
    requires forall f :: f in frames ==> f.Data?
    requires Sound(r)
    ensures Sound(Feed(crc32, r, frames).0)
    decreases |frames|
  {
    hide Handle, Sound;
    if frames == [] {
    } else {
      var init := frames[..|frames| - 1];
      FeedSound(crc32, r, init);
      HandleSound(crc32, Feed(crc32, r, init).0, frames[|frames| - 1]);
    }
  }

  /** Over any run of frames: sound tables throughout, and only payloads that
      match what their last frame announced. */
  lemma FeedHandsMatching(crc32: Checksum, r: Receiver, frames: seq<Frame>, k: nat)
    requires forall f :: f in frames ==> f.Data?
    requires Sound(r) && k < |frames|
    ensures Sound(Feed(crc32, r, frames[..k]).0)
    ensures Feed(crc32, r, frames).1[k].Hand? ==>
              var data := Feed(crc32, r, frames).1[k].data;
              crc32(data) == frames[k].crc && Bounded(data, frames[k].totalLen)
  {
    hide Handle, Sound, Feed, Bounded;
    FeedAt(crc32, r, frames, k);
    FeedSound(crc32, r, frames[..k]);
    HandleSound(crc32, Feed(crc32, r, frames[..k]).0, frames[k]);
  }

  lemma UpsertKeeps(inbound: map<u32, Pending>, f: Frame)
    requires f.Data?
    ensures Upsert(inbound, f).0.crc == f.crc && Upsert(inbound, f).0.totalLen == f.totalLen
  {
  }

  lemma ReackMeans(crc32: Checksum, r: Receiver, f: Frame)
    requires f.Data?
    ensures Handle(crc32, r, f).1.Reack? <==> f.seqno in r.delivered && r.delivered[f.seqno] == f.crc
  {
    hide Upsert, Assemble, Remember;
  }

  lemma FeedSnoc(crc32: Checksum, frames: seq<Frame>)
    requires frames != [] && forall f :: f in frames ==> f.Data?
    ensures var n := |frames| - 1;
            var (r0, rs0) := Feed(crc32, NOTHING, frames[..n]);
            Feed(crc32, NOTHING, frames) == (Handle(crc32, r0, frames[n]).0, rs0 + [Handle(crc32, r0, frames[n]).1])
  {
    hide Handle;
  }

  /** Frame j announced q and was answered by handing up data with that checksum. */
  ghost predicate HandedAt(crc32: Checksum, frames: seq<Frame>, rs: seq<Reaction>, q: u32, c: u32, j: nat)
    requires |rs| == |frames|
  {
    j < |frames| && frames[j].seqno == q && rs[j].Hand? && crc32(rs[j].data) == c
  }

  /** Every entry of the duplicate table has such a frame behind it. */
  ghost predicate OnlyHanded(crc32: Checksum, frames: seq<Frame>, rs: seq<Reaction>, delivered: map<u32, u32>)
    requires |rs| == |frames|
  {
    forall q :: q in delivered ==> exists j :: HandedAt(crc32, frames, rs, q, delivered[q], j)
  }

  const NOTHING: Receiver := Receiver(map[], map[])

  lemma HandleRemembers(crc32: Checksum, r: Receiver, f: Frame)
    requires f.Data?
    ensures var (r', x) := Handle(crc32, r, f);
            forall q :: q in r'.delivered ==>
              (q in r.delivered && r'.delivered[q] == r.delivered[q]) ||
              (q == f.seqno && x.Hand? && crc32(x.data) == r'.delivered[q])
  {
    UpsertKeeps(r.inbound, f);
    hide Upsert, Assemble;
  }

  /** From empty tables, whatever frames arrive: a sequence number is remembered
      with a checksum only if a payload with that checksum was handed up for it. */
  lemma {:induction false} RememberedWasHanded(crc32: Checksum, frames: seq<Frame>)
    requires forall f :: f in frames ==> f.Data?
    ensures var (r, rs) := Feed(crc32, NOTHING, frames); OnlyHanded(crc32, frames, rs, r.delivered)
    decreases |frames|
  {
    if frames == [] {
    } else {
      var n := |frames| - 1;
      RememberedWasHanded(crc32, frames[..n]);
      var (r0, rs0) := Feed(crc32, NOTHING, frames[..n]);
      var (r, rs) := Feed(crc32, NOTHING, frames);
      HandleRemembers(crc32, r0, frames[n]);
      hide Handle, Feed;
      FeedSnoc(crc32, frames);
      forall q | q in r.delivered ensures exists j :: HandedAt(crc32, frames, rs, q, r.delivered[q], j) {
        if q in r0.delivered && r.delivered[q] == r0.delivered[q] {
          var j :| HandedAt(crc32, frames[..n], rs0, q, r0.delivered[q], j);
          assert HandedAt(crc32, frames, rs, q, r.delivered[q], j);
        } else {
          assert HandedAt(crc32, frames, rs, q, r.delivered[q], n);
        }
      }
    }
  }

  lemma FeedPrefix(crc32: Checksum, frames: seq<Frame>, k: nat, j: nat)
    requires forall f :: f in frames ==> f.Data?
    requires j < k <= |frames|
    ensures Feed(crc32, NOTHING, frames).1[j] == Feed(crc32, NOTHING, frames[..k]).1[j]
  {
    FeedAt(crc32, NOTHING, frames, j);
    FeedAt(crc32, NOTHING, frames[..k], j);
    assert frames[..k][..j] == frames[..j];
    hide Feed, Handle;
  }

  lemma HandedLater(crc32: Checksum, frames: seq<Frame>, k: nat, q: u32, c: u32, j: nat)
    requires forall f :: f in frames ==> f.Data?
    requires k <= |frames| && HandedAt(crc32, frames[..k], Feed(crc32, NOTHING, frames[..k]).1, q, c, j)
    ensures j < k && HandedAt(crc32, frames, Feed(crc32, NOTHING, frames).1, q, c, j)
  {
    FeedPrefix(crc32, frames, k, j);
    hide Feed;
  }

  /** And a frame is only acked as a duplicate if that has happened before it. */
  lemma ReackedWasHanded(crc32: Checksum, frames: seq<Frame>, k: nat)
    requires forall f :: f in frames ==> f.Data?
    requires k < |frames| && Feed(crc32, NOTHING, frames).1[k].Reack?
    ensures exists j: nat ::
              j < k && HandedAt(crc32, frames, Feed(crc32, NOTHING, frames).1, frames[k].seqno, frames[k].crc, j)
  {
    hide Feed, Handle, HandedAt;
    FeedAt(crc32, NOTHING, frames, k);
    RememberedWasHanded(crc32, frames[..k]);
    var (r, rs) := Feed(crc32, NOTHING, frames[..k]);
    ReackMeans(crc32, r, frames[k]);
    var q, c := frames[k].seqno, frames[k].crc;
    var j :| HandedAt(crc32, frames[..k], rs, q, c, j);
    HandedLater(crc32, frames, k, q, c, j);
  }

  /** Frame g brought fragment i, with this content, of the message frame f belongs to. */
  ghost predicate Brought(g: Frame, f: Frame, i: nat, content: bytes) {
    && g.Data? && f.Data? && g.seqno == f.seqno && g.crc == f.crc
    && g.totalLen == f.totalLen && g.fragTotal == f.fragTotal && g.fragIdx == i && g.payload == content
  }

  /** Every filled slot of the entry, if it is of the message frame f belongs to,
      holds what one of the frames brought. */
  ghost predicate Sourced(frames: seq<Frame>, f: Frame, p: Pending)
    requires f.Data?
  {
    Matches(p, f) ==>
      forall i: nat :: i < |p.frags| && p.frags[i].Some? ==>
        exists j: nat :: j < |frames| && Brought(frames[j], f, i, p.frags[i].value)
  }

  ghost predicate AllSourced(frames: seq<Frame>, inbound: map<u32, Pending>) {
    forall q, f: Frame :: q in inbound && f.Data? && f.seqno == q ==> Sourced(frames, f, inbound[q])
  }

  lemma SourcedLonger(frames: seq<Frame>, g: Frame, f: Frame, p: Pending)
    requires f.Data? && Sourced(frames, f, p)
    ensures Sourced(frames + [g], f, p)
  {
    var more := frames + [g];
    if Matches(p, f) {
      forall i: nat | i < |p.frags| && p.frags[i].Some?
        ensures exists j: nat :: j < |more| && Brought(more[j], f, i, p.frags[i].value)
      {
        var j: nat :| j < |frames| && Brought(frames[j], f, i, p.frags[i].value);
        assert more[j] == frames[j];
      }
    }
  }

  lemma UpsertSlot(inbound: map<u32, Pending>, f: Frame, i: nat)
    requires f.Data? && i < |Upsert(inbound, f).0.frags| && Upsert(inbound, f).0.frags[i].Some?
    ensures var slot := Upsert(inbound, f).0.frags[i];
            || (f.seqno in inbound && Matches(inbound[f.seqno], f) && inbound[f.seqno].frags[i] == slot)
            || (f.fragIdx == i && f.payload == slot.value)
  {
  }

  lemma UpsertMatches(inbound: map<u32, Pending>, f: Frame)
    requires f.Data?
    ensures Matches(Upsert(inbound, f).0, f)
  {
  }

  lemma SameMessage(f: Frame, g: Frame, p: Pending, i: nat, content: bytes, h: Frame)
    requires f.Data? && g.Data? && f.seqno == g.seqno && Matches(p, f) && Matches(p, g) && Brought(h, f, i, content)
    ensures Brought(h, g, i, content)
  {
  }

  lemma UpsertSourced(frames: seq<Frame>, inbound: map<u32, Pending>, f: Frame, g: Frame)
    requires f.Data? && g.Data? && g.seqno == f.seqno && AllSourced(frames, inbound)
    ensures Sourced(frames + [f], g, Upsert(inbound, f).0)
  {
    UpsertMatches(inbound, f);
    var p, more := Upsert(inbound, f).0, frames + [f];
    if Matches(p, g) {
      forall i: nat | i < |p.frags| && p.frags[i].Some?
        ensures exists j: nat :: j < |more| && Brought(more[j], g, i, p.frags[i].value)
      {
        UpsertSlot(inbound, f, i);
        hide Upsert;
        if f.fragIdx == i && f.payload == p.frags[i].value {
          assert more[|frames|] == f && Brought(f, g, i, p.frags[i].value);
        } else {
          assert Sourced(frames, f, inbound[f.seqno]);
          var j: nat :| j < |frames| && Brought(frames[j], f, i, p.frags[i].value);
          SameMessage(f, g, p, i, p.frags[i].value, frames[j]);
          assert more[j] == frames[j];
        }
      }
    }
  }

  lemma HandleSourced(crc32: Checksum, frames: seq<Frame>, r: Receiver, f: Frame)
    requires f.Data? && AllSourced(frames, r.inbound)
    ensures AllSourced(frames + [f], Handle(crc32, r, f).0.inbound)
  {
    var r' := Handle(crc32, r, f).0;
    forall q, g: Frame | q in r'.inbound && g.Data? && g.seqno == q ensures Sourced(frames + [f], g, r'.inbound[q]) {
      if q in r.inbound && r'.inbound[q] == r.inbound[q] {
        SourcedLonger(frames, f, g, r.inbound[q]);
      } else {
        assert r'.inbound[q] == Upsert(r.inbound, f).0 && q == f.seqno by { hide Upsert, Assemble; }
        UpsertSourced(frames, r.inbound, f, g);
      }
    }
  }

  lemma {:induction false} FeedSourced(crc32: Checksum, frames: seq<Frame>)
    requires forall f :: f in frames ==> f.Data?
    ensures AllSourced(frames, Feed(crc32, NOTHING, frames).0.inbound)
    decreases |frames|
  {
    if frames == [] {
    } else {
      var n := |frames| - 1;
      FeedSourced(crc32, frames[..n]);
      FeedSnoc(crc32, frames);
      assert frames == frames[..n] + [frames[n]];
      hide Feed, Handle, AllSourced;
      HandleSourced(crc32, frames[..n], Feed(crc32, NOTHING, frames[..n]).0, frames[n]);
    }
  }

  /** An entry is complete exactly when the frame fills the only slot still empty. */
  lemma CompletesExactly(inbound: map<u32, Pending>, f: Frame)
    requires f.Data? && (f.seqno in inbound ==> PendingSound(inbound[f.seqno]))
    ensures Upsert(inbound, f).1 <==>
            f.fragIdx < f.fragTotal && forall i: nat :: i < f.fragTotal ==> Upsert(inbound, f).0.frags[i].Some?
  {
    EntrySound(inbound, f);
    UpsertMatches(inbound, f);
    var p := Entry(inbound, f);
    if f.fragIdx < |p.frags| {
      MissingFill(p.frags, f.fragIdx, f.payload);
      MissingZero(Upsert(inbound, f).0.frags);
    }
  }

  /** A slot, once filled, keeps its content as long as its entry is kept. */
  lemma FirstWriteWins(crc32: Checksum, r: Receiver, f: Frame, q: u32, i: nat)
    requires f.Data? && q in r.inbound && i < |r.inbound[q].frags| && r.inbound[q].frags[i].Some?
    requires q == f.seqno ==> Matches(r.inbound[q], f)
    ensures var r' := Handle(crc32, r, f).0;
            q in r'.inbound ==> i < |r'.inbound[q].frags| && r'.inbound[q].frags[i] == r.inbound[q].frags[i]
  {
    hide Assemble, Remember;
  }

  lemma HandMeans(crc32: Checksum, r: Receiver, f: Frame)
    requires f.Data? && Handle(crc32, r, f).1.Hand?
    ensures Upsert(r.inbound, f).1 && Handle(crc32, r, f).1.data == Assemble(Upsert(r.inbound, f).0)
  {
    hide Upsert, Assemble, Remember;
  }

  /** A frame touches the entries of its own sequence number only; another is
      forgotten only when the duplicate table holds more than 256. */
  lemma OthersUntouched(crc32: Checksum, r: Receiver, f: Frame, q: u32)
    requires f.Data? && q != f.seqno
    ensures var r' := Handle(crc32, r, f).0;
            && (q in r'.inbound <==> q in r.inbound)
            && (q in r.inbound ==> r'.inbound[q] == r.inbound[q])
            && (q in r.delivered && |r.delivered| <= 256 ==> q in r'.delivered && r'.delivered[q] == r.delivered[q])
  {
    hide Upsert, Assemble;
  }

  /** What the fragments of a message become: the length test is on 32 bits. */
  function Whole(parts: seq<bytes>, totalLen: u32): bytes {
    var whole := Flatten(parts);
    if |whole| % 0x1_0000_0000 > totalLen then whole[..totalLen] else whole
  }

  lemma AssembledParts(p: Pending, parts: seq<bytes>)
    requires |p.frags| == |parts| && forall i :: 0 <= i < |parts| ==> p.frags[i] == Some(parts[i])
    ensures Assemble(p) == Whole(parts, p.totalLen)
  {
    JoinedParts(p.frags, parts);
    hide Joined, Flatten;
  }

  lemma CompletedParts(frames: seq<Frame>, inbound: map<u32, Pending>, f: Frame) returns (parts: seq<bytes>)
    requires f.Data? && (f.seqno in inbound ==> PendingSound(inbound[f.seqno])) && AllSourced(frames, inbound)
    requires Upsert(inbound, f).1
    ensures |parts| == f.fragTotal && Assemble(Upsert(inbound, f).0) == Whole(parts, f.totalLen)
    ensures forall i: nat :: i < |parts| ==>
              exists j: nat :: j < |frames + [f]| && Brought((frames + [f])[j], f, i, parts[i])
  {
    CompletesExactly(inbound, f);
    UpsertMatches(inbound, f);
    UpsertSourced(frames, inbound, f, f);
    var p := Upsert(inbound, f).0;
    hide Upsert, Assemble, PendingSound, AllSourced, Brought, Flatten;
    parts := seq(|p.frags|, i requires 0 <= i < |p.frags| && p.frags[i].Some? => p.frags[i].value);
    AssembledParts(p, parts);
    forall i: nat | i < |parts|
      ensures exists j: nat :: j < |frames + [f]| && Brought((frames + [f])[j], f, i, parts[i])
    {
      assert parts[i] == p.frags[i].value;
    }
  }

  /** What is known when frame k is handled. */
  lemma FeedUpTo(crc32: Checksum, frames: seq<Frame>, k: nat)
    requires forall f :: f in frames ==> f.Data?
    requires k < |frames|
    ensures var r, f := Feed(crc32, NOTHING, frames[..k]).0, frames[k];
            && AllSourced(frames[..k], r.inbound)
            && (f.seqno in r.inbound ==> PendingSound(r.inbound[f.seqno]))
            && Feed(crc32, NOTHING, frames).1[k] == Handle(crc32, r, f).1
  {
    FeedAt(crc32, NOTHING, frames, k);
    FeedSourced(crc32, frames[..k]);
    FeedSound(crc32, NOTHING, frames[..k]);
    hide Feed, Handle, PendingSound, AllSourced;
  }

  lemma BroughtBefore(frames: seq<Frame>, k: nat, i: nat, content: bytes)
    requires k < |frames|
    requires exists j: nat ::
               j < |frames[..k] + [frames[k]]| && Brought((frames[..k] + [frames[k]])[j], frames[k], i, content)
    ensures exists j: nat :: j <= k && Brought(frames[j], frames[k], i, content)
  {
    hide Brought;
    var j: nat :| j < |frames[..k] + [frames[k]]| && Brought((frames[..k] + [frames[k]])[j], frames[k], i, content);
    assert (frames[..k] + [frames[k]])[j] == frames[j];
  }

  /** Whatever frames arrive, a payload handed up is made of fragments that have
      arrived for every index of the message its last frame announces. */
  lemma HandedFromFrames(crc32: Checksum, frames: seq<Frame>, k: nat) returns (parts: seq<bytes>)
    requires forall f :: f in frames ==> f.Data?
    requires k < |frames| && Feed(crc32, NOTHING, frames).1[k].Hand?
    ensures |parts| == frames[k].fragTotal
    ensures forall i: nat :: i < |parts| ==> exists j: nat :: j <= k && Brought(frames[j], frames[k], i, parts[i])
    ensures Feed(crc32, NOTHING, frames).1[k].data == Whole(parts, frames[k].totalLen)
  {
    hide *;
    FeedUpTo(crc32, frames, k);
    var r, f := Feed(crc32, NOTHING, frames[..k]).0, frames[k];
    HandMeans(crc32, r, f);
    parts := CompletedParts(frames[..k], r.inbound, f);
    forall i: nat | i < |parts| ensures exists j: nat :: j <= k && Brought(frames[j], frames[k], i, parts[i]) {
      BroughtBefore(frames, k, i, parts[i]);
    }
  }

  // ------------------------------------------------------------ honest traffic

  ghost function Elems(idxs: seq<nat>): set<nat> {
    set i | i in idxs
  }

  lemma ElemsSnoc(idxs: seq<nat>, i: nat)
    ensures Elems(idxs + [i]) == Elems(idxs) + {i}
  {
    assert forall j :: j in idxs + [i] <==> j in idxs || j == i;
  }

  /** Every fragment index below n is present. */
  ghost predicate Covers(have: set<nat>, n: nat) {
    forall i: nat :: i < n ==> i in have
  }

  /** The pending entry of a message of which the given fragments arrived. */
  ghost predicate Collected(p: Pending, crc32: Checksum, size: nat, data: bytes, have: set<nat>)
    requires size > 0
  {
    var parts := Fragments(data, size);
    && p.totalLen == ToU32(|data|) && p.crc == crc32(data) && |p.frags| == |parts|
    && p.remain == Missing(p.frags)
    && forall i :: 0 <= i < |parts| ==> p.frags[i] == if i in have then Some(parts[i]) else None
  }

  lemma EntryCollected(
      crc32: Checksum, size: nat, inbound: map<u32, Pending>, q: u32, data: bytes, i: nat, have: set<nat>)
    requires size > 0 && i < |Fragments(data, size)| < 0x1_0000
    requires if q in inbound then Collected(inbound[q], crc32, size, data, have) else have == {}
    ensures Collected(Entry(inbound, MessageFrame(crc32, size, q, data, i)), crc32, size, data, have)
  {
    MissingAll(NewPending(MessageFrame(crc32, size, q, data, i)).frags);
  }

  lemma FillCollected(p: Pending, crc32: Checksum, size: nat, data: bytes, i: nat, have: set<nat>)
    requires size > 0 && i < |Fragments(data, size)|
    requires Collected(p, crc32, size, data, have)
    ensures Collected(Fill(p, i, Fragments(data, size)[i]), crc32, size, data, have + {i})
  {
    MissingFill(p.frags, i, Fragments(data, size)[i]);
  }

  lemma CollectedComplete(p: Pending, crc32: Checksum, size: nat, data: bytes, have: set<nat>)
    requires size > 0 && Collected(p, crc32, size, data, have)
    ensures p.remain == 0 <==> Covers(have, |Fragments(data, size)|)
    ensures p.remain == 0 ==> Assemble(p) == data
  {
    var parts := Fragments(data, size);
    MissingZero(p.frags);
    if p.remain == 0 {
      assert forall j: nat :: j < |parts| ==> p.frags[j].Some?;
      JoinedParts(p.frags, parts);
      FragmentsJoin(data, size);
    } else {
      var j: nat :| j < |p.frags| && p.frags[j].None?;
      assert j !in have;
    }
  }

  lemma MessageFrameFits(crc32: Checksum, size: nat, q: u32, data: bytes, i: nat, p: Pending, have: set<nat>)
    requires size > 0 && i < |Fragments(data, size)| < 0x1_0000 && Collected(p, crc32, size, data, have)
    ensures var f := MessageFrame(crc32, size, q, data, i);
            f.fragIdx == i < |p.frags| && f.payload == Fragments(data, size)[i]
  {
    hide Fragments;
  }

  lemma UpsertFills(inbound: map<u32, Pending>, f: Frame)
    requires f.Data? && f.fragIdx < |Entry(inbound, f).frags|
    ensures var filled := Fill(Entry(inbound, f), f.fragIdx, f.payload);
            Upsert(inbound, f) == (filled, filled.remain == 0)
  {
    hide Entry, Fill;
  }

  /** One more honest fragment: the entry stays the record of what arrived, is
      complete exactly when nothing is missing, and then reassembles the payload. */
  lemma UpsertCollects(
      crc32: Checksum, size: nat, inbound: map<u32, Pending>, q: u32, data: bytes, i: nat, have: set<nat>)
    requires size > 0 && i < |Fragments(data, size)| < 0x1_0000
    requires if q in inbound then Collected(inbound[q], crc32, size, data, have) else have == {}
    ensures Collected(Upsert(inbound, MessageFrame(crc32, size, q, data, i)).0, crc32, size, data, have + {i})
    ensures Upsert(inbound, MessageFrame(crc32, size, q, data, i)).1 <==> Covers(have + {i}, |Fragments(data, size)|)
    ensures Upsert(inbound, MessageFrame(crc32, size, q, data, i)).1 ==>
              Assemble(Upsert(inbound, MessageFrame(crc32, size, q, data, i)).0) == data
  {
    var f := MessageFrame(crc32, size, q, data, i);
    var p := Entry(inbound, f);
    hide Collected, Covers, Assemble, Fragments, Entry, Fill, Missing, Joined;
    EntryCollected(crc32, size, inbound, q, data, i, have);
    MessageFrameFits(crc32, size, q, data, i, p, have);
    hide Upsert, MessageFrame;
    UpsertFills(inbound, f);
    FillCollected(p, crc32, size, data, i, have);
    CollectedComplete(Fill(p, i, Fragments(data, size)[i]), crc32, size, data, have + {i});
  }

  ghost predicate InRange(idxs: seq<nat>, n: nat) {
    forall k :: 0 <= k < |idxs| ==> idxs[k] < n
  }

  /** The frames of one message, for a list of fragment indices. */
  ghost predicate FramesOf(fs: seq<Frame>, crc32: Checksum, size: nat, q: u32, data: bytes, idxs: seq<nat>)
    requires size > 0 && InRange(idxs, |Fragments(data, size)|)
  {
    && |fs| == |idxs|
    && (forall f :: f in fs ==> f.Data?)
    && forall k :: 0 <= k < |fs| ==> fs[k] == MessageFrame(crc32, size, q, data, idxs[k])
  }

  /** The state a receiver is in after the given fragments of one message. */
  ghost predicate Progress(r: Receiver, crc32: Checksum, size: nat, q: u32, data: bytes, idxs: seq<nat>)
    requires size > 0
  {
    var have := Elems(idxs);
    if Covers(have, |Fragments(data, size)|) then q in r.delivered && r.delivered[q] == crc32(data)
    else
      && q !in r.delivered
      && if q in r.inbound then Collected(r.inbound[q], crc32, size, data, have) else have == {}
  }

  ghost function Expected(data: bytes, n: nat, before: set<nat>, i: nat): Reaction {
    if Covers(before, n) then Reack else if Covers(before + {i}, n) then Hand(data) else Quiet
  }

  lemma ProgressStep(crc32: Checksum, size: nat, r: Receiver, q: u32, data: bytes, idxs: seq<nat>, i: nat)
    requires size > 0 && i < |Fragments(data, size)| < 0x1_0000
    requires Progress(r, crc32, size, q, data, idxs)
    ensures var (r', x) := Handle(crc32, r, MessageFrame(crc32, size, q, data, i));
            && Progress(r', crc32, size, q, data, idxs + [i])
            && x == Expected(data, |Fragments(data, size)|, Elems(idxs), i)
  {
    ElemsSnoc(idxs, i);
    if !Covers(Elems(idxs), |Fragments(data, size)|) {
      UpsertCollects(crc32, size, r.inbound, q, data, i, Elems(idxs));
    }
  }

  lemma FramesOfPrefix(fs: seq<Frame>, crc32: Checksum, size: nat, q: u32, data: bytes, idxs: seq<nat>, k: nat)
    requires size > 0 && InRange(idxs, |Fragments(data, size)|)
    requires FramesOf(fs, crc32, size, q, data, idxs) && k <= |idxs|
    ensures InRange(idxs[..k], |Fragments(data, size)|)
    ensures FramesOf(fs[..k], crc32, size, q, data, idxs[..k])
  {
    hide Fragments, MessageFrame;
  }

  lemma {:induction false} FeedProgress(
      crc32: Checksum, size: nat, r: Receiver, q: u32, data: bytes, idxs: seq<nat>, fs: seq<Frame>)
    requires size > 0 && |Fragments(data, size)| < 0x1_0000
    requires InRange(idxs, |Fragments(data, size)|) && FramesOf(fs, crc32, size, q, data, idxs)
    requires q !in r.inbound && q !in r.delivered
    ensures Progress(Feed(crc32, r, fs).0, crc32, size, q, data, idxs)
    decreases |idxs|
  {
    if idxs == [] {
      FragmentAt(data, size, 0);
      assert 0 !in Elems(idxs);
    } else {
      hide Handle, Fragments, MessageFrame, Progress, Expected, Elems;
      var last := |idxs| - 1;
      FramesOfPrefix(fs, crc32, size, q, data, idxs, last);
      FeedProgress(crc32, size, r, q, data, idxs[..last], fs[..last]);
      assert idxs == idxs[..last] + [idxs[last]];
      ProgressStep(crc32, size, Feed(crc32, r, fs[..last]).0, q, data, idxs[..last], idxs[last]);
    }
  }

  /** Fragments in any order, with any repetition: silence until the last missing
      index arrives, the payload exactly then, and a fresh ack ever after. */
  lemma OrderInsensitive(
      crc32: Checksum, size: nat, r: Receiver, q: u32, data: bytes, idxs: seq<nat>, fs: seq<Frame>, k: nat)
    requires size > 0 && |Fragments(data, size)| < 0x1_0000
    requires InRange(idxs, |Fragments(data, size)|) && FramesOf(fs, crc32, size, q, data, idxs)
    requires q !in r.inbound && q !in r.delivered
    requires k < |fs|
    ensures Feed(crc32, r, fs).1[k] ==
            Expected(data, |Fragments(data, size)|, Elems(idxs[..k]), idxs[k])
  {
    hide Handle, Fragments, MessageFrame, Progress, Expected, Feed, Elems;
    FeedAt(crc32, r, fs, k);
    FramesOfPrefix(fs, crc32, size, q, data, idxs, k);
    FeedProgress(crc32, size, r, q, data, idxs[..k], fs[..k]);
    ProgressStep(crc32, size, Feed(crc32, r, fs[..k]).0, q, data, idxs[..k], idxs[k]);
  }
}
