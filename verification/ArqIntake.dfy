/** The receiving half of the safety argument: what the reassembly and duplicate
    tables know about an honest sender's messages, and why one more frame of an
    ordered flow keeps it so. */
module ArqIntake {
  import opened Bytes
  import opened Frames
  import opened Reassembly
  import opened ArqSystem

  /** The stated operating limits: sequence numbers do not wrap, and a message
      fits the 16-bit fragment counter. */
  ghost predicate WithinLimits(cfg: Config, sent: seq<bytes>)
    requires cfg.Valid()
  {
    |sent| < 0x1_0000_0000 && forall k :: 0 <= k < |sent| ==> Count(cfg, sent[k]) < 0x1_0000
  }

  /** q is the sequence number of a message begun so far. */
  ghost predicate Known(sent: seq<bytes>, q: int) {
    1 <= q <= |sent|
  }

  ghost predicate Honest(cfg: Config, sent: seq<bytes>, f: Frame)
    requires cfg.Valid()
  {
    f.Data? ==>
      && Known(sent, f.seqno)
      && f.fragIdx < Count(cfg, sent[f.seqno - 1])
      && f == MessageFrame(cfg.crc32, cfg.size, f.seqno, sent[f.seqno - 1], f.fragIdx)
  }

  ghost predicate Ordered(path: seq<Frame>) {
    forall i, j :: 0 <= i < j < |path| && path[i].Data? && path[j].Data? ==> path[i].seqno <= path[j].seqno
  }

  /** Frames in the order they were or will be read: honest, and never going
      back to an earlier message. */
  ghost predicate Flow(cfg: Config, sent: seq<bytes>, path: seq<Frame>)
    requires cfg.Valid()
  {
    Ordered(path) && forall i :: 0 <= i < |path| ==> Honest(cfg, sent, path[i])
  }

  /** The fragment indices of message q among the frames read. */
  ghost function Have(taken: seq<Frame>, q: int): set<nat> {
    set f | f in taken && f.Data? && f.seqno == q :: f.fragIdx as nat
  }

  lemma HaveSnoc(taken: seq<Frame>, f: Frame, q: int)
    requires f.Data?
    ensures Have(taken + [f], q) == Have(taken, q) + (if f.seqno == q then {f.fragIdx as nat} else {})
  {
    assert forall g :: g in taken + [f] <==> g in taken || g == f;
  }

  ghost predicate Increasing(qs: seq<u32>) {
    forall i, j :: 0 <= i < j < |qs| ==> qs[i] < qs[j]
  }

  /** Every fragment of message q has been read. */
  ghost predicate AllRead(cfg: Config, sent: seq<bytes>, taken: seq<Frame>, q: int)
    requires cfg.Valid() && Known(sent, q)
  {
    Covers(Have(taken, q), Count(cfg, sent[q - 1]))
  }

  /** Exactly the messages whose fragments have all been read are promised to
      onData, in increasing order. */
  ghost predicate PromisedInv(cfg: Config, sent: seq<bytes>, taken: seq<Frame>, promised: seq<u32>)
    requires cfg.Valid()
  {
    && Increasing(promised)
    && (forall q :: q in promised ==> Known(sent, q))
    && (forall q: u32 :: Known(sent, q) ==> (q in promised <==> AllRead(cfg, sent, taken, q)))
  }

  /** A pending entry is the record of what has been read of its message. */
  ghost predicate RecordsInv(
      cfg: Config, sent: seq<bytes>, taken: seq<Frame>, inbound: map<u32, Pending>, promised: seq<u32>)
    requires cfg.Valid()
  {
    forall q :: q in inbound ==>
      && Known(sent, q) && q !in promised
      && Collected(inbound[q], cfg.crc32, cfg.size, sent[q - 1], Have(taken, q))
  }

  /** Every unpromised message of which something was read has an entry. */
  ghost predicate NothingUnrecorded(
      sent: seq<bytes>, taken: seq<Frame>, inbound: map<u32, Pending>, promised: seq<u32>)
  {
    forall q: u32 :: Known(sent, q) && q !in inbound && q !in promised ==> Have(taken, q) == {}
  }

  ghost predicate PendingInv(
      cfg: Config, sent: seq<bytes>, taken: seq<Frame>, inbound: map<u32, Pending>, promised: seq<u32>)
    requires cfg.Valid()
  {
    RecordsInv(cfg, sent, taken, inbound, promised) && NothingUnrecorded(sent, taken, inbound, promised)
  }

  /** The duplicate table lists promised messages, and always the latest one,
      however often it has been wiped. */
  ghost predicate DeliveredInv(
      cfg: Config, sent: seq<bytes>, taken: seq<Frame>, delivered: map<u32, u32>, promised: seq<u32>)
    requires cfg.Valid()
  {
    && (forall q :: q in delivered ==> q in promised && Known(sent, q) && delivered[q] == cfg.crc32(sent[q - 1]))
    && (forall q :: q in promised ==>
          taken != [] && q <= taken[|taken| - 1].seqno && (q == taken[|taken| - 1].seqno ==> q in delivered))
  }

  ghost predicate IntakeCore(cfg: Config, sent: seq<bytes>, taken: seq<Frame>, tables: Receiver, promised: seq<u32>)
    requires cfg.Valid()
  {
    && PromisedInv(cfg, sent, taken, promised)
    && PendingInv(cfg, sent, taken, tables.inbound, promised)
    && DeliveredInv(cfg, sent, taken, tables.delivered, promised)
  }

  lemma LastIsLatest(cfg: Config, sent: seq<bytes>, taken: seq<Frame>, f: Frame)
    requires cfg.Valid() && f.Data? && Flow(cfg, sent, taken + [f])
    requires forall g :: g in taken ==> g.Data?
    ensures taken != [] ==> taken[|taken| - 1].seqno <= f.seqno
  {
    var path := taken + [f];
    if taken != [] {
      var last := |taken| - 1;
      assert path[last] == taken[last] && taken[last] in taken;
      assert path[last].seqno <= path[|taken|].seqno;
    }
  }

  /** A frame of a message already promised is recognised as a duplicate: in an
      ordered flow it belongs to the latest message, which no wipe has removed. */
  lemma DuplicateRecognised(
      cfg: Config, sent: seq<bytes>, taken: seq<Frame>, tables: Receiver, promised: seq<u32>, f: Frame)
    requires cfg.Valid() && IntakeCore(cfg, sent, taken, tables, promised)
    requires f.Data? && Flow(cfg, sent, taken + [f]) && forall g :: g in taken ==> g.Data?
    ensures f.seqno in promised <==> f.seqno in tables.delivered && tables.delivered[f.seqno] == f.crc
  {
    assert Honest(cfg, sent, (taken + [f])[|taken|]);
    LastIsLatest(cfg, sent, taken, f);
  }

  /** Reading a duplicate changes nothing but the history. */
  lemma DuplicateKeeps(cfg: Config, sent: seq<bytes>, taken: seq<Frame>, tables: Receiver, promised: seq<u32>, f: Frame)
    requires cfg.Valid() && IntakeCore(cfg, sent, taken, tables, promised)
    requires f.Data? && Flow(cfg, sent, taken + [f])
    requires (forall g :: g in taken ==> g.Data?) && f.seqno in promised && f.seqno in tables.delivered
    ensures IntakeCore(cfg, sent, taken + [f], tables, promised)
  {
    var path := taken + [f];
    assert path[|taken|] == f && Honest(cfg, sent, path[|taken|]);
    forall q: int ensures Have(path, q) == Have(taken, q) {
      HaveSnoc(taken, f, q);
      if q == f.seqno {
        assert AllRead(cfg, sent, taken, q);
      }
    }
    LastIsLatest(cfg, sent, taken, f);
  }

  lemma FreshKeeps(cfg: Config, sent: seq<bytes>, taken: seq<Frame>, tables: Receiver, promised: seq<u32>, f: Frame)
    requires cfg.Valid() && WithinLimits(cfg, sent) && IntakeCore(cfg, sent, taken, tables, promised)
    requires f.Data? && Flow(cfg, sent, taken + [f])
    requires (forall g :: g in taken ==> g.Data?) && f.seqno !in promised
    ensures var (p, complete) := Upsert(tables.inbound, f);
            && Known(sent, f.seqno) && f.crc == cfg.crc32(sent[f.seqno - 1])
            && Collected(p, cfg.crc32, cfg.size, sent[f.seqno - 1], Have(taken + [f], f.seqno))
            && (complete <==> AllRead(cfg, sent, taken + [f], f.seqno))
            && (complete ==> Assemble(p) == sent[f.seqno - 1])
  {
    var q := f.seqno;
    var path := taken + [f];
    assert path[|taken|] == f && Honest(cfg, sent, path[|taken|]);
    HaveSnoc(taken, f, q);
    UpsertCollects(cfg.crc32, cfg.size, tables.inbound, q, sent[q - 1], f.fragIdx, Have(taken, q));
  }

  lemma HaveElsewhere(taken: seq<Frame>, f: Frame)
    requires f.Data?
    ensures forall q: int :: q != f.seqno ==> Have(taken + [f], q) == Have(taken, q)
  {
    forall q: int | q != f.seqno ensures Have(taken + [f], q) == Have(taken, q) {
      HaveSnoc(taken, f, q);
    }
  }

  lemma PromisedStays(cfg: Config, sent: seq<bytes>, taken: seq<Frame>, promised: seq<u32>, f: Frame)
    requires cfg.Valid() && PromisedInv(cfg, sent, taken, promised)
    requires f.Data? && Known(sent, f.seqno) && f.seqno !in promised && !AllRead(cfg, sent, taken + [f], f.seqno)
    ensures PromisedInv(cfg, sent, taken + [f], promised)
  {
    HaveElsewhere(taken, f);
    hide Have, Covers;
  }

  lemma PromisedGrows(cfg: Config, sent: seq<bytes>, taken: seq<Frame>, promised: seq<u32>, f: Frame)
    requires cfg.Valid() && PromisedInv(cfg, sent, taken, promised)
    requires f.Data? && Known(sent, f.seqno) && AllRead(cfg, sent, taken + [f], f.seqno)
    requires forall q :: q in promised ==> q < f.seqno
    ensures PromisedInv(cfg, sent, taken + [f], promised + [f.seqno])
  {
    HaveElsewhere(taken, f);
    hide Have, Covers;
    var promised' := promised + [f.seqno];
    assert forall q :: q in promised' <==> q in promised || q == f.seqno;
    assert forall i :: 0 <= i < |promised| ==> promised[i] in promised;
  }

  lemma RecordsStore(cfg: Config, sent: seq<bytes>, taken: seq<Frame>, inbound: map<u32, Pending>, promised: seq<u32>,
                     f: Frame, p: Pending)
    requires cfg.Valid() && RecordsInv(cfg, sent, taken, inbound, promised)
    requires f.Data? && Known(sent, f.seqno) && f.seqno !in promised
    requires Collected(p, cfg.crc32, cfg.size, sent[f.seqno - 1], Have(taken + [f], f.seqno))
    ensures RecordsInv(cfg, sent, taken + [f], inbound[f.seqno := p], promised)
  {
    HaveElsewhere(taken, f);
    hide Have, Collected;
  }

  lemma PendingStores(cfg: Config, sent: seq<bytes>, taken: seq<Frame>, inbound: map<u32, Pending>, promised: seq<u32>,
                      f: Frame, p: Pending)
    requires cfg.Valid() && PendingInv(cfg, sent, taken, inbound, promised)
    requires f.Data? && Known(sent, f.seqno) && f.seqno !in promised
    requires Collected(p, cfg.crc32, cfg.size, sent[f.seqno - 1], Have(taken + [f], f.seqno))
    ensures PendingInv(cfg, sent, taken + [f], inbound[f.seqno := p], promised)
  {
    RecordsStore(cfg, sent, taken, inbound, promised, f, p);
    HaveElsewhere(taken, f);
    hide Have, Collected, RecordsInv;
  }

  lemma RecordsRemove(cfg: Config, sent: seq<bytes>, taken: seq<Frame>, inbound: map<u32, Pending>, promised: seq<u32>,
                      f: Frame)
    requires cfg.Valid() && RecordsInv(cfg, sent, taken, inbound, promised)
    requires f.Data? && Known(sent, f.seqno)
    ensures RecordsInv(cfg, sent, taken + [f], inbound - {f.seqno}, promised + [f.seqno])
  {
    HaveElsewhere(taken, f);
    hide Have, Collected;
    assert forall q :: q in promised + [f.seqno] <==> q in promised || q == f.seqno;
  }

  lemma PendingRemoves(cfg: Config, sent: seq<bytes>, taken: seq<Frame>, inbound: map<u32, Pending>, promised: seq<u32>,
                       f: Frame)
    requires cfg.Valid() && PendingInv(cfg, sent, taken, inbound, promised)
    requires f.Data? && Known(sent, f.seqno)
    ensures PendingInv(cfg, sent, taken + [f], inbound - {f.seqno}, promised + [f.seqno])
  {
    RecordsRemove(cfg, sent, taken, inbound, promised, f);
    HaveElsewhere(taken, f);
    hide Have, Collected, RecordsInv;
    assert forall q :: q in promised + [f.seqno] <==> q in promised || q == f.seqno;
  }

  lemma DeliveredStays(cfg: Config, sent: seq<bytes>, taken: seq<Frame>, delivered: map<u32, u32>, promised: seq<u32>,
                       f: Frame)
    requires cfg.Valid() && DeliveredInv(cfg, sent, taken, delivered, promised)
    requires f.Data? && (taken != [] ==> taken[|taken| - 1].seqno <= f.seqno)
    requires f.seqno in promised ==> f.seqno in delivered
    ensures DeliveredInv(cfg, sent, taken + [f], delivered, promised)
  {
  }

  lemma DeliveredAdds(cfg: Config, sent: seq<bytes>, taken: seq<Frame>, delivered: map<u32, u32>, promised: seq<u32>,
                      f: Frame)
    requires cfg.Valid() && DeliveredInv(cfg, sent, taken, delivered, promised)
    requires f.Data? && Known(sent, f.seqno) && f.crc == cfg.crc32(sent[f.seqno - 1])
    requires taken != [] ==> taken[|taken| - 1].seqno <= f.seqno
    ensures DeliveredInv(cfg, sent, taken + [f], Remember(delivered, f.seqno, f.crc), promised + [f.seqno])
  {
    assert forall q :: q in promised + [f.seqno] <==> q in promised || q == f.seqno;
  }

  lemma IncompleteKeeps(
      cfg: Config, sent: seq<bytes>, taken: seq<Frame>, tables: Receiver, promised: seq<u32>, f: Frame)
    requires cfg.Valid() && WithinLimits(cfg, sent) && IntakeCore(cfg, sent, taken, tables, promised)
    requires f.Data? && Flow(cfg, sent, taken + [f])
    requires (forall g :: g in taken ==> g.Data?) && f.seqno !in promised
    requires !Upsert(tables.inbound, f).1
    ensures IntakeCore(cfg, sent, taken + [f],
              tables.(inbound := tables.inbound[f.seqno := Upsert(tables.inbound, f).0]), promised)
  {
    FreshKeeps(cfg, sent, taken, tables, promised, f);
    LastIsLatest(cfg, sent, taken, f);
    hide Upsert, Have, Collected, AllRead;
    PromisedStays(cfg, sent, taken, promised, f);
    PendingStores(cfg, sent, taken, tables.inbound, promised, f, Upsert(tables.inbound, f).0);
    DeliveredStays(cfg, sent, taken, tables.delivered, promised, f);
    hide PromisedInv, PendingInv, DeliveredInv;
  }

  lemma CompleteKeeps(cfg: Config, sent: seq<bytes>, taken: seq<Frame>, tables: Receiver, promised: seq<u32>, f: Frame)
    requires cfg.Valid() && WithinLimits(cfg, sent) && IntakeCore(cfg, sent, taken, tables, promised)
    requires f.Data? && Flow(cfg, sent, taken + [f])
    requires (forall g :: g in taken ==> g.Data?) && f.seqno !in promised
    requires Upsert(tables.inbound, f).1
    ensures Known(sent, f.seqno) &&
            Conclude(cfg.crc32, tables, f.seqno, Upsert(tables.inbound, f).0).1 == Hand(sent[f.seqno - 1])
    ensures IntakeCore(cfg, sent, taken + [f],
              Conclude(cfg.crc32, tables, f.seqno, Upsert(tables.inbound, f).0).0, promised + [f.seqno])
  {
    FreshKeeps(cfg, sent, taken, tables, promised, f);
    LastIsLatest(cfg, sent, taken, f);
    var p := Upsert(tables.inbound, f).0;
    assert p.crc == f.crc;
    hide Upsert, Have, Collected, AllRead, Assemble, Remember;
    assert forall q :: q in promised ==> q < f.seqno;
    PromisedGrows(cfg, sent, taken, promised, f);
    PendingRemoves(cfg, sent, taken, tables.inbound, promised, f);
    DeliveredAdds(cfg, sent, taken, tables.delivered, promised, f);
    hide PromisedInv, PendingInv, DeliveredInv;
  }

  /** One more frame of an ordered flow: the tables stay right, and what the
      reader owes is the payload as sent, or an ack for a promised message. */
  lemma HandleKeeps(cfg: Config, sent: seq<bytes>, taken: seq<Frame>, tables: Receiver, promised: seq<u32>, f: Frame)
    requires cfg.Valid() && WithinLimits(cfg, sent) && IntakeCore(cfg, sent, taken, tables, promised)
    requires f.Data? && Flow(cfg, sent, taken + [f]) && forall g :: g in taken ==> g.Data?
    ensures var (tables', x) := Handle(cfg.crc32, tables, f);
            && Known(sent, f.seqno) && f.crc == cfg.crc32(sent[f.seqno - 1])
            && IntakeCore(cfg, sent, taken + [f], tables', if x.Hand? then promised + [f.seqno] else promised)
            && (x.Hand? ==> x.data == sent[f.seqno - 1])
            && (x.Reack? ==> f.seqno in promised)
  {
    DuplicateRecognised(cfg, sent, taken, tables, promised, f);
    assert (taken + [f])[|taken|] == f;
    if f.seqno in promised {
      DuplicateKeeps(cfg, sent, taken, tables, promised, f);
    } else if Upsert(tables.inbound, f).1 {
      CompleteKeeps(cfg, sent, taken, tables, promised, f);
    } else {
      IncompleteKeeps(cfg, sent, taken, tables, promised, f);
    }
    hide Upsert, Conclude, IntakeCore;
  }

  /** Nothing has been read yet of a message about to be sent. */
  lemma NothingReadAhead(cfg: Config, sent: seq<bytes>, taken: seq<Frame>)
    requires cfg.Valid() && Flow(cfg, sent, taken)
    ensures Have(taken, |sent| + 1) == {}
  {
    forall g | g in taken ensures g.Data? ==> g.seqno != |sent| + 1 {
      var i :| 0 <= i < |taken| && taken[i] == g;
      assert Honest(cfg, sent, taken[i]);
    }
  }

  lemma SentAt(sent: seq<bytes>, data: bytes)
    ensures forall q: int :: Known(sent, q) ==> (sent + [data])[q - 1] == sent[q - 1]
    ensures forall q: int :: Known(sent + [data], q) <==> Known(sent, q) || q == |sent| + 1
  {
  }

  lemma PromisedWider(cfg: Config, sent: seq<bytes>, data: bytes, taken: seq<Frame>, promised: seq<u32>)
    requires cfg.Valid() && PromisedInv(cfg, sent, taken, promised) && Have(taken, |sent| + 1) == {}
    ensures PromisedInv(cfg, sent + [data], taken, promised)
  {
    SentAt(sent, data);
    FragmentAt(data, cfg.size, 0);
    assert 0 !in Have(taken, |sent| + 1);
    hide Have;
  }

  lemma RecordsWider(cfg: Config, sent: seq<bytes>, data: bytes, taken: seq<Frame>, inbound: map<u32, Pending>,
                     promised: seq<u32>)
    requires cfg.Valid() && RecordsInv(cfg, sent, taken, inbound, promised)
    ensures RecordsInv(cfg, sent + [data], taken, inbound, promised)
  {
    SentAt(sent, data);
    hide Have, Collected;
  }

  /** A wider view of what has been sent does not disturb the tables. */
  lemma SentGrows(cfg: Config, sent: seq<bytes>, data: bytes, taken: seq<Frame>, tables: Receiver, promised: seq<u32>)
    requires cfg.Valid() && IntakeCore(cfg, sent, taken, tables, promised)
    requires Flow(cfg, sent, taken)
    ensures IntakeCore(cfg, sent + [data], taken, tables, promised)
  {
    NothingReadAhead(cfg, sent, taken);
    hide Flow, Have, Collected;
    PromisedWider(cfg, sent, data, taken, promised);
    RecordsWider(cfg, sent, data, taken, tables.inbound, promised);
    hide PromisedInv, RecordsInv;
    SentAt(sent, data);
    assert NothingUnrecorded(sent + [data], taken, tables.inbound, promised);
    hide NothingUnrecorded;
  }
}
