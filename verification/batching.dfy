/**
  Client-side batching for the remote plot and the remote replay memory.
  Each buffers what it is given and hands the whole buffer to its network
  client once the buffer reaches the batch length; the buffer then starts
  empty.  The client is modelled as the log of requests it was handed, in
  order; the transport behind it is not modelled.
 */
module Batching {
  import opened Wrappers
  import Plots

  /**
    The step both remotes share: push `x`, and when the buffer holds
    `batchLen` or more, take the whole buffer out as a batch to send.
    Nothing is lost or reordered; a buffer kept below a positive batch
    length stays below it, and what is flushed then is exactly one full
    batch.
   */
  function PushAndFlush<T>(pending: seq<T>, batchLen: nat, x: T): (r: (seq<T>, Option<seq<T>>))
    ensures (if r.1.Some? then r.1.value else []) + r.0 == pending + [x]
    ensures r.1.Some? <==> batchLen <= |pending| + 1
    ensures r.1.Some? ==> r.0 == []
    ensures |pending| < batchLen ==> |r.0| < batchLen && (r.1.Some? ==> |r.1.value| == batchLen)
  {
    var pushed := pending + [x];
    if |pushed| >= batchLen then ([], Some(pushed)) else (pushed, None)
  }

  // ------------------------------------------------------------ plot remote

  /** `PlotRemote`: the plot kind, the batch length, the unsent data and the client's log. */
  datatype PlotRemote<K> = PlotRemote(kind: K, batchLen: nat, datumBatch: seq<Plots.Datum>, sent: seq<(K, seq<Plots.Datum>)>)

  /** The data carried by a log of plot messages, in order. */
  function SentData<K>(sent: seq<(K, seq<Plots.Datum>)>): (ds: seq<Plots.Datum>)
    decreases |sent|
  {
    if |sent| == 0 then [] else SentData(sent[..|sent| - 1]) + sent[|sent| - 1].1
  }

  /** `PlotRemote::new`: nothing pending and nothing sent. */
  function NewPlotRemote<K>(kind: K, batchLen: nat): (r: PlotRemote<K>)
    ensures r.kind == kind && r.batchLen == batchLen && r.datumBatch == [] && r.sent == []
  {
    PlotRemote(kind, batchLen, [], [])
  }

  /** `send`: at most one message goes out, tagged with the remote's kind, and no datum is lost or reordered. */
  function Send<K>(r: PlotRemote<K>, datum: Plots.Datum): (r': PlotRemote<K>)
    ensures r'.kind == r.kind && r'.batchLen == r.batchLen
    ensures r'.sent == r.sent || (|r'.sent| == |r.sent| + 1 && r'.sent[..|r.sent|] == r.sent && r'.sent[|r.sent|].0 == r.kind)
    ensures SentData(r'.sent) + r'.datumBatch == SentData(r.sent) + r.datumBatch + [datum]
  {
    var (pending, flushed) := PushAndFlush(r.datumBatch, r.batchLen, datum);
    match flushed
    case None => r.(datumBatch := pending)
    case Some(batch) =>
      var sent := r.sent + [(r.kind, batch)];
      assert sent[..|r.sent|] == r.sent;
      r.(datumBatch := pending, sent := sent)
  }

  /** Sends every datum in order. */
  function SendAll<K>(r: PlotRemote<K>, data: seq<Plots.Datum>): (r': PlotRemote<K>)
    ensures r'.kind == r.kind && r'.batchLen == r.batchLen
    decreases |data|
  {
    if |data| == 0 then r else Send(SendAll(r, data[..|data| - 1]), data[|data| - 1])
  }

  /** Every logged message carries `kind` and, for a positive batch length, exactly one full batch. */
  ghost predicate FullBatches<K>(sent: seq<(K, seq<Plots.Datum>)>, kind: K, batchLen: nat) {
    forall i :: 0 <= i < |sent| ==> sent[i].0 == kind && (batchLen > 0 ==> |sent[i].1| == batchLen)
  }

  /** What sending `data` from a new remote has left: see `SendAllBatches`. */
  ghost predicate PlotAccounts<K>(r: PlotRemote<K>, kind: K, batchLen: nat, data: seq<Plots.Datum>) {
    && r.kind == kind && r.batchLen == batchLen
    && SentData(r.sent) + r.datumBatch == data
    && FullBatches(r.sent, kind, batchLen)
    && (batchLen > 0 ==> |r.datumBatch| < batchLen)
    && (batchLen == 0 ==> r.datumBatch == [] && |r.sent| == |data|)
  }

  /**
    From a new remote: the data sent so far followed by the pending ones are
    all data given, in order; each message is one full batch of the
    remote's kind; fewer than a batch are pending; and with a zero batch
    length every datum goes out on its own.
   */
  lemma {:induction false} SendAllBatches<K>(kind: K, batchLen: nat, data: seq<Plots.Datum>)
    ensures PlotAccounts(SendAll(NewPlotRemote(kind, batchLen), data), kind, batchLen, data)
    decreases |data|
  {
    if |data| > 0 {
      var n := |data| - 1;
      var init, d := data[..n], data[n];
      assert data == init + [d];
      SendAllBatches(kind, batchLen, init);
      SendKeepsAccount(SendAll(NewPlotRemote(kind, batchLen), init), kind, batchLen, init, d);
    }
  }

  /** One more datum keeps the account. */
  lemma SendKeepsAccount<K>(r0: PlotRemote<K>, kind: K, batchLen: nat, data: seq<Plots.Datum>, d: Plots.Datum)
    requires PlotAccounts(r0, kind, batchLen, data)
    ensures PlotAccounts(Send(r0, d), kind, batchLen, data + [d])
  {
    var r := Send(r0, d);
    var (pending, flushed) := PushAndFlush(r0.datumBatch, batchLen, d);
    if flushed.Some? {
      assert r.sent == r0.sent + [(kind, flushed.value)];
      assert r.sent[..|r0.sent|] == r0.sent;
      assert SentData(r.sent) == SentData(r0.sent) + flushed.value;
    }
  }

  // ---------------------------------------------------------- replay remote

  /** The number of insertions gathered before they are sent. */
  const INSERTION_BATCH_LEN: nat := 50

  datatype Insertion<T> = Insertion(transition: T, priority: real)

  datatype PriorityUpdate = PriorityUpdate(index: nat, priority: real)

  /** What the replay client is asked to do. */
  datatype ReplayRequest<T> =
    | SampleBatch(batchLen: nat)
    | InsertBatch(batch: seq<Insertion<T>>)
    | UpdateBatchPriorities(updates: seq<PriorityUpdate>)

  /** `ReplayRemote`: the unsent insertions and the client's log. */
  datatype ReplayRemote<T> = ReplayRemote(insertionBatch: seq<Insertion<T>>, sent: seq<ReplayRequest<T>>)

  /** `ReplayRemote::new`: nothing pending and nothing sent. */
  function NewReplayRemote<T>(): (r: ReplayRemote<T>)
    ensures r.insertionBatch == [] && r.sent == []
  {
    ReplayRemote([], [])
  }

  /** `update_priorities`: forwarded to the client as they are; the pending insertions are untouched. */
  function UpdatePriorities<T>(r: ReplayRemote<T>, updates: seq<PriorityUpdate>): (r': ReplayRemote<T>)
    ensures r'.insertionBatch == r.insertionBatch && r'.sent == r.sent + [UpdateBatchPriorities(updates)]
  {
    r.(sent := r.sent + [UpdateBatchPriorities(updates)])
  }

  /**
    `sample_batch`: the request is forwarded to the client, whose answer
    comes from the network and is not modelled; the pending insertions are
    untouched.
   */
  function SampleBatchRequest<T>(r: ReplayRemote<T>, batchLen: nat): (r': ReplayRemote<T>)
    ensures r'.insertionBatch == r.insertionBatch && r'.sent == r.sent + [SampleBatch(batchLen)]
  {
    r.(sent := r.sent + [SampleBatch(batchLen)])
  }

  /** `add_transition_with_priority`: the insertion is buffered, and every 50 of them go out together. */
  function AddTransitionWithPriority<T>(r: ReplayRemote<T>, transition: T, priority: real): (r': ReplayRemote<T>)
    ensures |r.insertionBatch| < INSERTION_BATCH_LEN ==> |r'.insertionBatch| < INSERTION_BATCH_LEN
    ensures r'.sent == r.sent || r'.sent == r.sent + [InsertBatch(r.insertionBatch + [Insertion(transition, priority)])]
    ensures r'.sent == r.sent ==> r'.insertionBatch == r.insertionBatch + [Insertion(transition, priority)]
    ensures r'.sent != r.sent ==> r'.insertionBatch == []
  {
    var (pending, flushed) := PushAndFlush(r.insertionBatch, INSERTION_BATCH_LEN, Insertion(transition, priority));
    match flushed
    case None => r.(insertionBatch := pending)
    case Some(batch) => ReplayRemote(pending, r.sent + [InsertBatch(batch)])
  }

  /** A call made on the remote. */
  datatype ReplayCall<T> =
    | AddTransition(transition: T, priority: real)
    | UpdateCall(updates: seq<PriorityUpdate>)
    | SampleCall(batchLen: nat)

  function Apply<T>(r: ReplayRemote<T>, c: ReplayCall<T>): ReplayRemote<T> {
    match c
    case AddTransition(t, p) => AddTransitionWithPriority(r, t, p)
    case UpdateCall(u) => UpdatePriorities(r, u)
    case SampleCall(n) => SampleBatchRequest(r, n)
  }

  /** The calls, in order. */
  function ApplyAll<T>(r: ReplayRemote<T>, calls: seq<ReplayCall<T>>): ReplayRemote<T>
    decreases |calls|
  {
    if |calls| == 0 then r else Apply(ApplyAll(r, calls[..|calls| - 1]), calls[|calls| - 1])
  }

  /** The insertions the calls ask for, in order. */
  function Insertions<T>(calls: seq<ReplayCall<T>>): seq<Insertion<T>>
    decreases |calls|
  {
    if |calls| == 0 then []
    else
      var c := calls[|calls| - 1];
      Insertions(calls[..|calls| - 1]) + if c.AddTransition? then [Insertion(c.transition, c.priority)] else []
  }

  /** The requests the calls forward directly, in order. */
  function Forwards<T>(calls: seq<ReplayCall<T>>): seq<ReplayRequest<T>>
    decreases |calls|
  {
    if |calls| == 0 then []
    else
      var c := calls[|calls| - 1];
      Forwards(calls[..|calls| - 1])
        + match c
          case AddTransition(_, _) => []
          case UpdateCall(u) => [UpdateBatchPriorities(u)]
          case SampleCall(n) => [SampleBatch(n)]
  }

  /** The insertions carried by a log, in order. */
  function Inserted<T>(sent: seq<ReplayRequest<T>>): seq<Insertion<T>>
    decreases |sent|
  {
    if |sent| == 0 then []
    else
      var q := sent[|sent| - 1];
      Inserted(sent[..|sent| - 1]) + if q.InsertBatch? then q.batch else []
  }

  /** The requests of a log other than insertions, in order. */
  function NonInsertions<T>(sent: seq<ReplayRequest<T>>): seq<ReplayRequest<T>>
    decreases |sent|
  {
    if |sent| == 0 then []
    else
      var q := sent[|sent| - 1];
      NonInsertions(sent[..|sent| - 1]) + if q.InsertBatch? then [] else [q]
  }

  /** Every insertion request of a log carries exactly 50 insertions. */
  ghost predicate FullInsertBatches<T>(sent: seq<ReplayRequest<T>>) {
    forall i :: 0 <= i < |sent| && sent[i].InsertBatch? ==> |sent[i].batch| == INSERTION_BATCH_LEN
  }

  /** What a run of calls from a new remote has left: see `ApplyAllKeepsOrder`. */
  ghost predicate Accounts<T>(r: ReplayRemote<T>, calls: seq<ReplayCall<T>>) {
    && Inserted(r.sent) + r.insertionBatch == Insertions(calls)
    && NonInsertions(r.sent) == Forwards(calls)
    && FullInsertBatches(r.sent)
    && |r.insertionBatch| < INSERTION_BATCH_LEN
  }

  /**
    From a new remote, whatever the interleaving of calls: the insertions
    sent followed by the pending ones are all insertions asked for, in
    order; the other requests reach the client unchanged and in order;
    every insertion request is a full batch of 50; fewer than 50 are
    pending.
   */
  lemma {:induction false} ApplyAllKeepsOrder<T>(calls: seq<ReplayCall<T>>)
    ensures Accounts(ApplyAll(NewReplayRemote(), calls), calls)
    decreases |calls|
  {
    if |calls| > 0 {
      var n := |calls| - 1;
      assert calls == calls[..n] + [calls[n]];
      ApplyAllKeepsOrder(calls[..n]);
      ApplyKeepsOrder(ApplyAll(NewReplayRemote(), calls[..n]), calls[..n], calls[n]);
    }
  }

  /** One more call keeps the account. */
  lemma ApplyKeepsOrder<T>(r0: ReplayRemote<T>, calls: seq<ReplayCall<T>>, c: ReplayCall<T>)
    requires Accounts(r0, calls)
    ensures Accounts(Apply(r0, c), calls + [c])
  {
    var all := calls + [c];
    assert all[..|calls|] == calls;
    if c.AddTransition? {
      assert Insertions(all) == Insertions(calls) + [Insertion(c.transition, c.priority)];
      assert Forwards(all) == Forwards(calls);
      AddKeepsOrder(r0, calls, c.transition, c.priority, all);
    } else {
      assert Insertions(all) == Insertions(calls);
      var q := if c.UpdateCall? then UpdateBatchPriorities(c.updates) else SampleBatch(c.batchLen);
      assert Forwards(all) == Forwards(calls) + [q];
      assert Apply(r0, c) == r0.(sent := r0.sent + [q]);
      LogSnoc(r0.sent, q);
    }
  }

  /** An insertion either joins the pending ones or goes out with them as a full batch. */
  lemma AddKeepsOrder<T>(r0: ReplayRemote<T>, calls: seq<ReplayCall<T>>, t: T, p: real, all: seq<ReplayCall<T>>)
    requires Accounts(r0, calls)
    requires Insertions(all) == Insertions(calls) + [Insertion(t, p)] && Forwards(all) == Forwards(calls)
    ensures Accounts(AddTransitionWithPriority(r0, t, p), all)
  {
    var r := AddTransitionWithPriority(r0, t, p);
    if r.sent != r0.sent {
      var q := InsertBatch(r0.insertionBatch + [Insertion(t, p)]);
      LogSnoc(r0.sent, q);
    }
  }

  /** A request appended to a log adds to exactly one of its two views. */
  lemma LogSnoc<T>(sent: seq<ReplayRequest<T>>, q: ReplayRequest<T>)
    ensures Inserted(sent + [q]) == Inserted(sent) + if q.InsertBatch? then q.batch else []
    ensures NonInsertions(sent + [q]) == NonInsertions(sent) + if q.InsertBatch? then [] else [q]
    ensures FullInsertBatches(sent) && (q.InsertBatch? ==> |q.batch| == INSERTION_BATCH_LEN) ==> FullInsertBatches(sent + [q])
  {
    assert (sent + [q])[..|sent|] == sent;
  }
}
