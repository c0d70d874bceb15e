/**
  Saving and loading transitions whose states share frames.  A frame is an
  `Rc`: here a pointer into a heap of images.  The serializer numbers each
  distinct pointer once and replaces every frame slot
  by that number; saving writes the frame table and the numbered
  transitions, and loading looks each number up again.  The two files are
  sequences.
 */
module TransitionSaving {
  import opened Wrappers
  import opened Transitions

  /** A frame pointer (`Rc::as_ptr`). */
  type Ptr = nat

  /** A transition whose states are lists of frame pointers. */
  type RcTransition = GenericTransition<seq<Ptr>>

  /** `SavedTransition`: states are lists of frame-table indices. */
  type SavedTransition = GenericTransition<seq<nat>>

  /** `TransitionSerializer`: the frame table, the transitions so far and the pointer-to-index map. */
  datatype Serializer = Serializer(frames: seq<Ptr>, transitions: seq<SavedTransition>, indices: map<Ptr, nat>)

  /** The map sends the pointer of `frames[i]` to `i`, and `frames` holds no pointer twice. */
  ghost predicate Inv(s: Serializer) {
    (forall p :: p in s.indices ==> s.indices[p] < |s.frames| && s.frames[s.indices[p]] == p)
    && (forall i :: 0 <= i < |s.frames| ==> s.frames[i] in s.indices && s.indices[s.frames[i]] == i)
  }

  /** No pointer occurs twice. */
  ghost predicate Distinct(frames: seq<Ptr>) {
    forall i, j :: 0 <= i < j < |frames| ==> frames[i] != frames[j]
  }

  lemma InvDistinct(s: Serializer)
    requires Inv(s)
    ensures Distinct(s.frames)
  {
  }

  /** `TransitionSerializer::new`. */
  function NewSerializer(): (s: Serializer)
    ensures Inv(s) && s.frames == [] && s.transitions == []
  {
    Serializer([], [], map[])
  }

  /**
    `receive_frame`: a pointer seen before gets its stored index; a new one
    is appended to the table and gets the table's old length.
   */
  function ReceiveFrame(s: Serializer, frame: Ptr): (r: (Serializer, nat))
    requires Inv(s)
    ensures Inv(r.0) && r.0.transitions == s.transitions
    ensures r.1 < |r.0.frames| && r.0.frames[r.1] == frame
    ensures frame in s.indices ==> r.0 == s && r.1 == s.indices[frame]
    ensures frame !in s.indices ==> r.1 == |s.frames| && r.0.frames == s.frames + [frame]
  {
    if frame in s.indices then (s, s.indices[frame])
    else
      var index := |s.frames|;
      (Serializer(s.frames + [frame], s.transitions, s.indices[frame := index]), index)
  }

  /** `receive_state`: the frames of a state, in order. */
  function ReceiveState(s: Serializer, state: seq<Ptr>): (r: (Serializer, seq<nat>))
    requires Inv(s)
    ensures Inv(r.0) && r.0.transitions == s.transitions
    ensures s.frames <= r.0.frames
    ensures |r.1| == |state|
    ensures forall j :: 0 <= j < |state| ==> r.1[j] < |r.0.frames| && r.0.frames[r.1[j]] == state[j]
    decreases |state|
  {
    if |state| == 0 then (s, [])
    else
      var (s1, first) := ReceiveFrame(s, state[0]);
      var (s2, rest) := ReceiveState(s1, state[1..]);
      assert forall j :: 1 <= j < |state| ==> state[j] == state[1..][j - 1];
      (s2, [first] + rest)
  }

  /** The frames a state adds to the table are frames of that state. */
  lemma {:induction false} ReceiveStateAdds(s: Serializer, state: seq<Ptr>, i: nat)
    requires Inv(s) && |s.frames| <= i < |ReceiveState(s, state).0.frames|
    ensures ReceiveState(s, state).0.frames[i] in state
    decreases |state|
  {
    var r := ReceiveState(s, state).0;
    if |state| > 0 {
      var s1 := ReceiveFrame(s, state[0]).0;
      assert r == ReceiveState(s1, state[1..]).0;
      if i < |s1.frames| {
        assert state[0] !in s.indices && i == |s.frames|;
        assert r.frames[i] == s1.frames[i] == state[0];
      } else {
        ReceiveStateAdds(s1, state[1..], i);
        assert r.frames[i] in state[1..];
      }
    }
  }

  /** `receive_transition`: `state` first, then `next_state`; the rest is copied. */
  function ReceiveTransition(s: Serializer, t: RcTransition): (r: Serializer)
    requires Inv(s)
    ensures Inv(r) && s.frames <= r.frames && s.transitions <= r.transitions
    ensures |r.transitions| == |s.transitions| + 1
    ensures Encodes(r.frames, r.transitions[|s.transitions|], t)
  {
    var (s1, state) := ReceiveState(s, t.state);
    var (s2, nextState) := ReceiveState(s1, t.nextState);
    var saved := GenericTransition(state, nextState, t.action, t.reward, t.terminated);
    Serializer(s2.frames, s2.transitions + [saved], s2.indices)
  }

  /** The frames a transition adds to the table are frames of its two states. */
  lemma ReceiveTransitionAdds(s: Serializer, t: RcTransition, i: nat)
    requires Inv(s) && |s.frames| <= i < |ReceiveTransition(s, t).frames|
    ensures ReceiveTransition(s, t).frames[i] in t.state || ReceiveTransition(s, t).frames[i] in t.nextState
  {
    var s1 := ReceiveState(s, t.state).0;
    var s2 := ReceiveState(s1, t.nextState).0;
    assert ReceiveTransition(s, t).frames == s2.frames;
    if i < |s1.frames| {
      ReceiveStateAdds(s, t.state, i);
      assert s2.frames[i] == s1.frames[i];
    } else {
      ReceiveStateAdds(s1, t.nextState, i);
    }
  }

  /** The indices of `saved` all lie in the table and name the frames of `t`. */
  ghost predicate EncodesState(frames: seq<Ptr>, saved: seq<nat>, state: seq<Ptr>) {
    |saved| == |state| && forall j :: 0 <= j < |saved| ==> saved[j] < |frames| && frames[saved[j]] == state[j]
  }

  ghost predicate Encodes(frames: seq<Ptr>, saved: SavedTransition, t: RcTransition) {
    EncodesState(frames, saved.state, t.state) && EncodesState(frames, saved.nextState, t.nextState)
    && saved.action == t.action && saved.reward == t.reward && saved.terminated == t.terminated
  }

  /** A longer table still resolves the same indices the same way. */
  lemma EncodesExtend(frames: seq<Ptr>, frames': seq<Ptr>, saved: SavedTransition, t: RcTransition)
    requires frames <= frames' && Encodes(frames, saved, t)
    ensures Encodes(frames', saved, t)
  {
  }

  /** Every frame pointer of the transitions in processing order: `state`, then `next_state`, transition by transition. */
  function Flatten(ts: seq<RcTransition>): (r: seq<Ptr>)
    decreases |ts|
  {
    if |ts| == 0 then [] else ts[0].state + ts[0].nextState + Flatten(ts[1..])
  }

  /** A pointer of the first transition or of the later ones is a pointer of all of them. */
  lemma InFlatten(ts: seq<RcTransition>, p: Ptr)
    requires |ts| > 0 && (p in ts[0].state || p in ts[0].nextState || p in Flatten(ts[1..]))
    ensures p in Flatten(ts)
  {
    assert Flatten(ts) == ts[0].state + ts[0].nextState + Flatten(ts[1..]);
  }

  /** Each frame slot of transition `k` is one of the flattened pointers. */
  lemma {:induction false} FlattenContains(ts: seq<RcTransition>, k: nat)
    requires k < |ts|
    ensures forall j :: 0 <= j < |ts[k].state| ==> ts[k].state[j] in Flatten(ts)
    ensures forall j :: 0 <= j < |ts[k].nextState| ==> ts[k].nextState[j] in Flatten(ts)
    decreases k
  {
    if k > 0 {
      FlattenContains(ts[1..], k - 1);
      assert ts[1..][k - 1] == ts[k];
    }
  }

  /** Feeds every transition, in order, to the serializer. */
  function RunFrom(s: Serializer, ts: seq<RcTransition>): (r: Serializer)
    requires Inv(s)
    ensures Inv(r) && s.frames <= r.frames && s.transitions <= r.transitions
    ensures |r.transitions| == |s.transitions| + |ts|
    decreases |ts|
  {
    if |ts| == 0 then s else RunFrom(ReceiveTransition(s, ts[0]), ts[1..])
  }

  /** The `k`-th saved transition encodes the `k`-th input against the final table. */
  lemma {:induction false} RunFromEncodes(s: Serializer, ts: seq<RcTransition>, k: nat)
    requires Inv(s) && k < |ts|
    ensures var r := RunFrom(s, ts); Encodes(r.frames, r.transitions[|s.transitions| + k], ts[k])
    decreases |ts|
  {
    var s1 := ReceiveTransition(s, ts[0]);
    var r := RunFrom(s1, ts[1..]);
    assert RunFrom(s, ts) == r;
    if k == 0 {
      assert r.transitions[|s.transitions|] == s1.transitions[|s.transitions|];
      EncodesExtend(s1.frames, r.frames, s1.transitions[|s.transitions|], ts[0]);
    } else {
      RunFromEncodes(s1, ts[1..], k - 1);
      assert ts[1..][k - 1] == ts[k];
    }
  }

  /** The frames the run adds to the table all come from the inputs. */
  lemma {:induction false} RunFromAdds(s: Serializer, ts: seq<RcTransition>, i: nat)
    requires Inv(s) && |s.frames| <= i < |RunFrom(s, ts).frames|
    ensures RunFrom(s, ts).frames[i] in Flatten(ts)
    decreases |ts|
  {
    if |ts| > 0 {
      var s1 := ReceiveTransition(s, ts[0]);
      var r := RunFrom(s1, ts[1..]);
      assert RunFrom(s, ts) == r;
      if i < |s1.frames| {
        assert r.frames[i] == s1.frames[i];
        ReceiveTransitionAdds(s, ts[0], i);
      } else {
        RunFromAdds(s1, ts[1..], i);
      }
      InFlatten(ts, r.frames[i]);
    }
  }

  /**
    `TransitionSerializer::run`: one saved transition per input, in order;
    the table holds every frame pointer once and only pointers that occur.
   */
  function Run(ts: seq<RcTransition>): (r: (seq<Ptr>, seq<SavedTransition>))
    ensures |r.1| == |ts| && Distinct(r.0)
    ensures forall k :: 0 <= k < |ts| ==> Encodes(r.0, r.1[k], ts[k])
    ensures forall i :: 0 <= i < |r.0| ==> r.0[i] in Flatten(ts)
  {
    var s := RunFrom(NewSerializer(), ts);
    InvDistinct(s);
    forall i | 0 <= i < |s.frames|
      ensures s.frames[i] in Flatten(ts)
    {
      RunFromAdds(NewSerializer(), ts, i);
    }
    forall k | 0 <= k < |ts|
      ensures Encodes(s.frames, s.transitions[k], ts[k])
    {
      RunFromEncodes(NewSerializer(), ts, k);
    }
    (s.frames, s.transitions)
  }

  /** Two frame slots share a table index exactly when they held the same pointer. */
  lemma RunKeepsSharing(ts: seq<RcTransition>, k1: nat, j1: nat, k2: nat, j2: nat)
    requires k1 < |ts| && j1 < |ts[k1].state| && k2 < |ts| && j2 < |ts[k2].state|
    ensures Run(ts).1[k1].state[j1] == Run(ts).1[k2].state[j2] <==> ts[k1].state[j1] == ts[k2].state[j2]
  {
    var r := Run(ts);
    assert Encodes(r.0, r.1[k1], ts[k1]) && Encodes(r.0, r.1[k2], ts[k2]);
  }

  /** A saved state with each index replaced by its frame; `None` where `frames[i]` would panic. */
  function LoadState<F>(frames: seq<F>, saved: seq<nat>): (r: Option<seq<F>>)
    ensures r.Some? <==> forall j :: 0 <= j < |saved| ==> saved[j] < |frames|
    ensures r.Some? ==> |r.value| == |saved| && forall j :: 0 <= j < |saved| ==> r.value[j] == frames[saved[j]]
  {
    if forall j :: 0 <= j < |saved| ==> saved[j] < |frames| then
      Some(seq(|saved|, j requires 0 <= j < |saved| => frames[saved[j]]))
    else
      None
  }

  /**
    `load_transitions`: every saved transition in file order, with both
    states resolved against the frame file; `None` when an index is out of
    range.
   */
  function LoadTransitions<F>(frames: seq<F>, saved: seq<SavedTransition>): (r: Option<seq<GenericTransition<seq<F>>>>)
    ensures r.Some? ==> |r.value| == |saved|
    ensures r.Some? ==> forall k :: 0 <= k < |saved| ==>
      LoadState(frames, saved[k].state) == Some(r.value[k].state)
      && LoadState(frames, saved[k].nextState) == Some(r.value[k].nextState)
      && r.value[k].action == saved[k].action && r.value[k].reward == saved[k].reward
      && r.value[k].terminated == saved[k].terminated
    ensures r.None? <==>
      exists k :: 0 <= k < |saved| && (LoadState(frames, saved[k].state).None? || LoadState(frames, saved[k].nextState).None?)
    decreases |saved|
  {
    if |saved| == 0 then Some([])
    else
      var t := saved[0];
      match (LoadState(frames, t.state), LoadState(frames, t.nextState), LoadTransitions(frames, saved[1..]))
      case (Some(state), Some(nextState), Some(rest)) =>
        assert forall k :: 1 <= k < |saved| ==> saved[k] == saved[1..][k - 1];
        Some([GenericTransition(state, nextState, t.action, t.reward, t.terminated)] + rest)
      case _ =>
        assert forall k :: 1 <= k < |saved| ==> saved[k] == saved[1..][k - 1];
        None
  }

  /** Every pointer of the transitions is an allocated frame. */
  ghost predicate Allocated<F>(heap: map<Ptr, F>, ts: seq<RcTransition>) {
    forall p :: p in Flatten(ts) ==> p in heap
  }

  /** `save_transitions`: the frames file holds the images of the table, the transitions file the saved transitions. */
  function SaveTransitions<F>(heap: map<Ptr, F>, ts: seq<RcTransition>): (files: (seq<F>, seq<SavedTransition>))
    requires Allocated(heap, ts)
    ensures |files.0| == |Run(ts).0| && files.1 == Run(ts).1
    ensures forall i :: 0 <= i < |files.0| ==> files.0[i] == heap[Run(ts).0[i]]
  {
    var (frames, saved) := Run(ts);
    (seq(|frames|, i requires 0 <= i < |frames| => heap[frames[i]]), saved)
  }

  /** A transition with each frame pointer replaced by its image. */
  ghost predicate ResolvesIn<F>(heap: map<Ptr, F>, t: RcTransition) {
    StateIn(heap, t.state) && StateIn(heap, t.nextState)
  }

  ghost predicate StateIn<F>(heap: map<Ptr, F>, state: seq<Ptr>) {
    forall j :: 0 <= j < |state| ==> state[j] in heap
  }

  /** A state with each frame pointer replaced by its image. */
  function Images<F>(heap: map<Ptr, F>, state: seq<Ptr>): (r: seq<F>)
    requires StateIn(heap, state)
  {
    seq(|state|, j requires 0 <= j < |state| => heap[state[j]])
  }

  function Resolve<F>(heap: map<Ptr, F>, t: RcTransition): GenericTransition<seq<F>>
    requires ResolvesIn(heap, t)
  {
    GenericTransition(
      Images(heap, t.state), Images(heap, t.nextState),
      t.action, t.reward, t.terminated)
  }

  /** One state: loading its indices from the image file gives the images of its pointers. */
  lemma LoadStateResolves<F>(heap: map<Ptr, F>, table: seq<Ptr>, images: seq<F>, saved: seq<nat>, state: seq<Ptr>)
    requires |images| == |table| && forall i :: 0 <= i < |table| ==> table[i] in heap && images[i] == heap[table[i]]
    requires EncodesState(table, saved, state)
    ensures StateIn(heap, state)
    ensures LoadState(images, saved) == Some(Images(heap, state))
  {
    var loaded := LoadState(images, saved);
    assert loaded.Some?;
    assert loaded.value == Images(heap, state);
  }

  /** Loading what was saved gives back every transition, image by image, in order. */
  lemma SaveLoadRoundTrip<F>(heap: map<Ptr, F>, ts: seq<RcTransition>)
    requires Allocated(heap, ts)
    ensures forall k :: 0 <= k < |ts| ==> ResolvesIn(heap, ts[k])
    ensures var files := SaveTransitions(heap, ts);
      LoadTransitions(files.0, files.1) == Some(seq(|ts|, k requires 0 <= k < |ts| => Resolve(heap, ts[k])))
  {
    var (frames, saved) := Run(ts);
    var files := SaveTransitions(heap, ts);
    forall k | 0 <= k < |ts|
      ensures ResolvesIn(heap, ts[k])
    {
      FlattenContains(ts, k);
    }
    forall k | 0 <= k < |ts|
      ensures LoadState(files.0, saved[k].state) == Some(Resolve(heap, ts[k]).state)
      ensures LoadState(files.0, saved[k].nextState) == Some(Resolve(heap, ts[k]).nextState)
    {
      assert Encodes(frames, saved[k], ts[k]);
      LoadStateResolves(heap, frames, files.0, saved[k].state, ts[k].state);
      LoadStateResolves(heap, frames, files.0, saved[k].nextState, ts[k].nextState);
    }
    var loaded := LoadTransitions(files.0, files.1);
    assert loaded.Some?;
    var resolved := seq(|ts|, k requires 0 <= k < |ts| => Resolve(heap, ts[k]));
    forall k | 0 <= k < |ts|
      ensures loaded.value[k] == resolved[k]
    {
      assert Encodes(frames, saved[k], ts[k]);
    }
    assert loaded.value == resolved;
  }
}
