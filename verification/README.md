# vi-ape-x core, modelled in Dafny

vi-ape-x is an Ape-X style distributed DQN driver written in Rust. Actors play a game through an
emulator window and turn frames into four-frame states. They push n-step transitions into replay
memory. A learner samples that memory by priority and sends new priorities back, and a master
thread holds, resumes, saves and closes the actors. This project models the deterministic,
integer-indexed logic beneath the neural network. It proves what that logic promises about
every input, not just a few examples.

The model is split into modules that follow the program's structure:

- **Priority trees**:
  - `TreeLayout`: the array layout of a complete binary tree, with parent, children, first leaf and next leaf.
  - `QueryTree`: a generic tree whose inner nodes hold the query of their children, with update, reset and the root-is-the-fold theorem.
  - `Nodes`: the ±infinity `MinNode`/`MaxNode` wrappers.
  - `Queries`: the sum, min and max queries.
  - `PriorityTrees`: the three trees kept in step.
  - `Sampling`: the prefix-sum descent of the sum tree.
- **Replay containers**:
  - `RingBuffers`: the head/tail ring with truncation.
  - `CircBuffers`: the grow-then-overwrite prioritised buffer.
  - `ReplayPrioritizedMemory`: the ε-floored initial priority, priority updates and stratified sampling.
  - `ReplayQueues`: the bounded FIFO queue.
  - `TransitionSaving`: the frame-deduplicating serialiser and its save/load round trip.
- **Episodes**:
  - `FrameStacks`: the four-frame stack.
  - `StepMemories`: the n-step memory with discounted rewards.
  - `BasicEpisodes` and `Episodes`: termination when the score falls by ten or more, rewards and the truncation timer.
  - `TimeLimitedWrappers`: the two truncation-timer wrappers.
  - `Envs`: the environment's step and send decisions, with the game channel given as a sequence of replies.
- **Pixels**:
  - `Images`: byte offsets, get/set, crop, downscale by sampling and recolouring, for any channel count.
  - `ImageAverages`: downscale by averaging, with widened colours.
  - `GameFrames`: frame preprocessing and key events.
  - `FrameConcats`: state frame concatenation.
  - `PixelPlanes`: plane de-interleaving and pixel export.
  - `ScoreReaders`: bit-packing OCR of the score digits and their decimal decoding.
- **Counters and state machines**:
  - `Schedules`: learner, actor and training schedules with ε annealing.
  - `Plots`: the averaging counters of a plot.
  - `Batching`: the send-batching of the plot and replay clients.
  - `Masters`: the actor master's Held/Running mode machine and its done-flag accumulation.
- **Shared modules**: `Wrappers` holds `Option`/`Result`, and `IntArith` and `RealArith` hold small arithmetic facts.

Modelling conventions:

- Priorities, discount factors and ε are exact `real`s.
- Bytes are a `0..255` subset type.
- Counters that the source keeps in `u32` are written out as `u32` where their wrap-around matters (the schedules) and as unbounded naturals elsewhere.
- Random draws, the game channel and the network are parameters: the sequence of values or messages they would deliver.

## Model

| member | source | states |
|---|---|---|
| TreeLayout.NextPowerOfTwo | src/env_thread/agent/replay/replay_prioritized/priority_circ_buffer/tree.rs:16 | a power of two at or above `n` (1 for 0) whose half is below `n`, as `usize::next_power_of_two` gives it |
| TreeLayout.NextPowerOfTwoLeast | src/env_thread/agent/replay/replay_prioritized/priority_circ_buffer/tree.rs:16 | no power of two at or above `n` is smaller: it is the least one |
| TreeLayout.InnerSizeUnderflow | src/env_thread/agent/replay/replay_prioritized/priority_circ_buffer/tree.rs:15-22 | the size above the leaves, `2 (next_power_of_two(n) / 2) - 1`, is negative (a `usize` underflow) exactly when `leaf_count <= 1`, and is the first leaf's index otherwise |
| TreeLayout.LeafLevelBounds | src/env_thread/agent/replay/replay_prioritized/priority_circ_buffer/tree.rs:15-22 | with at least two leaves the leaf level has depth at least 1 and `leaf_count <= 2^depth < 2 leaf_count`, so the leaves fit on one level |
| TreeLayout.NewTree | src/env_thread/agent/replay/replay_prioritized/priority_circ_buffer/tree.rs:15-22 | `Tree::new` allocates `next_power_of_two(leaf_count) - 1` inner nodes plus `leaf_count` leaves, every one holding the given value |
| TreeLayout.Parent | src/env_thread/agent/replay/replay_prioritized/priority_circ_buffer/tree.rs:24-30 | the root has no parent; any other node's parent is smaller and has the node as its left or right child |
| TreeLayout.Child | src/env_thread/agent/replay/replay_prioritized/priority_circ_buffer/tree.rs:32-42 | a child exists exactly when `2n+1` (left) or `2n+2` (right) is inside the vector, and is that index |
| TreeLayout.ChildrenParent | src/env_thread/agent/replay/replay_prioritized/priority_circ_buffer/tree.rs:24-49 | each existing child of `n` has `n` as its parent, and a right child never exists without a left one |
| TreeLayout.LeavesAreChildless | src/env_thread/agent/replay/replay_prioritized/priority_circ_buffer/tree.rs:32-49 | every slot from the first leaf on has no children |
| TreeLayout.FirstLeaf | src/env_thread/agent/replay/replay_prioritized/priority_circ_buffer/tree.rs:56-66 | walking left children from the root stops at `nodes.len() - leaf_count`, so the leaves are the last `leaf_count` slots |
| TreeLayout.NextLeaf | src/env_thread/agent/replay/replay_prioritized/priority_circ_buffer/sum_tree.rs:69-76 | the successor of a leaf is a leaf; the last slot wraps to the first leaf |
| TreeLayout.NextLeafWalk | src/env_thread/agent/replay/replay_prioritized/priority_circ_buffer/sum_tree.rs:57-76 | from the first leaf, the `j`-th step of `next_leaf` (`j < leaf_count`) reaches leaf number `j` |
| TreeLayout.NextLeafReturns | src/env_thread/agent/replay/replay_prioritized/priority_circ_buffer/sum_tree.rs:57-76 | `leaf_count` steps of `next_leaf` from the first leaf visit each leaf once and come back to the start |
| TreeLayout.LeafAncestorsInternal | src/env_thread/agent/replay/replay_prioritized/priority_circ_buffer/tree.rs:24-30 | every ancestor of a leaf lies above the leaf level |
| QueryTree.ChildrenQueryCombines | src/env_thread/agent/replay/replay_prioritized/priority_circ_buffer/sum_tree/sum_query.rs:10-17 | for a lawful query, `children_query` is `combine` of the two children with a missing child read as the default (one child gives that child, none gives the default) |
| QueryTree.WithLeafCount | priority_tree/src/query_tree.rs:16-21 | a new query tree has every node at `Q::default()` and already holds the invariant that each inner node is the query of its children |
| QueryTree.UpdateAncestors | priority_tree/src/query_tree.rs:50-56 | every ancestor of the node ends up the query of its children and no other node changes |
| QueryTree.UpdateValue | priority_tree/src/query_tree.rs:40-43 | the leaf holds the new value, each ancestor holds the query of its children, and all other nodes are unchanged |
| QueryTree.ResetValue | priority_tree/src/query_tree.rs:46-48 | `reset_value` is an update to `Q::default()`: the leaf holds the default, ancestors are recomputed, other nodes unchanged |
| QueryTree.OffPathUnchanged | priority_tree/src/query_tree.rs:40-56 | a node that is neither the leaf nor one of its ancestors keeps its value and its children's query across an update |
| QueryTree.UpdateValueValid | priority_tree/src/query_tree.rs:40-56 | an update of a leaf preserves the invariant that every inner node holds the query of its children |
| QueryTree.ResetValueValid | priority_tree/src/query_tree.rs:46-56 | a reset preserves the same invariant |
| QueryTree.SubtreeFold | priority_tree/src/query_tree.rs:50-56 | under the invariant, a node on level `d` holds the query of the leaf-level slots below it |
| QueryTree.RootFold | priority_tree/src/query_tree.rs:15-56 | under the invariant, the root holds the query of all leaves in order |
| Nodes.ComparePriority | priority_tree/src/nodes.rs:33 | priorities compare as reals: less, equal or greater exactly as `<`, `==`, `>` |
| Nodes.MinInfinity | priority_tree/src/nodes.rs:13-17 | the min tree's infinity is the empty node |
| Nodes.MaxNegativeInfinity | priority_tree/src/nodes.rs:55-59 | the max tree's negative infinity is the empty node |
| Nodes.MinFrom | priority_tree/src/nodes.rs:40-50 | `From<P>` wraps the priority, and converting back to `Option` returns it |
| Nodes.MaxFrom | priority_tree/src/nodes.rs:82-92 | the same round trip for max nodes |
| Nodes.MinEq | priority_tree/src/nodes.rs:19-27 | node equality is: both empty, or both hold equal priorities; mixed pairs differ |
| Nodes.MaxEq | priority_tree/src/nodes.rs:61-69 | the same for max nodes |
| Nodes.MinCompare | priority_tree/src/nodes.rs:29-38 | equal exactly for equal nodes; less exactly when the left holds a priority and the right is empty or holds a larger one, so the empty node is greater than every other |
| Nodes.MaxCompare | priority_tree/src/nodes.rs:71-80 | equal exactly for equal nodes; greater exactly when the left holds a priority and the right is empty or holds a smaller one, so the empty node is less than every other |
| Nodes.CompareIsTotalOrder | priority_tree/src/nodes.rs:29-80 | both comparisons are antisymmetric and transitive, with the empty node the greatest min node and the least max node |
| Queries.MinCombine | priority_tree/src/min_tree/min_query.rs:15-23 | with two children the result is one of them and neither is less than it: the minimum |
| Queries.MaxCombine | replay/src/replay_prioritized/priority_circ_buffer/priority_tree/max_tree/max_query.rs:15-23 | with two children the result is one of them and it is less than neither: the maximum |
| Queries.SumQueryLawful | src/env_thread/agent/replay/replay_prioritized/priority_circ_buffer/sum_tree/sum_query.rs:6-17 | zero is neutral for `+` and `+` is associative, so the sum query fits the query-tree theorems |
| Queries.MinQueryLawful | priority_tree/src/min_tree/min_query.rs:6-25 | infinity is neutral for the min combine, which is associative |
| Queries.MaxQueryLawful | replay/src/replay_prioritized/priority_circ_buffer/priority_tree/max_tree/max_query.rs:6-25 | negative infinity is neutral for the max combine, which is associative |
| Queries.SumFold | src/env_thread/agent/replay/replay_prioritized/priority_circ_buffer/sum_tree/sum_query.rs:10-17 | folding the sum query over leaves gives their arithmetic sum, so the root is the sum of the leaves |
| Queries.MinFold | priority_tree/src/min_tree/min_query.rs:10-25 | folding the min query gives the least held priority, or empty exactly when no leaf holds one |
| Queries.MaxFold | replay/src/replay_prioritized/priority_circ_buffer/priority_tree/max_tree/max_query.rs:10-25 | folding the max query gives the greatest held priority, or empty exactly when no leaf holds one |
| Queries.MinTreeUpdateValue | src/env_thread/agent/replay/replay_prioritized/priority_circ_buffer/min_tree.rs:81-110 | in the standalone min tree, `update_value` on a leaf keeps every inner node the min of its children, and the root becomes the least priority of the leaves with that leaf replaced, empty when none holds one |
| Queries.MaxTreeUpdateValue | src/env_thread/agent/replay/replay_prioritized/priority_circ_buffer/max_tree.rs:81-110 | in the standalone max tree, the same with the root the greatest priority of the updated leaves |
| PriorityTrees.WithLeafCount | priority_tree/src/impls/mod.rs:9-18 | the three trees share one shape, `first_leaf` is the sum tree's first leaf, the invariant holds and every index is empty |
| PriorityTrees.LeavesAreSlots | priority_tree/src/impls/mod.rs:20-30 | the min and max leaves hold exactly the indices' priorities and the sum leaves add up to the held priorities |
| PriorityTrees.Min | priority_tree/src/impls/mod.rs:20-22 | `min()` is `None` exactly when no index holds a priority, otherwise the least held priority |
| PriorityTrees.Max | priority_tree/src/impls/mod.rs:24-26 | `max()` is `None` exactly when no index holds a priority, otherwise the greatest held priority |
| PriorityTrees.Total | priority_tree/src/impls/mod.rs:28-30 | `total()` is the sum of the held priorities |
| PriorityTrees.Priority | priority_tree/src/impls/mod.rs:32-35 | `priority(index)` is the priority held at the index, zero when it is empty |
| PriorityTrees.WriteLeavesElsewhere | priority_tree/src/impls/mod.rs:37-49 | writing the leaves of one index leaves the leaves of every other index unchanged |
| PriorityTrees.WriteLeavesSlots | priority_tree/src/impls/mod.rs:37-49 | writing agreeing leaves for one index keeps the invariant and changes only that index's content |
| PriorityTrees.Update | priority_tree/src/impls/mod.rs:37-42 | `update(index, p)` keeps the invariant and makes index `index` hold `p`, all other indices unchanged |
| PriorityTrees.Reset | priority_tree/src/impls/mod.rs:44-49 | `reset(index)` keeps the invariant and empties the index, which drops out of `min()` and `max()` |
| PriorityTrees.UpdateThenRead | priority_tree/src/impls/mod.rs:32-49 | `priority` after `update` returns the written value; after `reset` it is zero and the index is empty |
| Sampling.DescendLeft | actor/src/env_thread/agent/replay/replay_prioritized/priority_circ_buffer/priority_tree/impls/sampling/sample_sum_tree.rs:14-19 | going left when the target is below the left value keeps `0 <= target < value(node)` and the prefix-sum bookkeeping |
| Sampling.DescendRight | actor/src/env_thread/agent/replay/replay_prioritized/priority_circ_buffer/priority_tree/impls/sampling/sample_sum_tree.rs:14-22 | going right after subtracting the left value keeps the same invariant |
| Sampling.DescendEnd | actor/src/env_thread/agent/replay/replay_prioritized/priority_circ_buffer/priority_tree/impls/sampling/sample_sum_tree.rs:10-11 | the descent stops at a data leaf whose prefix-sum interval contains the target |
| Sampling.SampleByPrioritySumFromLeft | actor/src/env_thread/agent/replay/replay_prioritized/priority_circ_buffer/priority_tree/impls/sampling/sample_sum_tree.rs:7-26 | the descent ends at a childless node; under the sum invariant and `0 <= target < total` it is a data leaf of positive priority whose interval `[prefix, prefix + p)` contains the target |
| Sampling.SampleTarget | replay_wrappers/src/replay/replay_prioritized/priority_circ_buffer/priority_tree/impls/sampling/mod.rs:12-23 | the node minus `first_leaf` is an index below `leaf_count`, and for a target in `[0, total)` it is the held index whose prefix-sum interval contains the target (so never an empty or zero-priority one) |
| Sampling.SampleFromRange | replay_wrappers/src/replay/replay_prioritized/priority_circ_buffer/priority_tree/impls/sampling/mod.rs:12-17 | descends for `(range_start + u (range_end - range_start)) total` and returns an index drawn as above whenever that target lies in `[0, total)` |
| Sampling.Sample | replay_wrappers/src/replay/replay_prioritized/priority_circ_buffer/priority_tree/impls/sampling/mod.rs:18-23 | descends for `u total` with the same guarantee |
| Sampling.RangeTargetInBounds | actor/src/env_thread/agent/replay/replay_prioritized/priority_circ_buffer/priority_tree/impls/sampling/sample_sum_tree.rs:33-41 | a draw in `[0, 1)` inside a stratum of `[0, 1]` gives a target in `[0, total)` whenever the total is positive |
| RingBuffers.ModMaxSize | replay_memories/src/replay_ring/priority_circ_buffer/impls/mod.rs:72-74 | `rem_euclid` by `max_size`: a result below `max_size`, equal to `n` or `n + max_size` for `-max_size < n < max_size` |
| RingBuffers.ModSmall | replay_memories/src/replay_ring/priority_circ_buffer/impls/mod.rs:72-74 | for `-m < n < m` the Euclidean remainder is `n` when `n >= 0` and `n + m` otherwise |
| RingBuffers.OccupiedPush | replay_memories/src/replay_ring/priority_circ_buffer/impls/mod.rs:39-45 | writing at `head` and advancing it keeps "slot `i` holds a value exactly when `i` lies in the cyclic interval `[tail, head)`" and appends the value to the live entries |
| RingBuffers.OccupiedDrop | replay_memories/src/replay_ring/priority_circ_buffer/impls/mod.rs:24-30 | clearing the `tail` slot and advancing it keeps the same invariant and drops the oldest live entry |
| RingBuffers.Len | replay_memories/src/replay_ring/priority_circ_buffer/impls/mod.rs:68-70 | `len` is the cyclic distance from `tail` to `head`, always below `max_size`, and zero exactly when `head == tail` |
| RingBuffers.WithMaxSize | replay_memories/src/replay_ring/priority_circ_buffer/impls/mod.rs:7-15 | `max_size` empty slots, `head = tail = 0`, length 0 and no priorities |
| RingBuffers.Push | replay_memories/src/replay_ring/priority_circ_buffer/impls/mod.rs:39-50 | `push` succeeds exactly when fewer than `max_size - 1` entries are held (otherwise `head` meets `tail` and the source panics); it writes value and priority at `head`, keeps `tail` and increases the length by one |
| RingBuffers.PushAppends | replay_memories/src/replay_ring/priority_circ_buffer/impls/mod.rs:39-50 | a successful push appends the value to the live entries, oldest first |
| RingBuffers.ResetEntry | replay_memories/src/replay_ring/priority_circ_buffer/impls/mod.rs:34-37 | `reset_entry` empties exactly the given slot and its priority |
| RingBuffers.DropOldest | replay_memories/src/replay_ring/priority_circ_buffer/impls/mod.rs:24-30 | one iteration of the truncation loop removes the oldest live entry, clears its slot and advances `tail` cyclically |
| RingBuffers.DroppedStep | replay_memories/src/replay_ring/priority_circ_buffer/impls/mod.rs:24-30 | one more iteration drops one more of the oldest entries |
| RingBuffers.Truncate | replay_memories/src/replay_ring/priority_circ_buffer/impls/mod.rs:21-32 | with `len > k` the live entries become the newest `k`, every passed slot is cleared and `head` is kept; with `len <= k` nothing changes |
| CircBuffers.WithMaxSize | replay_memories/src/replay_prioritized/priority_circ_buffer/impls/mod.rs:9-16 | a new buffer holds no values, has `head = 0` and no priorities |
| CircBuffers.Len | replay_memories/src/replay_prioritized/priority_circ_buffer/impls/mod.rs:47-49 | `len` is the number of stored values, never above `max_size` |
| CircBuffers.UpdatePriority | replay_memories/src/replay_prioritized/priority_circ_buffer/impls/mod.rs:43-45 | only the priority at `index` changes; values and `head` are kept |
| CircBuffers.Push | replay_memories/src/replay_prioritized/priority_circ_buffer/impls/mod.rs:18-29 | the priority at `head` is set; while the buffer grows the value is appended, once full it overwrites `values[head]`; the length grows by one up to `max_size` and the invariant (`head < max_size`, and `head = len` while not full) is kept |
| CircBuffers.PushAllLen | replay_memories/src/replay_prioritized/priority_circ_buffer/impls/mod.rs:18-29 | after any pushes the length never decreased and is `min(len + pushes, max_size)`, so it reaches `max_size` after `max_size` pushes |
| CircBuffers.PushAllFills | replay_memories/src/replay_prioritized/priority_circ_buffer/impls/mod.rs:18-24 | while the buffer is not full, pushes append their values in order |
| CircBuffers.MinPriority | replay_memories/src/replay_prioritized/priority_circ_buffer/impls/mod.rs:31-33 | the least held priority, `None` when none is held |
| CircBuffers.MaxPriority | replay_memories/src/replay_prioritized/priority_circ_buffer/impls/mod.rs:35-37 | the greatest held priority, `None` when none is held |
| CircBuffers.TotalPriority | replay_memories/src/replay_prioritized/priority_circ_buffer/impls/mod.rs:39-41 | the sum of the held priorities |
| CircBuffers.SampleFromRange | src/env_thread/agent/replay/replay_prioritized/priority_circ_buffer/impls/sampling.rs:12-22 | returns an index below `len` with its priority and value; for a target inside `[0, total)` it is the index whose prefix-sum interval contains the target |
| ReplayPrioritizedMemory.WithMaxSize | src/env_thread/agent/replay/replay_prioritized/mod.rs:40-44 | a new replay memory is empty |
| ReplayPrioritizedMemory.Len | src/env_thread/agent/replay/replay_prioritized/mod.rs:81-83 | `len` is the number of stored transitions |
| ReplayPrioritizedMemory.InitialPriority | src/env_thread/agent/replay/replay_prioritized/mod.rs:24-39 | the initial priority is at least `EPSILON`, at least every stored priority, and either `EPSILON` or one of the stored priorities |
| ReplayPrioritizedMemory.AddTransition | src/env_thread/agent/replay/replay_prioritized/mod.rs:56-58 | only the `head` slot changes: it takes the initial priority, which is at least `EPSILON` and at least every priority stored before, and the transition, appended while the buffer grows and overwriting the oldest once it is full; the length grows by one until the buffer is full |
| ReplayPrioritizedMemory.ApplyWritesElsewhere | src/env_thread/agent/replay/replay_prioritized/mod.rs:51-54 | an index not among the written ones keeps its priority |
| ReplayPrioritizedMemory.ApplyWritesLast | src/env_thread/agent/replay/replay_prioritized/mod.rs:51-54 | a written index holds the priority of its last write |
| ReplayPrioritizedMemory.UpdatePrioritiesWithTdErrors | src/env_thread/agent/replay/replay_prioritized/mod.rs:45-55 | only the first `min(len(indices), len(errors))` pairs are written, each index getting `priority(error)`, in order; the transitions are untouched; an index at or past `max_size` lies outside the tree, where the source panics, and gives no result |
| ReplayPrioritizedMemory.UpdatePrioritiesAligned | src/env_thread/agent/replay/replay_prioritized/mod.rs:51-54 | writing priorities only to indices that hold a transition keeps exactly the stored indices holding a priority |
| ReplayPrioritizedMemory.Stratum | src/env_thread/agent/replay/replay_prioritized/mod.rs:64-66 | draw `k` of `B` uses the stratum `[k/B, (k+1)/B)` inside `[0, 1]` |
| ReplayPrioritizedMemory.StratumTargetInBounds | src/env_thread/agent/replay/replay_prioritized/mod.rs:64-69 | a draw in `[0, 1)` on stratum `k` gives a target in `[0, total)` |
| ReplayPrioritizedMemory.SampleBatch | src/env_thread/agent/replay/replay_prioritized/mod.rs:59-76 | three vectors of length `batch_size`; entry `k` is a stored index drawn from stratum `k`, its probability is its priority over the total, and its transition is the one stored there |
| ReplayPrioritizedMemory.MinProbability | src/env_thread/agent/replay/replay_prioritized/mod.rs:77-80 | the least priority over the total: the probability of some held index, and at most the probability of every held index |
| ReplayPrioritizedMemory.MinOverTotal | src/env_thread/agent/replay/replay_prioritized/mod.rs:77-80 | the minimum priority over the total is at most every held priority over the total |
| ReplayQueues.WithMaxSize | mono/src/env_thread/agent/replay/replay_queue.rs:14-19 | a new queue is empty |
| ReplayQueues.Len | mono/src/env_thread/agent/replay/replay_queue.rs:34-36 | `len` is the queue's length |
| ReplayQueues.AddTransition | mono/src/env_thread/agent/replay/replay_queue.rs:20-25 | below `max_size` the transition is appended; at or above it the oldest is evicted first; with `max_size >= 1` the length stays at most `max_size` |
| ReplayQueues.AddTransitionKeepsNewest | mono/src/env_thread/agent/replay/replay_queue.rs:20-25 | after an add the queue is the newest `max_size` of the old contents plus the new transition |
| ReplayQueues.AddAllKeepsNewest | mono/src/env_thread/agent/replay/replay_queue.rs:20-25 | after any adds the queue holds the last `min(n, max_size)` transitions added, oldest first |
| ReplayQueues.GatherSubMultiset | mono/src/env_thread/agent/replay/replay_queue.rs:26-33 | picking distinct positions takes each stored transition at most once |
| ReplayQueues.SampleBatch | mono/src/env_thread/agent/replay/replay_queue.rs:26-33 | the batch has `min(batch_size, len)` transitions, all distinct draws from the queue (a sub-multiset of it) |
| TransitionSaving.InvDistinct | actor/src/env_thread/agent/replay/transition_saving/transition_serializer.rs:54-64 | under the table invariant (the map sends the identity of `frames[i]` to `i`), no frame identity is in the table twice |
| TransitionSaving.NewSerializer | actor/src/env_thread/agent/replay/transition_saving/transition_serializer.rs:14-20 | a new serializer has no frames, no transitions and keeps the invariant |
| TransitionSaving.ReceiveFrame | actor/src/env_thread/agent/replay/transition_saving/transition_serializer.rs:54-64 | an already-seen frame returns its stored index and changes nothing; a new one gets index `frames.len()` and is appended; the invariant is kept |
| TransitionSaving.ReceiveState | actor/src/env_thread/agent/replay/transition_saving/transition_serializer.rs:46-52 | one index per frame of the state, each resolving to that frame in the grown table |
| TransitionSaving.ReceiveStateAdds | actor/src/env_thread/agent/replay/transition_saving/transition_serializer.rs:46-64 | every frame a state adds to the table is one of that state's frames |
| TransitionSaving.ReceiveTransition | actor/src/env_thread/agent/replay/transition_saving/transition_serializer.rs:35-44 | appends one saved transition whose state and next state resolve to the input's frames (state first), with action, reward and terminated copied |
| TransitionSaving.RunFromEncodes | actor/src/env_thread/agent/replay/transition_saving/transition_serializer.rs:22-33 | the `k`-th saved transition encodes the `k`-th input |
| TransitionSaving.RunFromAdds | actor/src/env_thread/agent/replay/transition_saving/transition_serializer.rs:22-33 | every frame in the table comes from one of the inputs |
| TransitionSaving.Run | actor/src/env_thread/agent/replay/transition_saving/transition_serializer.rs:22-33 | `run` emits one saved transition per input, in order, each encoding its input through a table of distinct frames that all occur in the inputs |
| TransitionSaving.RunKeepsSharing | actor/src/env_thread/agent/replay/transition_saving/transition_serializer.rs:46-64 | two state slots get the same saved index exactly when they hold the same frame |
| TransitionSaving.LoadState | actor/src/env_thread/agent/replay/transition_saving/mod.rs:44-51 | loading a saved state succeeds exactly when every index is below `frames.len()` (the source panics otherwise), and slot `j` is `frames[saved[j]]` |
| TransitionSaving.LoadTransitions | actor/src/env_thread/agent/replay/transition_saving/mod.rs:30-62 | one loaded transition per saved one, in order, with states looked up in the frame table and action, reward and terminated copied; it fails exactly when some index is out of range |
| TransitionSaving.SaveTransitions | actor/src/env_thread/agent/replay/transition_saving/mod.rs:9-28 | the frames file holds the serializer's frame table in order and the transitions file its saved transitions |
| TransitionSaving.LoadStateResolves | actor/src/env_thread/agent/replay/transition_saving/mod.rs:44-51 | a state saved against a table loads back as the images of its frames |
| TransitionSaving.SaveLoadRoundTrip | actor/src/env_thread/agent/replay/transition_saving/mod.rs:9-62 | loading what was saved succeeds and rebuilds every transition frame by frame, with the same count, order, action, reward and terminated |
| FrameStacks.FromFrame | actor/src/env_thread/state_accums/frame_stack.rs:33-37 | a stack made from one frame has the state's length four and holds that frame in every slot |
| FrameStacks.Receive | actor/src/env_thread/state_accums/frame_stack.rs:18-21 | the new frame becomes the newest, every other frame moves one place towards the front and the oldest leaves; a four-frame stack stays four frames |
| FrameStacks.View | actor/src/env_thread/state_accums/frame_stack.rs:23-27 | a view exists exactly when the stack holds four frames (the source's `expect` fails otherwise), and then lists them oldest first |
| FrameStacks.ResetToCurrent | actor/src/env_thread/state_accums/frame_stack.rs:28-31 | the reset stack is four copies of the newest frame |
| FrameStacks.ReceiveShiftsView | actor/src/env_thread/state_accums/frame_stack.rs:18-27 | receiving a frame turns view `[a, b, c, d]` into `[b, c, d, frame]` |
| FrameStacks.FourReceivesReplace | actor/src/env_thread/state_accums/frame_stack.rs:18-37 | four frames received after `from_frame` are exactly the view: the initial frame is gone |
| FrameStacks.ResetKeepsNewest | actor/src/env_thread/state_accums/frame_stack.rs:18-37 | resetting right after receiving a frame equals starting afresh from that frame |
| StepMemories.NewStepMemory | src/env_thread/env/episode/basic_episode/step_memory.rs:11-17 | an empty queue with the given `n` and discount; usable when `n >= 1` |
| StepMemories.ResetToCurrent | src/env_thread/env/episode/basic_episode/step_memory.rs:18-20 | the queue is emptied while `n` and the discount are kept, and the memory stays usable |
| StepMemories.HornerWeighted | src/env_thread/env/episode/basic_episode/step_memory.rs:77-83 | the reversed `mul_add` fold equals the explicit discounted sum `r0 + g r1 + g^2 r2 + ...` |
| StepMemories.DiscountedRewardSum | src/env_thread/env/episode/basic_episode/step_memory.rs:77-83 | the result is the discounted sum of the queued rewards, the front reward undiscounted and each later one discounted once more |
| StepMemories.Push | src/env_thread/env/episode/basic_episode/step_memory.rs:21-48 | a transition leaves exactly when the queue already holds `n` steps; it goes from the front step's state to the state being pushed, with the front action and the discounted reward of the whole queue, not terminated and without a score; the new step joins the back and the queue never exceeds `n`; the loop computing the discount agrees with the reference step `Pushed` |
| StepMemories.PopTerminatedInto | src/env_thread/env/episode/basic_episode/step_memory.rs:49-66 | every queued step, front first, is appended as a terminated transition from its state to itself with the discounted reward of the queue from that step on; only the last carries a score, the last step's; earlier pending transitions are untouched and the queue ends empty; what is appended is exactly the reference drain `Drained` |
| StepMemories.SingleStepReward | src/env_thread/env/episode/basic_episode/step_memory.rs:77-83 | a queue of one step discounts to that step's own reward |
| BasicEpisodes.StepReward | src/env_thread/env/episode/basic_episode/mod.rs:36-44 | a terminal step earns zero; any other earns the signed score difference `next - score` |
| BasicEpisodes.RunningRewardAboveThreshold | src/env_thread/env/episode/basic_episode/mod.rs:63-74 | a step that does not terminate never loses ten points or more |
| BasicEpisodes.NewBasicEpisode | src/env_thread/env/episode/basic_episode/mod.rs:18-26 | a new episode has the given score, an empty `n`-step memory and four copies of the frame |
| BasicEpisodes.EpisodeStep | src/env_thread/env/episode/basic_episode/mod.rs:27-74 | the status is `Terminated` exactly when the score fell by ten or more; the score becomes `next_score`; a running step pushes the frame, remembers (old state, old score, action, reward) and queues one transition exactly when the memory was full; a terminal step drains the memory so that the last queued transition is terminated, carries the old score and a zero reward, and resets the stack to the new frame; the whole result is the reference step `Stepped`, built from the memory's reference push and drain |
| BasicEpisodes.LastStepReward | src/env_thread/env/episode/basic_episode/mod.rs:37-54 | the final drained step of a terminated episode carries reward zero |
| Episodes.NewEpisode | src/env_thread/env/episode.rs:32-38 | four copies of the frame, the score, and the timer at zero |
| Episodes.RewardAsWritten | src/env_thread/env/episode.rs:61-65 | with the source's `u32` subtraction, a non-terminal step has a reward exactly when the score did not go down |
| Episodes.RewardUnderflowWitness | src/env_thread/env/episode.rs:61-65 | a drop from 5 to 3 does not terminate, yet the 32-bit subtraction underflows |
| Episodes.SignedRewardAgrees | src/env_thread/env/episode.rs:61-65 | wherever the source's subtraction succeeds it agrees with the signed reward of the basic episode |
| Episodes.EpisodeStep | src/env_thread/env/episode.rs:39-89 | a terminal step restarts the episode from the new frame and score; any other pushes the frame, takes the score and counts equal scores in the timer (resetting on change); exactly one transition is produced, tagged with the pre-step score; the status is `Terminated` exactly on termination, `ShouldTruncate` exactly when not terminal and the timer reached 200 |
| Episodes.ConstantScoreTruncates | src/env_thread/env/episode.rs:49-53 | steps with an unchanged score raise the timer by one each and ask for truncation once it reaches 200 |
| Episodes.StepAll | src/env_thread/env/episode.rs:49-53 | after `k` steps at an unchanged score the timer has grown by `k` and the score is unchanged |
| TimeLimitedWrappers.Wrap | actor/src/env_thread/env/episode/time_limited_wrapper.rs:44-53 | termination and truncation pass through; a running step becomes `ShouldTruncate` exactly when the timer is at least 200 |
| TimeLimitedWrappers.NewRecordWrapper | actor/src/env_thread/env/episode/time_limited_wrapper.rs:20-27 | the timer starts at zero and the record at the episode's score |
| TimeLimitedWrappers.ReceiveNextScore | actor/src/env_thread/env/episode/time_limited_wrapper.rs:59-65 | reports whether the score beats the record strictly; the new record is the larger of the two |
| TimeLimitedWrappers.RecordStep | actor/src/env_thread/env/episode/time_limited_wrapper.rs:28-58 | the status is `Terminated` exactly when the inner episode terminates, which resets the timer and takes the new score as the record; otherwise the timer resets on a new record and grows by one else, and the status is `ShouldTruncate` exactly when that timer reaches 200; pending transitions are only appended to; the whole result is the reference step `RecordStepped` |
| TimeLimitedWrappers.NewEqualScoreWrapper | src/env_thread/env/episode/time_limited_wrapper.rs:13-18 | the timer starts at zero around the given episode |
| TimeLimitedWrappers.EqualScoreStep | src/env_thread/env/episode/time_limited_wrapper.rs:19-51 | the timer grows on an unchanged score and resets otherwise; termination passes through and resets it; the status is `Running` exactly when the episode neither terminated nor reached 200 steps of an unchanged score; the whole result is the reference step `EqualScoreStepped` |
| Envs.FirstNonHold | actor/src/env_thread/env/message_bridge.rs:53-70 | the position of the first message that is not a hold notice, all before it being hold notices, or none if every message is one |
| Envs.WaitForNextReply | actor/src/env_thread/env/message_bridge.rs:53-70 | no reply exactly when only hold notices arrive; a reply is the first frame after hold notices only, flagged exactly when some notice preceded it; a master message first is `BadMessage` |
| Envs.FreshEpisode | actor/src/env_thread/env/mod.rs:35 | a new three-step wrapped episode whose score, record and timer start from the reply |
| Envs.NewEnv | actor/src/env_thread/env/mod.rs:23-39 | an error from the first reply is passed on; otherwise the episode starts from the reply, nothing is pending and the hold flag is the reply's |
| Envs.Send | actor/src/env_thread/env/mod.rs:67-77 | an error is passed on; a reply yields its frame and score and sets the hold flag if flagged, never clearing it |
| Envs.EnvStep | actor/src/env_thread/env/mod.rs:40-66 | the action is sent first and the wrapped episode steps on its reply (episode and pending transitions are the wrapper step's result); a running episode gives `Ok`; a finished one is an error exactly when a hold is awaited; termination otherwise gives `Ok` without further requests; a truncation request is sent exactly when the wrapper asks to truncate and no hold is awaited, and its reply restarts the episode (an error reply leaves the stepped episode and is returned); the hold flag is never cleared and is raised exactly by a flagged reply |
| Envs.PopTransition | actor/src/env_thread/env/mod.rs:81-83 | none when nothing is pending; otherwise the oldest pending transition, the rest staying in order |
| Images.IndexBound | image/src/image4.rs:106-114 | a pixel inside the grid has a row-major number below `width * height`, so its bytes lie inside a zeroed image |
| Images.IndexInjective | image/src/image4.rs:106-114 | two different pixels of the grid have different row-major numbers |
| Images.PixelsDisjoint | image/src/image4.rs:165-171 | the bytes of two different pixels never overlap |
| Images.Zeroed | image/src/image4.rs:155-161 | `channels * width * height` bytes, all zero, with every pixel of the grid readable and writable |
| Images.GetPixel | image/src/image4.rs:106-114 | the colour of `(x, y)` is the `channels` bytes starting at `channels * (x + y * width)` |
| Images.SetPixel | image/src/image4.rs:165-171 | exactly the bytes of `(x, y)` take the colour; every other byte and the shape stay |
| Images.SetThenGet | image/src/image4.rs:106-114 | reading a pixel just written returns the colour written |
| Images.SetLeavesOthers | mono/src/image/image2.rs:100-103 | writing one pixel leaves every other pixel of the grid as it was |
| Images.Paint | src/image/traits.rs:58-64 | after the row-outer, column-inner loop over a rectangle each pixel inside it has the colour given for it and every pixel outside keeps its colour |
| Images.MapColor | src/image/traits.rs:44-51 | every pixel becomes `f` of its original colour |
| Images.ReplaceColorFor | src/image/traits.rs:52-54 | exactly the pixels whose colour satisfies the predicate become the new colour; the others keep theirs |
| Images.ReplaceColor | src/image/traits.rs:55-57 | exactly the pixels of the old colour become the new colour |
| Images.ReplaceAreaColor | src/image/traits.rs:58-64 | exactly the pixels of the rectangle `[start_x, end_x) x [start_y, end_y)` become the new colour |
| Images.Crop | src/image/traits.rs:11-22 | the result is `end - start` wide and high, and its pixel `(x, y)` is the original's `(x + start_x, y + start_y)` |
| Images.SampleInside | src/image/traits.rs:25-30 | a sampled corner `x * (w / n)` with `x < n` lies inside a width `w` that `n` divides |
| Images.DownscaleBySample | src/image/traits.rs:23-35 | a result exists exactly when both new sizes are positive and divide the image's and every sampled read lies inside the data (always so for a fitting image of positive sizes, and possible for a zero-width or zero-height one); output pixel `(x, y)` is input pixel `(x * x_factor, y * y_factor)` |
| Images.SamplesInGrid | src/image/traits.rs:23-35 | on a fitting image with positive sizes and dividing new sizes, every sampled pixel is on the grid and so inside the data |
| ImageAverages.Widen | image/src/image4.rs:42-46 | a widened colour has the same channels with the same values |
| ImageAverages.AddW | image/src/image4.rs:26-33 | wide colours add channel by channel |
| ImageAverages.DivW | image/src/image4.rs:35-40 | each channel is the rounded-down quotient: `q * d <= a < (q + 1) * d` |
| ImageAverages.Narrow | image/src/image4.rs:48-58 | narrowing fails exactly when some channel is 256 or more, and otherwise keeps every value |
| ImageAverages.NarrowWiden | mono/src/image/image2.rs:41-52 | widening a colour and narrowing it back returns the colour |
| ImageAverages.Mean | image/src/image4.rs:96 | the rounded-down mean of at most `n` bytes fits a byte and meets the floor bounds |
| ImageAverages.AverageColor | image/src/image4.rs:84-96 | each channel of the average is the floor of the block's channel sum divided by the block's size |
| ImageAverages.AverageEquals | image/src/image4.rs:84-96 | the floor bounds determine the average uniquely |
| ImageAverages.BlockAverage | image/src/image4.rs:88-96 | the inner loops' wide sum, divided and narrowed, never fails and equals the block's average |
| ImageAverages.AverageBlocks | image/src/image4.rs:85-99 | every output pixel's block lies inside the image and the pixel is that block's average |
| ImageAverages.DownscaleByAverage | image/src/image4.rs:77-100 | a result exists exactly when both new sizes are positive and divide the image's non-zero sizes; each output pixel is the floor mean of its `x_factor` by `y_factor` block |
| ImageAverages.DownscaleByAverageAsWritten | mono/src/image/image2.rs:71-94 | the two-channel routine goes on only when the width divides and the height does NOT, and the new height is at most the old; then each pixel is its block's mean |
| ImageAverages.AsWrittenRefusesExactSizes | mono/src/image/image2.rs:72-75 | every size pair the four-channel check accepts, the two-channel check refuses |
| ImageAverages.HalvingWitness | mono/src/image/image2.rs:72-75 | halving a 4 by 4 two-channel image passes the corrected check and fails the written one |
| GameFrames.Rg | src/game_thread.rs:17-18 | the two-channel colour holds the first two channels of the four-channel one |
| GameFrames.SwapBlueRed | src/game_thread.rs:33 | the first and third channels trade places, the second and fourth stay |
| GameFrames.SwapBlueRedTwice | src/game_thread.rs:33 | the channel swap undoes itself |
| GameFrames.KeepRg | src/game_thread.rs:13-22 | a two-channel image of the same size whose every pixel holds the first two channels of the original pixel |
| GameFrames.BlackOutScoreArea | src/game_thread.rs:24-26 | exactly the pixels of columns 93 to 127 and rows 2 to 23 become black |
| GameFrames.FrameDividesBy15 | src/game_thread.rs:28-32 | 128 by 72 divides the 1920 by 1080 capture exactly, with blocks of 15 by 15 |
| GameFrames.PreprocessFrame | src/game_thread.rs:28-37 | the 128 by 72 result is black in the score area, and elsewhere each pixel holds the third and second channels of the floor average of its 15 by 15 block |
| GameFrames.PressAndRelease | src/game_thread.rs:137-142 | the key is pressed and then released, nothing else |
| GameFrames.ActionEvents | src/game_thread.rs:128-135 | action 0 sends no event, 1 taps S, 2 taps Space, and any larger action panics |
| GameFrames.ActionEventsInjective | src/game_thread.rs:128-135 | different valid actions send different events |
| FrameConcats.FrameDims | src/env_thread/state.rs:11-14 | the dimensions are frame 0's width and height |
| FrameConcats.ConcatBuffer | src/env_thread/state.rs:18-22 | a `w` by `4 h` two-channel image with `16 w h` bytes, twice what its pixels need, all of them addressable |
| FrameConcats.CopyFrame | src/env_thread/state.rs:24-32 | one pass of the frame loop copies a frame into the band of rows starting at `lo` and leaves every other row unchanged |
| FrameConcats.HoldsFrameKept | src/env_thread/state.rs:23-33 | a frame already copied above the band being written stays in place |
| FrameConcats.ConcatFrames | src/env_thread/state.rs:15-35 | the result is frame 0's width and four heights tall, and every pixel `(x, y)` of frame `n` appears at `(x, y + n h)` |
| PixelPlanes.ExtractPlanes | model/src/basic_model/to_pixels.rs:6-8 | each plane has half the bytes; their contents are stated by `PixelPlanes.ExtractPlanesUnzips` |
| PixelPlanes.ExtractPlanesUnzips | model/src/basic_model/to_pixels.rs:6-8 | plane 0 holds the first byte of every pair and plane 1 the second |
| PixelPlanes.ImagePixels | model/src/basic_model/to_pixels.rs:14-19 | the pixels are as many bytes as the image data; their order is stated by `PixelPlanes.ImagePixelsPlanes` |
| PixelPlanes.ImagePixelsPlanes | model/src/basic_model/to_pixels.rs:14-19 | the first half lists each pixel's first channel and the second half each pixel's second channel, in pixel order |
| PixelPlanes.InterleavePlanes | model/src/basic_model/to_pixels.rs:6-8 | interleaving the two planes gives the data back, so nothing is lost |
| PixelPlanes.PlanesRoundTrip | model/src/basic_model/to_pixels.rs:14-19 | interleaving the two halves of an image's pixels gives its data back |
| PixelPlanes.FramePixels | model/src/basic_model/to_pixels.rs:43-53 | one run of pixels per frame, each the frame's own |
| PixelPlanes.StatePixelsLength | model/src/basic_model/to_pixels.rs:43-53 | frames of `len` bytes each give `len` pixel bytes per frame |
| PixelPlanes.StatePixelsRuns | model/src/basic_model/to_pixels.rs:43-53 | frame `m`'s pixels are the `m`-th run of `len` bytes of the state's pixels |
| ScoreReaders.PackBitsBound | mono/src/game/score_reader.rs:84-101 | up to 64 pixels nothing is shifted out of the 64-bit symbol: `n` bits give a symbol below `2^n` |
| ScoreReaders.PackBitsInjective | mono/src/game/score_reader.rs:84-101 | up to 64 bits, different bit sequences of one length give different symbols |
| ScoreReaders.SymbolOf | mono/src/game/score_reader.rs:84-101 | a failure is always `InvalidColor`, and a symbol fits 64 bits |
| ScoreReaders.SymbolOfFails | mono/src/game/score_reader.rs:92-97 | reading fails exactly when some pixel is neither the lit nor the unlit colour |
| ScoreReaders.SymbolInjective | mono/src/game/score_reader.rs:84-101 | two cells of at most 64 lit or unlit pixels with the same symbol are the same cell, so the 6 by 8 digit cells are told apart |
| ScoreReaders.ShiftColors | mono/src/game/score_reader.rs:86-98 | the inner loop succeeds exactly when every pixel is lit or unlit, and then extends the symbol by their bits |
| ScoreReaders.DigitImageToSymbol | mono/src/game/score_reader.rs:84-101 | the row-by-row loops give the symbol of the image's pixels in reading order, or `InvalidColor` |
| ScoreReaders.ClassifySymbol | mono/src/game/score_reader.rs:71-83 | a colour error passes through; an unknown symbol is `InvalidDigitShape`; class 10 is the empty digit; any other class is returned as the digit |
| ScoreReaders.ClassifyDigitImage | mono/src/game/score_reader.rs:71-83 | the class of the image's symbol looked up in the table |
| ScoreReaders.ReadScoreDigit | mono/src/game/score_reader.rs:60-70 | the crop of the 24 by 32 box at `1680 + 32 pos`, sampled by 4, classifies as cell `pos`'s sampled pixels do |
| ScoreReaders.ReadFromError | mono/src/game/score_reader.rs:50 | the first error before any empty digit is the result |
| ScoreReaders.ReadFromBound | mono/src/game/score_reader.rs:49-57 | digits below ten in `n` cells read as a number below `10^n` |
| ScoreReaders.ScoreBelowMillion | mono/src/game/score_reader.rs:46-59 | with reference classes at most 10, a score read from six cells is below a million, so the `u32` arithmetic never overflows |
| ScoreReaders.ReadDigits | mono/src/game/score_reader.rs:48-58 | the loop with early exits computes the decimal reading of the cells |
| ScoreReaders.ReadScore | mono/src/game/score_reader.rs:46-59 | the score is the decimal reading of the six cells' classes up to the first empty digit, or the first error |
| ScoreReaders.CharBits | mono/src/game/score_reader.rs:30-38 | one bit per character, set exactly for `#` |
| ScoreReaders.LinesSymbol | mono/src/game/score_reader.rs:27-39 | a drawing has a symbol exactly when it holds only `.` and `#`, and then it packs the lines' bits in order |
| ScoreReaders.RenderedSymbol | mono/src/game/score_reader.rs:27-39 | a cell drawn with `#` for lit pixels has the same symbol in the reference format as in the image reader |
| ScoreReaders.ParseU8 | mono/src/game/score_reader.rs:25 | a value exactly when the text after one optional `+` is a non-empty run of decimal digits whose value is below 256, and the value is that of the digits |
| ScoreReaders.ParseDigit | mono/src/game/score_reader.rs:25 | a one-digit numeral parses to its own value |
| ScoreReaders.ParseClass | mono/src/game/score_reader.rs:21-26 | `None` names class 10; any other name is parsed as a `u8` |
| ScoreReaders.BuildTable | mono/src/game/score_reader.rs:20-41 | the table exists exactly when every entry parses, and every class in it fits a byte |
| ScoreReaders.NewScoreReader | mono/src/game/score_reader.rs:15-45 | the reader exists exactly when there are enough tokens and each of the eleven entries parses |
| ScoreReaders.BuildTableFinds | mono/src/game/score_reader.rs:40 | with distinct reference symbols every entry's symbol maps to that entry's class |
| ScoreReaders.ReferenceCellClassifies | mono/src/game/score_reader.rs:15-45 | a cell drawn exactly as reference entry `k` is classified as that entry's digit, or as the empty digit for `None` |
| Schedules.WrappingInc | learner/src/learner_schedule.rs:21-23 | a `u32` count goes up by one, and wraps to zero after `u32::MAX` |
| Schedules.NewLearnerSchedule | learner/src/learner_schedule.rs:12-17 | no step taken and the given interval |
| Schedules.StepLearner | learner/src/learner_schedule.rs:21-23 | one more step below the `u32` limit; the interval is kept |
| Schedules.LearnerSteps | learner/src/learner_schedule.rs:21-23 | `k` steps add `k` below the `u32` limit and keep the interval |
| Schedules.LearnerUpdatesEveryInterval | learner/src/learner_schedule.rs:24-26 | from a new schedule the target is refreshed at step `j interval + r` exactly when `r == 0` |
| Schedules.NewActorSchedule | actor/src/env_thread/actor_schedule.rs:13-19 | no step taken, the given ε and interval |
| Schedules.StepActor | actor/src/env_thread/actor_schedule.rs:26-28 | one more step below the `u32` limit; ε and the interval are kept |
| Schedules.ActorSteps | actor/src/env_thread/actor_schedule.rs:26-28 | `k` steps add `k` below the `u32` limit and keep ε and the interval |
| Schedules.ActorUpdatesEveryInterval | actor/src/env_thread/actor_schedule.rs:20-31 | from a new schedule ε never changes, and parameters are fetched at step `j interval + r` exactly when `r == 0` |
| Schedules.NewTrainingSchedule | src/env_thread/training_schedule.rs:16-31 | no step taken and every setting as given |
| Schedules.StepTraining | src/env_thread/training_schedule.rs:48-50 | one more step below the `u32` limit; every setting is kept |
| Schedules.TrainingSteps | src/env_thread/training_schedule.rs:48-50 | `k` steps add `k` below the `u32` limit and keep every setting |
| Schedules.Progress | src/env_thread/training_schedule.rs:34-35 | the annealing fraction is non-negative and at most one exactly until the annealing steps are used up |
| Schedules.Annealed | src/env_thread/training_schedule.rs:32-41 | the reference schedule: never below the minimum, never above the maximum, the maximum at the start and the minimum once the fraction reaches one |
| Schedules.AnnealedNonIncreasing | src/env_thread/training_schedule.rs:32-41 | the reference schedule never rises as the fraction grows |
| Schedules.Eps | src/env_thread/training_schedule.rs:32-41 | the source's interpolation with its clamp equals the reference schedule at the current fraction |
| Schedules.EpsNonIncreasing | src/env_thread/training_schedule.rs:32-41 | ε never grows as steps are taken when `eps_min <= eps_max` |
| Schedules.RandomPhase | src/env_thread/training_schedule.rs:42-44 | from a new schedule the random phase is exactly the first `n_eps_random_steps` steps |
| Schedules.TrainingUpdatesEveryInterval | src/env_thread/training_schedule.rs:51-53 | from a new schedule, `n_eps_random_steps + j interval + r` steps in the random phase is over and the target is refreshed exactly when `r == 0` |
| Schedules.EpsAnneals | src/env_thread/training_schedule.rs:32-44 | after the random phase ε starts at `eps_max`, stays between the bounds and is `eps_min` from `n_eps_greedy_steps` steps on |
| Plots.NewPlot | plot/src/plot_set/plot.rs:19-28 | no points, both counters at zero, the given group size |
| Plots.AddDatum | plot/src/plot_set/plot.rs:29-39 | either no point is added and the counters take the datum, or exactly one point is appended and the counters restart at zero; the group size is kept and the count stays below it |
| Plots.AddAll | plot/src/plot_set/plot.rs:29-39 | adding data in order keeps the group size and the count below it; with group size zero no point ever appears |
| Plots.AddDatumCompletes | plot/src/plot_set/plot.rs:32-36 | a datum that completes a group appends that group's mean at the datum's `x` and empties the counters |
| Plots.AddDatumContinues | plot/src/plot_set/plot.rs:29-39 | a datum that does not complete a group joins the counters |
| Plots.PlotAverages | plot/src/plot_set/plot.rs:19-39 | after `N` data in groups of `m`, there are `N / m` points; point `k` is the mean of data `k m` to `k m + m - 1`, placed at the `x` of the last of them; the counters hold the unfinished group |
| Batching.PushAndFlush | plot_remote/src/lib.rs:24-30 | the flushed batch followed by the new buffer is the old buffer plus the new item; a flush happens exactly when the buffer reaches the batch length, empties the buffer, and from a buffer below a positive length carries exactly one full batch |
| Batching.NewPlotRemote | plot_remote/src/lib.rs:16-23 | the kind and batch length as given, nothing buffered and nothing sent |
| Batching.Send | plot_remote/src/lib.rs:24-30 | at most one message goes out, tagged with the remote's kind and appended to the log; the data sent followed by the data buffered grow by exactly the new datum |
| Batching.SendAll | plot_remote/src/lib.rs:24-30 | sending data in order keeps the kind and batch length |
| Batching.SendAllBatches | plot_remote/src/lib.rs:24-30 | from a new remote, the data sent followed by the buffered ones are all the data given, in order; every message carries the remote's kind and one full batch; fewer than a batch stay buffered; with batch length zero every datum goes out alone |
| Batching.SendKeepsAccount | plot_remote/src/lib.rs:24-30 | one more datum keeps that account |
| Batching.NewReplayRemote | replay_memories/src/replay_remote/mod.rs:16-21 | nothing buffered and nothing sent |
| Batching.UpdatePriorities | replay_memories/src/replay_remote/mod.rs:22-24 | the update batch reaches the client as one request after the earlier ones, and the buffered insertions are untouched |
| Batching.SampleBatchRequest | replay_memories/src/replay_remote/mod.rs:41-43 | the sample request reaches the client after the earlier ones, and the buffered insertions are untouched |
| Batching.AddTransitionWithPriority | replay_memories/src/replay_remote/mod.rs:25-40 | the insertion is buffered, or, when it makes 50, the 50 go out as one request and the buffer empties; a buffer below 50 stays below 50 |
| Batching.ApplyAllKeepsOrder | replay_memories/src/replay_remote/mod.rs:22-43 | from a new remote and for any interleaving of calls, the insertions sent followed by the buffered ones are all insertions asked for, in order; every other request reaches the client unchanged and in order; every insertion request holds exactly 50; fewer than 50 stay buffered |
| Batching.ApplyKeepsOrder | replay_memories/src/replay_remote/mod.rs:22-43 | one more call keeps that account |
| Masters.AsBitFlag | actor/src/master_thread/master/thread_id.rs:8-14 | each thread's flag is a single bit among the low three |
| Masters.AsBitFlagInjective | actor/src/master_thread/master/thread_id.rs:8-14 | different threads have disjoint bits, so a flag names one thread |
| Masters.AllFlags | actor/src/master_thread/master/thread_id.rs:15-17 | the three bits together are 7 |
| Masters.DoneFlagsRecords | actor/src/master_thread/master/mod.rs:69-81 | after any reports, a thread's bit is set exactly when that thread reported, and no other bit is set |
| Masters.AllDoneIffAllReported | actor/src/master_thread/master/mod.rs:69-81 | the flags equal `all_flags` exactly when all three threads reported, whatever the order or repeats |
| Masters.WaitFrom | actor/src/master_thread/master/mod.rs:69-81 | from a point before completion, the wait stops at the first later prefix where every thread has reported, or at none |
| Masters.WaitAllDone | actor/src/master_thread/master/mod.rs:69-81 | the number of reports read is the length of the shortest prefix of the inbox in which every thread reported; none if no prefix has them all |
| Masters.WaitAllDoneLoop | actor/src/master_thread/master/mod.rs:69-81 | the OR-accumulating loop reads exactly as many reports as that shortest prefix |
| Masters.WaitAllDoneEnds | actor/src/master_thread/master/mod.rs:69-81 | the wait ends exactly when all three threads appear in the inbox, and ends at the first report of the last thread to report |
| Masters.NewMaster | actor/src/master_thread/master/mod.rs:50-51 | the threads start held and nothing has been sent |
| Masters.SendAllAndWait | actor/src/master_thread/master/mod.rs:63-81 | the broadcast is logged and the command returns exactly when the wait ends, leaving the reports after the shortest complete prefix; the mode is kept |
| Masters.WaitEnvDone | actor/src/master_thread/master/mod.rs:83-88 | returns exactly when the next report is the environment thread's, consuming it; blocks on an empty inbox; panics on any other report |
| Masters.CloseCommand | actor/src/master_thread/master/mod.rs:141-152 | running threads are not closed and the master comes back with `ModeMatch`; held threads are sent `Close` after everything sent before |
| Masters.SaveCommand | actor/src/master_thread/master/mod.rs:90-101 | running threads give `ModeMatch`; held ones are sent `Save("saved")` and the command returns, held, exactly when all three threads report, consuming the reports up to that point; it never panics |
| Masters.LoadCommand | actor/src/master_thread/master/mod.rs:103-112 | running threads give `ModeMatch`; held ones are sent `Load("load")` and the command returns, held, exactly when all three threads report, consuming the reports up to that point; it never panics |
| Masters.HoldCommand | actor/src/master_thread/master/mod.rs:114-127 | held threads give `ModeMatch`; running ones are sent `WaitForHold` (environment thread), `PrepareHold` and `Hold` (all) and end held; it panics exactly when the first report is not the environment thread's and returns exactly when it is and all three threads report afterwards |
| Masters.ResumeCommand | actor/src/master_thread/master/mod.rs:129-139 | running threads give `ModeMatch`; held ones are sent `Resume` and are running at once, no report being read |
| Masters.CommandsFollowModes | actor/src/master_thread/master/mod.rs:90-139 | save, load, hold and resume in the wrong mode return `ModeMatch` at once and change nothing; in the right mode they never fail with `ModeMatch`, and when they return the threads are held (resume: running) and exactly the command's messages follow the earlier ones: `Save("saved")`, `Load("load")`, `WaitForHold` to the environment thread then `PrepareHold` and `Hold` to all, or `Resume` |
| Masters.SaveLoadNeedReports | actor/src/master_thread/master/mod.rs:90-112 | held threads are saved or loaded exactly when all three threads report back |
| Masters.ResumeThenHold | actor/src/master_thread/master/mod.rs:114-139 | resuming held threads and holding them again succeeds and leaves them held when the environment thread reports first and every thread afterwards |

Sum-tree sampling, the replay buffers and the image loops are `method`s with loop invariants. The rest are pure functions and lemmas. `concat_frames` in `src/env_thread/state.rs` allocates `16 w h` bytes for a `w` by `4h` two-channel image, twice what it uses. `FrameConcats.ConcatBuffer` states that allocation and `FrameConcats.ConcatFrames` states what the used half holds.

## Left out

- The TensorFlow model, X11/GLX windowing and the UI are not part of this model: they are foreign calls and rendering.
- Thread and channel orchestration (crossbeam channels, thread run loops, joins in `close`) is left out. Only the decisions the master and the environment take are modelled. Incoming messages are a sequence, and outgoing ones are appended to a log.
- Networking (TCP, bincode and zstd on the wire) is left out. `PlotRemote` and `ReplayRemote` are modelled by the requests they send. The reply contents of `sample_batch` and the ReplayRemote `save`/`load` bodies (`todo!()`) are not modelled.
- File I/O is left out: bincode `save`/`load` of schedules, plots and trees, the file system, and `export_json`/`update_plot` of plots. Saved transitions are modelled as sequences, which is what the save-then-load round trip is about.
- Floating point is left out: `f64` rounding, NaN and infinities. Priorities, γ sums and ε are exact reals, so `mul_add` is an exact multiply-add.
- The `(|e| + EPSILON).powf(alpha)` priority of `update_priorities_with_td_errors` is a parameter `priorityOf` of `ReplayPrioritizedMemory.UpdatePrioritiesWithTdErrors`.
- Random draws are parameters:
  - the `u` values of sum-tree sampling;
  - the stratified draws of `ReplayPrioritizedMemory.SampleBatch`;
  - the distinct picks of `ReplayQueues.SampleBatch`.
- Near-identical copies of the modelled logic are covered by the modelled file and not repeated:
  - the leaf-addressed twin of the prioritised buffer under `src/`;
  - the other frame stacks and serialisers;
  - `mono`'s four-thread `ThreadId` with flags 1/2/4/8.
- Counter width: scores and truncation timers are unbounded naturals outside the reward finding, while the source keeps them in `u32`. The termination test `score >= next_score + 10` could overflow there only for scores near `u32::MAX`, which the six-digit score reader cannot produce.
- Schedule steps are modelled as the wrapping `+= 1` of a release build. A debug build panics at `u32::MAX` instead.
- `learner/src/main.rs` calls `LearnerSchedule::new` with two arguments, while the one-argument `new` of `learner/src/learner_schedule.rs` is the one modelled.
- `QueryTree.ChildrenQuery`: the `(None, Some)` arm of `children_query` cannot occur, because a right child never exists without a left one (`TreeLayout.ChildrenParent`). It is an `assert false` branch rather than a modelled value.
- `Sampling.SampleTarget`: where `node - first_leaf` would underflow, which the sampling lemmas show cannot happen for a target inside the total, the result is `None` rather than a panic.
- `Schedules.Eps`: it requires `n_step >= n_eps_random_steps` because the source's `u32` subtraction would underflow before that. It also requires `n_eps_greedy_steps > 0`, because with zero the source divides by zero in `f64` and gets an infinity or NaN rather than a panic.
- `Schedules.Progress`: the same two preconditions as `Schedules.Eps`.
- `ReplayPrioritizedMemory.MinProbability`: requires a non-zero total priority. With zero, the source's `f64` division gives an infinity or NaN.
- `ReplayPrioritizedMemory.SampleBatch`: requires a positive total for a non-empty batch, for the same reason.
- `Images.Crop`: requires the rectangle inside the image. Outside it, the source's row-major offset can wrap a column past the width onto the next row and read a pixel without panicking.
- `Images.ReplaceAreaColor`: the same in-image precondition as `Images.Crop`; outside it the source writes a wrapped pixel.
- `PixelPlanes.ExtractPlanes`: requires an even number of bytes. The source panics on an odd trailing byte, which no two-channel image has.
- `Episodes.RewardAsWritten`: models a debug build, where the `u32` underflow of the reward panics. A release build wraps instead: score 5 followed by score 3 gives the reward `2^32 - 2`. That wrapped reward is not modelled.

## Findings

| source | as written | input that shows it | evidently intended | confidence | as-written member | corrected member |
|---|---|---|---|---|---|---|
| src/env_thread/env/episode.rs:61-65 | the reward of a non-terminal step is `next_score - score` on `u32`, which underflows (a panic in debug builds) when the score drops by less than ten | score 5 followed by score 3: the step does not terminate and `3 - 5` underflows | a signed score difference, as the basic episode computes it | not executed | Episodes.RewardAsWritten (with Episodes.RewardUnderflowWitness) | BasicEpisodes.StepReward (used by Episodes.EpisodeStep; Episodes.SignedRewardAgrees shows both agree wherever the subtraction succeeds) |
| mono/src/image/image2.rs:72-75 | the two-channel `downscale_by_average` asserts that the height is NOT divisible by the new height | halving a 4 by 4 two-channel image to 2 by 2 fails the assertion | both dimensions divisible, as the four-channel `downscale_by_average` checks | not executed | ImageAverages.DownscaleByAverageAsWritten (with ImageAverages.AsWrittenRefusesExactSizes and ImageAverages.HalvingWitness) | ImageAverages.DownscaleByAverage |
