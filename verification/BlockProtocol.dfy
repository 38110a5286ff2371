// One producer and any number of consumers on the shared region. Each critical
// section is one step; any schedule of sections is a run.

module BlockProtocol {
  import opened BlockList

  datatype Phase = Generating | Finishing | Waiting | Gone

  datatype Claim = Claim(consumer: int, nums: seq<int>)

  // `claims`, `left` and `failed` record what the consumers have done, `produced` the
  // sets in the order in which they were written. A consumer has failed when it found
  // the semaphore removed.
  datatype State = State(blocks: seq<Block>, phase: Phase, claims: seq<Claim>, left: set<int>, failed: set<int>,
                         produced: seq<seq<int>>)

  const START := State([], Generating, [], {}, {}, [])

  // The flag producer_finished.
  predicate Finished(s: State) { s.phase.Waiting? || s.phase.Gone? }

  // A producer section draws `nums` if it is still generating.
  datatype Action = ByProducer(nums: seq<int>) | ByConsumer(id: int)

  ghost predicate ValidAction(a: Action) { a.ByProducer? ==> 1 <= |a.nums| <= MAX_NUMBERS }

  function Step(size: nat, s: State, a: Action): State {
    match a
    case ByProducer(nums) =>
      (match s.phase
       case Generating =>
         if BlockSize(|nums|) <= FreeBytes(s.blocks, size) then
           s.(blocks := s.blocks + [Block(nums, false)], produced := s.produced + [nums])
         else s.(phase := Finishing)
       case Finishing => s.(phase := Waiting)
       case Waiting => if FirstPending(s.blocks) == |s.blocks| then s.(phase := Gone) else s
       case Gone => s)
    case ByConsumer(id) =>
      var k := FirstPending(s.blocks);
      if id in s.left + s.failed then s
      else if s.phase.Gone? then s.(failed := s.failed + {id})
      else if k < |s.blocks| then
        s.(blocks := Take(s.blocks), claims := s.claims + [Claim(id, s.blocks[k].nums)])
      else if Finished(s) then s.(left := s.left + {id})
      else s
  }

  function Run(size: nat, actions: seq<Action>): State {
    if actions == [] then START else Step(size, Run(size, actions[..|actions| - 1]), actions[|actions| - 1])
  }

  // Claimed blocks come first, in the order of the claims.
  ghost predicate InvClaims(s: State) {
    && |s.produced| == |s.blocks| && |s.claims| <= |s.blocks|
    && (forall i :: 0 <= i < |s.blocks| ==> s.blocks[i].nums == s.produced[i] && s.blocks[i].taken == (i < |s.claims|))
    && (forall i :: 0 <= i < |s.claims| ==> s.claims[i].nums == s.produced[i])
  }

  ghost predicate InvSpace(size: nat, s: State) {
    && (forall i :: 0 <= i < |s.blocks| ==> 1 <= |s.blocks[i].nums| <= MAX_NUMBERS)
    && FreeBytes(s.blocks, size) >= 0
    && (!s.phase.Generating? ==> FreeBytes(s.blocks, size) < BlockSize(MAX_NUMBERS))
  }

  // Nobody stops before everything is claimed.
  ghost predicate InvStop(s: State) {
    && (s.left != {} || s.phase.Gone? ==> Finished(s) && |s.claims| == |s.produced|)
    && (s.failed != {} ==> s.phase.Gone?)
  }

  ghost predicate Inv(size: nat, s: State) { InvClaims(s) && InvSpace(size, s) && InvStop(s) }

  lemma PendingIsNextClaim(s: State)
    requires InvClaims(s)
    ensures FirstPending(s.blocks) == |s.claims|
  {
    FirstPendingUnique(s.blocks, |s.claims|);
  }

  lemma AppendClaims(s: State, nums: seq<int>)
    requires InvClaims(s)
    ensures InvClaims(s.(blocks := s.blocks + [Block(nums, false)], produced := s.produced + [nums]))
  {
  }

  lemma ProducerKeeps(size: nat, s: State, nums: seq<int>)
    requires Inv(size, s) && 1 <= |nums| <= MAX_NUMBERS
    ensures Inv(size, Step(size, s, ByProducer(nums)))
  {
    PendingIsNextClaim(s);
    if s.phase.Generating? {
      AppendClaims(s, nums);
      AppendSpace(s.blocks, nums);
    }
  }

  lemma AppendSpace(blocks: seq<Block>, nums: seq<int>)
    ensures forall size: nat ::
              FreeBytes(blocks + [Block(nums, false)], size) == FreeBytes(blocks, size) - BlockSize(|nums|)
  {
    SameOffset(blocks, blocks + [Block(nums, false)], |blocks|);
  }

  lemma ConsumerKeeps(size: nat, s: State, id: int)
    requires Inv(size, s)
    ensures Inv(size, Step(size, s, ByConsumer(id)))
  {
    PendingIsNextClaim(s);
    TakeSpace(s.blocks);
  }

  lemma TakeSpace(blocks: seq<Block>)
    ensures |Take(blocks)| == |blocks|
    ensures forall i :: 0 <= i < |blocks| ==> Take(blocks)[i].nums == blocks[i].nums
    ensures forall size: nat :: FreeBytes(Take(blocks), size) == FreeBytes(blocks, size)
  {
    SameOffset(blocks, Take(blocks), |blocks|);
  }

  lemma {:induction false} RunInv(size: nat, actions: seq<Action>)
    requires size >= INT_SIZE * HEADER_WORDS && forall a <- actions :: ValidAction(a)
    ensures Inv(size, Run(size, actions))
  {
    if actions != [] {
      RunInv(size, actions[..|actions| - 1]);
      var s := Run(size, actions[..|actions| - 1]);
      match actions[|actions| - 1]
      case ByProducer(nums) =>
        assert ValidAction(actions[|actions| - 1]);
        ProducerKeeps(size, s, nums);
      case ByConsumer(id) => ConsumerKeeps(size, s, id);
    }
  }

  // ------------------------------------------------------ what the producer drew

  // The sets drawn, in order, by the producer sections of a schedule.
  function Draws(actions: seq<Action>): seq<seq<int>> {
    if actions == [] then [] else
    var n := |actions| - 1;
    Draws(actions[..n]) + (if actions[n].ByProducer? then [actions[n].nums] else [])
  }

  // The bytes of the region that these sets take, with two ints in front of each.
  function Used(sets: seq<seq<int>>): nat {
    if sets == [] then 0 else Used(sets[..|sets| - 1]) + 8 + 4 * |sets[|sets| - 1]|
  }

  lemma {:induction false} UsedIsOffset(blocks: seq<Block>, sets: seq<seq<int>>, k: nat)
    requires |blocks| == |sets| && k <= |sets| && forall i :: 0 <= i < k ==> blocks[i].nums == sets[i]
    ensures INT_SIZE * Offset(blocks, k) == 16 + Used(sets[..k])
  {
    if k > 0 {
      UsedIsOffset(blocks, sets, k - 1);
      assert sets[..k][..k - 1] == sets[..k - 1];
    }
  }

  // What is in the region is what was drawn: all of it while the producer is still
  // generating, and afterwards the sets before the first one that did not fit.
  ghost predicate Drawn(size: nat, s: State, draws: seq<seq<int>>) {
    && s.produced <= draws && 16 + Used(s.produced) <= size
    && (if s.phase.Generating? then s.produced == draws
        else |s.produced| < |draws| && 16 + Used(draws[..|s.produced| + 1]) > size)
  }

  lemma UsedOneMore(sets: seq<seq<int>>, nums: seq<int>)
    ensures Used(sets + [nums]) == Used(sets) + 8 + 4 * |nums|
  {
    assert (sets + [nums])[..|sets|] == sets;
  }

  lemma {:induction false} ProducedIsDrawn(size: nat, actions: seq<Action>)
    requires size >= INT_SIZE * HEADER_WORDS && forall a <- actions :: ValidAction(a)
    ensures Drawn(size, Run(size, actions), Draws(actions))
  {
    if actions != [] {
      var front, a := actions[..|actions| - 1], actions[|actions| - 1];
      ProducedIsDrawn(size, front);
      RunInv(size, front);
      DrawnStep(size, Run(size, front), a, Draws(front));
    }
  }

  lemma DrawnStep(size: nat, s: State, a: Action, draws: seq<seq<int>>)
    requires InvClaims(s) && Drawn(size, s, draws)
    ensures Drawn(size, Step(size, s, a), draws + (if a.ByProducer? then [a.nums] else []))
  {
    if a.ByProducer? {
      assert s.produced[..|s.produced|] == s.produced;
      UsedIsOffset(s.blocks, s.produced, |s.blocks|);
      UsedOneMore(s.produced, a.nums);
      if s.phase.Generating? {
        assert (draws + [a.nums])[..|s.produced| + 1] == draws + [a.nums];
      } else {
        assert (draws + [a.nums])[..|s.produced| + 1] == draws[..|s.produced| + 1];
      }
    } else {
      assert draws + [] == draws;
    }
  }

  // Every set is claimed at most once, in the order in which it was drawn and with
  // the numbers drawn; what is not claimed is still pending.
  lemma ExactlyOnce(size: nat, actions: seq<Action>)
    requires size >= INT_SIZE * HEADER_WORDS && forall a <- actions :: ValidAction(a)
    ensures var s, draws := Run(size, actions), Draws(actions);
            && |s.claims| <= |s.produced| == |s.blocks| <= |draws|
            && (forall i :: 0 <= i < |s.claims| ==> s.claims[i].nums == draws[i])
            && (forall i :: 0 <= i < |s.blocks| ==> s.blocks[i].nums == s.produced[i] == draws[i])
            && (forall i :: 0 <= i < |s.blocks| ==> (!s.blocks[i].taken <==> i >= |s.claims|))
  {
    RunInv(size, actions);
    ProducedIsDrawn(size, actions);
  }

  // Whoever has stopped, consumer or producer, has left nothing behind.
  lemma CleanShutdown(size: nat, actions: seq<Action>)
    requires size >= INT_SIZE * HEADER_WORDS && forall a <- actions :: ValidAction(a)
    ensures var s := Run(size, actions);
            && (s.left != {} || s.failed != {} || s.phase.Gone? ==> |s.claims| == |s.produced|)
            && 0 <= size - 16 - Used(s.produced) && (!s.phase.Generating? ==> size - 16 - Used(s.produced) < 8 + 4 * 10)
  {
    RunInv(size, actions);
    var s := Run(size, actions);
    UsedIsOffset(s.blocks, s.produced, |s.produced|);
    assert s.produced[..|s.produced|] == s.produced;
  }

  // And nothing appears later.
  lemma {:induction false} NothingAfterShutdown(size: nat, actions: seq<Action>, more: seq<Action>)
    requires size >= INT_SIZE * HEADER_WORDS && forall a <- actions + more :: ValidAction(a)
    requires Run(size, actions).left != {} || Run(size, actions).phase.Gone?
    ensures Run(size, actions + more).produced == Run(size, actions).produced
    ensures Run(size, actions + more).claims == Run(size, actions).claims
    ensures Run(size, actions + more).left != {} || Run(size, actions + more).phase.Gone?
    decreases |more|
  {
    if more == [] {
      assert actions + more == actions;
    } else {
      var front := actions + more[..|more| - 1];
      assert (actions + more)[..|actions + more| - 1] == front;
      assert forall a <- front :: a in actions + more;
      NothingAfterShutdown(size, actions, more[..|more| - 1]);
      RunInv(size, front);
      PendingIsNextClaim(Run(size, front));
    }
  }

  // How much the producer can still do.
  function Room(size: nat, s: State): int {
    if s.phase.Generating? then FreeBytes(s.blocks, size) + 2
    else if s.phase.Finishing? then 1 else 0
  }

  function ProducerSections(actions: seq<Action>): nat {
    if actions == [] then 0
    else ProducerSections(actions[..|actions| - 1]) + (if actions[|actions| - 1].ByProducer? then 1 else 0)
  }

  // Generation ends: a bounded number of producer sections sets the flag.
  lemma {:induction false} GenerationEnds(size: nat, actions: seq<Action>)
    requires size >= INT_SIZE * HEADER_WORDS && forall a <- actions :: ValidAction(a)
    ensures Finished(Run(size, actions)) || ProducerSections(actions) + Room(size, Run(size, actions)) <= size + 2
  {
    if actions != [] {
      var front, a := actions[..|actions| - 1], actions[|actions| - 1];
      GenerationEnds(size, front);
      RunInv(size, front);
      var s := Run(size, front);
      assert ValidAction(a);
      if a.ByProducer? {
        AppendSpace(s.blocks, a.nums);
      } else {
        TakeSpace(s.blocks);
      }
    }
  }

  // What a section of a running consumer does, at any time: it claims the first
  // set not claimed yet, under its own name; with none left it ends once the flag is
  // set, with an error if the producer has already removed the semaphore, and
  // otherwise changes nothing.
  lemma ConsumerProgress(size: nat, actions: seq<Action>, id: int)
    requires size >= INT_SIZE * HEADER_WORDS && forall a <- actions :: ValidAction(a)
    requires id !in Run(size, actions).left + Run(size, actions).failed
    ensures var s, s' := Run(size, actions), Step(size, Run(size, actions), ByConsumer(id));
            && s'.produced == s.produced && s'.phase == s.phase
            && (if |s.claims| < |s.produced|
                then |s.claims| < |Draws(actions)| && s'.claims == s.claims + [Claim(id, Draws(actions)[|s.claims|])]
                     && s'.left == s.left && s'.failed == s.failed
                else if s.phase.Gone? then s'.failed == s.failed + {id} && s'.left == s.left && s'.claims == s.claims
                else if s.phase.Waiting? then s'.left == s.left + {id} && s'.failed == s.failed && s'.claims == s.claims
                else s' == s)
  {
    RunInv(size, actions);
    ProducedIsDrawn(size, actions);
    PendingIsNextClaim(Run(size, actions));
  }

  // What a section of the producer does once it has stopped generating: it sets the
  // flag, and then tears down in the first section that finds every set claimed.
  lemma ProducerProgress(size: nat, actions: seq<Action>, nums: seq<int>)
    requires size >= INT_SIZE * HEADER_WORDS && forall a <- actions :: ValidAction(a)
    requires !Run(size, actions).phase.Generating?
    ensures var s, s' := Run(size, actions), Step(size, Run(size, actions), ByProducer(nums));
            && s' == s.(phase := s'.phase)
            && (s.phase.Finishing? ==> s'.phase == Waiting)
            && (s.phase.Waiting? ==> s'.phase == if |s.claims| == |s.produced| then Gone else Waiting)
            && (s.phase.Gone? ==> s'.phase == Gone)
  {
    RunInv(size, actions);
    PendingIsNextClaim(Run(size, actions));
  }

  // ------------------------------------------------------- the sections in memory

  // The region in memory is in the protocol state `s`.
  ghost predicate InState(r: Region, s: State)
    reads r, r.mem
  {
    r.Valid() && r.blocks == s.blocks && r.Finished() == Finished(s)
  }

  method ProducerSection(r: Region, ghost actions: seq<Action>, nums: seq<int>, phase: Phase) returns (phase': Phase)
    requires (forall a <- actions :: ValidAction(a)) && 1 <= |nums| <= MAX_NUMBERS
    requires InState(r, Run(INT_SIZE * r.mem.Length, actions)) && Run(INT_SIZE * r.mem.Length, actions).phase == phase
    modifies r, r.mem
    ensures var s' := Run(INT_SIZE * r.mem.Length, actions + [ByProducer(nums)]);
            InState(r, s') && s'.phase == phase'
  {
    RunSnoc(INT_SIZE * r.mem.Length, actions, ByProducer(nums));
    phase' := phase;
    match phase
    case Generating =>
      var ok := r.Produce(nums);
      if !ok { phase' := Finishing; }
    case Finishing =>
      r.Finish();
      phase' := Waiting;
    case Waiting =>
      var done := r.AllDone();
      if done {
        FirstPendingUnique(r.blocks, |r.blocks|);
        phase' := Gone;
      }
    case Gone =>
  }

  lemma RunSnoc(size: nat, actions: seq<Action>, a: Action)
    ensures Run(size, actions + [a]) == Step(size, Run(size, actions), a)
  {
    assert (actions + [a])[..|actions|] == actions;
  }

  // A consumer's section and, after a claim, its report: the least and the greatest
  // of the numbers that were drawn for the next set.
  method ConsumerSection(r: Region, ghost actions: seq<Action>, id: int) returns (found: bool, min: int, max: int, leave: bool)
    requires (forall a <- actions :: ValidAction(a)) && InState(r, Run(INT_SIZE * r.mem.Length, actions))
    requires var s := Run(INT_SIZE * r.mem.Length, actions); id !in s.left + s.failed && !s.phase.Gone?
    modifies r, r.mem
    ensures var s := Run(INT_SIZE * r.mem.Length, actions);
            var s' := Run(INT_SIZE * r.mem.Length, actions + [ByConsumer(id)]);
            && InState(r, s') && (leave <==> id in s'.left)
            && (found <==> |s.claims| < |s.produced|)
            && (found ==> |s.claims| < |Draws(actions)| && IsMinMax(Draws(actions)[|s.claims|], min, max))
  {
    ghost var size := INT_SIZE * r.mem.Length;
    RegionHasRoom(r);
    RunInv(size, actions);
    RunSnoc(size, actions, ByConsumer(id));
    ConsumerProgress(size, actions, id);
    ProducedIsDrawn(size, actions);
    PendingIsNextClaim(Run(size, actions));
    min, max, leave := 0, 0, false;
    var nums;
    found, nums := r.Consume();
    if found {
      min, max := MinMax(nums);
    } else {
      leave := r.mem[3] != 0;
    }
  }

  lemma RegionHasRoom(r: Region)
    requires r.Valid()
    ensures INT_SIZE * r.mem.Length >= INT_SIZE * HEADER_WORDS
  {
  }
}
