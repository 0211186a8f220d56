/**
  The shared memory of sharedMemoryLib.c: processes that copy whole records in and out of slots, word by
  word, under one semaphore, with a flag in each record that says whether it was read since it was written.
 */
module SharedMemory {
  import opened Base

  /** The words of a struct EitInfo. The first two are its `initialized` and `updated` members. */
  type Image = seq<int>

  const INITIALIZED := 0
  const UPDATED := 1

  /** The four functions that a process may call; sharedMemory_set has put its two flags into the caller's image. */
  datatype Call =
    | Set(slot: nat, image: Image)
    | Get(slot: nat)
    | GetWithoutUpdate(slot: nat)
    | GetUpdated(slot: nat)

  /**
    How far a call is: before sem_wait, having copied some words, before `updated` is cleared, before sem_post,
    returned.
   */
  datatype Phase = Waiting | Copying(copied: nat) | Clearing | Leaving | Returned

  /** A call knows what it has copied so far, and at which place in the history the version is that it found inside. */
  datatype Process = Idle | Calling(call: Call, phase: Phase, local: Image, version: int) {
    predicate Inside() {
      Calling? && (phase.Copying? || phase.Clearing? || phase.Leaving?)
    }
  }

  /**
    The semaphore, the slots and the processes. For each slot, history is every version that was ever
    stored whole, taken is the place in it of the version that sharedMemory_get copied last, and taker the process
    that did so; seen has, for a process and a slot, the version that this process took last; holder is the
    process inside. The program keeps none of these five.
   */
  datatype State = State(
    size: nat,
    sem: nat,
    memory: seq<Image>,
    processes: seq<Process>,
    history: seq<seq<Image>>,
    taken: seq<Option<int>>,
    taker: seq<Option<nat>>,
    seen: map<(nat, nat), int>,
    holder: Option<nat>)

  /** A process begins a call, takes its next step, or is done with a call. */
  datatype Action = Begin(p: nat, call: Call) | Go(p: nat) | End(p: nat)

  // ---------------------------------------------------------------------------------------------
  // Steps
  // ---------------------------------------------------------------------------------------------

  function SetProcess(s: State, p: nat, process: Process): State
    requires p < |s.processes|
  {
    s.(processes := s.processes[p := process])
  }

  predicate SlotExists(s: State, call: Call) {
    && call.slot < |s.memory| == |s.history| == |s.taken| == |s.taker|
    && |s.memory[call.slot]| == s.size && s.size >= 2
    && (call.Set? ==> |call.image| == s.size)
  }

  /** sharedMemory_set marks the caller's image as initialized and updated before it waits. */
  function Marked(call: Call): Call
    requires call.Set? ==> |call.image| >= 2
  {
    match call
    case Set(slot, image) => Set(slot, image[INITIALIZED := 1][UPDATED := 1])
    case _ => call
  }

  /** Copies one more word, or finishes the copy. */
  function CopyStep(s: State, p: nat, call: Call, copied: nat, local: Image, version: int): State
    requires p < |s.processes| && SlotExists(s, call)
  {
    var word := s.memory[call.slot];
    match call
    case Set(slot, image) =>
      if copied < s.size then
        SetProcess(s, p, Calling(call, Copying(copied + 1), local, version))
          .(memory := s.memory[slot := word[copied := image[copied]]])
      else
        SetProcess(s, p, Calling(call, Leaving, local, version))
          .(history := s.history[slot := s.history[slot] + [image]])
    case Get(_) =>
      if copied < s.size then SetProcess(s, p, Calling(call, Copying(copied + 1), local + [word[copied]], version))
      else SetProcess(s, p, Calling(call, Clearing, local, version))
    case GetWithoutUpdate(_) =>
      if copied < s.size then SetProcess(s, p, Calling(call, Copying(copied + 1), local + [word[copied]], version))
      else SetProcess(s, p, Calling(call, Leaving, local, version))
    case GetUpdated(_) =>
      SetProcess(s, p, Calling(call, Leaving, [word[UPDATED]], version))
  }

  /** The next step of a call. */
  function GoStep(s: State, p: nat, call: Call, phase: Phase, local: Image, version: int): State
    requires p < |s.processes| && SlotExists(s, call)
  {
    match phase
    case Waiting =>
      if s.sem == 0 then s
      else
        SetProcess(s, p, Calling(call, Copying(0), [], |s.history[call.slot]| - 1))
          .(sem := s.sem - 1, holder := Some(p))
    case Copying(copied) => CopyStep(s, p, call, copied, local, version)
    case Clearing =>
      SetProcess(s, p, Calling(call, Leaving, local, version))
        .(memory := s.memory[call.slot := s.memory[call.slot][UPDATED := 0]],
          taken := s.taken[call.slot := Some(version)], taker := s.taker[call.slot := Some(p)],
          seen := s.seen[(p, call.slot) := version])
    case Leaving =>
      var returned := if call.Get? && |local| == s.size then local[UPDATED := 0] else local;
      SetProcess(s, p, Calling(call, Returned, returned, version)).(sem := s.sem + 1, holder := None)
    case Returned => s
  }

  /** A step of the system; an action that is not possible changes nothing. */
  function Step(s: State, a: Action): State {
    if a.p >= |s.processes| then s else
      match a
      case Begin(p, call) =>
        if s.processes[p].Idle? && SlotExists(s, call)
        then SetProcess(s, p, Calling(Marked(call), Waiting, [], 0))
        else s
      case Go(p) =>
        (match s.processes[p]
         case Idle => s
         case Calling(call, phase, local, version) =>
           if SlotExists(s, call) then GoStep(s, p, call, phase, local, version) else s)
      case End(p) =>
        if s.processes[p].Calling? && s.processes[p].phase.Returned? then SetProcess(s, p, Idle) else s
  }

  function Run(s: State, actions: seq<Action>): State
    decreases |actions|
  {
    if actions == [] then s else Run(Step(s, actions[0]), actions[1..])
  }

  // ---------------------------------------------------------------------------------------------
  // The invariant
  // ---------------------------------------------------------------------------------------------

  /** The same record, but for the `updated` flag. */
  predicate Same(a: Image, b: Image) {
    |a| == |b| >= 2 && forall i :: 0 <= i < |a| && i != UPDATED ==> a[i] == b[i]
  }

  /** A snapshot is a certain version of a slot, whole. */
  predicate Whole(s: State, slot: nat, version: int, image: Image) {
    slot < |s.history| && 0 <= version < |s.history[slot]| && Same(image, s.history[slot][version])
  }

  predicate Shaped(s: State) {
    && s.size >= 2
    && |s.memory| == |s.history| == |s.taken| == |s.taker|
    && (forall i :: 0 <= i < |s.memory| ==> |s.memory[i]| == s.size && s.history[i] != [])
    && (forall i :: 0 <= i < |s.memory| ==> s.taken[i].Some? ==> 0 <= s.taken[i].value < |s.history[i]|)
  }

  /** Nobody has taken a later version than the last taker, and that one has just taken it. */
  predicate Recorded(s: State)
    requires Shaped(s)
  {
    && (forall k :: k in s.seen ==>
          k.1 < |s.memory| && s.taken[k.1].Some? && 0 <= s.seen[k] <= s.taken[k.1].value)
    && (forall i :: 0 <= i < |s.memory| ==> (s.taken[i].Some? <==> s.taker[i].Some?))
    && (forall i :: 0 <= i < |s.memory| && s.taker[i].Some? ==>
          (s.taker[i].value, i) in s.seen && s.taken[i] == Some(s.seen[(s.taker[i].value, i)]))
  }

  /** At most one process is inside, and the semaphore is down exactly while there is one. */
  predicate Exclusive(s: State) {
    && s.sem == (if s.holder.Some? then 0 else 1)
    && (forall p :: 0 <= p < |s.processes| ==> (s.processes[p].Inside() <==> s.holder == Some(p)))
    && (s.holder.Some? ==> s.holder.value < |s.processes|)
  }

  /** A process is in the middle of storing a version in a slot. */
  predicate Storing(s: State, slot: nat) {
    && s.holder.Some? && s.holder.value < |s.processes|
    && var p := s.processes[s.holder.value];
       p.Calling? && p.call.Set? && p.phase.Copying? && p.call.slot == slot
  }

  /** Unless a version is being stored, the slot holds the last whole one, and its flag says whether it was taken. */
  predicate Settled(s: State, slot: nat)
    requires Shaped(s) && slot < |s.memory|
  {
    var last := |s.history[slot]| - 1;
    && Same(s.memory[slot], s.history[slot][last])
    && (s.taken[slot].Some? ==>
          s.memory[slot][UPDATED] == (if s.taken[slot].value == last then 0 else 1))
  }

  /** What a process knows at the point where it is. */
  predicate Informed(s: State, process: Process)
    requires Shaped(s)
  {
    process.Calling? ==>
      var call := process.call;
      && SlotExists(s, call)
      && (call.Set? ==> call.image[UPDATED] == 1)
      && (process.Inside() && !call.Set? ==> process.version == |s.history[call.slot]| - 1)
      && match process.phase
         case Waiting => true
         case Copying(copied) =>
           && copied <= s.size
           && (call.Set? ==> forall i :: 0 <= i < copied ==> s.memory[call.slot][i] == call.image[i])
           && (call.Get? || call.GetWithoutUpdate? ==> process.local == s.memory[call.slot][..copied])
         case Clearing => call.Get? && process.local == s.memory[call.slot]
         case Leaving =>
           && (call.Get? || call.GetWithoutUpdate? ==> Whole(s, call.slot, process.version, process.local))
           && (call.Get? ==> |process.local| == s.size)
           && (call.GetUpdated? ==> process.local == [s.memory[call.slot][UPDATED]])
         case Returned =>
           && (call.Get? || call.GetWithoutUpdate? ==> Whole(s, call.slot, process.version, process.local))
           && (call.Get? ==> |process.local| == s.size && process.local[UPDATED] == 0)
  }

  predicate Invariant(s: State) {
    && Shaped(s) && Exclusive(s) && Recorded(s)
    && (forall i :: 0 <= i < |s.memory| && !Storing(s, i) ==> Settled(s, i))
    && (forall p :: 0 <= p < |s.processes| ==> Informed(s, s.processes[p]))
  }

  /** The processes but p are as they were. */
  predicate OthersStay(s: State, r: State, p: nat) {
    && p < |s.processes| == |r.processes|
    && (forall q :: 0 <= q < |s.processes| && q != p ==> r.processes[q] == s.processes[q])
  }

  /** The slots, their versions and what was taken of them are as they were. */
  predicate SlotsStay(s: State, r: State) {
    && r.size == s.size && r.memory == s.memory && r.history == s.history
    && r.taken == s.taken && r.taker == s.taker && r.seen == s.seen
  }

  /** Versions are only ever added. */
  predicate HistoryStays(s: State, r: State) {
    && |s.history| == |r.history|
    && forall i :: 0 <= i < |s.history| ==> s.history[i] <= r.history[i]
  }

  /** A process outside knows nothing that another one could change. */
  lemma OutsideStaysInformed(s: State, r: State, process: Process)
    requires Shaped(s) && Shaped(r) && Informed(s, process) && !process.Inside()
    requires r.size == s.size && |r.memory| == |s.memory|
    requires HistoryStays(s, r)
    ensures Informed(r, process)
  {
    if process.Calling? && process.phase.Returned? && (process.call.Get? || process.call.GetWithoutUpdate?) {
      var slot := process.call.slot;
      var k := process.version;
      assert r.history[slot][k] == s.history[slot][k];
    }
  }

  /** A step of one process, seen from the outside: it is enough to look at that process and its slot. */
  lemma StepKeeps(s: State, r: State, p: nat)
    requires Invariant(s) && OthersStay(s, r, p) && Shaped(r) && Exclusive(r) && Recorded(r)
    requires r.size == s.size && |r.memory| == |s.memory|
    requires HistoryStays(s, r)
    requires s.holder == None || s.holder == Some(p)
    requires forall i :: 0 <= i < |r.memory| && !Storing(r, i) ==> Settled(r, i)
    requires Informed(r, r.processes[p])
    ensures Invariant(r)
  {
    hide Informed, Settled, Storing;
    forall q | 0 <= q < |r.processes| ensures Informed(r, r.processes[q]) {
      if q != p {
        OutsideStaysInformed(s, r, r.processes[q]);
      }
    }
  }

  /** A step that touches no slot, of a process that stays where it is, inside or outside. */
  lemma QuietStepKeeps(s: State, r: State, p: nat)
    requires Invariant(s) && OthersStay(s, r, p) && SlotsStay(s, r)
    requires r.sem == s.sem && r.holder == s.holder && r.processes[p].Inside() == s.processes[p].Inside()
    requires forall i :: 0 <= i < |s.memory| ==> (Storing(r, i) <==> Storing(s, i))
    requires Informed(r, r.processes[p])
    ensures Invariant(r)
  {
    hide Informed, Settled, Storing;
    forall q | 0 <= q < |r.processes| ensures Informed(r, r.processes[q]) {
      if q != p {
        InformedStays(s, r, r.processes[q]);
      }
    }
    forall i | 0 <= i < |r.memory| && !Storing(r, i) ensures Settled(r, i) {
      SettledStays(s, r, i);
    }
  }

  lemma InformedStays(s: State, r: State, process: Process)
    requires Shaped(s) && Shaped(r) && SlotsStay(s, r) && Informed(s, process)
    ensures Informed(r, process)
  {
  }

  lemma SettledStays(s: State, r: State, i: nat)
    requires Shaped(s) && Shaped(r) && SlotsStay(s, r) && i < |s.memory| && Settled(s, i)
    ensures Settled(r, i)
  {
  }

  lemma BeginKeeps(s: State, p: nat, call: Call)
    requires Invariant(s)
    ensures Invariant(Step(s, Begin(p, call)))
  {
    if p < |s.processes| && s.processes[p].Idle? && SlotExists(s, call) {
      hide Settled;
      QuietStepKeeps(s, Step(s, Begin(p, call)), p);
    }
  }

  lemma EndKeeps(s: State, p: nat)
    requires Invariant(s)
    ensures Invariant(Step(s, End(p)))
  {
    if p < |s.processes| && s.processes[p].Calling? && s.processes[p].phase.Returned? {
      hide Settled;
      QuietStepKeeps(s, Step(s, End(p)), p);
    }
  }

  /** Process p is at a certain point of a call. */
  predicate At(s: State, p: nat, call: Call, phase: Phase, local: Image, version: int) {
    p < |s.processes| && s.processes[p] == Calling(call, phase, local, version)
  }

  /** The process that is inside is the holder, and nobody stores in a slot but the holder, where it says. */
  lemma HolderStores(s: State, p: nat, call: Call, phase: Phase, local: Image, version: int)
    requires Invariant(s) && At(s, p, call, phase, local, version) && s.processes[p].Inside()
    ensures s.holder == Some(p) && s.sem == 0 && SlotExists(s, call) && Informed(s, s.processes[p])
    ensures forall i :: Storing(s, i) <==> call.Set? && phase.Copying? && call.slot == i
  {
  }

  lemma AcquireKeeps(s: State, p: nat, call: Call, local: Image, version: int)
    requires Invariant(s) && At(s, p, call, Waiting, local, version) && s.sem > 0
    ensures Invariant(GoStep(s, p, call, Waiting, local, version))
  {
    var r := GoStep(s, p, call, Waiting, local, version);
    forall i | 0 <= i < |r.memory| && !Storing(r, i) ensures Settled(r, i) {
      assert !Storing(s, i);
      SettledStays(s, r, i);
    }
    StepKeeps(s, r, p);
  }

  lemma LeaveKeeps(s: State, p: nat, call: Call, local: Image, version: int)
    requires Invariant(s) && At(s, p, call, Leaving, local, version)
    ensures Invariant(GoStep(s, p, call, Leaving, local, version))
  {
    HolderStores(s, p, call, Leaving, local, version);
    var r := GoStep(s, p, call, Leaving, local, version);
    forall i | 0 <= i < |r.memory| && !Storing(r, i) ensures Settled(r, i) {
      SettledStays(s, r, i);
    }
    if call.Get? || call.GetWithoutUpdate? {
      FlagIsNoContent(s, call.slot, version, local);
    }
    assert Informed(r, r.processes[p]);
    StepKeeps(s, r, p);
  }

  /** Clearing the flag of a snapshot leaves it the same version. */
  lemma FlagIsNoContent(s: State, slot: nat, version: int, image: Image)
    requires Whole(s, slot, version, image)
    ensures |image| >= 2 && Whole(s, slot, version, image[UPDATED := 0])
  {
  }

  /** Reading a word, or the last one. */
  lemma ReadKeeps(s: State, p: nat, call: Call, copied: nat, local: Image, version: int)
    requires Invariant(s) && At(s, p, call, Copying(copied), local, version) && !call.Set?
    ensures Invariant(GoStep(s, p, call, Copying(copied), local, version))
  {
    HolderStores(s, p, call, Copying(copied), local, version);
    var r := GoStep(s, p, call, Copying(copied), local, version);
    if !call.GetUpdated? && copied == s.size {
      assert local == s.memory[call.slot];
      assert Settled(s, call.slot);
      assert Whole(r, call.slot, version, local);
    }
    QuietStepKeeps(s, r, p);
  }

  /** Storing a word: the slot is in between two versions, and only the one who stores knows what it holds. */
  lemma StoreKeeps(s: State, p: nat, call: Call, copied: nat, local: Image, version: int)
    requires Invariant(s) && At(s, p, call, Copying(copied), local, version) && call.Set? && copied < s.size
    ensures Invariant(GoStep(s, p, call, Copying(copied), local, version))
  {
    HolderStores(s, p, call, Copying(copied), local, version);
    var r := GoStep(s, p, call, Copying(copied), local, version);
    assert Storing(r, call.slot);
    forall i | 0 <= i < |r.memory| && !Storing(r, i) ensures Settled(r, i) {
      assert i != call.slot && r.memory[i] == s.memory[i];
      assert Settled(s, i);
    }
    StepKeeps(s, r, p);
  }

  /** Storing the last word completes a version. */
  lemma CommitKeeps(s: State, p: nat, call: Call, copied: nat, local: Image, version: int)
    requires Invariant(s) && At(s, p, call, Copying(copied), local, version) && call.Set? && copied == s.size
    ensures Invariant(GoStep(s, p, call, Copying(copied), local, version))
  {
    HolderStores(s, p, call, Copying(copied), local, version);
    var r := GoStep(s, p, call, Copying(copied), local, version);
    assert s.memory[call.slot] == call.image;
    forall i | 0 <= i < |r.memory| ensures Settled(r, i) {
      if i != call.slot {
        assert Settled(s, i);
      }
    }
    StepKeeps(s, r, p);
  }

  lemma ClearRecords(s: State, p: nat, call: Call, local: Image, version: int)
    requires Shaped(s) && Recorded(s) && p < |s.processes| && SlotExists(s, call)
    requires version == |s.history[call.slot]| - 1
    ensures var r := GoStep(s, p, call, Clearing, local, version); Shaped(r) && Recorded(r)
  {
    hide Recorded;
    var r := GoStep(s, p, call, Clearing, local, version);
    RecordedTaker(s, r, p, call.slot, version);
  }

  lemma RecordedTaker(s: State, r: State, p: nat, slot: nat, version: int)
    requires Shaped(s) && Recorded(s) && Shaped(r) && slot < |s.memory| && r.history == s.history
    requires version == |s.history[slot]| - 1
    requires |r.memory| == |s.memory| && r.taken == s.taken[slot := Some(version)]
    requires r.taker == s.taker[slot := Some(p)] && r.seen == s.seen[(p, slot) := version]
    ensures Recorded(r)
  {
  }

  /** Clearing the flag records that the last version was taken. */
  lemma ClearKeeps(s: State, p: nat, call: Call, local: Image, version: int)
    requires Invariant(s) && At(s, p, call, Clearing, local, version)
    ensures Invariant(GoStep(s, p, call, Clearing, local, version))
  {
    hide Recorded;
    HolderStores(s, p, call, Clearing, local, version);
    ClearRecords(s, p, call, local, version);
    var r := GoStep(s, p, call, Clearing, local, version);
    assert Settled(s, call.slot);
    forall i | 0 <= i < |r.memory| ensures Settled(r, i) {
      assert Settled(s, i);
    }
    assert Whole(r, call.slot, version, local);
    StepKeeps(s, r, p);
  }

  lemma GoKeeps(s: State, p: nat)
    requires Invariant(s)
    ensures Invariant(Step(s, Go(p)))
  {
    if p < |s.processes| && s.processes[p].Calling? {
      var Calling(call, phase, local, version) := s.processes[p];
      match phase {
        case Waiting => if s.sem > 0 { AcquireKeeps(s, p, call, local, version); }
        case Copying(copied) =>
          HolderStores(s, p, call, phase, local, version);
          if !call.Set? {
            ReadKeeps(s, p, call, copied, local, version);
          } else if copied < s.size {
            StoreKeeps(s, p, call, copied, local, version);
          } else {
            CommitKeeps(s, p, call, copied, local, version);
          }
        case Clearing => ClearKeeps(s, p, call, local, version);
        case Leaving => LeaveKeeps(s, p, call, local, version);
        case Returned =>
      }
    }
  }

  lemma StepKeepsInvariant(s: State, a: Action)
    requires Invariant(s)
    ensures Invariant(Step(s, a))
  {
    hide Invariant, Step;
    match a
    case Begin(p, call) => BeginKeeps(s, p, call);
    case Go(p) => GoKeeps(s, p);
    case End(p) => EndKeeps(s, p);
  }

  /** The invariant holds in every reachable state, however the steps of the processes interleave. */
  lemma {:induction false} AlwaysInvariant(s: State, actions: seq<Action>)
    requires Invariant(s)
    ensures Invariant(Run(s, actions))
    decreases |actions|
  {
    hide Invariant, Step;
    if actions != [] {
      StepKeepsInvariant(s, actions[0]);
      AlwaysInvariant(Step(s, actions[0]), actions[1..]);
    }
  }

  /** The mapping file as it is found, and processes that do nothing yet. */
  function Start(size: nat, memory: seq<Image>, processes: nat): State {
    State(size, 1, memory, seq(processes, _ => Idle), seq(|memory|, i requires 0 <= i < |memory| => [memory[i]]),
          seq(|memory|, _ => None), seq(|memory|, _ => None), map[], None)
  }

  lemma StartInvariant(size: nat, memory: seq<Image>, processes: nat)
    requires size >= 2 && forall i :: 0 <= i < |memory| ==> |memory[i]| == size
    ensures Invariant(Start(size, memory, processes))
  {
  }

  // ---------------------------------------------------------------------------------------------
  // What the processes can rely on
  // ---------------------------------------------------------------------------------------------

  /** In every reachable state no two processes are inside at once. */
  lemma MutualExclusion(size: nat, memory: seq<Image>, processes: nat, actions: seq<Action>, p: nat, q: nat)
    requires size >= 2 && forall i :: 0 <= i < |memory| ==> |memory[i]| == size
    ensures var s := Run(Start(size, memory, processes), actions);
            p < |s.processes| && q < |s.processes| && s.processes[p].Inside() && s.processes[q].Inside() ==> p == q
  {
    hide Run, Informed, Settled, Storing;
    StartInvariant(size, memory, processes);
    AlwaysInvariant(Start(size, memory, processes), actions);
  }

  /** A snapshot is never torn: what a call has returned is one version of its slot, whole but for the flag. */
  lemma SnapshotsAreWhole(size: nat, memory: seq<Image>, processes: nat, actions: seq<Action>,
                          p: nat, call: Call, local: Image, version: int)
    requires size >= 2 && forall i :: 0 <= i < |memory| ==> |memory[i]| == size
    requires call.Get? || call.GetWithoutUpdate?
    requires At(Run(Start(size, memory, processes), actions), p, call, Returned, local, version)
    ensures Whole(Run(Start(size, memory, processes), actions), call.slot, version, local)
  {
    hide Run, Settled, Storing, Whole, Recorded;
    StartInvariant(size, memory, processes);
    AlwaysInvariant(Start(size, memory, processes), actions);
    var s := Run(Start(size, memory, processes), actions);
    assert Informed(s, s.processes[p]);
  }

  /** What a process has copied stays the same version until it is done. */
  lemma {:induction false} VersionStays(s: State, actions: seq<Action>, p: nat)
    requires p < |s.processes| && s.processes[p].Calling? && !s.processes[p].phase.Waiting?
    requires End(p) !in actions
    ensures var r := Run(s, actions);
            && |r.processes| == |s.processes| && r.processes[p].Calling? && !r.processes[p].phase.Waiting?
            && r.processes[p].version == s.processes[p].version && r.processes[p].call == s.processes[p].call
    decreases |actions|
  {
    hide SlotExists;
    if actions != [] {
      assert actions[0] in actions && forall a :: a in actions[1..] ==> a in actions;
      VersionStays(Step(s, actions[0]), actions[1..], p);
    }
  }

  lemma {:induction false} HistoryOnlyGrows(s: State, actions: seq<Action>)
    requires Invariant(s)
    ensures HistoryStays(s, Run(s, actions))
    decreases |actions|
  {
    hide Invariant, Step;
    if actions != [] {
      StepKeepsInvariant(s, actions[0]);
      StepAddsVersions(s, actions[0]);
      HistoryOnlyGrows(Step(s, actions[0]), actions[1..]);
      HistoryStaysOn(s, Step(s, actions[0]), Run(s, actions));
    }
  }

  lemma StepAddsVersions(s: State, a: Action)
    ensures HistoryStays(s, Step(s, a))
  {
  }

  lemma HistoryStaysOn(s: State, t: State, r: State)
    requires HistoryStays(s, t) && HistoryStays(t, r)
    ensures HistoryStays(s, r)
  {
  }

  /**
    A snapshot is never torn, and never stale: let a call of sharedMemory_get or its sister come in, and let
    anything happen until it has returned. Then what it returns is, but for the flag, the version that was stored when
    it came in, and no other was stored until it was done.
   */
  lemma SnapshotsAreCurrent(size: nat, memory: seq<Image>, processes: nat,
                            before: seq<Action>, after: seq<Action>, p: nat)
    requires size >= 2 && forall i :: 0 <= i < |memory| ==> |memory[i]| == size
    requires var s := Run(Start(size, memory, processes), before);
             && p < |s.processes| && s.processes[p].Calling? && s.processes[p].phase.Waiting? && s.sem > 0
             && (s.processes[p].call.Get? || s.processes[p].call.GetWithoutUpdate?)
    requires End(p) !in after
    ensures var s := Run(Start(size, memory, processes), before);
            var r := Run(Step(s, Go(p)), after);
            var slot := s.processes[p].call.slot;
            && p < |r.processes| && r.processes[p].Calling?
            && slot < |s.history| == |r.history| && s.history[slot] != []
            && (r.processes[p].Inside() ==> r.history[slot] == s.history[slot])
            && (r.processes[p].phase.Returned? ==>
                  Same(r.processes[p].local, s.history[slot][|s.history[slot]| - 1]))
  {
    hide Run, Settled, Storing, Same, Recorded, HistoryStays;
    var start := Start(size, memory, processes);
    var s := Run(start, before);
    var t := Step(s, Go(p));
    var r := Run(t, after);
    var slot := s.processes[p].call.slot;
    StartInvariant(size, memory, processes);
    AlwaysInvariant(start, before);
    GoKeeps(s, p);
    assert Informed(s, s.processes[p]);
    VersionStays(t, after, p);
    AlwaysInvariant(t, after);
    HistoryOnlyGrows(t, after);
    assert HistoryStays(t, r) && t.history == s.history;
    SameVersion(t, r, slot);
    assert Informed(r, r.processes[p]);
  }

  lemma SameVersion(t: State, r: State, slot: nat)
    requires HistoryStays(t, r) && slot < |t.history|
    ensures |r.history| == |t.history| && t.history[slot] <= r.history[slot]
    ensures |r.history[slot]| == |t.history[slot]| ==> r.history[slot] == t.history[slot]
    ensures forall k :: 0 <= k < |t.history[slot]| ==> r.history[slot][k] == t.history[slot][k]
  {
  }

  // ---------------------------------------------------------------------------------------------
  // What is stored is what was passed
  // ---------------------------------------------------------------------------------------------

  /** A record as a caller of sharedMemory_set passed it, with its first two words, the flags, at 1. */
  predicate IsRecord(image: Image, passed: Image) {
    && |image| == |passed| >= 2 && image[INITIALIZED] == 1 && image[UPDATED] == 1
    && forall i :: 2 <= i < |image| ==> image[i] == passed[i]
  }

  /** Some process has called sharedMemory_set on a slot with a certain record. */
  predicate WasPassed(actions: seq<Action>, slot: nat, image: Image) {
    exists a :: a in actions && a.Begin? && a.call.Set? && a.call.slot == slot && IsRecord(image, a.call.image)
  }

  /** What is being stored, and what was stored, was passed. */
  predicate AllPassed(s: State, actions: seq<Action>) {
    && (forall q :: 0 <= q < |s.processes| && s.processes[q].Calling? && s.processes[q].call.Set? ==>
          WasPassed(actions, s.processes[q].call.slot, s.processes[q].call.image))
    && (forall i, k {:trigger s.history[i][k]} :: 0 <= i < |s.history| && 1 <= k < |s.history[i]| ==>
          WasPassed(actions, i, s.history[i][k]))
  }

  lemma PassedBefore(actions: seq<Action>, a: Action, slot: nat, image: Image)
    requires WasPassed(actions, slot, image)
    ensures WasPassed(actions + [a], slot, image)
  {
    var b :| b in actions && b.Begin? && b.call.Set? && b.call.slot == slot && IsRecord(image, b.call.image);
    assert b in actions + [a];
  }

  lemma AllPassedBefore(s: State, actions: seq<Action>, a: Action)
    requires AllPassed(s, actions)
    ensures AllPassed(s, actions + [a])
  {
    hide WasPassed;
    forall q | 0 <= q < |s.processes| && s.processes[q].Calling? && s.processes[q].call.Set?
      ensures WasPassed(actions + [a], s.processes[q].call.slot, s.processes[q].call.image)
    {
      PassedBefore(actions, a, s.processes[q].call.slot, s.processes[q].call.image);
    }
    forall i, k {:trigger s.history[i][k]} | 0 <= i < |s.history| && 1 <= k < |s.history[i]|
      ensures WasPassed(actions + [a], i, s.history[i][k])
    {
      PassedBefore(actions, a, i, s.history[i][k]);
    }
  }

  lemma BeginPasses(s: State, actions: seq<Action>, p: nat, call: Call)
    requires AllPassed(s, actions + [Begin(p, call)])
    ensures AllPassed(Step(s, Begin(p, call)), actions + [Begin(p, call)])
  {
    if call.Set? && |call.image| >= 2 {
      assert Begin(p, call) in actions + [Begin(p, call)];
      assert IsRecord(Marked(call).image, call.image);
      assert WasPassed(actions + [Begin(p, call)], Marked(call).slot, Marked(call).image);
    }
  }

  lemma OthersPass(s: State, actions: seq<Action>, a: Action)
    requires Invariant(s) && AllPassed(s, actions) && !a.Begin?
    ensures AllPassed(Step(s, a), actions)
  {
    hide WasPassed, Settled, Storing, Recorded, Exclusive, Same, Whole;
    if a.p < |s.processes| && s.processes[a.p].Calling? && a.Go? {
      assert Informed(s, s.processes[a.p]);
    }
  }

  lemma {:induction false} RunPasses(s: State, actions: seq<Action>)
    requires Invariant(s) && AllPassed(s, [])
    ensures AllPassed(Run(s, actions), actions)
    decreases |actions|
  {
    hide AllPassed, Step, Invariant;
    if actions == [] {
      RunNothing(s);
    } else {
      var n := |actions| - 1;
      var front, a := actions[..n], actions[n];
      assert actions == front + [a];
      RunPasses(s, front);
      AlwaysInvariant(s, front);
      RunOneMore(s, front, a);
      var t := Run(s, front);
      AllPassedBefore(t, front, a);
      match a {
        case Begin(p, call) => BeginPasses(t, front, p, call);
        case _ => OthersPass(t, actions, a);
      }
    }
  }

  /**
    Every version that a slot ever had, but for the one in the mapping file, is a record that some process passed to
    sharedMemory_set for that slot, with both flags set and every other word as it was passed.
   */
  lemma VersionsArePassed(size: nat, memory: seq<Image>, processes: nat, actions: seq<Action>, slot: nat, k: nat)
    requires size >= 2 && forall i :: 0 <= i < |memory| ==> |memory[i]| == size
    ensures var s := Run(Start(size, memory, processes), actions);
            && |s.history| == |memory|
            && (slot < |memory| ==> s.history[slot] != [] && s.history[slot][0] == memory[slot])
            && (slot < |memory| && 1 <= k < |s.history[slot]| ==> WasPassed(actions, slot, s.history[slot][k]))
  {
    hide Run, WasPassed, Invariant;
    var start := Start(size, memory, processes);
    StartInvariant(size, memory, processes);
    RunPasses(start, actions);
    HistoryOnlyGrows(start, actions);
    var s := Run(start, actions);
    assert slot < |memory| ==> start.history[slot] <= s.history[slot] && start.history[slot][0] == memory[slot];
  }

  /**
    Hence what sharedMemory_get and its sister return: the record as it was in the mapping file, or as some process
    has passed it, word by word, but for `updated`, which sharedMemory_get returns as 0.
   */
  lemma GetReturnsPassed(size: nat, memory: seq<Image>, processes: nat, actions: seq<Action>,
                         p: nat, call: Call, local: Image, version: int)
    requires size >= 2 && forall i :: 0 <= i < |memory| ==> |memory[i]| == size
    requires call.Get? || call.GetWithoutUpdate?
    requires At(Run(Start(size, memory, processes), actions), p, call, Returned, local, version)
    ensures call.slot < |memory| && |local| >= 2
    ensures call.Get? ==> local[UPDATED] == 0
    ensures if version == 0 then
              |local| == size && forall i :: 0 <= i < size && i != UPDATED ==> local[i] == memory[call.slot][i]
            else
              WasPassed(actions, call.slot, local[UPDATED := 1])
  {
    hide Run, WasPassed, Settled, Storing, Recorded;
    var slot := call.slot;
    SnapshotsAreWhole(size, memory, processes, actions, p, call, local, version);
    var s := Run(Start(size, memory, processes), actions);
    StartInvariant(size, memory, processes);
    AlwaysInvariant(Start(size, memory, processes), actions);
    assert Informed(s, s.processes[p]);
    SameSize(size, memory, processes, actions);
    VersionsArePassed(size, memory, processes, actions, slot, version);
    if version > 0 {
      PassedFlags(actions, slot, s.history[slot][version]);
      assert local[UPDATED := 1] == s.history[slot][version];
    }
  }

  lemma PassedFlags(actions: seq<Action>, slot: nat, image: Image)
    requires WasPassed(actions, slot, image)
    ensures |image| >= 2 && image[UPDATED] == 1
  {
  }

  lemma {:induction false} SizeStays(s: State, actions: seq<Action>)
    ensures Run(s, actions).size == s.size
    decreases |actions|
  {
    if actions != [] {
      SizeStays(Step(s, actions[0]), actions[1..]);
    }
  }

  lemma SameSize(size: nat, memory: seq<Image>, processes: nat, actions: seq<Action>)
    ensures Run(Start(size, memory, processes), actions).size == size
  {
    SizeStays(Start(size, memory, processes), actions);
  }

  // ---------------------------------------------------------------------------------------------
  // What the flag tells
  // ---------------------------------------------------------------------------------------------

  /**
    Whenever nobody is inside, a slot that was ever taken has its flag at 0 if the version taken last, by whatever
    process, is the one stored, and at 1 if it is not.
   */
  lemma FlagTellsUpdates(size: nat, memory: seq<Image>, processes: nat, actions: seq<Action>, slot: nat)
    requires size >= 2 && forall i :: 0 <= i < |memory| ==> |memory[i]| == size
    ensures var s := Run(Start(size, memory, processes), actions);
            && |s.memory| == |s.history| == |s.taken|
            && (slot < |s.memory| && s.sem > 0 && s.taken[slot].Some? ==>
                  && |s.memory[slot]| >= 2
                  && s.memory[slot][UPDATED] == (if s.taken[slot].value == |s.history[slot]| - 1 then 0 else 1))
  {
    hide Run, Informed, Recorded;
    StartInvariant(size, memory, processes);
    AlwaysInvariant(Start(size, memory, processes), actions);
    var s := Run(Start(size, memory, processes), actions);
    assert slot < |s.memory| && s.sem > 0 ==> !Storing(s, slot) && Settled(s, slot);
  }

  /** The value of a flag is the right one for a process: 0 if and only if what the process took last is stored. */
  predicate TellsRight(s: State, p: nat, slot: nat, flag: int)
    requires slot < |s.history| && (p, slot) in s.seen
  {
    flag == 0 <==> s.seen[(p, slot)] == |s.history[slot]| - 1
  }

  /**
    Whenever nobody is inside, the flag of a slot tells a process that has taken it right if and only if the version
    stored was taken by no other process behind its own last call; so it does if the process was itself the last.
   */
  lemma FlagTellsReader(size: nat, memory: seq<Image>, processes: nat, actions: seq<Action>, p: nat, slot: nat)
    requires size >= 2 && forall i :: 0 <= i < |memory| ==> |memory[i]| == size
    requires Run(Start(size, memory, processes), actions).sem > 0
    requires (p, slot) in Run(Start(size, memory, processes), actions).seen
    ensures var s := Run(Start(size, memory, processes), actions);
            && slot < |s.memory| == |s.history| == |s.taken| == |s.taker|
            && s.taken[slot].Some? && |s.memory[slot]| >= 2
            && (TellsRight(s, p, slot, s.memory[slot][UPDATED]) <==>
                  s.seen[(p, slot)] == s.taken[slot].value || s.taken[slot].value < |s.history[slot]| - 1)
            && (s.taker[slot] == Some(p) ==> TellsRight(s, p, slot, s.memory[slot][UPDATED]))
  {
    hide Run, Informed;
    StartInvariant(size, memory, processes);
    AlwaysInvariant(Start(size, memory, processes), actions);
    var s := Run(Start(size, memory, processes), actions);
    assert (p, slot).1 == slot;
    assert !Storing(s, slot) && Settled(s, slot);
  }

  /**
    What a process learns by polling the flag of a slot that it has taken before: it is never told of an update when
    there is none; and it is told right if and only if the version stored was taken by no other process that
    came behind its own last call. That is so if it was itself the last to take the slot.
   */
  lemma PollTells(size: nat, memory: seq<Image>, processes: nat, actions: seq<Action>,
                  p: nat, slot: nat, local: Image, version: int)
    requires size >= 2 && forall i :: 0 <= i < |memory| ==> |memory[i]| == size
    requires At(Run(Start(size, memory, processes), actions), p, GetUpdated(slot), Leaving, local, version)
    requires (p, slot) in Run(Start(size, memory, processes), actions).seen
    ensures var s := Run(Start(size, memory, processes), actions);
            && slot < |s.history| == |s.taken| == |s.taker| && s.taken[slot].Some? && |local| == 1
            && (s.seen[(p, slot)] == |s.history[slot]| - 1 ==> local[0] == 0)
            && (TellsRight(s, p, slot, local[0]) <==>
                  s.seen[(p, slot)] == s.taken[slot].value || s.taken[slot].value < |s.history[slot]| - 1)
            && (s.taker[slot] == Some(p) ==> TellsRight(s, p, slot, local[0]))
  {
    hide Run;
    StartInvariant(size, memory, processes);
    AlwaysInvariant(Start(size, memory, processes), actions);
    var s := Run(Start(size, memory, processes), actions);
    HolderStores(s, p, GetUpdated(slot), Leaving, local, version);
    assert Settled(s, slot);
  }

  /** Nobody but p calls sharedMemory_get on a slot. */
  predicate SoleReader(actions: seq<Action>, p: nat, slot: nat) {
    forall a :: a in actions && a.Begin? && a.call == Get(slot) ==> a.p == p
  }

  /** So far nobody but p is in such a call, or has taken the slot. */
  predicate OnlyTaker(s: State, p: nat, slot: nat) {
    && (forall q :: 0 <= q < |s.processes| && s.processes[q].Calling? && s.processes[q].call == Get(slot) ==> q == p)
    && (slot < |s.taker| && s.taker[slot].Some? ==> s.taker[slot].value == p)
  }

  lemma {:induction false} SoleReaderTakes(s: State, actions: seq<Action>, p: nat, slot: nat)
    requires Invariant(s) && OnlyTaker(s, p, slot) && SoleReader(actions, p, slot)
    ensures OnlyTaker(Run(s, actions), p, slot)
    decreases |actions|
  {
    hide Invariant, Step, OnlyTaker;
    if actions != [] {
      assert actions[0] in actions && forall a :: a in actions[1..] ==> a in actions;
      StepKeepsInvariant(s, actions[0]);
      SoleReaderStep(s, actions[0], p, slot);
      SoleReaderTakes(Step(s, actions[0]), actions[1..], p, slot);
    }
  }

  lemma SoleReaderStep(s: State, a: Action, p: nat, slot: nat)
    requires Invariant(s) && OnlyTaker(s, p, slot) && (a.Begin? && a.call == Get(slot) ==> a.p == p)
    ensures OnlyTaker(Step(s, a), p, slot)
  {
    hide Invariant;
    if a.p < |s.processes| && s.processes[a.p].Calling? && s.processes[a.p].phase.Clearing? {
      ClearingIsGet(s, a.p);
    }
  }

  lemma ClearingIsGet(s: State, p: nat)
    requires Invariant(s) && p < |s.processes| && s.processes[p].Calling? && s.processes[p].phase.Clearing?
    ensures s.processes[p].call.Get?
  {
    assert Informed(s, s.processes[p]);
  }

  /**
    If at some time a process is the last that took a slot, with no other about to, and none calls sharedMemory_get on
    the slot from then on, then the process is told right whenever it polls. That holds from the start for a
    slot that only one process ever takes.
   */
  lemma SoleReaderIsTold(size: nat, memory: seq<Image>, processes: nat, before: seq<Action>, after: seq<Action>,
                         p: nat, slot: nat, local: Image, version: int)
    requires size >= 2 && forall i :: 0 <= i < |memory| ==> |memory[i]| == size
    requires before == [] || OnlyTaker(Run(Start(size, memory, processes), before), p, slot)
    requires SoleReader(after, p, slot)
    requires At(Run(Start(size, memory, processes), before + after), p, GetUpdated(slot), Leaving, local, version)
    requires (p, slot) in Run(Start(size, memory, processes), before + after).seen
    ensures var s := Run(Start(size, memory, processes), before + after);
            slot < |s.history| && |local| == 1 && TellsRight(s, p, slot, local[0])
  {
    hide Run, Informed, Settled, Storing;
    var start := Start(size, memory, processes);
    StartInvariant(size, memory, processes);
    AlwaysInvariant(start, before);
    RunJoins(start, before, after);
    if before == [] {
      RunNothing(start);
    }
    SoleReaderTakes(Run(start, before), after, p, slot);
    AlwaysInvariant(start, before + after);
    PollTells(size, memory, processes, before + after, p, slot, local, version);
  }

  lemma RunNothing(s: State)
    ensures Run(s, []) == s
  {
  }

  lemma {:induction false} RunJoins(s: State, a: seq<Action>, b: seq<Action>)
    ensures Run(s, a + b) == Run(Run(s, a), b)
    decreases |a|
  {
    hide Step;
    if a == [] {
      assert a + b == b;
    } else {
      assert (a + b)[1..] == a[1..] + b;
      RunJoins(Step(s, a[0]), a[1..], b);
    }
  }

  /** What sharedMemory_get records as taken, when it clears the flag, is the version that it has copied. */
  lemma TakenIsCopied(size: nat, memory: seq<Image>, processes: nat, actions: seq<Action>,
                      p: nat, call: Call, local: Image, version: int)
    requires size >= 2 && forall i :: 0 <= i < |memory| ==> |memory[i]| == size
    requires At(Run(Start(size, memory, processes), actions), p, call, Clearing, local, version)
    ensures var s := Run(Start(size, memory, processes), actions + [Go(p)]);
            && call.slot < |s.taken| == |s.history| == |s.taker|
            && s.taken[call.slot] == Some(version) && s.taker[call.slot] == Some(p)
            && (p, call.slot) in s.seen && s.seen[(p, call.slot)] == version
            && version == |s.history[call.slot]| - 1 && Whole(s, call.slot, version, local)
  {
    hide Run;
    StartInvariant(size, memory, processes);
    AlwaysInvariant(Start(size, memory, processes), actions);
    var s := Run(Start(size, memory, processes), actions);
    RunOneMore(Start(size, memory, processes), actions, Go(p));
    HolderStores(s, p, call, Clearing, local, version);
    assert Settled(s, call.slot);
  }

  lemma {:induction false} RunOneMore(s: State, actions: seq<Action>, a: Action)
    ensures Run(s, actions + [a]) == Step(Run(s, actions), a)
    decreases |actions|
  {
    hide Step;
    if actions == [] {
      assert [] + [a] == [a];
      assert Run(s, [a]) == Run(Step(s, a), []);
    } else {
      assert (actions + [a])[1..] == actions[1..] + [a];
      RunOneMore(Step(s, actions[0]), actions[1..], a);
    }
  }

  // ---------------------------------------------------------------------------------------------
  // Two readers of one slot
  // ---------------------------------------------------------------------------------------------

  /** A call from its beginning to its end, with nothing in between. */
  function Alone(p: nat, call: Call, steps: nat): seq<Action> {
    [Begin(p, call)] + seq(steps, _ => Go(p)) + [End(p)]
  }

  /** The system at rest: two words in one slot, and nobody calls. */
  predicate AtRest(s: State) {
    && s.size == 2 && s.sem == 1 && s.holder == None
    && |s.memory| == |s.history| == |s.taken| == |s.taker| == 1 && |s.memory[0]| == 2
    && |s.processes| == 3 && forall q :: 0 <= q < 3 ==> s.processes[q] == Idle
  }

  lemma TwoSteps(s: State, a: Action, b: Action)
    ensures Run(s, [a, b]) == Step(Step(s, a), b)
  {
    hide Step;
    assert [a, b][1..] == [b] && [b][1..] == [];
    assert Run(Step(s, a), [b]) == Run(Step(Step(s, a), b), []);
  }

  lemma ThreeSteps(s: State, a: Action, b: Action, c: Action)
    ensures Run(s, [a, b, c]) == Step(Step(Step(s, a), b), c)
  {
    hide Step;
    assert [a, b, c][1..] == [b, c];
    TwoSteps(Step(s, a), b, c);
  }

  /** The system with a process at a point of a call, inside or not. */
  function With(s: State, p: nat, process: Process, inside: bool): State
    requires p < |s.processes|
  {
    s.(processes := s.processes[p := process],
       sem := if inside then 0 else 1,
       holder := if inside then Some(p) else None)
  }

  /** One step of a call, from one such state to another. */
  lemma GoWith(s: State, p: nat, call: Call, phase: Phase, local: Image, version: int)
    requires AtRest(s) && p < 3 && SlotExists(s, call) && !phase.Waiting? && !phase.Returned?
    ensures var t := With(s, p, Calling(call, phase, local, version), true);
            Step(t, Go(p)) == GoStep(t, p, call, phase, local, version)
  {
  }

  /** The first two steps of a call bring it inside. */
  lemma Enter(s: State, p: nat, call: Call)
    requires AtRest(s) && p < 3 && SlotExists(s, call)
    ensures Run(s, [Begin(p, call), Go(p)])
         == With(s, p, Calling(Marked(call), Copying(0), [], |s.history[0]| - 1), true)
  {
    TwoSteps(s, Begin(p, call), Go(p));
    var t := Step(s, Begin(p, call));
    assert t == With(s, p, Calling(Marked(call), Waiting, [], 0), false);
    assert Step(t, Go(p)).processes == s.processes[p := Calling(Marked(call), Copying(0), [], |s.history[0]| - 1)];
  }

  /** The last two steps of a call bring the process back to rest. */
  lemma Leave(s: State, p: nat, call: Call, local: Image, version: int)
    requires AtRest(s) && p < 3 && SlotExists(s, call)
    ensures Run(With(s, p, Calling(call, Leaving, local, version), true), [Go(p), End(p)]) == s
  {
    var t := With(s, p, Calling(call, Leaving, local, version), true);
    TwoSteps(t, Go(p), End(p));
    var returned := if call.Get? && |local| == s.size then local[UPDATED := 0] else local;
    assert Step(t, Go(p)) == With(s, p, Calling(call, Returned, returned, version), false);
    assert Step(Step(t, Go(p)), End(p)).processes == s.processes;
  }

  lemma StoreTwo(s: State, p: nat, version: int)
    requires AtRest(s) && p < 3
    ensures var call := Set(0, [1, 1]);
            Run(With(s, p, Calling(call, Copying(0), [], version), true), [Go(p), Go(p), Go(p)])
            == With(s.(memory := [[1, 1]], history := [s.history[0] + [[1, 1]]]),
                    p, Calling(call, Leaving, [], version), true)
  {
    hide Run, Step;
    var call := Set(0, [1, 1]);
    var t := With(s, p, Calling(call, Copying(0), [], version), true);
    ThreeSteps(t, Go(p), Go(p), Go(p));
    var s1, s2 := s.(memory := [[1, s.memory[0][1]]]), s.(memory := [[1, 1]]);
    var s3 := s2.(history := [s.history[0] + [[1, 1]]]);
    assert s.memory[0][0 := 1] == [1, s.memory[0][1]] && [1, s.memory[0][1]][1 := 1] == [1, 1];
    GoWith(s, p, call, Copying(0), [], version);
    assert Step(t, Go(p)) == With(s1, p, Calling(call, Copying(1), [], version), true);
    GoWith(s1, p, call, Copying(1), [], version);
    assert Step(With(s1, p, Calling(call, Copying(1), [], version), true), Go(p))
        == With(s2, p, Calling(call, Copying(2), [], version), true);
    GoWith(s2, p, call, Copying(2), [], version);
    assert Step(With(s2, p, Calling(call, Copying(2), [], version), true), Go(p))
        == With(s3, p, Calling(call, Leaving, [], version), true);
  }

  lemma SetAlone(s: State, p: nat)
    requires AtRest(s) && p < 3
    ensures Run(s, Alone(p, Set(0, [0, 0]), 5))
         == s.(memory := [[1, 1]], history := [s.history[0] + [[1, 1]]])
  {
    hide Run, Step, With;
    var call, g, v := Set(0, [0, 0]), Go(p), |s.history[0]| - 1;
    assert Marked(call) == Set(0, [1, 1]);
    assert Alone(p, call, 5) == [Begin(p, call), g] + ([g, g, g] + [g, End(p)]);
    RunJoins(s, [Begin(p, call), g], [g, g, g] + [g, End(p)]);
    Enter(s, p, call);
    var t := With(s, p, Calling(Set(0, [1, 1]), Copying(0), [], v), true);
    RunJoins(t, [g, g, g], [g, End(p)]);
    StoreTwo(s, p, v);
    Leave(s.(memory := [[1, 1]], history := [s.history[0] + [[1, 1]]]), p, Set(0, [1, 1]), [], v);
  }

  lemma TakeTwo(s: State, p: nat)
    requires AtRest(s) && p < 3
    ensures var v := |s.history[0]| - 1;
            var call := Get(0);
            Run(With(s, p, Calling(call, Copying(0), [], v), true), [Go(p), Go(p), Go(p)])
            == With(s, p, Calling(call, Clearing, s.memory[0], v), true)
  {
    hide Run, Step;
    var call, m, v := Get(0), s.memory[0], |s.history[0]| - 1;
    var t := With(s, p, Calling(call, Copying(0), [], v), true);
    ThreeSteps(t, Go(p), Go(p), Go(p));
    GoWith(s, p, call, Copying(0), [], v);
    assert [] + [m[0]] == [m[0]] && [m[0]] + [m[1]] == m;
    assert Step(t, Go(p)) == With(s, p, Calling(call, Copying(1), [m[0]], v), true);
    GoWith(s, p, call, Copying(1), [m[0]], v);
    assert Step(With(s, p, Calling(call, Copying(1), [m[0]], v), true), Go(p))
        == With(s, p, Calling(call, Copying(2), m, v), true);
    GoWith(s, p, call, Copying(2), m, v);
    assert Step(With(s, p, Calling(call, Copying(2), m, v), true), Go(p))
        == With(s, p, Calling(call, Clearing, m, v), true);
  }

  lemma GetAlone(s: State, p: nat)
    requires AtRest(s) && p < 3
    ensures var v := |s.history[0]| - 1;
            Run(s, Alone(p, Get(0), 6))
            == s.(memory := [s.memory[0][UPDATED := 0]], taken := [Some(v)], taker := [Some(p)],
                  seen := s.seen[(p, 0) := v])
  {
    hide Run, With, Step;
    var call, g, m, v := Get(0), Go(p), s.memory[0], |s.history[0]| - 1;
    assert Alone(p, call, 6) == [Begin(p, call), g] + ([g, g, g] + ([g] + [g, End(p)]));
    RunJoins(s, [Begin(p, call), g], [g, g, g] + ([g] + [g, End(p)]));
    Enter(s, p, call);
    var t := With(s, p, Calling(call, Copying(0), [], v), true);
    RunJoins(t, [g, g, g], [g] + [g, End(p)]);
    TakeTwo(s, p);
    var u := With(s, p, Calling(call, Clearing, m, v), true);
    RunJoins(u, [g], [g, End(p)]);
    Clear(s, p, m, v);
    Leave(s.(memory := [m[UPDATED := 0]], taken := [Some(v)], taker := [Some(p)], seen := s.seen[(p, 0) := v]),
          p, call, m, v);
  }

  lemma Clear(s: State, p: nat, local: Image, version: int)
    requires AtRest(s) && p < 3
    ensures Run(With(s, p, Calling(Get(0), Clearing, local, version), true), [Go(p)])
         == With(s.(memory := [s.memory[0][UPDATED := 0]], taken := [Some(version)], taker := [Some(p)],
                    seen := s.seen[(p, 0) := version]),
                 p, Calling(Get(0), Leaving, local, version), true)
  {
    hide Step;
    var t := With(s, p, Calling(Get(0), Clearing, local, version), true);
    GoWith(s, p, Get(0), Clearing, local, version);
    assert [Go(p)][1..] == [];
    assert Run(t, [Go(p)]) == Run(Step(t, Go(p)), []);
  }

  /** A process asks for the flag, and is about to leave with it. */
  lemma PollAlone(s: State, p: nat)
    requires AtRest(s) && p < 3
    ensures var r := Run(s, [Begin(p, GetUpdated(0)), Go(p), Go(p)]);
            && At(r, p, GetUpdated(0), Leaving, [s.memory[0][UPDATED]], |s.history[0]| - 1)
            && r.seen == s.seen && r.history == s.history
  {
    var g := Go(p);
    ThreeSteps(s, Begin(p, GetUpdated(0)), g, g);
    var t := Step(Step(s, Begin(p, GetUpdated(0))), g);
    assert t.processes[p] == Calling(GetUpdated(0), Copying(0), [], |s.history[0]| - 1);
  }

  /** What five calls of three processes do: two versions are stored, and each is taken by another process. */
  function TwoReaders(): seq<Action> {
    Alone(0, Set(0, [0, 0]), 5) + Alone(2, Get(0), 6) + Alone(0, Set(0, [0, 0]), 5) + Alone(1, Get(0), 6)
    + [Begin(2, GetUpdated(0)), Go(2), Go(2)]
  }

  /** The second reader hides the second version from the first, whose poll then tells it of no update. */
  lemma SecondReaderHidesUpdate()
    ensures var s := Run(Start(2, [[0, 0]], 3), TwoReaders());
            && At(s, 2, GetUpdated(0), Leaving, [0], 2)
            && |s.history| == 1 && |s.history[0]| == 3 && (2, 0) in s.seen && s.seen[(2, 0)] == 1
            && !TellsRight(s, 2, 0, 0)
  {
    hide Run, Alone, Step;
    var s0 := Start(2, [[0, 0]], 3);
    var a, b, c, d := Alone(0, Set(0, [0, 0]), 5), Alone(2, Get(0), 6), Alone(1, Get(0), 6),
                      [Begin(2, GetUpdated(0)), Go(2), Go(2)];
    assert s0.history == [[[0, 0]]] && s0.memory == [[0, 0]];
    SetAlone(s0, 0);
    var s1 := Run(s0, a);
    GetAlone(s1, 2);
    var s2 := Run(s1, b);
    SetAlone(s2, 0);
    var s3 := Run(s2, a);
    GetAlone(s3, 1);
    var s4 := Run(s3, c);
    PollAlone(s4, 2);
    RunJoins(s0, a, b);
    RunJoins(s0, a + b, a);
    RunJoins(s0, a + b + a, c);
    RunJoins(s0, a + b + a + c, d);
  }
}
