/** The ring of free process identifiers. Its tail starts one place early, so the first identifier
    freed is stored over the last one. */
module PidRing {

  const NUM_PIDS: nat := 128
  const MAX_PID: nat := 127

  /** How the ring stands. Stuck: the last place holds an identifier beside those queued from head
      to tail. Empty: every identifier is out. Late: one identifier has been overwritten, and the
      ring is a queue from head to tail. */
  datatype Phase = Stuck | Empty | Late

  /** The places holding an identifier. */
  ghost predicate Occupied(phase: Phase, head: nat, tail: nat, i: nat) {
    match phase
    case Stuck => i == MAX_PID || head <= i < tail
    case Empty => false
    case Late => if head <= tail then head <= i < tail else i >= head || i < tail
  }

  /** How many identifiers the ring holds. */
  function FreeCount(phase: Phase, head: nat, tail: nat): int {
    match phase
    case Stuck => tail - head + 1
    case Empty => 0
    case Late => if head <= tail then tail - head else tail + NUM_PIDS - head
  }

  /** The place at the head holds no identifier. */
  predicate NoneAtHead(phase: Phase, head: nat, tail: nat) {
    match phase
    case Stuck => head == tail < MAX_PID
    case Empty => true
    case Late => head == tail
  }

  class PidTable {
    const ring: array<int>
    var head: nat
    var tail: nat

    ghost var phase: Phase
    /** The identifiers handed out and not yet freed. */
    ghost var held: set<int>

    ghost predicate Valid()
      reads this, ring
    {
      && ring.Length == NUM_PIDS && head < NUM_PIDS && tail < NUM_PIDS
      && (phase.Stuck? ==> head <= tail) && (phase.Empty? ==> head == 0 && tail == MAX_PID)
      && Distinct()
      && |held| == MAX_PID - Lost() - FreeCount(phase, head, tail)
    }

    /** Places hold distinct identifiers from 1 to 127 that nobody holds. */
    ghost predicate Distinct()
      requires ring.Length == NUM_PIDS
      reads this, ring
    {
      && (forall i | 0 <= i < NUM_PIDS :: ring[i] != -1 <==> Occupied(phase, head, tail, i))
      && (forall i | 0 <= i < NUM_PIDS && ring[i] != -1 :: 0 < ring[i] <= MAX_PID && ring[i] !in held)
      && (forall i, j | 0 <= i < j < NUM_PIDS && ring[i] != -1 :: ring[i] != ring[j])
      && (forall p <- held :: 0 < p <= MAX_PID)
    }

    ghost function Lost(): nat
      reads this
    {
      if phase.Late? then 1 else 0
    }

    /** task_init: every place holds its own number, and identifier 0 is taken for good. */
    constructor ()
      ensures Valid() && held == {} && phase == Stuck && fresh(ring)
      ensures head == 1 && tail == MAX_PID && forall i | 0 <= i < NUM_PIDS :: ring[i] == if i == 0 then -1 else i
    {
      ring := new int[NUM_PIDS];
      head := 0;
      tail := MAX_PID;
      phase := Stuck;
      held := {};
      new;
      for i := 0 to NUM_PIDS
        invariant ring.Length == NUM_PIDS && head == 0 && tail == MAX_PID && phase == Stuck && held == {}
        invariant forall k | 0 <= k < i :: ring[k] == k
      {
        ring[i] := i;
      }
      ring[head] := -1;
      head := (head + 1) % NUM_PIDS;
    }

    /** pid_allocate: the identifier at the head, which nobody holds, or -1 when the place is empty.
        It succeeds whenever fewer than 126 are held. */
    method PidAllocate() returns (pid: int)
      requires Valid()
      modifies this, ring
      ensures Valid()
      ensures pid == old(ring[head]) && (pid == -1 <==> NoneAtHead(old(phase), old(head), old(tail)))
      ensures pid == -1 ==> unchanged(this) && unchanged(ring) && |held| >= MAX_PID - 1
      ensures pid != -1 ==> 0 < pid <= MAX_PID && pid !in old(held) && held == old(held) + {pid}
      ensures pid != -1 ==> ring[..] == old(ring[..])[old(head) := -1] && head == (old(head) + 1) % NUM_PIDS
      ensures tail == old(tail) && Lost() == old(Lost())
    {
      pid := ring[head];
      if pid == -1 {
        return;
      }
      ring[head] := -1;
      if phase.Stuck? && head == MAX_PID {
        phase := Empty;
      }
      head := (head + 1) % NUM_PIDS;
      held := held + {pid};
    }

    /** pid_free of an identifier that is held. It overwrites another one exactly when the place at
        the tail is not empty, which can happen once. */
    method PidFree(pid: int)
      requires Valid() && (pid >= 0 ==> pid in held)
      modifies this, ring
      ensures Valid() && held == old(held) - {pid}
      ensures pid < 0 ==> unchanged(this) && unchanged(ring)
      ensures pid >= 0 ==> ring[..] == old(ring[..])[old(tail) := pid] && tail == (old(tail) + 1) % NUM_PIDS
      ensures head == old(head)
      ensures Lost() > old(Lost()) <==> pid >= 0 && old(ring[tail]) != -1
      ensures old(Lost()) <= Lost() <= 1
    {
      if pid < 0 {
        return;
      }
      ring[tail] := pid;
      if phase.Stuck? && tail == MAX_PID {
        phase := Late;
      } else if phase.Empty? {
        phase := Stuck;
      }
      tail := (tail + 1) % NUM_PIDS;
      held := held - {pid};
    }
  }

  /** An identifier taken from a fresh table and given back costs the table another one for good. */
  method LoseIdentifier() returns (t: PidTable)
    ensures t.Valid() && t.held == {} && t.Lost() == 1
    ensures 127 !in t.ring[..] && 1 in t.ring[..]
  {
    t := new PidTable();
    var pid := t.PidAllocate();
    t.PidFree(pid);
    assert t.ring[127] == 1;
  }
}
