/** The life of tasks: Zeus creates them, Hades reaps them, and tasks that are threads of one
    another share an address space that is counted and destroyed with its last user. Each
    creation and each reaping is one atomic step. */
module Tasks {
  import opened PidRing

  datatype Kind = Elf | ElfPath | Thread

  /** task_thread_t: an address space and the count of its users. */
  class AddressSpace {
    var refcount: int
    var destroyed: bool
    /** References taken by creations that then failed, which nobody gives back. */
    ghost var strays: nat

    /** task_thread_init counts one user from the start; the kernel's own space counts none. */
    constructor (users: nat)
      ensures refcount == users && !destroyed && strays == 0
    {
      refcount, destroyed, strays := users, false, 0;
    }

    /** task_thread_ref: one user more, unless the count says that the space is dying. */
    method Ref() returns (ok: bool)
      modifies this`refcount
      ensures ok <==> old(refcount) != -1
      ensures refcount == if ok then old(refcount) + 1 else old(refcount)
    {
      var want := refcount + 1;
      if want == 0 {
        return false;
      }
      refcount := want;
      return true;
    }

    /** task_thread_destroy: one user fewer, and with the last the space goes. */
    method Destroy()
      modifies this`refcount, this`destroyed
      ensures refcount == old(refcount) - 1 && (destroyed <==> refcount == 0 || old(destroyed))
    {
      refcount := refcount - 1;
      if refcount != 0 {
        return;
      }
      destroyed := true;
    }
  }

  /** Kernel memory for a creation: the task's record, an address space, and the task itself. */
  datatype KernelMemory = KernelMemory(info: bool, space: bool, task: bool) {
    predicate Suffices(kind: Kind) {
      info && task && (kind.Thread? || space)
    }
  }

  const PLENTY := KernelMemory(true, true, true)

  /** task_info_t: the address space and the parent of a task. Parent 0 is the kernel. */
  datatype TaskInfo = TaskInfo(space: AddressSpace, parent: nat)

  type ProcessTable = map<int, TaskInfo>

  /** The tasks that use an address space. */
  ghost function Users(table: ProcessTable, s: AddressSpace): set<int> {
    set p | p in table && table[p].space == s
  }

  lemma UsersWith(table: ProcessTable, pid: int, info: TaskInfo, s: AddressSpace)
    requires pid !in table
    ensures Users(table[pid := info], s) == Users(table, s) + (if info.space == s then {pid} else {})
    ensures |Users(table[pid := info], s)| == |Users(table, s)| + (if info.space == s then 1 else 0)
  {
    assert Users(table[pid := info], s) == Users(table, s) + (if info.space == s then {pid} else {});
  }

  lemma UsersWithout(table: ProcessTable, pid: int, s: AddressSpace)
    requires pid in table
    ensures |Users(table - {pid}, s)| == |Users(table, s)| - (if table[pid].space == s then 1 else 0)
  {
    UsersWith(table - {pid}, pid, table[pid], s);
    assert (table - {pid})[pid := table[pid]] == table;
  }

  lemma NoUsers(table: ProcessTable, s: AddressSpace)
    requires forall p <- table :: table[p].space != s
    ensures Users(table, s) == {}
  {
    assert forall p :: p !in Users(table, s);
  }

  lemma IsUser(table: ProcessTable, p: int)
    requires p in table
    ensures p in Users(table, table[p].space)
  {
  }

  class Kernel {
    const pids: PidTable
    /** The kernel's address space, where threads of kernel tasks run. */
    const kernelSpace: AddressSpace
    var processTable: ProcessTable
    /** Tasks that have died and wait to be reaped. */
    var hadesQueue: seq<int>
    /** Every address space made so far. */
    ghost var spaces: set<AddressSpace>

    ghost predicate Valid()
      reads this, pids, pids.ring, spaces
    {
      && pids.Valid() && processTable.Keys == pids.held
      && Queued()
      && SpacesOk()
    }

    ghost predicate SpacesOk()
      reads this`processTable, this`spaces, spaces
    {
      && kernelSpace in spaces
      && (forall p <- processTable :: processTable[p].space in spaces)
      && (forall s <- spaces :: Counted(s))
    }

    /** Each death is queued once. */
    ghost predicate Queued()
      reads this`hadesQueue, this`processTable
    {
      && (forall i | 0 <= i < |hadesQueue| :: hadesQueue[i] in processTable)
      && (forall i, j | 0 <= i < j < |hadesQueue| :: hadesQueue[i] != hadesQueue[j])
    }

    /** The count of a space is the number of its users and of the references nobody holds; a space
        without either is destroyed, but for the kernel's before its first user. */
    ghost predicate Counted(s: AddressSpace)
      reads this`processTable, s
    {
      && s.refcount == |Users(processTable, s)| + s.strays
      && (s != kernelSpace ==> (s.destroyed <==> s.refcount == 0))
    }

    constructor ()
      ensures Valid() && fresh(pids) && fresh(pids.ring) && processTable == map[] && hadesQueue == []
      ensures pids.head == 1 && pids.tail == MAX_PID && pids.phase == Stuck
      ensures pids.ring.Length == NUM_PIDS && forall i | 0 < i < NUM_PIDS :: pids.ring[i] == i
      ensures fresh(spaces) && spaces == {kernelSpace} && !kernelSpace.destroyed && kernelSpace.strays == 0
    {
      pids := new PidTable();
      kernelSpace := new AddressSpace(0);
      processTable := map[];
      hadesQueue := [];
      spaces := {kernelSpace};
    }

    /** The address space of a task, or of the kernel for parent 0. */
    function SpaceOf(parent: nat): AddressSpace
      requires parent == 0 || parent in processTable
      reads this`processTable
    {
      if parent == 0 then kernelSpace else processTable[parent].space
    }

    /** One turn of zeus: a new task for a parent that is still there. It fails exactly for want of an
        identifier or of kernel memory; in the second case the caller is told an identifier all the
        same, and a thread leaves its parent's space a reference too many if only the last piece of
        memory is missing. */
    method Spawn(kind: Kind, parent: nat, memory: KernelMemory) returns (notified: int, started: bool)
      requires Valid() && (parent == 0 || parent in processTable)
      modifies this`processTable, this`spaces, pids, pids.ring, spaces
      ensures Valid()
      ensures hadesQueue == old(hadesQueue) && spaces >= old(spaces) && fresh(spaces - old(spaces))
      ensures notified == old(pids.ring[pids.head])
      ensures started <==> notified != -1 && memory.Suffices(kind)
      ensures notified == -1 ==> |old(processTable)| >= MAX_PID - 1
      ensures notified != -1 ==> 0 < notified <= MAX_PID && notified !in old(processTable)
      ensures started ==> notified in processTable
      ensures started ==> processTable == old(processTable)[notified := TaskInfo(processTable[notified].space, parent)]
      ensures started ==> if kind.Thread? then processTable[notified].space == old(SpaceOf(parent))
                          else fresh(processTable[notified].space)
      ensures started ==> pids.ring[..] == old(pids.ring[..])[old(pids.head) := -1]
                          && pids.head == (old(pids.head) + 1) % NUM_PIDS && pids.tail == old(pids.tail)
      ensures !started ==> processTable == old(processTable)
      ensures forall s <- old(spaces) :: s.destroyed == old(s.destroyed)
      ensures var stray := notified != -1 && kind.Thread? && memory.info && !memory.task;
        forall s <- old(spaces) :: s.strays == old(s.strays) + if stray && s == old(SpaceOf(parent)) then 1 else 0
    {
      hide PidTable.Valid, PidTable.Lost, NoneAtHead, SpacesOk, Users;
      KeysCount(processTable);
      var pid := pids.PidAllocate();
      started := false;
      notified := pid;
      if pid <= 0 {
        pids.PidFree(pid);
        assert pids.held == old(pids.held);
        return;
      }
      if memory.info {
        started := Start(kind, parent, pid, memory);
      }
      if !started {
        pids.PidFree(pid);
        assert pids.held == old(pids.held);
      }
    }

    /** Zeus from the address space on. A parent in the table is never dying, so a reference to its
        space is always had. */
    method Start(kind: Kind, parent: nat, pid: int, memory: KernelMemory) returns (started: bool)
      requires SpacesOk() && pid !in processTable && (kind.Thread? ==> parent == 0 || parent in processTable)
      modifies this`processTable, this`spaces, spaces
      ensures SpacesOk() && spaces >= old(spaces) && fresh(spaces - old(spaces))
      ensures started <==> (kind.Thread? || memory.space) && memory.task
      ensures started ==> pid in processTable
                          && processTable == old(processTable)[pid := TaskInfo(processTable[pid].space, parent)]
      ensures started ==> if kind.Thread? then processTable[pid].space == old(SpaceOf(parent))
                          else fresh(processTable[pid].space)
      ensures !started ==> processTable == old(processTable)
      ensures forall s <- old(spaces) :: s.destroyed == old(s.destroyed)
      ensures forall s <- old(spaces) ::
                s.strays == old(s.strays) + if !started && kind.Thread? && s == old(SpaceOf(parent)) then 1 else 0
    {
      hide Users, Owed;
      if !kind.Thread? && !memory.space {
        return false;
      }
      var space := TakeSpace(kind, parent);
      started := memory.task;
      Enter(pid, space, parent, started);
    }

    /** A space has been counted for a task that is not in the table yet. */
    ghost predicate Owed(space: AddressSpace)
      reads this`processTable, this`spaces, spaces
    {
      && kernelSpace in spaces && space in spaces
      && (forall p <- processTable :: processTable[p].space in spaces)
      && (forall s <- spaces :: s != space ==> Counted(s))
      && space.refcount == |Users(processTable, space)| + space.strays + 1
      && (space != kernelSpace ==> !space.destroyed)
    }

    /** The parent's space, counted once more, or a new one. */
    method TakeSpace(kind: Kind, parent: nat) returns (space: AddressSpace)
      requires SpacesOk() && (kind.Thread? ==> parent == 0 || parent in processTable)
      modifies this`spaces, spaces
      ensures Owed(space) && spaces == old(spaces) + {space}
      ensures if kind.Thread? then space == SpaceOf(parent) else fresh(space)
      ensures forall s <- old(spaces) :: s.destroyed == old(s.destroyed) && s.strays == old(s.strays)
    {
      hide Users;
      if kind.Thread? {
        space := SpaceOf(parent);
        assert Counted(space);
        if parent != 0 {
          IsUser(processTable, parent);
        }
        var ok := space.Ref();
        if !ok {
          assert false;
        }
      } else {
        space := new AddressSpace(1);
        NoUsers(processTable, space);
      }
      spaces := spaces + {space};
    }

    /** The new task enters the table, or its reference is left over. */
    method Enter(pid: int, space: AddressSpace, parent: nat, made: bool)
      requires Owed(space) && pid !in processTable
      modifies this`processTable, space`strays
      ensures SpacesOk()
      ensures processTable == if made then old(processTable)[pid := TaskInfo(space, parent)] else old(processTable)
      ensures space.strays == if made then old(space.strays) else old(space.strays) + 1
    {
      hide Users;
      forall s
        ensures |Users(processTable[pid := TaskInfo(space, parent)], s)|
             == |Users(processTable, s)| + (if space == s then 1 else 0)
      {
        UsersWith(processTable, pid, TaskInfo(space, parent), s);
      }
      if made {
        processTable := processTable[pid := TaskInfo(space, parent)];
      } else {
        space.strays := space.strays + 1;
      }
    }

    lemma KeysCount(table: ProcessTable)
      ensures |table| == |table.Keys|
    {
    }

    /** A task dies: its identifier is queued for Hades. */
    method Die(pid: int)
      requires Valid() && pid in processTable && pid !in hadesQueue
      modifies this`hadesQueue
      ensures Valid() && hadesQueue == old(hadesQueue) + [pid]
    {
      hadesQueue := hadesQueue + [pid];
    }

    /** One turn of hades: the task leaves the table, its address space loses a user, its children
        are killed, and last its identifier is free again. The loop over children stops short of
        identifier 127. */
    method Reap()
      requires Valid() && hadesQueue != []
      modifies this`processTable, this`hadesQueue, pids, pids.ring, spaces
      ensures Valid()
      ensures var dead := old(hadesQueue)[0];
        && processTable == old(processTable) - {dead}
        && (forall p :: p in hadesQueue <==> p in old(hadesQueue)[1..] || Orphan(processTable, dead, MAX_PID, p))
        && old(hadesQueue)[1..] <= hadesQueue
        && forall i, j | |old(hadesQueue)| <= i + 1 && i < j < |hadesQueue| :: hadesQueue[i] < hadesQueue[j]
      ensures var s := old(processTable)[old(hadesQueue)[0]].space;
        && (s != kernelSpace ==> !old(s.destroyed))
        && (s.destroyed <==> (Users(processTable, s) == {} && s.strays == 0) || old(s.destroyed))
        && (forall t <- spaces :: (t != s ==> t.destroyed == old(t.destroyed)) && t.strays == old(t.strays))
    {
      hide PidTable.Valid, Users, SpacesOk, Counted;
      var dead := hadesQueue[0];
      hadesQueue := hadesQueue[1..];
      Bury(dead);
      KillOrphans(dead);
      pids.PidFree(dead);
    }

    /** The loop over the children of a dead task. */
    method KillOrphans(dead: int)
      requires Queued()
      modifies this`hadesQueue
      ensures Queued() && old(hadesQueue) <= hadesQueue
      ensures forall p :: p in hadesQueue <==> p in old(hadesQueue) || Orphan(processTable, dead, MAX_PID, p)
      ensures forall i, j | |old(hadesQueue)| <= i < j < |hadesQueue| :: hadesQueue[i] < hadesQueue[j]
    {
      ghost var rest := hadesQueue;
      for i := 1 to MAX_PID
        invariant Queued() && rest <= hadesQueue
        invariant forall p :: p in hadesQueue <==> p in rest || Orphan(processTable, dead, i, p)
        invariant forall j | |rest| <= j < |hadesQueue| :: hadesQueue[j] < i
        invariant forall j, k | |rest| <= j < k < |hadesQueue| :: hadesQueue[j] < hadesQueue[k]
      {
        if i in processTable && processTable[i].parent == dead && i !in hadesQueue {
          hadesQueue := hadesQueue + [i];
        }
      }
    }

    /** An address space is gone exactly when no task uses it and no failed creation kept a
        reference to it. */
    lemma DestroyedExactly(s: AddressSpace)
      requires Valid() && s in spaces && s != kernelSpace
      ensures s.destroyed <==> Users(processTable, s) == {} && s.strays == 0
    {
      hide PidTable.Valid;
      assert Counted(s);
    }

    /** The address space of a task in the table is there, if it is not the kernel's. */
    lemma SharedNotDestroyed(p: int)
      requires Valid() && p in processTable && processTable[p].space != kernelSpace
      ensures !processTable[p].space.destroyed
    {
      hide PidTable.Valid;
      IsUser(processTable, p);
      DestroyedExactly(processTable[p].space);
    }

    /** The task leaves the process table and its address space. */
    method Bury(dead: int)
      requires SpacesOk() && dead in processTable
      modifies this`processTable, spaces
      ensures SpacesOk() && processTable == old(processTable) - {dead}
      ensures var s := old(processTable)[dead].space;
        && (s != kernelSpace ==> !old(s.destroyed))
        && (s.destroyed <==> (Users(processTable, s) == {} && s.strays == 0) || old(s.destroyed))
        && (forall t <- spaces :: (t != s ==> t.destroyed == old(t.destroyed)) && t.strays == old(t.strays))
    {
      hide Users;
      var space := processTable[dead].space;
      IsUser(processTable, dead);
      assert Counted(space);
      forall s
        ensures |Users(processTable - {dead}, s)| == |Users(processTable, s)| - (if space == s then 1 else 0)
      {
        UsersWithout(processTable, dead, s);
      }
      processTable := processTable - {dead};
      space.Destroy();
    }
  }

  /** A task left behind by a dead parent, with an identifier below bound. */
  predicate Orphan(table: ProcessTable, dead: int, bound: nat, p: int) {
    p in table && table[p].parent == dead && 0 < p < bound
  }

  // ---- Two runs from boot ----

  /** A task and 126 children take all identifiers. When the task dies, its child with identifier
      127 is the one not killed. */
  method LastChildLeft() returns (k: Kernel)
    ensures k.Valid()
    ensures 1 !in k.processTable && 127 in k.processTable && k.processTable[127].parent == 1
    ensures forall p :: p in k.hadesQueue <==> 1 < p < 127
  {
    hide Kernel.Valid;
    k := FillTable();
    k.Die(1);
    k.Reap();
  }

  /** One task, and 126 that are its children. */
  method FillTable() returns (k: Kernel)
    ensures k.Valid() && k.hadesQueue == [] && fresh(k) && fresh(k.pids) && fresh(k.pids.ring) && fresh(k.spaces)
    ensures forall p :: p in k.processTable <==> 1 <= p <= 127
    ensures forall p | 1 < p <= 127 :: k.processTable[p].parent == 1
  {
    hide Kernel.Valid;
    k := new Kernel();
    for i := 1 to NUM_PIDS
      invariant k.Valid() && k.hadesQueue == [] && fresh(k) && fresh(k.pids) && fresh(k.pids.ring) && fresh(k.spaces)
      invariant k.pids.ring.Length == NUM_PIDS && k.pids.head == i % NUM_PIDS
      invariant forall j | i <= j < NUM_PIDS :: k.pids.ring[j] == j
      invariant forall p :: p in k.processTable <==> 1 <= p < i
      invariant forall p | 1 < p < i :: k.processTable[p].parent == 1
    {
      var notified, started := k.Spawn(ElfPath, if i == 1 then 0 else 1, PLENTY);
    }
  }

  /** The first thread of a kernel task takes the kernel's address space with it when it dies. */
  method KernelThreadDies() returns (k: Kernel)
    ensures k.Valid() && k.kernelSpace.destroyed
  {
    hide Kernel.Valid;
    k := new Kernel();
    var pid, started := k.Spawn(Thread, 0, PLENTY);
    k.Die(pid);
    k.Reap();
  }
}
