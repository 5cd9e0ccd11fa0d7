/**
 The registry of machined: machines are found by name, by unit and by the PID of their leader,
 and are freed by the garbage collector.
 */
module Machines {
  import opened Wrappers

  /** A call to the service manager: the job it started, or an error. */
  datatype Reply = Job(path: string) | Refused(error: int)

  const EEXIST: int := -17
  const EINVAL: int := -22

  /** A PID as it comes over the bus. */
  type Uint32 = x: int | 0 <= x < 0x1_0000_0000

  class Machine {
    const name: string
    var unit: Option<string>
    var scopeJob: Option<string>
    var leader: int
    var inGcQueue: bool
    var started: bool

    constructor (name: string)
      ensures this.name == name && unit.None? && scopeJob.None? && leader == 0 && !inGcQueue && !started
    {
      this.name := name;
      unit, scopeJob, leader, inGcQueue, started := None, None, 0, false, false;
    }
  }

  /** What a state file says; 0 when it has no leader that can be read. */
  datatype StateFile = StateFile(name: string, unit: Option<string>, scopeJob: Option<string>, leader: nat)

  /** The files of a directory have different names. */
  ghost predicate Directory(files: seq<StateFile>) {
    forall i, j :: 0 <= i < j < |files| ==> files[i].name != files[j].name
  }

  ghost function FileNames(files: seq<StateFile>): set<string> {
    set k | 0 <= k < |files| :: files[k].name
  }

  ghost predicate AllPositive(files: seq<StateFile>) {
    forall k :: 0 <= k < |files| ==> files[k].leader > 0
  }

  lemma AppendFile(files: seq<StateFile>, f: StateFile)
    ensures FileNames(files + [f]) == FileNames(files) + {f.name}
    ensures AllPositive(files + [f]) <==> AllPositive(files) && f.leader > 0
  {
    var next := files + [f];
    assert next[|files|] == f;
    assert forall k :: 0 <= k < |files| ==> next[k] == files[k];
  }

  /** What comes in: requests, signals of the service manager, and the idle check. */
  datatype Event =
    | Create(name: string, argsOk: bool, leader: Uint32, sender: Option<int>, entered: int, scope: string, reply: Reply)
    | Register(name: string, argsOk: bool, leader: Uint32, sender: Option<int>, unitOf: Option<string>)
    | JobRemoved(unit: string, path: string)
    | UnitChanged(unit: string)
    | Reloading(active: bool)
    | Terminate(name: string, reply: Reply)
    | Idle(bus: Bus, replies: string -> Reply)

  /** What an event does to the names of the registered machines. */
  ghost predicate Turn(e: Event, before: set<string>, after: set<string>) {
    if e.Create? || e.Register? then
      if e.argsOk && e.leader != 1 && (e.leader == 0 ==> e.sender.Some?) && e.name !in before then
        after == before + {e.name}
      else
        after == before
    else if e.Idle? then after <= before
    else after == before
  }

  /** The conversion to pid_t. */
  function AsPid(x: Uint32): int {
    if x < 0x8000_0000 then x else x - 0x1_0000_0000
  }

  /** A pid_t has 32 bits and a sign, and the bits stay what they are. */
  lemma AsPidWraps(x: Uint32)
    ensures -0x8000_0000 <= AsPid(x) < 0x8000_0000 && (AsPid(x) - x) % 0x1_0000_0000 == 0
  {
  }

  /** The process that a request makes the leader. */
  function LeaderOf(leader: Uint32, sender: Option<int>): int {
    if leader == 0 && sender.Some? then sender.value else AsPid(leader)
  }

  /** Requests that name a process. */
  predicate NamesProcess(e: Event) {
    (e.Create? || e.Register?) ==> LeaderOf(e.leader, e.sender) > 0
  }

  /** Requests whose leader is an ordinary process, not 0 and not the first one. */
  predicate NamesOrdinary(e: Event) {
    (e.Create? || e.Register?) ==> LeaderOf(e.leader, e.sender) > 1
  }

  /** Whether jobs and units are active, as the service manager says. */
  datatype Bus = Bus(jobActive: string -> bool, unitActive: string -> bool)

  /** Whether the machine of a state file is kept at startup. */
  predicate Survives(f: StateFile, bus: Bus) {
    (f.scopeJob.Some? && bus.jobActive(f.scopeJob.value)) || (f.unit.Some? && bus.unitActive(f.unit.value))
  }

  /** machine_check_gc: true keeps the machine. */
  function CheckGc(m: Machine, dropNotStarted: bool, bus: Bus): bool
    reads m
  {
    && !(dropNotStarted && !m.started)
    && ((m.scopeJob.Some? && bus.jobActive(m.scopeJob.value)) || (m.unit.Some? && bus.unitActive(m.unit.value)))
  }

  /** A machine is kept for an active job or an active unit, and not for anything else; when those that
      were not started are to go, it has to be started. */
  lemma CheckGcIff(m: Machine, bus: Bus)
    ensures CheckGc(m, false, bus) <==>
            || (exists j :: m.scopeJob == Some(j) && bus.jobActive(j))
            || (exists u :: m.unit == Some(u) && bus.unitActive(u))
    ensures CheckGc(m, true, bus) <==> CheckGc(m, false, bus) && m.started
  {
  }

  ghost predicate In(ms: map<string, Machine>, m: Machine) {
    m.name in ms && ms[m.name] == m
  }

  class Manager {
    var machines: map<string, Machine>
    var units: map<string, Machine>
    var leaders: map<int, Machine>
    var queue: seq<Machine>
    /** Whether an assertion has ended the daemon. */
    var aborted: bool
    ghost var freed: set<Machine>
    /** Whether two machines have carried one unit at the same time since startup. */
    ghost var shared: bool

    constructor ()
      ensures Inv() && machines == map[] && units == map[] && leaders == map[] && queue == [] && freed == {} &&
              !aborted && !shared
    {
      machines, units, leaders, queue, aborted, freed, shared := map[], map[], map[], [], false, {}, false;
    }

    // ---- the invariant -------------------------------------------------------------

    ghost predicate Live(m: Machine)
      reads this`machines
    {
      In(machines, m)
    }

    ghost predicate Apart(ms: map<string, Machine>, dead: set<Machine>) {
      forall n <- ms :: ms[n].name == n && ms[n] !in dead
    }

    /** The unit index leads to live machines that carry the key. */
    ghost predicate UnitsOk(ms: map<string, Machine>, us: map<string, Machine>)
      reads us.Values`unit
    {
      forall u <- us :: In(ms, us[u]) && us[u].unit == Some(u)
    }

    /** So does the leader index, except for PIDs that are not positive. */
    ghost predicate LeadersOk(ms: map<string, Machine>, ls: map<int, Machine>)
      reads ls.Values`leader
    {
      forall k <- ls :: (k > 0 ==> In(ms, ls[k])) && (In(ms, ls[k]) ==> ls[k].leader == k)
    }

    /** The flag of a machine says whether it is linked in the queue, and no one is twice. */
    ghost predicate QueueOk(ms: map<string, Machine>, q: seq<Machine>)
      reads ms.Values`inGcQueue
    {
      && (forall m <- q :: In(ms, m))
      && (forall n <- ms :: ms[n].inGcQueue <==> ms[n] in q)
      && (forall i, j :: 0 <= i < j < |q| ==> q[i] != q[j])
    }

    /** A started machine has a unit and is found by its leader. */
    ghost predicate StartedOk(ms: map<string, Machine>, ls: map<int, Machine>)
      reads ms.Values`started, ms.Values`leader, ms.Values`unit
    {
      forall n <- ms :: ms[n].started ==> ms[n].unit.Some? && ms[n].leader in ls && ls[ms[n].leader] == ms[n]
    }

    ghost predicate Inv()
      reads this`machines, this`units, this`leaders, this`queue, this`freed
      reads machines.Values, units.Values, leaders.Values
    {
      && Apart(machines, freed) && UnitsOk(machines, units) && LeadersOk(machines, leaders) && QueueOk(machines, queue)
      && StartedOk(machines, leaders)
    }

    /** An entry of the leader index that leads to a freed machine. */
    ghost predicate Dangling(k: int)
      reads this`leaders, this`machines
    {
      k in leaders && !Live(leaders[k])
    }

    /** All leaders are processes. */
    ghost predicate Positive()
      reads this`machines, this`leaders, machines.Values`leader
    {
      (forall n <- machines :: machines[n].leader > 0) && (forall k <- leaders :: k > 0)
    }

    /** No two machines carry one unit. */
    ghost predicate UnitsApart(ms: map<string, Machine>)
      reads ms.Values`unit
    {
      forall a, b :: a in ms && b in ms && ms[a].unit.Some? && ms[a].unit == ms[b].unit ==> a == b
    }

    /** Every started machine is found by its unit. */
    ghost predicate FoundByUnit(ms: map<string, Machine>, us: map<string, Machine>)
      reads ms.Values`unit, ms.Values`started
    {
      forall n <- ms :: ms[n].started ==> ms[n].unit.Some? && ms[n].unit.value in us && us[ms[n].unit.value] == ms[n]
    }

    ghost predicate Tidy()
      reads this`machines, this`units, machines.Values`unit, machines.Values`started
    {
      UnitsApart(machines) && FoundByUnit(machines, units)
    }

    ghost predicate TidyIfApart()
      reads this`machines, this`units, machines.Values`unit, machines.Values`started
    {
      UnitsApart(machines) ==> FoundByUnit(machines, units)
    }

    lemma NoDangling()
      requires Inv() && Positive()
      ensures forall n <- machines :: machines[n] !in freed
      ensures forall u <- units :: units[u] !in freed
      ensures forall k <- leaders :: leaders[k] !in freed
    {
    }

    // ---- the queue -----------------------------------------------------------------

    method AddToGcQueue(m: Machine)
      requires Inv() && Live(m)
      modifies this`queue, m`inGcQueue
      ensures Inv() && m in queue && queue == (if old(m.inGcQueue) then old(queue) else [m] + old(queue))
    {
      if m.inGcQueue {
        return;
      }
      queue := [m] + queue;
      m.inGcQueue := true;
    }

    function Without(q: seq<Machine>, m: Machine): (r: seq<Machine>)
      ensures forall x <- r :: x in q && x != m
      ensures forall x <- q :: x != m ==> x in r
      ensures m !in q ==> r == q
    {
      if q == [] then []
      else if q[0] == m then Without(q[1..], m)
      else [q[0]] + Without(q[1..], m)
    }

    lemma {:induction false} WithoutDistinct(q: seq<Machine>, m: Machine)
      requires forall i, j :: 0 <= i < j < |q| ==> q[i] != q[j]
      ensures forall i, j :: 0 <= i < j < |Without(q, m)| ==> Without(q, m)[i] != Without(q, m)[j]
    {
      if q != [] {
        WithoutDistinct(q[1..], m);
        var r := Without(q[1..], m);
        if q[0] != m {
          assert q[0] !in q[1..];
          assert q[0] !in r;
        }
      }
    }

    // ---- birth and death -----------------------------------------------------------

    /** manager_add_machine, with machine_new. */
    method AddMachine(name: string) returns (m: Machine)
      requires Inv()
      modifies this`machines
      ensures Inv() && Live(m) && m.name == name && machines == old(machines)[name := m]
      ensures if name in old(machines) then m == old(machines)[name] else fresh(m) && NewMachine(m)
      ensures forall k <- leaders :: Dangling(k) <==> old(Dangling(k))
      ensures old(TidyIfApart()) ==> TidyIfApart()
    {
      hide UnitsApart, FoundByUnit, Apart, UnitsOk, LeadersOk, QueueOk, StartedOk;
      if name in machines {
        InvFacts();
        m := machines[name];
        return;
      }
      m := new Machine(name);
      AddTidy(machines, units, m);
      AddOk(machines, freed, units, leaders, queue, m);
      machines := machines[name := m];
    }

    lemma AddOk(ms: map<string, Machine>, dead: set<Machine>, us: map<string, Machine>, ls: map<int, Machine>,
                q: seq<Machine>, m: Machine)
      requires Apart(ms, dead) && UnitsOk(ms, us) && LeadersOk(ms, ls) && QueueOk(ms, q) && StartedOk(ms, ls)
      requires m.name !in ms && m !in dead && m !in ls.Values && m !in q && NewMachine(m)
      ensures Apart(ms[m.name := m], dead) && UnitsOk(ms[m.name := m], us) && LeadersOk(ms[m.name := m], ls)
      ensures QueueOk(ms[m.name := m], q) && StartedOk(ms[m.name := m], ls)
    {
    }

    lemma AddTidy(ms: map<string, Machine>, us: map<string, Machine>, m: Machine)
      requires m.name !in ms && m.unit.None? && !m.started
      ensures UnitsApart(ms[m.name := m]) <==> UnitsApart(ms)
      ensures FoundByUnit(ms[m.name := m], us) <==> FoundByUnit(ms, us)
    {
      var more := ms[m.name := m];
      assert forall n <- ms :: n in more && more[n] == ms[n];
    }

    ghost predicate NewMachine(m: Machine)
      reads m
    {
      m.unit.None? && m.scopeJob.None? && m.leader == 0 && !m.inGcQueue && !m.started
    }

    /** machine_free. The unit is removed by its name whoever holds the entry, the leader only if
        it is this machine and the PID is positive. So an entry comes to dangle exactly when the
        machine is registered under a PID that is not positive, and a started machine is no longer
        found by its unit exactly when it carries that of m. */
    method Free(m: Machine)
      requires Inv() && Live(m)
      modifies this
      ensures Inv() && !Live(m) && freed == old(freed) + {m}
      ensures machines == old(machines) - {m.name} && queue == Without(old(queue), m)
      ensures units == UnitsWithout(old(units), m) && leaders == LeadersWithout(old(leaders), m)
      ensures leaders.Keys <= old(leaders.Keys) && aborted == old(aborted) && Outlast(old(leaders), leaders)
      ensures forall k <- leaders :: Dangling(k) <==> old(Dangling(k)) || old(leaders)[k] == m
      ensures old(FoundByUnit(machines, units)) ==> (FoundByUnit(machines, units) <==> NoneIn(machines, m.unit))
      ensures (old(Tidy()) ==> Tidy()) && shared == old(shared)
    {
      hide Apart, UnitsOk, LeadersOk, QueueOk, StartedOk, UnitsWithout, LeadersWithout, Without, Outlast, UnitsApart,
           FoundByUnit, NoneIn;
      FreeFound(machines, freed, units, m);
      FreeDangling(machines, leaders, m);
      FreeStarted(machines, freed, leaders, m);
      FreeApart(machines, freed, m);
      FreeUnits(machines, units, m);
      FreeLeaders(machines, leaders, m);
      FreeQueue(machines, freed, queue, m);
      if m.inGcQueue {
        queue := Without(queue, m);
      }
      units := UnitsWithout(units, m);
      machines := machines - {m.name};
      leaders := LeadersWithout(leaders, m);
      freed := freed + {m};
    }

    /** No started machine carries the unit. */
    ghost predicate NoneIn(ms: map<string, Machine>, unit: Option<string>)
      reads ms.Values`unit, ms.Values`started
    {
      unit.Some? ==> forall n <- ms :: ms[n].started ==> ms[n].unit != unit
    }

    lemma FreeFound(ms: map<string, Machine>, dead: set<Machine>, us: map<string, Machine>, m: Machine)
      requires Apart(ms, dead) && In(ms, m)
      ensures FoundByUnit(ms, us) ==>
                (FoundByUnit(ms - {m.name}, UnitsWithout(us, m)) <==> NoneIn(ms - {m.name}, m.unit))
      ensures UnitsApart(ms) ==> UnitsApart(ms - {m.name}) && NoneIn(ms - {m.name}, m.unit)
    {
    }

    /** No one removes the entries whose PID is not positive. */
    ghost predicate Outlast(before: map<int, Machine>, after: map<int, Machine>) {
      forall k <- before :: k <= 0 ==> k in after && after[k] == before[k]
    }

    function UnitsWithout(us: map<string, Machine>, m: Machine): map<string, Machine>
      reads m`unit
    {
      if m.unit.Some? then us - {m.unit.value} else us
    }

    /** hashmap_remove_value, for a positive PID. */
    function LeadersWithout(ls: map<int, Machine>, m: Machine): map<int, Machine>
      reads m`leader
    {
      if m.leader > 0 && m.leader in ls && ls[m.leader] == m then ls - {m.leader} else ls
    }

    lemma FreeApart(ms: map<string, Machine>, dead: set<Machine>, m: Machine)
      requires Apart(ms, dead) && In(ms, m)
      ensures Apart(ms - {m.name}, dead + {m})
    {
    }

    lemma FreeUnits(ms: map<string, Machine>, us: map<string, Machine>, m: Machine)
      requires UnitsOk(ms, us) && In(ms, m)
      ensures UnitsOk(ms - {m.name}, UnitsWithout(us, m))
    {
    }

    lemma FreeLeaders(ms: map<string, Machine>, ls: map<int, Machine>, m: Machine)
      requires LeadersOk(ms, ls) && In(ms, m)
      ensures LeadersOk(ms - {m.name}, LeadersWithout(ls, m))
    {
    }

    lemma FreeDangling(ms: map<string, Machine>, ls: map<int, Machine>, m: Machine)
      requires In(ms, m)
      ensures LeadersWithout(ls, m).Keys <= ls.Keys && !In(ms - {m.name}, m) && Outlast(ls, LeadersWithout(ls, m))
      ensures forall k <- LeadersWithout(ls, m) ::
                LeadersWithout(ls, m)[k] == ls[k] && (!In(ms - {m.name}, ls[k]) <==> !In(ms, ls[k]) || ls[k] == m)
    {
    }

    lemma FreeStarted(ms: map<string, Machine>, dead: set<Machine>, ls: map<int, Machine>, m: Machine)
      requires StartedOk(ms, ls) && Apart(ms, dead) && In(ms, m)
      ensures StartedOk(ms - {m.name}, LeadersWithout(ls, m))
    {
    }

    lemma FreeQueue(ms: map<string, Machine>, dead: set<Machine>, q: seq<Machine>, m: Machine)
      requires QueueOk(ms, q) && In(ms, m) && Apart(ms, dead)
      ensures QueueOk(ms - {m.name}, Without(q, m)) && (m in q <==> m.inGcQueue)
    {
      WithoutDistinct(q, m);
      hide Without;
      forall n <- ms - {m.name}
        ensures ms[n].inGcQueue <==> ms[n] in Without(q, m)
      {
        assert ms[n] != m;
      }
    }

    // ---- starting and stopping -----------------------------------------------------

    /** machine_start_scope, for a machine that has its unit or has been given one. */
    method PutUnit(m: Machine)
      requires Inv() && Live(m) && m.unit.Some?
      modifies this`units
      ensures Inv() && units == (if m.unit.value in old(units) then old(units) else old(units)[m.unit.value := m])
    {
      hide LeadersOk, QueueOk, Apart;
      if m.unit.value !in units {
        units := units[m.unit.value := m];
      }
    }

    /** The scope of a machine without a unit. The daemon asserts that the leader is an ordinary
        process. */
    method StartScope(m: Machine, scope: string, reply: Reply) returns (r: int)
      requires Inv() && Live(m) && !m.started
      modifies this`units, this`aborted, m`unit, m`scopeJob
      ensures aborted == (old(aborted) || (old(m.unit).None? && m.leader <= 1))
      ensures Inv() && (old(m.unit).Some? ==> m.unit == old(m.unit) && m.scopeJob == old(m.scopeJob))
      ensures r <= 0 && (r == 0 ==> m.unit.Some? && m.unit.value in units)
      ensures r == 0 && old(m.unit).None? ==> reply.Job? && m.unit == Some(scope) && m.scopeJob == Some(reply.path)
      ensures r < 0 ==> units == old(units) && m.unit == old(m.unit) && m.scopeJob == old(m.scopeJob)
      ensures r == 0 ==> units == (if m.unit.value in old(units) then old(units) else old(units)[m.unit.value := m])
      ensures r == 0 <==> old(m.unit).Some? || (m.leader > 1 && reply.Job?)
      ensures old(FoundByUnit(machines, units)) ==> FoundByUnit(machines, units)
      ensures UnitsApart(machines) ==> old(UnitsApart(machines))
    {
      hide LeadersOk, QueueOk, Apart;
      r := 0;
      if m.unit.None? {
        if m.leader <= 1 {
          aborted := true;
          return EINVAL;
        }
        if reply.Refused? {
          return if reply.error < 0 then reply.error else EINVAL;
        }
        UnitIsNew(m);
        m.unit, m.scopeJob := Some(scope), Some(reply.path);
      }
      PutUnit(m);
    }

    lemma UnitIsNew(m: Machine)
      requires UnitsOk(machines, units) && m.unit.None?
      ensures m !in units.Values
    {
    }

    /** The leader of m is the leader of another machine. */
    ghost predicate Held(m: Machine)
      reads this`leaders, m`leader
    {
      m.leader in leaders && leaders[m.leader] != m
    }

    /** Starting m gets to the assertion about the leader. */
    ghost predicate Dies(m: Machine)
      reads this`leaders, m
    {
      !m.started && !Held(m) && m.unit.None? && m.leader <= 1
    }

    /** Starting m succeeds. */
    ghost predicate Starts(m: Machine, reply: Reply)
      reads this`leaders, m
    {
      m.started || (!Held(m) && (m.unit.Some? || (m.leader > 1 && reply.Job?)))
    }

    /** machine_start: the leader index first, then the scope. */
    method Start(m: Machine, scope: string, reply: Reply) returns (r: int)
      requires Inv() && Live(m)
      modifies this`units, this`leaders, this`aborted, m`unit, m`scopeJob, m`started
      ensures Inv() && r <= 0 && m.started == (old(m.started) || r == 0)
      ensures aborted == (old(aborted) || old(Dies(m)))
      ensures r == 0 <==> old(Starts(m, reply))
      ensures old(TidyIfApart()) ==> TidyIfApart()
      ensures old(FoundByUnit(machines, units)) ==>
                (FoundByUnit(machines, units) <==>
                 old(m.started) || r < 0 || m.unit.value !in old(units) || old(units)[m.unit.value] == m)
      ensures r == 0 && !old(m.started) ==>
                units == if m.unit.value in old(units) then old(units) else old(units)[m.unit.value := m]
      ensures old(m.unit).Some? ==> m.unit == old(m.unit)
      ensures r == 0 && !old(m.started) ==> m.unit.Some? && m.unit.value in units
      ensures r == 0 && !old(m.started) && old(m.unit).None? ==>
                reply.Job? && m.unit == Some(scope) && m.scopeJob == Some(reply.path)
      ensures old(m.started) ==> r == 0 && leaders == old(leaders) && units == old(units)
      ensures !old(m.started) ==>
                if m.leader in old(leaders) && old(leaders)[m.leader] != m then r == EEXIST && leaders == old(leaders)
                else leaders == old(leaders)[m.leader := m]
    {
      hide UnitsOk, QueueOk, Apart, UnitsApart, FoundByUnit;
      if m.started {
        return 0;
      }
      if m.leader in leaders && leaders[m.leader] != m {
        return EEXIST;
      }
      leaders := leaders[m.leader := m];
      r := StartScope(m, scope, reply);
      if r < 0 {
        return;
      }
      MarkStarted(m);
    }

    method MarkStarted(m: Machine)
      requires Inv() && Live(m) && !m.started && m.unit.Some? && m.unit.value in units
      requires m.leader in leaders && leaders[m.leader] == m
      modifies m`started
      ensures Inv() && m.started
      ensures FoundByUnit(machines, units) <==> old(FoundByUnit(machines, units)) && units[m.unit.value] == m
      ensures UnitsApart(machines) ==> units[m.unit.value] == m
    {
      hide QueueOk, LeadersOk;
      if UnitsApart(machines) {
        Holder(m);
      }
      m.started := true;
    }

    lemma Holder(m: Machine)
      requires UnitsOk(machines, units) && UnitsApart(machines) && Live(m) && m.unit.Some? && m.unit.value in units
      ensures units[m.unit.value] == m
    {
    }

    /** machine_stop: the scope is stopped and the machine is left to the collector. */
    method Stop(m: Machine, reply: Reply) returns (r: int)
      requires Inv() && Live(m)
      modifies this`queue, m`scopeJob, m`inGcQueue, m`started
      ensures Inv() && m in queue && !m.started
      ensures m.scopeJob == (if m.unit.Some? && reply.Job? then Some(reply.path) else old(m.scopeJob))
      ensures r == (if m.unit.Some? && reply.Refused? then reply.error else 0)
      ensures queue == (if old(m.inGcQueue) then old(queue) else [m] + old(queue))
      ensures old(FoundByUnit(machines, units)) ==> FoundByUnit(machines, units)
    {
      hide UnitsOk, LeadersOk, QueueOk, Apart;
      r := 0;
      if m.unit.Some? {
        match reply {
          case Job(path) => m.scopeJob := Some(path);
          case Refused(error) => r := error;
        }
      }
      AddToGcQueue(m);
      m.started := false;
    }

    // ---- the collector -------------------------------------------------------------

    /** The machines are as they were noted down. */
    ghost predicate Untouched(ms: map<string, Machine>, was: map<string, (bool, Option<string>)>)
      reads ms.Values`started, ms.Values`scopeJob
    {
      forall n <- ms :: n in was && was[n] == (ms[n].started, ms[n].scopeJob)
    }

    /** One turn of the loop: the machine at the head leaves the queue, for good or alive. */
    method GcStep(m: Machine, dropNotStarted: bool, bus: Bus, reply: Reply,
                  ghost was: map<string, (bool, Option<string>)>)
      requires Inv() && queue != [] && m == queue[0] && Untouched(machines, was)
      modifies this, m`scopeJob, m`inGcQueue, m`started
      ensures Inv() && queue == old(queue)[1..] && leaders.Keys <= old(leaders.Keys) && aborted == old(aborted)
      ensures Outlast(old(leaders), leaders) && Untouched(machines, was) && (old(Tidy()) ==> Tidy()) &&
              shared == old(shared)
      ensures if old(CheckGc(m, dropNotStarted, bus)) then
                machines == old(machines) && freed == old(freed) && leaders == old(leaders) && units == old(units)
              else
                && machines == old(machines) - {m.name} && freed == old(freed) + {m}
                && units == UnitsWithout(old(units), m)
    {
      hide Inv, UnitsWithout, LeadersWithout, Without, UnitsApart, FoundByUnit, NoneIn;
      InvFacts();
      PopHead(m);
      if !CheckGc(m, dropNotStarted, bus) {
        var _ := Stop(m, reply);
        WithoutHead(m, old(queue)[1..]);
        Free(m);
      }
    }

    method PopHead(m: Machine)
      requires Inv() && queue != [] && m == queue[0]
      modifies this`queue, m`inGcQueue
      ensures Inv() && Live(m) && queue == old(queue)[1..] && !m.inGcQueue && m !in queue
    {
      hide UnitsOk, LeadersOk;
      queue := queue[1..];
      m.inGcQueue := false;
    }

    lemma WithoutHead(m: Machine, q: seq<Machine>)
      requires m !in q
      ensures Without([m] + q, m) == q
    {
    }

    /** What the collector decides about the queue q. */
    ghost function Verdicts(q: seq<Machine>, dropNotStarted: bool, bus: Bus): (keep: seq<bool>)
      reads q
      ensures |keep| == |q| && forall k :: 0 <= k < |q| ==> keep[k] == CheckGc(q[k], dropNotStarted, bus)
    {
      seq(|q|, k requires 0 <= k < |q| reads q => CheckGc(q[k], dropNotStarted, bus))
    }

    /** The machines that are left when the first i of the queue have been dealt with. */
    ghost predicate Swept(before: map<string, Machine>, after: map<string, Machine>, q: seq<Machine>, keep: seq<bool>,
                          i: nat)
      requires i <= |q| == |keep|
    {
      && (forall n <- after :: n in before && after[n] == before[n])
      && (forall n <- before :: n in after <==> forall k :: 0 <= k < i && q[k] == before[n] ==> keep[k])
    }

    lemma SweptNext(before: map<string, Machine>, now: map<string, Machine>, next: map<string, Machine>,
                    q: seq<Machine>, keep: seq<bool>, i: nat)
      requires i < |q| == |keep| && Swept(before, now, q, keep, i) && In(now, q[i])
      requires forall n <- before :: before[n].name == n
      requires next == if keep[i] then now else now - {q[i].name}
      ensures Swept(before, next, q, keep, i + 1)
    {
    }

    /** manager_gc. It comes to an end although machine_stop queues the machine again, leaves the
        queue empty, frees exactly the queued machines that machine_check_gc gives up and does not
        touch the others. */
    method Gc(dropNotStarted: bool, bus: Bus, replies: string -> Reply)
      requires Inv()
      modifies this, machines.Values`scopeJob, machines.Values`inGcQueue, machines.Values`started
      ensures Inv() && queue == [] && leaders.Keys <= old(leaders.Keys) && aborted == old(aborted)
      ensures Swept(old(machines), machines, old(queue), old(Verdicts(queue, dropNotStarted, bus)), |old(queue)|)
      ensures forall n <- machines :: !machines[n].inGcQueue
      ensures Untouched(machines, old(map n | n in machines :: (machines[n].started, machines[n].scopeJob)))
      ensures Outlast(old(leaders), leaders) && (old(Tidy()) ==> Tidy()) && shared == old(shared)
      ensures UnitsSwept(old(machines), machines, old(units), units)
    {
      hide Inv, Swept, Indexes, Untouched, Tidy;
      ghost var q, keep, i := queue, Verdicts(queue, dropNotStarted, bus), 0;
      ghost var before, index, byUnit := machines, leaders, units;
      ghost var was := map n | n in machines :: (machines[n].started, machines[n].scopeJob);
      InvFacts();
      SweptNone(before, q, keep);
      AsNoted(was);
      while queue != []
        invariant Inv() && i <= |q| && queue == q[i..] && Swept(before, machines, q, keep, i)
        invariant Indexes(before, index, byUnit)
        invariant Untouched(machines, was) && (old(Tidy()) ==> Tidy()) && aborted == old(aborted) &&
                  shared == old(shared)
        invariant forall k :: i <= k < |q| ==> CheckGc(q[k], dropNotStarted, bus) == keep[k]
        decreases |queue|
      {
        InvFacts();
        ghost var now := machines;
        assert queue[0] == q[i];
        SweptKeeps(before, machines, q, keep, i);
        GcTurn(queue[0], dropNotStarted, bus, replies(queue[0].name), was, before, index, byUnit);
        SweptNext(before, now, machines, q, keep, i);
        i := i + 1;
      }
      QueueIsEmpty();
      IndexesMean(before, index, byUnit);
    }

    /** What is left of the two indices. */
    ghost predicate Indexes(before: map<string, Machine>, index: map<int, Machine>, byUnit: map<string, Machine>)
      reads this`machines, this`leaders, this`units, before.Values`unit
    {
      leaders.Keys <= index.Keys && Outlast(index, leaders) && UnitsSwept(before, machines, byUnit, units)
    }

    lemma IndexesMean(before: map<string, Machine>, index: map<int, Machine>, byUnit: map<string, Machine>)
      requires Indexes(before, index, byUnit)
      ensures leaders.Keys <= index.Keys && Outlast(index, leaders) && UnitsSwept(before, machines, byUnit, units)
    {
    }

    method GcTurn(m: Machine, dropNotStarted: bool, bus: Bus, reply: Reply,
                  ghost was: map<string, (bool, Option<string>)>, ghost before: map<string, Machine>,
                  ghost index: map<int, Machine>, ghost byUnit: map<string, Machine>)
      requires Inv() && queue != [] && m == queue[0] && Untouched(machines, was) && Indexes(before, index, byUnit)
      requires m.name in before && before[m.name] == m
      modifies this, m`scopeJob, m`inGcQueue, m`started
      ensures Inv() && queue == old(queue)[1..] && aborted == old(aborted) && shared == old(shared)
      ensures Untouched(machines, was) && (old(Tidy()) ==> Tidy()) && Indexes(before, index, byUnit)
      ensures machines == if old(CheckGc(m, dropNotStarted, bus)) then old(machines) else old(machines) - {m.name}
    {
      hide Inv, Untouched, Outlast, UnitsSwept, Tidy, UnitsWithout, CheckGc;
      InvFacts();
      ghost var now, known, carried := machines, leaders, units;
      GcStep(m, dropNotStarted, bus, reply, was);
      OutlastAgain(index, known, leaders);
      UnitsSweptNext(before, now, machines, byUnit, carried, units, m);
    }

    lemma AsNoted(was: map<string, (bool, Option<string>)>)
      requires was == map n | n in machines :: (machines[n].started, machines[n].scopeJob)
      ensures Untouched(machines, was) && Indexes(machines, leaders, units)
    {
      UnitsSweptNone(machines, units);
    }

    /** The unit index has lost exactly the units of the machines that are gone. */
    ghost predicate UnitsSwept(before: map<string, Machine>, after: map<string, Machine>, us: map<string, Machine>,
                               left: map<string, Machine>)
      reads before.Values`unit
    {
      && (forall u <- left :: u in us && left[u] == us[u])
      && (forall u <- us :: u in left <==> forall n <- before :: n !in after ==> before[n].unit != Some(u))
    }

    lemma UnitsSweptNone(before: map<string, Machine>, us: map<string, Machine>)
      ensures UnitsSwept(before, before, us, us)
    {
    }

    lemma UnitsSweptNext(before: map<string, Machine>, now: map<string, Machine>, next: map<string, Machine>,
                         us: map<string, Machine>, left: map<string, Machine>, less: map<string, Machine>, m: Machine)
      requires UnitsSwept(before, now, us, left) && m.name in now && m.name in before && before[m.name] == m
      requires (next == now && less == left) || (next == now - {m.name} && less == UnitsWithout(left, m))
      ensures UnitsSwept(before, next, us, less)
    {
    }

    lemma OutlastAgain(a: map<int, Machine>, b: map<int, Machine>, c: map<int, Machine>)
      requires Outlast(a, b) && Outlast(b, c)
      ensures Outlast(a, c)
    {
    }

    lemma InvFacts()
      requires Inv()
      ensures forall n <- machines :: machines[n].name == n
      ensures forall m <- queue :: m in machines.Values
      ensures queue != [] ==> Live(queue[0]) && queue[0] in machines.Values
      ensures forall i, j :: 0 <= i < j < |queue| ==> queue[i] != queue[j]
    {
      assert queue != [] ==> queue[0] in queue;
    }

    lemma SweptNone(before: map<string, Machine>, q: seq<Machine>, keep: seq<bool>)
      requires |q| == |keep|
      ensures Swept(before, before, q, keep, 0)
    {
    }

    lemma SweptKeeps(before: map<string, Machine>, now: map<string, Machine>, q: seq<Machine>, keep: seq<bool>, i: nat)
      requires i <= |q| == |keep| && Swept(before, now, q, keep, i)
      ensures now.Values <= before.Values
    {
    }

    lemma QueueIsEmpty()
      requires Inv() && queue == []
      ensures forall n <- machines :: !machines[n].inGcQueue
    {
    }

    // ---- requests and signals ------------------------------------------------------

    /** The requests that get a machine. */
    ghost predicate Accepts(name: string, argsOk: bool, leader: Uint32, sender: Option<int>)
      reads this`machines
    {
      argsOk && leader != 1 && (leader == 0 ==> sender.Some?) && name !in machines
    }

    /** The part that creating and registering share. Without a PID the caller is the leader. */
    method CreateOrRegister(name: string, argsOk: bool, leader: Uint32, sender: Option<int>)
      returns (r: int, m: Machine?)
      requires Inv()
      modifies this`machines
      ensures Inv() && (r >= 0 <==> old(Accepts(name, argsOk, leader, sender)))
      ensures r < 0 ==> m == null && machines == old(machines)
      ensures r >= 0 ==> m != null && fresh(m) && Live(m) && !m.started && m.unit.None?
      ensures r >= 0 ==> machines == old(machines)[name := m] && m.leader == LeaderOf(leader, sender)
      ensures r >= 0 ==> (Held(m) <==> m.leader in leaders)
      ensures old(TidyIfApart()) ==> TidyIfApart()
    {
      hide TidyIfApart, QueueOk, UnitsOk;
      if !argsOk || leader == 1 {
        return EINVAL, null;
      }
      var pid := AsPid(leader);
      if leader == 0 {
        if sender.None? {
          return EINVAL, null;
        }
        pid := sender.value;
      }
      if name in machines {
        return EEXIST, null;
      }
      m := AddMachine(name);
      m.leader := pid;
      r := 1;
    }

    /** The end of both requests: the machine is started unless something went wrong before, and
        queued if it is not. */
    method StartOrQueue(m: Machine, before: int, scope: string, reply: Reply) returns (r: int)
      requires Inv() && Live(m) && !m.started && !aborted
      modifies this`units, this`leaders, this`queue, this`aborted, m`unit, m`scopeJob, m`started, m`inGcQueue
      ensures Inv() && aborted == (before >= 0 && old(Dies(m)))
      ensures !aborted ==> (r >= 0 <==> before >= 0 && old(Starts(m, reply)))
      ensures !aborted ==> if r < 0 then m in queue else m.started && m.unit.Some?
      ensures !aborted ==> (before < 0 ==> r == before) && (r >= 0 ==> queue == old(queue))
      ensures old(m.unit).Some? ==> m.unit == old(m.unit)
      ensures !aborted && r >= 0 && old(m.unit).None? ==>
                reply.Job? && m.unit == Some(scope) && m.scopeJob == Some(reply.path)
      ensures leaders.Keys <= old(leaders.Keys) + {m.leader}
      ensures old(TidyIfApart()) ==> TidyIfApart()
      ensures !aborted && r >= 0 ==>
                units == if m.unit.value in old(units) then old(units) else old(units)[m.unit.value := m]
    {
      hide Inv, UnitsApart, FoundByUnit;
      r := before;
      if r >= 0 {
        r := Start(m, scope, reply);
      }
      if r < 0 && !aborted {
        AddToGcQueue(m);
      }
    }

    /** The requests that end the daemon: one that creates a machine under a PID that is taken for 0,
        1 or a negative number and is not in use, and one that registers a machine under a PID that
        is taken for a negative number. */
    ghost predicate Aborts(e: Event)
      reads this`machines, this`leaders
    {
      match e
      case Create(name, argsOk, leader, sender, entered, _, _) =>
        && Accepts(name, argsOk, leader, sender) && entered >= 0
        && LeaderOf(leader, sender) <= 1 && LeaderOf(leader, sender) !in leaders
      case Register(name, argsOk, leader, sender, _) =>
        Accepts(name, argsOk, leader, sender) && LeaderOf(leader, sender) < 0
      case _ => false
    }

    /** The machine that a request asked for: as it wanted it, and started or left to the collector. */
    ghost predicate Serves(name: string, pid: int)
      reads this`machines, this`queue, machines.Values`leader, machines.Values`started
    {
      name in machines && machines[name].leader == pid && (machines[name].started || machines[name] in queue)
    }

    /** A machine that cannot be started is left to the collector. */
    method CreateMachine(e: Event) returns (r: int)
      requires Inv() && e.Create? && !aborted
      modifies this`machines, this`units, this`leaders, this`queue, this`aborted
      ensures Inv() && (old(Positive()) && NamesProcess(e) ==> Positive())
      ensures aborted == old(Aborts(e))
      ensures forall n <- machines :: (n in old(machines) && machines[n] == old(machines)[n]) || fresh(machines[n])
      ensures forall n <- old(machines) :: n in machines && machines[n] == old(machines)[n]
      ensures if old(Accepts(e.name, e.argsOk, e.leader, e.sender)) then
                && machines.Keys == old(machines.Keys) + {e.name}
                && (aborted || Serves(e.name, LeaderOf(e.leader, e.sender)))
              else
                r < 0 && machines == old(machines)
      ensures !aborted ==>
                (r >= 0 <==>
                  && old(Accepts(e.name, e.argsOk, e.leader, e.sender)) && e.entered >= 0 && e.reply.Job?
                  && LeaderOf(e.leader, e.sender) > 1 && LeaderOf(e.leader, e.sender) !in old(leaders))
      ensures !aborted && r >= 0 ==>
                && machines[e.name].started && machines[e.name].unit == Some(e.scope)
                && machines[e.name].scopeJob == Some(e.reply.path)
      ensures old(TidyIfApart()) ==> TidyIfApart()
    {
      hide Inv, TidyIfApart;
      var m;
      r, m := CreateOrRegister(e.name, e.argsOk, e.leader, e.sender);
      if r < 0 {
        return;
      }
      r := StartOrQueue(m, e.entered, e.scope, e.reply);
    }

    /** The unit is the one that the process is in; whoever asks for it asserts that the PID is not
        negative. */
    method RegisterMachine(e: Event) returns (r: int)
      requires Inv() && e.Register? && !aborted
      modifies this`machines, this`units, this`leaders, this`queue, this`aborted
      ensures Inv() && (old(Positive()) && NamesProcess(e) ==> Positive())
      ensures aborted == old(Aborts(e))
      ensures forall n <- machines :: (n in old(machines) && machines[n] == old(machines)[n]) || fresh(machines[n])
      ensures forall n <- old(machines) :: n in machines && machines[n] == old(machines)[n]
      ensures leaders.Keys <= old(leaders.Keys) + {LeaderOf(e.leader, e.sender)}
      ensures if old(Accepts(e.name, e.argsOk, e.leader, e.sender)) then
                && machines.Keys == old(machines.Keys) + {e.name}
                && (aborted || Serves(e.name, LeaderOf(e.leader, e.sender)))
              else
                r < 0 && machines == old(machines)
      ensures !aborted && r >= 0 ==> queue == old(queue)
      ensures !aborted ==>
                (r >= 0 <==>
                  && old(Accepts(e.name, e.argsOk, e.leader, e.sender)) && e.unitOf.Some?
                  && LeaderOf(e.leader, e.sender) !in old(leaders))
      ensures !aborted && r >= 0 ==> machines[e.name].started && machines[e.name].unit == e.unitOf
      ensures !aborted && r >= 0 ==>
                units == if e.unitOf.value in old(units) then old(units)
                         else old(units)[e.unitOf.value := machines[e.name]]
      ensures old(TidyIfApart()) ==> TidyIfApart()
    {
      hide Inv, TidyIfApart;
      var m;
      r, m := CreateOrRegister(e.name, e.argsOk, e.leader, e.sender);
      if r < 0 {
        return;
      }
      if m.leader < 0 {
        aborted := true;
        return;
      }
      if e.unitOf.Some? {
        SetUnit(m, e.unitOf);
      }
      r := StartOrQueue(m, if e.unitOf.None? then EINVAL else 0, "", Refused(EINVAL));
    }

    method SetUnit(m: Machine, unit: Option<string>)
      requires Inv() && Live(m) && m.unit.None? && !m.started
      modifies m`unit
      ensures Inv() && m.unit == unit && (old(TidyIfApart()) ==> TidyIfApart())
    {
      hide LeadersOk, QueueOk;
      UnitIsNew(m);
      m.unit := unit;
    }

    method MatchJobRemoved(unit: string, path: string)
      requires Inv()
      modifies this`queue, units.Values`scopeJob, units.Values`inGcQueue
      ensures Inv() && (unit in units ==> units[unit] in queue)
      ensures forall u <- units ::
                units[u].scopeJob ==
                (if u == unit && old(units[u].scopeJob) == Some(path) then None else old(units[u].scopeJob))
    {
      hide LeadersOk, QueueOk, Apart;
      if unit in units {
        var m := units[unit];
        if m.scopeJob == Some(path) {
          m.scopeJob := None;
        }
        AddToGcQueue(m);
      }
    }

    /** PropertiesChanged and UnitRemoved. */
    method MatchUnitChanged(unit: string)
      requires Inv()
      modifies this`queue, units.Values`inGcQueue
      ensures Inv() && (unit in units ==> units[unit] in queue)
      ensures queue == (if unit in units && !old(units[unit].inGcQueue) then [units[unit]] + old(queue) else old(queue))
    {
      if unit in units {
        AddToGcQueue(units[unit]);
      }
    }

    /** After a reload every machine is looked at again. */
    method MatchReloading(active: bool)
      requires Inv()
      modifies this`queue, machines.Values`inGcQueue
      ensures Inv() && (!active ==> forall n <- machines :: machines[n] in queue)
    {
      hide Inv;
      if active {
        return;
      }
      var rest := machines.Keys;
      while rest != {}
        invariant Inv() && rest <= machines.Keys && forall n <- machines :: n in rest || machines[n] in queue
      {
        var n :| n in rest;
        InvFacts();
        AddToGcQueue(machines[n]);
        rest := rest - {n};
      }
    }

    method TerminateMachine(name: string, reply: Reply) returns (r: int)
      requires Inv()
      modifies this`queue, machines.Values`scopeJob, machines.Values`inGcQueue, machines.Values`started
      ensures Inv() && (name in machines ==> machines[name] in queue && !machines[name].started)
      ensures forall n <- machines :: n != name ==> machines[n].started == old(machines[n].started)
      ensures queue == if name !in machines || old(machines[name].inGcQueue) then old(queue)
                       else [machines[name]] + old(queue)
      ensures old(FoundByUnit(machines, units)) ==> FoundByUnit(machines, units)
      ensures name !in machines ==> r < 0
      ensures name in machines ==>
                var m := machines[name];
                && r == (if m.unit.Some? && reply.Refused? then reply.error else 0)
                && m.scopeJob == if m.unit.Some? && reply.Job? then Some(reply.path) else old(machines[name].scopeJob)
    {
      hide Inv, FoundByUnit;
      r := EINVAL;
      if name in machines {
        InvFacts();
        r := Stop(machines[name], reply);
      }
    }

    /** manager_get_machine_by_pid: by unit, or by leader when the unit is not known. A started machine
        is found by its leader, and by its unit exactly when the index leads to it. */
    method GetMachineByPid(pid: int, unitOf: Option<string>) returns (m: Machine?)
      requires Inv() && pid >= 1
      ensures m != null ==> Live(m) && if unitOf.Some? then m.unit == unitOf else m.leader == pid
      ensures unitOf.None? ==>
                forall n <- machines :: machines[n].started && machines[n].leader == pid ==> m == machines[n]
      ensures unitOf.Some? ==> (m == null <==> unitOf.value !in units)
      ensures unitOf.Some? && FoundByUnit(machines, units) ==>
                forall n <- machines :: machines[n].started && machines[n].unit == unitOf ==> m == machines[n]
    {
      m := null;
      match unitOf {
        case Some(u) => if u in units { m := units[u]; }
        case None => if pid in leaders { m := leaders[pid]; }
      }
    }

    /** check_idle: of the queued machines only those survive that were started and are still active;
        the machines that are not queued survive as well. */
    method CheckIdle(bus: Bus, replies: string -> Reply) returns (idle: bool)
      requires Inv()
      modifies this, machines.Values`scopeJob, machines.Values`inGcQueue, machines.Values`started
      ensures Inv() && queue == [] && idle == (machines == map[]) && aborted == old(aborted)
      ensures Swept(old(machines), machines, old(queue), old(Verdicts(queue, true, bus)), |old(queue)|)
      ensures forall n <- machines :: n in old(machines) && machines[n] == old(machines)[n]
      ensures old(Positive()) ==> Positive()
      ensures Outlast(old(leaders), leaders) && (old(Tidy()) ==> Tidy()) && shared == old(shared)
      ensures forall n <- machines :: machines[n].started == old(machines[n].started)
      ensures UnitsSwept(old(machines), machines, old(units), units)
    {
      hide Inv, UnitsApart, FoundByUnit, UnitsSwept;
      Gc(true, bus, replies);
      idle := machines == map[];
    }

    lemma UnitsAreMachines()
      requires Inv()
      ensures units.Values <= machines.Values
    {
    }

    /** What is certain after an event, whatever the service manager answers. */
    ghost predicate Done(e: Event)
      reads this, machines.Values, units.Values
    {
      match e
      case Create(_, _, _, _, _, _, _) => true
      case Register(_, _, _, _, _) => true
      case JobRemoved(unit, path) => unit in units ==> units[unit] in queue && units[unit].scopeJob != Some(path)
      case UnitChanged(unit) => unit in units ==> units[unit] in queue
      case Reloading(active) => !active ==> forall n <- machines :: machines[n] in queue
      case Terminate(name, _) => name in machines ==> machines[name] in queue && !machines[name].started
      case Idle(_, _) => queue == []
    }

    /** What becomes of a request. */
    ghost predicate Answered(e: Event, accepted: bool, before: map<string, Machine>)
      reads this`machines, this`queue, machines.Values`leader, machines.Values`started
    {
      (e.Create? || e.Register?) ==>
        if accepted then Serves(e.name, LeaderOf(e.leader, e.sender)) else machines == before
    }

    method Perform(e: Event)
      requires Inv() && !aborted
      modifies this, machines.Values
      ensures Inv() && (old(Positive()) && NamesProcess(e) ==> Positive())
      ensures aborted == old(Aborts(e)) && shared == old(shared)
      ensures forall n <- machines :: (n in old(machines) && machines[n] == old(machines)[n]) || fresh(machines[n])
      ensures !aborted ==> Done(e) && Answered(e, old(Admits(e)), old(machines))
      ensures !aborted ==> Turn(e, old(machines.Keys), machines.Keys)
      ensures old(Tidy()) ==> TidyIfApart()
    {
      hide Inv, Swept, Outlast, UnitsApart, FoundByUnit, UnitsSwept;
      UnitsAreMachines();
      match e {
        case Create(_, _, _, _, _, _, _) => var _ := CreateMachine(e);
        case Register(_, _, _, _, _) => var _ := RegisterMachine(e);
        case JobRemoved(unit, path) => MatchJobRemoved(unit, path);
        case UnitChanged(unit) => MatchUnitChanged(unit);
        case Reloading(active) => MatchReloading(active);
        case Terminate(name, reply) => var _ := TerminateMachine(name, reply);
        case Idle(bus, replies) => var _ := CheckIdle(bus, replies);
      }
    }

    ghost predicate Admits(e: Event)
      reads this`machines
    {
      (e.Create? || e.Register?) && Accepts(e.name, e.argsOk, e.leader, e.sender)
    }

    /** Nothing happens any more once an assertion has failed. */
    method Dispatch(e: Event)
      requires Inv()
      modifies this, machines.Values
      ensures Inv() && (old(Positive()) && NamesProcess(e) ==> Positive())
      ensures aborted == (old(aborted) || old(Aborts(e)))
      ensures forall n <- machines :: (n in old(machines) && machines[n] == old(machines)[n]) || fresh(machines[n])
      ensures !aborted ==> Done(e) && Answered(e, old(Admits(e)), old(machines))
      ensures !aborted ==> Turn(e, old(machines.Keys), machines.Keys)
      ensures shared == (old(shared) || !UnitsApart(machines)) && (old(Tidy()) ==> TidyIfApart())
    {
      hide Inv, UnitsApart, FoundByUnit, Aborts, Positive, NamesProcess;
      if !aborted {
        Perform(e);
      }
      shared := shared || !UnitsApart(machines);
    }

    // ---- startup -------------------------------------------------------------------

    ghost predicate Carries(m: Machine, f: StateFile)
      reads m
    {
      m.unit == f.unit && m.scopeJob == f.scopeJob && m.leader == f.leader
    }

    /** The machines read so far: as the files say, queued and not started. */
    ghost predicate Loaded(files: seq<StateFile>)
      reads this`machines, this`queue, this`units, this`leaders, machines.Values
    {
      && units == map[] && leaders == map[]
      && (forall n <- machines :: machines[n] in queue && !machines[n].started)
      && machines.Keys == FileNames(files)
      && (forall k :: 0 <= k < |files| ==> files[k].name in machines && Carries(machines[files[k].name], files[k]))
    }

    method AddStateFile(f: StateFile, ghost files: seq<StateFile>)
      requires Inv() && Loaded(files) && forall k :: 0 <= k < |files| ==> files[k].name != f.name
      modifies this`machines, this`queue, machines.Values`inGcQueue
      modifies machines.Values`unit, machines.Values`scopeJob, machines.Values`leader
      ensures Inv() && Loaded(files + [f])
      ensures f.name in machines && machines == old(machines)[f.name := machines[f.name]]
      ensures (f.name in old(machines) && machines[f.name] == old(machines)[f.name]) || fresh(machines[f.name])
    {
      hide Inv, FileNames, AllPositive, Directory;
      var m := QueueMachine(f.name);
      InvFacts();
      AppendFile(files, f);
      forall n <- machines | n != f.name
        ensures machines[n] != m
      {
        assert f.name in machines && machines[n].name == n && machines[f.name].name == f.name;
      }
      LoadMachine(m, f);
      forall k | 0 <= k < |files|
        ensures files[k].name in machines && Carries(machines[files[k].name], files[k])
      {
        assert files[k].name in old(machines) && machines[files[k].name] != m;
      }
    }

    method QueueMachine(name: string) returns (m: Machine)
      requires Inv()
      modifies this`machines, this`queue, machines.Values`inGcQueue
      ensures Inv() && machines == old(machines)[name := m] && m in queue && forall x <- old(queue) :: x in queue
      ensures if name in old(machines) then m == old(machines)[name] else fresh(m) && !m.started
    {
      hide Inv;
      m := AddMachine(name);
      AddToGcQueue(m);
    }

    method Enumerate(files: seq<StateFile>)
      requires Inv() && machines == map[] && units == map[] && leaders == map[] && queue == [] && Directory(files)
      modifies this`machines, this`queue
      ensures Inv() && Loaded(files) && forall n <- machines :: fresh(machines[n])
    {
      hide Inv, Loaded;
      NothingLoaded();
      for k := 0 to |files|
        invariant Inv() && Loaded(files[..k]) && forall n <- machines :: fresh(machines[n])
      {
        AddStateFile(files[k], files[..k]);
        assert files[..k] + [files[k]] == files[..k + 1];
      }
      assert files[..|files|] == files;
    }

    lemma NothingLoaded()
      requires machines == map[] && units == map[] && leaders == map[]
      ensures Loaded([])
    {
    }

    method LoadMachine(m: Machine, f: StateFile)
      requires Inv() && Live(m) && units == map[] && leaders == map[] && !m.started
      modifies m`unit, m`scopeJob, m`leader
      ensures Inv() && Carries(m, f)
    {
      m.unit, m.scopeJob, m.leader := f.unit, f.scopeJob, f.leader;
    }

    /** What startup makes of a machine that is kept. One of the machines with its leader is found by
        it; that one, if it has a unit or is granted a scope, is started. */
    ghost predicate Settled(ls: map<int, Machine>, m: Machine, unit: Option<string>, reply: Reply)
      reads m
    {
      && m.leader in ls
      && (m.started <==> ls[m.leader] == m && (unit.Some? || (m.leader > 1 && reply.Job?)))
      && (ls[m.leader] == m ==> unit.Some? || m.leader > 1)
    }

    /** The machines that are left of the files. */
    ghost predicate Kept(files: seq<StateFile>, bus: Bus)
      reads this`machines, machines.Values
    {
      && (forall n <- machines :: n in FileNames(files) && !machines[n].started)
      && (forall k :: 0 <= k < |files| ==>
            && (files[k].name in machines <==> Survives(files[k], bus))
            && (files[k].name in machines ==> Carries(machines[files[k].name], files[k])))
    }

    method LoadMachines(files: seq<StateFile>, bus: Bus, replies: string -> Reply)
      requires Inv() && machines == map[] && units == map[] && leaders == map[] && queue == [] && Directory(files)
      modifies this
      ensures Inv() && Kept(files, bus) && queue == [] && leaders == map[] && aborted == old(aborted) && TidyIfApart()
      ensures forall n <- machines :: fresh(machines[n])
    {
      hide Inv, Swept, Survives, FileNames, Outlast, CheckGc, Verdicts, UnitsSwept, Tidy, TidyIfApart, Directory, Live;
      Enumerate(files);
      LoadedVerdicts(files, bus);
      ghost var before, q, keep := machines, queue, Verdicts(queue, false, bus);
      Gc(false, bus, replies);
      SweptFiles(before, machines, q, keep, files, bus);
      NotStartedIsTidy();
    }

    lemma NotStartedIsTidy()
      requires forall n <- machines :: !machines[n].started
      ensures TidyIfApart()
    {
    }

    lemma LoadedVerdicts(files: seq<StateFile>, bus: Bus)
      requires Loaded(files)
      ensures forall j, k :: 0 <= j < |queue| && 0 <= k < |files| && queue[j] == machines[files[k].name] ==>
                (Verdicts(queue, false, bus)[j] <==> Survives(files[k], bus))
    {
    }

    lemma SweptFiles(before: map<string, Machine>, after: map<string, Machine>, q: seq<Machine>, keep: seq<bool>,
                     files: seq<StateFile>, bus: Bus)
      requires |q| == |keep| && Swept(before, after, q, keep, |q|)
      requires before.Keys == FileNames(files) && forall n <- before :: before[n] in q
      requires forall j, k ::
                 0 <= j < |q| && 0 <= k < |files| && files[k].name in before && q[j] == before[files[k].name] ==>
                   (keep[j] <==> Survives(files[k], bus))
      ensures forall n <- after :: n in before && after[n] == before[n]
      ensures forall k :: 0 <= k < |files| ==> (files[k].name in after <==> Survives(files[k], bus))
    {
    }

    /** What startup makes of the files: exactly the machines that are active are kept, each is settled,
        and the daemon aborts only at one without unit whose leader is no ordinary process. */
    ghost predicate Begun(files: seq<StateFile>, bus: Bus, replies: string -> Reply)
      reads this`machines, this`leaders, this`aborted, machines.Values
    {
      && (forall n <- machines :: n in FileNames(files))
      && (forall k <- leaders :: Live(leaders[k]))
      && (forall k :: 0 <= k < |files| ==>
            && (files[k].name in machines <==> Survives(files[k], bus))
            && (files[k].name in machines ==> machines[files[k].name].leader == files[k].leader))
      && (!aborted ==> forall k :: 0 <= k < |files| && Survives(files[k], bus) ==>
            Settled(leaders, machines[files[k].name], files[k].unit, replies(files[k].name)))
      && (aborted ==>
            exists k :: 0 <= k < |files| && Survives(files[k], bus) && files[k].unit.None? && files[k].leader <= 1)
    }

    method StartKept(files: seq<StateFile>, bus: Bus, replies: string -> Reply)
      requires Inv() && machines == map[] && units == map[] && leaders == map[] && queue == [] && !aborted
      requires Directory(files)
      modifies this
      ensures Inv() && queue == [] && Begun(files, bus, replies) && forall n <- machines :: fresh(machines[n])
      ensures (AllPositive(files) ==> Positive()) && TidyIfApart()
    {
      hide Inv, UnitsApart, FoundByUnit, Settled, Survives, TidyIfApart;
      LoadMachines(files, bus, replies);
      StartAll(replies);
    }

    /** manager_startup: read the files, drop what is stale, start the rest. */
    method Startup(files: seq<StateFile>, bus: Bus, replies: string -> Reply)
      requires Inv() && machines == map[] && units == map[] && leaders == map[] && queue == [] && !aborted
      requires Directory(files)
      modifies this
      ensures Inv() && queue == [] && Begun(files, bus, replies) && forall n <- machines :: fresh(machines[n])
      ensures (AllPositive(files) ==> Positive()) && shared == !UnitsApart(machines) && TidyIfApart()
    {
      hide Inv, UnitsApart, FoundByUnit, Begun, Positive;
      StartKept(files, bus, replies);
      shared := !UnitsApart(machines);
    }

    /** The machines whose turn has not come are as they were, the others are settled. */
    ghost predicate Trying(rest: set<string>, unitOf: map<string, Option<string>>, replies: string -> Reply)
      reads this`machines, this`leaders, machines.Values
    {
      && machines.Keys == unitOf.Keys && rest <= machines.Keys
      && (forall k <- leaders :: Live(leaders[k]))
      && (forall n <- rest :: !machines[n].started && machines[n].unit == unitOf[n])
      && AllSettled(leaders, machines - rest, unitOf, replies)
    }

    ghost predicate AllSettled(ls: map<int, Machine>, ms: map<string, Machine>, unitOf: map<string, Option<string>>,
                               replies: string -> Reply)
      reads ms.Values
    {
      forall n <- ms :: n in unitOf && Settled(ls, ms[n], unitOf[n], replies(n))
    }

    lemma SettledStays(ls: map<int, Machine>, more: map<int, Machine>, ms: map<string, Machine>,
                       unitOf: map<string, Option<string>>, replies: string -> Reply)
      requires AllSettled(ls, ms, unitOf, replies) && forall k <- ls :: k in more && more[k] == ls[k]
      ensures AllSettled(more, ms, unitOf, replies)
    {
      forall n <- ms
        ensures n in unitOf && Settled(more, ms[n], unitOf[n], replies(n))
      {
        var k := ms[n].leader;
        assert k in ls;
        assert more[k] == ls[k];
      }
    }

    lemma SettledNext(ls: map<int, Machine>, ms: map<string, Machine>, rest: set<string>, n: string,
                      unitOf: map<string, Option<string>>, replies: string -> Reply)
      requires n in ms && n in unitOf && AllSettled(ls, ms - rest, unitOf, replies)
      requires Settled(ls, ms[n], unitOf[n], replies(n))
      ensures AllSettled(ls, ms - (rest - {n}), unitOf, replies)
    {
    }

    ghost predicate Fatal(n: string, unitOf: map<string, Option<string>>)
      reads this`machines, machines.Values`leader
    {
      n in machines && n in unitOf && unitOf[n].None? && machines[n].leader <= 1
    }

    method StartOne(m: Machine, scope: string, reply: Reply)
      requires Inv() && Live(m) && !m.started && !aborted
      modifies this`units, this`leaders, this`aborted, m`unit, m`scopeJob, m`started
      ensures Inv() && if aborted then old(m.unit).None? && m.leader <= 1 else Settled(leaders, m, old(m.unit), reply)
      ensures leaders == old(leaders) || (m.leader !in old(leaders) && leaders == old(leaders)[m.leader := m])
      ensures old(TidyIfApart()) ==> TidyIfApart()
    {
      hide Inv, UnitsApart, FoundByUnit;
      var _ := Start(m, scope, reply);
    }

    method StartNext(n: string, rest: set<string>, ghost unitOf: map<string, Option<string>>, replies: string -> Reply)
      requires Inv() && n in rest && Trying(rest, unitOf, replies) && !aborted
      modifies this`units, this`leaders, this`aborted
      modifies machines.Values`unit, machines.Values`scopeJob, machines.Values`started
      ensures Inv() && (old(Positive()) ==> Positive())
      ensures forall k <- leaders :: Live(leaders[k])
      ensures if aborted then Fatal(n, unitOf) else Trying(rest - {n}, unitOf, replies)
      ensures old(TidyIfApart()) ==> TidyIfApart()
    {
      hide Inv, AllSettled, Settled, UnitsApart, FoundByUnit;
      InvFacts();
      StartOne(machines[n], "machine-" + n + ".scope", replies(n));
      if !aborted {
        SettledStays(old(leaders), leaders, machines - rest, unitOf, replies);
        SettledNext(leaders, machines, rest, n, unitOf, replies);
      }
    }

    method StartAll(replies: string -> Reply)
      requires Inv() && leaders == map[] && !aborted && forall n <- machines :: !machines[n].started
      modifies this`units, this`leaders, this`aborted
      modifies machines.Values`unit, machines.Values`scopeJob, machines.Values`started
      ensures Inv() && (old(Positive()) ==> Positive())
      ensures forall k <- leaders :: Live(leaders[k])
      ensures !aborted ==> forall n <- machines :: Settled(leaders, machines[n], old(machines[n].unit), replies(n))
      ensures aborted ==> exists n <- machines :: old(machines[n].unit).None? && machines[n].leader <= 1
      ensures old(TidyIfApart()) ==> TidyIfApart()
    {
      hide Inv, Positive, UnitsApart, FoundByUnit;
      ghost var unitOf := map n | n in machines :: machines[n].unit;
      var rest := machines.Keys;
      while rest != {}
        invariant Inv() && !aborted && Trying(rest, unitOf, replies) && (old(Positive()) ==> Positive())
        invariant old(TidyIfApart()) ==> TidyIfApart()
      {
        var n :| n in rest;
        StartNext(n, rest, unitOf, replies);
        if aborted {
          return;
        }
        rest := rest - {n};
      }
    }

    lemma KeptNames(files: seq<StateFile>, bus: Bus, replies: string -> Reply)
      requires Begun(files, bus, replies)
      ensures machines.Keys == set k | 0 <= k < |files| && Survives(files[k], bus) :: files[k].name
    {
    }

    /** The names after every event. */
    ghost predicate Turns(events: seq<Event>, names: seq<set<string>>) {
      |names| == |events| + 1 && forall k :: 0 <= k < |events| ==> Turn(events[k], names[k], names[k + 1])
    }

    lemma TurnsNext(events: seq<Event>, k: nat, names: seq<set<string>>, next: set<string>)
      requires k < |events| && |names| == k + 1
      ensures Turns(events[..k], names) && Turn(events[k], names[k], next) ==> Turns(events[..k + 1], names + [next])
    {
    }

    /** Files and requests that name ordinary processes. */
    ghost predicate Ordinary(files: seq<StateFile>, events: seq<Event>) {
      && (forall k :: 0 <= k < |files| ==> files[k].leader > 1)
      && (forall k :: 0 <= k < |events| ==> NamesOrdinary(events[k]))
    }

    /** From startup on, whatever comes in: no index leads to a freed machine, and as long as no two
        machines carry one unit at the same time, every started machine is found by its unit. The names
        that are registered begin with the files of active machines, and every event does its part. */
    method Run(files: seq<StateFile>, bus: Bus, replies: string -> Reply, events: seq<Event>)
      returns (ghost names: seq<set<string>>)
      requires Inv() && machines == map[] && units == map[] && leaders == map[] && queue == [] && !aborted
      requires Directory(files)
      modifies this
      ensures Inv()
      ensures !shared ==> UnitsApart(machines) && FoundByUnit(machines, units)
      ensures Ordinary(files, events) ==> !aborted
      ensures |names| == |events| + 1 && (!aborted ==> names[|events|] == machines.Keys && Turns(events, names))
      ensures names[0] == set k | 0 <= k < |files| && Survives(files[k], bus) :: files[k].name
      ensures !aborted && events != [] ==> Done(events[|events| - 1])
      ensures AllPositive(files) &&
              (forall k :: 0 <= k < |events| ==> NamesProcess(events[k])) ==>
                && (forall n <- machines :: machines[n] !in freed)
                && (forall u <- units :: units[u] !in freed)
                && (forall k <- leaders :: leaders[k] !in freed)
    {
      hide Inv, UnitsApart, FoundByUnit;
      Startup(files, bus, replies);
      ghost var good := AllPositive(files) &&
                        (forall k :: 0 <= k < |events| ==> NamesProcess(events[k]));
      KeptNames(files, bus, replies);
      names := [machines.Keys];
      for k := 0 to |events|
        invariant Inv() && (good ==> Positive()) && forall n <- machines :: fresh(machines[n])
        invariant Ordinary(files, events) ==> !aborted
        invariant !shared ==> Tidy()
        invariant |names| == k + 1 && (!aborted ==> names[k] == machines.Keys && Turns(events[..k], names))
        invariant names[0] == set k | 0 <= k < |files| && Survives(files[k], bus) :: files[k].name
        invariant !aborted && k > 0 ==> Done(events[k - 1])
      {
        Dispatch(events[k]);
        TurnsNext(events, k, names, machines.Keys);
        names := names + [machines.Keys];
      }
      assert events[..|events|] == events;
      if good {
        NoDangling();
      }
    }
  }

  /** A state file without a leader, for a machine whose unit is active: the machine is started. */
  method StartLeaderless() returns (m: Manager)
    ensures fresh(m) && m.Inv() && !m.aborted && "a" in m.machines && 0 in m.leaders && m.leaders[0] == m.machines["a"]
    ensures forall n <- m.machines :: fresh(m.machines[n])
  {
    hide Manager.Inv;
    var files, bus := [StateFile("a", Some("u"), None, 0)], Bus(_ => false, _ => true);
    m := new Manager();
    m.Startup(files, bus, _ => Refused(EINVAL));
    assert files[0].name == "a" && Survives(files[0], bus);
    m.InvFacts();
  }

  /** It is terminated and collected once the unit is gone, and the leader index still leads to it. */
  method DanglingLeader() returns (m: Manager)
    ensures fresh(m) && m.Inv() && !m.aborted && m.Dangling(0)
  {
    hide Manager.Inv;
    m := StartLeaderless();
    var _ := m.TerminateMachine("a", Job("j"));
    ghost var q, a := m.queue, m.machines["a"];
    ghost var k :| 0 <= k < |q| && q[k] == a;
    m.InvFacts();
    var _ := m.CheckIdle(Bus(_ => false, _ => false), _ => Refused(EINVAL));
    assert "a" !in m.machines;
  }

  /** A request to create a machine whose leader does not fit into a pid_t. */
  method AbortingLeader() returns (m: Manager)
    ensures fresh(m) && m.aborted
  {
    m := new Manager();
    m.Startup([], Bus(_ => false, _ => false), _ => Refused(EINVAL));
    m.Dispatch(Create("a", true, 0x8000_0000, None, 0, "a.scope", Job("j")));
  }

  /** Two machines in one unit. */
  method ShareUnit() returns (m: Manager)
    ensures fresh(m) && m.Inv() && !m.aborted && m.machines.Keys == {"a", "b"} && m.queue == []
    ensures forall n <- m.machines :: fresh(m.machines[n]) && m.machines[n].started && m.machines[n].unit == Some("u")
    ensures m.machines["a"] != m.machines["b"] && !m.machines["b"].inGcQueue
  {
    hide Manager.Inv, Manager.FoundByUnit, Manager.UnitsApart;
    m := new Manager();
    var _ := m.RegisterMachine(Register("a", true, 10, None, Some("u")));
    var _ := m.RegisterMachine(Register("b", true, 11, None, Some("u")));
    m.InvFacts();
    m.QueueIsEmpty();
  }

  /** The second is terminated and collected, and takes the unit of the first out of the index: the
      first is alive and started, and its unit does not lead to it. */
  method LostUnit() returns (m: Manager, found: Machine?)
    ensures fresh(m) && m.Inv() && !m.aborted && "a" in m.machines
    ensures m.machines["a"].started && m.machines["a"].unit == Some("u") && "u" !in m.units && found == null
  {
    hide Manager.Inv, Manager.FoundByUnit, Manager.UnitsApart;
    m := ShareUnit();
    var _ := m.TerminateMachine("b", Job("j"));
    ghost var q, b := m.queue, m.machines["b"];
    assert q == [b];
    var _ := m.CheckIdle(Bus(_ => false, _ => true), _ => Refused(EINVAL));
    assert "b" !in m.machines;
    found := m.GetMachineByPid(10, Some("u"));
  }
}
