/**
 * The task manager controller: the process table it keeps, the three
 * admission rules for a create request, the three kill operations and the
 * two queries. Each action is one atomic step on the table; the system
 * clock is a logical counter that ticks whenever the current time is read,
 * which a create action does only once the request's priority name has parsed.
 */
module Controllers {

  import opened Wrappers
  import opened Models
  import opened ProcessTable

  /** What an action answers, by HTTP status. */
  datatype Response =
    | Created(created: ProcessDTO)  // 201 with the new record
    | Found(found: ProcessDTO)      // 200 with one record
    | Deleted                       // 200 with a text message naming what was killed
    | BadRequest                    // 400: no request body
    | NoLowerPriority               // 400: nothing of lower priority to evict
    | InsufficientStorage           // 507: table full under the default rule
    | InternalError                 // 500: an exception inside the action
    | NotFound                      // 404

  /** The record as the API returns it: priority by name. */
  function ProcessToDTO(p: Process): (d: ProcessDTO)
    ensures d.pid == p.pid && d.createdAt == p.createdAt
    ensures ParsePriority(d.priority) == Some(p.priority)
  {
    NameRoundTrip(p.priority);
    ProcessDTO(p.pid, PriorityName(p.priority), p.createdAt)
  }

  /**
   * The record a create request describes, stamped with `now`; None where the
   * priority name does not parse (the parse throws and the action answers 500).
   */
  function ProcessDTOToProcess(d: ProcessDTO, now: nat): (r: Option<Process>)
    ensures r.None? <==> ParsePriority(d.priority).None?
    ensures r.Some? ==> r.value.pid == d.pid && r.value.createdAt == now
    ensures r.Some? ==> PriorityName(r.value.priority) == d.priority
  {
    match ParsePriority(d.priority)
    case None => None
    case Some(p) => Some(Process(d.pid, p, now))
  }

  /** Converting a record to its transfer object and back gives the record again. */
  lemma RecordRoundTrip(p: Process)
    ensures ProcessDTOToProcess(ProcessToDTO(p), p.createdAt) == Some(p)
  {
  }

  /** Converting a well-formed request to a record and back gives the request, stamped with `now`. */
  lemma RequestRoundTrip(d: ProcessDTO, now: nat)
    requires ParsePriority(d.priority).Some?
    ensures ProcessToDTO(ProcessDTOToProcess(d, now).value) == d.(createdAt := now)
  {
  }

  /**
   * The outcome of adding `p` to the table `before`: the store refuses a PID it
   * already holds (an exception, answered with 500); otherwise `p` is appended.
   */
  predicate AddOutcome(before: seq<Process>, p: Process, r: Response, after: seq<Process>) {
    if HasPid(before, p.pid) then r == InternalError && after == before
    else r == Created(ProcessToDTO(p)) && after == before + [p]
  }

  class TaskManagerController {
    /** The stored records in store order. */
    var procs: seq<Process>
    /** The logical clock standing for the current time. */
    var clock: nat
    /** The table's capacity, read from the configuration when the controller is built. */
    const capacity: int

    /** PID is the key, records are in creation order, and every creation time lies in the past. */
    ghost predicate Valid()
      reads this
    {
      && UniquePids(procs)
      && StrictlyAged(procs)
      && forall i :: 0 <= i < |procs| ==> procs[i].createdAt < clock
    }

    /** No more records than the capacity. */
    predicate WithinCapacity()
      reads this
    {
      |procs| <= capacity
    }

    constructor (capacity: int)
      ensures Valid()
      ensures procs == [] && clock == 0 && this.capacity == capacity
      ensures capacity >= 0 ==> WithinCapacity()
    {
      procs := [];
      clock := 0;
      this.capacity := capacity;
    }

    // -------------------------------------------------------------------------
    // Queries
    // -------------------------------------------------------------------------

    /** Every record once, ordered by creation time, then priority, then PID. */
    method GetProcesses() returns (r: seq<ProcessDTO>)
      requires Valid()
      ensures |r| == |procs|
      ensures forall i :: 0 <= i < |r| ==> r[i] == ProcessToDTO(SortForListing(procs)[i])
      ensures forall i :: 0 <= i < |r| ==> r[i] == ProcessToDTO(procs[i])
    {
      var view := SortForListing(procs);
      assert |view| == |procs| by {
        assert |multiset(view)| == |multiset(procs)|;
      }
      r := seq(|view|, i requires 0 <= i < |view| => ProcessToDTO(view[i]));
      ListingKeepsCreationOrder(procs);
    }

    /** The record with PID `id`, or NotFound (also for ids no record can have, such as negative ones). */
    method GetProcess(id: int) returns (r: Response)
      ensures r.NotFound? <==> !HasPid(procs, id)
      ensures !r.NotFound? ==> r.Found? && r.found.pid == id
      ensures r.Found? ==> exists i :: 0 <= i < |procs| && procs[i].pid == id && r.found == ProcessToDTO(procs[i])
    {
      var k := IndexOfPid(procs, id);
      if k.None? {
        return NotFound;
      }
      r := Found(ProcessToDTO(procs[k.value]));
    }

    // -------------------------------------------------------------------------
    // Store operations shared by the actions
    // -------------------------------------------------------------------------

    /** Adds `p` and saves; a PID already present makes the save fail and nothing is added. */
    method Insert(p: Process) returns (r: Response)
      requires Valid()
      requires p.createdAt < clock
      requires forall x :: x in procs ==> x.createdAt < p.createdAt
      modifies this
      ensures Valid() && clock == old(clock)
      ensures AddOutcome(old(procs), p, r, procs)
    {
      if IndexOfPid(procs, p.pid).Some? {
        return InternalError;
      }
      procs := procs + [p];
      r := Created(ProcessToDTO(p));
    }

    /** Removes, one by one, the record with each victim's PID. */
    method RemoveEach(victims: seq<Process>)
      requires Valid()
      modifies this
      ensures Valid() && clock == old(clock)
      ensures procs == WithoutPids(old(procs), PidsOf(victims))
    {
      WithoutAbsentPids(procs, {});
      var i := 0;
      while i < |victims|
        invariant 0 <= i <= |victims|
        invariant Valid() && clock == old(clock)
        invariant procs == WithoutPids(old(procs), PidsOf(victims[..i]))
      {
        var id := victims[i].pid;
        var before := procs;
        WithoutPidsTwice(old(procs), PidsOf(victims[..i]), {id});
        PidsOfConcat(victims[..i], [victims[i]]);
        assert PidsOf([victims[i]]) == {id} by {
          assert [victims[i]][1..] == [];
        }
        assert victims[..i + 1] == victims[..i] + [victims[i]];
        WithoutPidsKeepsUnique(procs, {id});
        WithoutPidsKeepsAge(procs, {id});
        WithoutPidsMembers(procs, {id});
        procs := WithoutPids(procs, {id});
        forall j | 0 <= j < |procs| ensures procs[j].createdAt < clock {
          assert procs[j] in before;
        }
        i := i + 1;
      }
      assert victims[..i] == victims;
    }

    // -------------------------------------------------------------------------
    // Kill actions
    // -------------------------------------------------------------------------

    /** Kills the record with PID `id`; NotFound with no change when there is none. */
    method KillProcessDefault(id: int) returns (r: Response)
      requires Valid()
      modifies this
      ensures Valid() && clock == old(clock)
      ensures !HasPid(old(procs), id) ==> r == NotFound && procs == old(procs)
      ensures HasPid(old(procs), id) ==> r == Deleted && procs == WithoutPids(old(procs), {id})
      ensures HasPid(old(procs), id) ==> |procs| == |old(procs)| - 1
      ensures forall x :: x in procs <==> x in old(procs) && x.pid != id
    {
      var k := IndexOfPid(procs, id);
      if k.None? {
        return NotFound;
      }
      WithoutPidAt(procs, k.value, id);
      WithoutPidsKeepsUnique(procs, {id});
      WithoutPidsKeepsAge(procs, {id});
      WithoutPidsMembers(procs, {id});
      procs := procs[..k.value] + procs[k.value + 1..];
      r := Deleted;
    }

    /**
     * Kills every record whose priority name equals `priority` ignoring case,
     * keeping the others in order; NotFound with no change when none matches.
     */
    method KillAllProcessesOfPriority(priority: string) returns (r: Response)
      requires Valid()
      modifies this
      ensures Valid() && clock == old(clock)
      ensures OfPriorityName(old(procs), priority) == [] ==> r == NotFound && procs == old(procs)
      ensures OfPriorityName(old(procs), priority) != [] ==>
        r == Deleted && procs == OtherPriorities(old(procs), priority)
      ensures forall x :: x in procs <==> x in old(procs) && !MatchesName(x.priority, priority)
    {
      var victims := OfPriorityName(procs, priority);
      if |victims| == 0 {
        return NotFound;
      }
      RemoveMatchingLeavesOthers(procs, priority);
      RemoveEach(victims);
      r := Deleted;
    }

    /** Kills every record; NotFound with no change when the table is already empty. */
    method KillAllProcesses() returns (r: Response)
      requires Valid()
      modifies this
      ensures Valid() && clock == old(clock)
      ensures old(procs) == [] ==> r == NotFound && procs == old(procs)
      ensures old(procs) != [] ==> r == Deleted && procs == []
    {
      var victims := procs;
      if |victims| == 0 {
        return NotFound;
      }
      WithoutAllPids(procs);
      RemoveEach(victims);
      r := Deleted;
    }

    // -------------------------------------------------------------------------
    // Create actions
    // -------------------------------------------------------------------------

    /**
     * The default rule: a full table (count equal to the capacity) answers 507;
     * otherwise the record is added.
     */
    method CreateNewProcessDefault(request: Option<ProcessDTO>) returns (r: Response)
      requires Valid()
      modifies this
      ensures Valid()
      ensures request.None? ==> r == BadRequest && procs == old(procs) && clock == old(clock)
      ensures request.Some? && old(|procs|) == capacity ==>
        r == InsufficientStorage && procs == old(procs) && clock == old(clock)
      ensures request.Some? && old(|procs|) != capacity ==>
        match ProcessDTOToProcess(request.value, old(clock))
        case None => r == InternalError && procs == old(procs) && clock == old(clock)
        case Some(p) => clock == old(clock) + 1 && AddOutcome(old(procs), p, r, procs)
      ensures r.Created? ==> |procs| == old(|procs|) + 1
      ensures old(WithinCapacity()) ==> WithinCapacity()
    {
      if request.None? {
        return BadRequest;
      }
      if |procs| == capacity {
        return InsufficientStorage;
      }
      var conv := ProcessDTOToProcess(request.value, clock);
      if conv.None? {
        return InternalError;
      }
      clock := clock + 1;
      r := Insert(conv.value);
    }

    /**
     * The FIFO rule: at capacity the first record of the store's scan is killed
     * (and that is saved), then the record is added. An empty table at capacity
     * zero has no first record: the action answers 500.
     */
    method CreateNewProcessFIFO(request: Option<ProcessDTO>) returns (r: Response)
      requires Valid()
      modifies this
      ensures Valid()
      ensures request.None? ==> r == BadRequest && procs == old(procs) && clock == old(clock)
      ensures request.Some? && old(|procs|) == capacity == 0 ==>
        r == InternalError && procs == old(procs) && clock == old(clock)
      ensures request.Some? && !(old(|procs|) == capacity == 0) ==>
        var kept := if old(|procs|) == capacity then old(procs)[1..] else old(procs);
        match ProcessDTOToProcess(request.value, old(clock))
        case None => r == InternalError && procs == kept && clock == old(clock)
        case Some(p) => clock == old(clock) + 1 && AddOutcome(kept, p, r, procs)
      ensures request.Some? && old(|procs|) == capacity && r.Created? ==> |procs| == capacity
      ensures request.Some? && old(|procs|) == capacity > 0 ==>
        old(procs)[0] == SortForListing(old(procs))[0] && old(procs)[0] !in procs
      ensures old(WithinCapacity()) ==> WithinCapacity()
    {
      if request.None? {
        return BadRequest;
      }
      if |procs| == capacity {
        if |procs| == 0 {
          return InternalError;
        }
        ListingKeepsCreationOrder(procs);
        WithoutHeadPid(procs);
        var _ := KillProcessDefault(procs[0].pid);
      }
      var conv := ProcessDTOToProcess(request.value, clock);
      if conv.None? {
        return InternalError;
      }
      clock := clock + 1;
      r := Insert(conv.value);
    }

    /**
     * The priority rule: at capacity the oldest record, by (creation time,
     * priority), of strictly lower priority than the request is killed before the
     * record is added, and when there is none the action answers 400; below
     * capacity the record is added; above capacity the action answers 500.
     */
    method CreateNewProcessPriorityBased(request: Option<ProcessDTO>) returns (r: Response)
      requires Valid()
      modifies this
      ensures Valid()
      ensures request.None? ==> r == BadRequest && procs == old(procs) && clock == old(clock)
      ensures request.Some? && ProcessDTOToProcess(request.value, old(clock)).None? ==>
        r == InternalError && procs == old(procs) && clock == old(clock)
      ensures request.Some? && ProcessDTOToProcess(request.value, old(clock)).Some? ==>
        clock == old(clock) + 1
      ensures request.Some? && ProcessDTOToProcess(request.value, old(clock)).Some? ==>
        var p := ProcessDTOToProcess(request.value, old(clock)).value;
        if old(|procs|) == capacity then
          match OldestBelow(old(procs), p.priority)
          case None => r == NoLowerPriority && procs == old(procs)
          case Some(k) => AddOutcome(WithoutPids(old(procs), {old(procs)[k].pid}), p, r, procs)
        else if old(|procs|) < capacity then AddOutcome(old(procs), p, r, procs)
        else r == InternalError && procs == old(procs)
      ensures request.Some? && ProcessDTOToProcess(request.value, old(clock)).Some? ==>
        forall x :: x in old(procs) && x !in procs ==>
          Below(x.priority, ProcessDTOToProcess(request.value, old(clock)).value.priority)
      ensures WithinCapacity() || procs == old(procs)
      ensures old(WithinCapacity()) ==> WithinCapacity()
    {
      if request.None? {
        return BadRequest;
      }
      var conv := ProcessDTOToProcess(request.value, clock);
      if conv.None? {
        return InternalError;
      }
      clock := clock + 1;
      var p := conv.value;
      var evicted := false;
      if |procs| == capacity {
        var k := OldestBelow(procs, p.priority);
        if k.None? {
          return NoLowerPriority;
        }
        var _ := KillProcessDefault(procs[k.value].pid);
        evicted := true;
      }
      if evicted || |procs| < capacity {
        r := Insert(p);
      } else {
        r := InternalError;
      }
    }
  }

  /** Capacity 2 holding records 1 (low) and 2 (given priority), created in that order. */
  method TwoRecords(second: string) returns (c: TaskManagerController)
    requires ParsePriority(second).Some?
    ensures fresh(c) && c.Valid() && c.capacity == 2 && c.clock == 2
    ensures c.procs == [Process(1, Low, 0), Process(2, ParsePriority(second).value, 1)]
  {
    c := new TaskManagerController(2);
    var r1 := c.CreateNewProcessDefault(Some(ProcessDTO(1, "low", 0)));
    assert c.procs == [Process(1, Low, 0)];
    var r2 := c.CreateNewProcessDefault(Some(ProcessDTO(2, second, 0)));
  }

  /** FIFO at capacity evicts record 1 and admits 3. */
  method FifoScenario() {
    var c := TwoRecords("high");
    var r := c.CreateNewProcessFIFO(Some(ProcessDTO(3, "medium", 0)));
    assert c.procs == [Process(2, High, 1), Process(3, Medium, 2)];
  }

  /** Priority at capacity evicts the low record 1 for a medium request. */
  method PriorityScenario() {
    var c := TwoRecords("high");
    assert OldestBelow(c.procs, Medium) == Some(0);
    var r := c.CreateNewProcessPriorityBased(Some(ProcessDTO(3, "medium", 0)));
    assert c.procs == [Process(2, High, 1), Process(3, Medium, 2)];
  }

  /** Priority at capacity rejects a low request: nothing is below low. */
  method PriorityRejectScenario() {
    var c := TwoRecords("medium");
    var r := c.CreateNewProcessPriorityBased(Some(ProcessDTO(3, "low", 0)));
    assert r == NoLowerPriority;
  }

  /** The default rule rejects at capacity; kill by a priority name in capitals. */
  method DefaultAndKillScenario() {
    var c := TwoRecords("high");
    var r := c.CreateNewProcessDefault(Some(ProcessDTO(3, "medium", 0)));
    assert r == InsufficientStorage;
    MatchesUpperCaseName();
    var k := c.KillAllProcessesOfPriority("HIGH");
    assert k == Deleted;
  }

}
