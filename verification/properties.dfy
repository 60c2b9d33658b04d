/*
 * Properties that relate several requests to one another: what one request
 * undoes of another, that a deleted activity's name can be taken again with
 * none of the old participants, and which invariants hold along any run of
 * requests.
 */
module Properties {
  import opened Database
  import opened App

  /** Signing up and then unregistering the same student gives back the store as it was. */
  lemma SignupThenUnregister(reg: Registry, activityName: string, email: string)
    requires Signup(reg, activityName, email).status == Ok
    ensures Unregister(Signup(reg, activityName, email).after, activityName, email) == Outcome(Ok, reg)
  {
    var activity := reg[activityName];
    var signed := Signup(reg, activityName, email).after;
    RemoveFirstAppended(activity.participants, email);
    assert signed[activityName := activity] == reg;
  }

  /**
   * When a signup takes the last free place, the next new student is turned
   * away as Full, and a student already on the list still gets AlreadySignedUp.
   */
  lemma SignupTakesLastPlace(reg: Registry, activityName: string, email: string, other: string)
    requires Signup(reg, activityName, email).status == Ok
    requires |reg[activityName].participants| + 1 == reg[activityName].maxParticipants
    ensures other !in reg[activityName].participants && other != email ==>
      Signup(Signup(reg, activityName, email).after, activityName, other).status == Full
    ensures Signup(Signup(reg, activityName, email).after, activityName, email).status == AlreadySignedUp
  {
  }

  /** Creating an activity and then deleting it gives back the store as it was. */
  lemma CreateThenDelete(reg: Registry, req: ActivityCreate)
    requires Create(reg, req).status == Ok
    ensures Delete(Create(reg, req).after, req.name) == Outcome(Ok, reg)
  {
    assert Create(reg, req).after - {req.name} == reg;
  }

  /**
   * Deleting an activity frees its name: creating it again succeeds, and the
   * new activity starts without any of the deleted one's participants.
   */
  lemma DeleteThenCreate(reg: Registry, req: ActivityCreate)
    requires Delete(reg, req.name).status == Ok
    ensures Create(Delete(reg, req.name).after, req).status == Ok
    ensures Create(Delete(reg, req.name).after, req).after ==
      reg[req.name := Activity(req.description, req.schedule, req.maxParticipants, [])]
  {
    var deleted := Delete(reg, req.name).after;
    assert deleted[req.name := Activity(req.description, req.schedule, req.maxParticipants, [])] ==
      reg[req.name := Activity(req.description, req.schedule, req.maxParticipants, [])];
  }

  /** Writing back the old description, schedule and maximum undoes any update. */
  lemma UpdateThenRestore(reg: Registry, activityName: string, u: ActivityUpdate)
    requires Update(reg, activityName, u).status == Ok
    ensures var before := reg[activityName];
      Update(Update(reg, activityName, u).after, activityName,
             ActivityUpdate(Some(before.description), Some(before.schedule), Some(before.maxParticipants)))
        == Outcome(Ok, reg)
  {
    var before := reg[activityName];
    var updated := Update(reg, activityName, u).after;
    assert updated[activityName := before] == reg;
  }

  /**
   * Create, then update one field: the listing shows the new value in that
   * field and the created values everywhere else.
   */
  lemma CreateThenUpdateSchedule(reg: Registry, req: ActivityCreate, schedule: string)
    requires Create(reg, req).status == Ok
    ensures var created := Create(reg, req).after;
      Update(created, req.name, ActivityUpdate(None, Some(schedule), None)) ==
        Outcome(Ok, created[req.name := Activity(req.description, schedule, req.maxParticipants, [])])
  {
    var created := Create(reg, req).after;
    var updated := Update(created, req.name, ActivityUpdate(None, Some(schedule), None)).after;
    assert updated == created[req.name := Activity(req.description, schedule, req.maxParticipants, [])];
  }

  /**
   * On the freshly seeded store, Chess Club (maximum 12) holds two students:
   * a new student gets the third place, and one of the two already on it is
   * told they are already signed up.
   */
  lemma SeededChessClub(email: string)
    requires email != "michael@mergington.edu" && email != "daniel@mergington.edu"
    ensures Signup(Seed(map[], InitialActivities), "Chess Club", "daniel@mergington.edu").status
      == AlreadySignedUp
    ensures Signup(Seed(map[], InitialActivities), "Chess Club", email).status == Ok
    ensures |Signup(Seed(map[], InitialActivities), "Chess Club", email).after["Chess Club"].participants| == 3
  {
    SeededChessClubEntry();
  }

  // ---------------------------------------------------------------------
  // Runs of requests
  // ---------------------------------------------------------------------

  /** One request to one of the handlers that change the store. */
  datatype Request =
    | SignupRequest(activityName: string, email: string)
    | UnregisterRequest(activityName: string, email: string)
    | CreateRequest(body: ActivityCreate)
    | UpdateRequest(activityName: string, changes: ActivityUpdate)
    | DeleteRequest(activityName: string)

  function Handle(reg: Registry, r: Request): Outcome
  {
    match r
    case SignupRequest(n, e) => Signup(reg, n, e)
    case UnregisterRequest(n, e) => Unregister(reg, n, e)
    case CreateRequest(body) => Create(reg, body)
    case UpdateRequest(n, changes) => Update(reg, n, changes)
    case DeleteRequest(n) => Delete(reg, n)
  }

  /** The store after serving the requests one after another. */
  function Serve(reg: Registry, rs: seq<Request>): Registry
    decreases |rs|
  {
    if rs == [] then reg else Serve(Handle(reg, rs[0]).after, rs[1..])
  }

  /** A request that cannot push any activity over its maximum. */
  predicate KeepsCapacity(r: Request)
  {
    match r
    case CreateRequest(body) => body.maxParticipants >= 0
    case UpdateRequest(_, changes) => changes.maxParticipants.None?
    case _ => true
  }

  /** No run of requests ever signs a student up twice for one activity. */
  lemma {:induction false} ServeKeepsConsistent(reg: Registry, rs: seq<Request>)
    requires Consistent(reg)
    ensures Consistent(Serve(reg, rs))
    decreases |rs|
  {
    if rs != [] {
      ServeKeepsConsistent(Handle(reg, rs[0]).after, rs[1..]);
    }
  }

  /**
   * Starting within capacity, a run of requests none of which creates an
   * activity with a negative maximum or changes a maximum stays within
   * capacity: signups refuse a full activity, and no other request adds a
   * participant.
   */
  lemma {:induction false} ServeKeepsCapacity(reg: Registry, rs: seq<Request>)
    requires WithinCapacity(reg)
    requires forall k :: 0 <= k < |rs| ==> KeepsCapacity(rs[k])
    ensures WithinCapacity(Serve(reg, rs))
    decreases |rs|
  {
    if rs != [] {
      assert KeepsCapacity(rs[0]);
      ServeKeepsCapacity(Handle(reg, rs[0]).after, rs[1..]);
    }
  }

  /** A maximum lowered below the current number of participants breaks the capacity invariant. */
  lemma UpdateCanBreakCapacity(reg: Registry, activityName: string, newMax: int)
    requires activityName in reg
    requires newMax < |reg[activityName].participants|
    ensures Update(reg, activityName, ActivityUpdate(None, None, Some(newMax))).status == Ok
    ensures !WithinCapacity(Update(reg, activityName, ActivityUpdate(None, None, Some(newMax))).after)
  {
    var after := Update(reg, activityName, ActivityUpdate(None, None, Some(newMax))).after;
    assert |after[activityName].participants| > after[activityName].maxParticipants;
  }
}
