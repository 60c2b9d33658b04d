/*
 * The request handlers of the activity service: listing the activities,
 * signing a student up or off, and the administrators' create, update and
 * delete. Each handler is a short run of checks followed by one change to
 * the store; a failing check raises before anything is written, so a
 * failing request leaves the store as it was.
 *
 * Every handler is given twice: as a pure transition function from the
 * store before to its status and the store after (Signup, Unregister,
 * Create, Update, Delete), which the lemmas reason about, and as a method
 * that changes the session's store in place and is proved to follow it.
 */
module App {
  import opened Database

  datatype Option<T> = None | Some(value: T)

  /** The outcome of a request: success, or the HTTP error it raises. */
  datatype Status =
    | Ok
    | NotFound          // 404 "Activity not found"
    | AlreadySignedUp   // 400 "Student is already signed up"
    | Full              // 400 "Activity is full"
    | NotSignedUp       // 400 "Student is not signed up for this activity"
    | NameExists        // 400 "Activity with this name already exists"

  /** The status a request ends with and the store it leaves behind. */
  datatype Outcome = Outcome(status: Status, after: Registry)

  /** Body of the create request. */
  datatype ActivityCreate = ActivityCreate(
    name: string,
    description: string,
    schedule: string,
    maxParticipants: int)

  /** Body of the update request: a field left out stays as it is. */
  datatype ActivityUpdate = ActivityUpdate(
    description: Option<string>,
    schedule: Option<string>,
    maxParticipants: Option<int>)

  /** The value a field takes after an update: the given one, or the current one when none is given. */
  function Choose<T>(given: Option<T>, current: T): (r: T)
    ensures given == None ==> r == current
    ensures given != None ==> given == Some(r)
  {
    if given.Some? then given.value else current
  }

  /**
   * The participant list without the first row holding `email`: the row the
   * unregister request deletes. The other rows keep their order.
   */
  function RemoveFirst(emails: seq<string>, email: string): (r: seq<string>)
    ensures email !in emails ==> r == emails
    ensures email in emails ==> |r| == |emails| - 1
    ensures multiset(r) == multiset(emails) - multiset{email}
  {
    if emails == [] then []
    else if emails[0] == email then
      assert emails == [emails[0]] + emails[1..];
      emails[1..]
    else
      assert emails == [emails[0]] + emails[1..];
      [emails[0]] + RemoveFirst(emails[1..], email)
  }

  /** A list starting with `first` has no repeats iff its tail has none and does not hold `first`. */
  lemma NoDuplicatesCons(first: string, rest: seq<string>)
    ensures NoDuplicates([first] + rest) <==> first !in rest && NoDuplicates(rest)
  {
    var s := [first] + rest;
    if first !in rest && NoDuplicates(rest) {
      forall i, j | 0 <= i < j < |s|
        ensures s[i] != s[j]
      {
        if i > 0 {
          assert s[i] == rest[i - 1] && s[j] == rest[j - 1];
        } else {
          assert s[j] == rest[j - 1];
        }
      }
    }
    if NoDuplicates(s) {
      forall i, j | 0 <= i < j < |rest|
        ensures rest[i] != rest[j]
      {
        assert rest[i] == s[i + 1] && rest[j] == s[j + 1];
      }
      forall i | 0 <= i < |rest|
        ensures rest[i] != first
      {
        assert rest[i] == s[i + 1] && first == s[0];
      }
    }
  }

  /** Removing a student from a list without repeats leaves no repeats and no trace of that student. */
  lemma {:induction false} RemoveFirstNoDuplicates(emails: seq<string>, email: string)
    ensures NoDuplicates(emails) ==>
      NoDuplicates(RemoveFirst(emails, email)) && email !in RemoveFirst(emails, email)
  {
    if emails != [] && NoDuplicates(emails) {
      var first, rest := emails[0], emails[1..];
      assert emails == [first] + rest;
      NoDuplicatesCons(first, rest);
      if first != email {
        RemoveFirstNoDuplicates(rest, email);
        var removed := RemoveFirst(rest, email);
        assert first !in removed by {
          assert multiset(removed) <= multiset(rest);
          assert first !in multiset(rest);
        }
        NoDuplicatesCons(first, removed);
      }
    }
  }

  /** Removing what was just appended gives back the list it was appended to. */
  lemma {:induction false} RemoveFirstAppended(emails: seq<string>, email: string)
    requires email !in emails
    ensures RemoveFirst(emails + [email], email) == emails
  {
    if emails != [] {
      assert (emails + [email])[1..] == emails[1..] + [email];
      RemoveFirstAppended(emails[1..], email);
    }
  }

  /**
   * Signing `email` up for `activityName`. The checks run in the source's
   * order: the activity exists, the student is not yet on it, there is a
   * free place; only then is the participant added.
   */
  function Signup(reg: Registry, activityName: string, email: string): (out: Outcome)
    ensures out.status in {Ok, NotFound, AlreadySignedUp, Full}
    ensures out.status == NotFound <==> activityName !in reg
    ensures out.status == AlreadySignedUp <==>
      activityName in reg && email in reg[activityName].participants
    ensures out.status == Full <==>
      activityName in reg && email !in reg[activityName].participants &&
      |reg[activityName].participants| >= reg[activityName].maxParticipants
    ensures out.status != Ok ==> out.after == reg
    ensures out.status == Ok ==>
      out.after.Keys == reg.Keys &&
      (forall name :: name in reg && name != activityName ==> out.after[name] == reg[name]) &&
      out.after[activityName] ==
        reg[activityName].(participants := reg[activityName].participants + [email])
    ensures Consistent(reg) ==> Consistent(out.after)
    ensures WithinCapacity(reg) ==> WithinCapacity(out.after)
  {
    if activityName !in reg then Outcome(NotFound, reg)
    else
      var activity := reg[activityName];
      if email in activity.participants then Outcome(AlreadySignedUp, reg)
      else if |activity.participants| >= activity.maxParticipants then Outcome(Full, reg)
      else Outcome(Ok, reg[activityName := activity.(participants := activity.participants + [email])])
  }

  /** Taking `email` off `activityName`: the activity must exist and the student must be on it. */
  function Unregister(reg: Registry, activityName: string, email: string): (out: Outcome)
    ensures out.status in {Ok, NotFound, NotSignedUp}
    ensures out.status == NotFound <==> activityName !in reg
    ensures out.status == NotSignedUp <==>
      activityName in reg && email !in reg[activityName].participants
    ensures out.status != Ok ==> out.after == reg
    ensures out.status == Ok ==>
      out.after.Keys == reg.Keys &&
      (forall name :: name in reg && name != activityName ==> out.after[name] == reg[name]) &&
      out.after[activityName].description == reg[activityName].description &&
      out.after[activityName].schedule == reg[activityName].schedule &&
      out.after[activityName].maxParticipants == reg[activityName].maxParticipants &&
      multiset(out.after[activityName].participants) ==
        multiset(reg[activityName].participants) - multiset{email}
    ensures out.status == Ok && Consistent(reg) ==>
      email !in out.after[activityName].participants
    ensures Consistent(reg) ==> Consistent(out.after)
    ensures WithinCapacity(reg) ==> WithinCapacity(out.after)
  {
    if activityName !in reg then Outcome(NotFound, reg)
    else
      var activity := reg[activityName];
      if email !in activity.participants then Outcome(NotSignedUp, reg)
      else
        RemoveFirstNoDuplicates(activity.participants, email);
        Outcome(Ok, reg[activityName :=
        activity.(participants := RemoveFirst(activity.participants, email))])
  }

  /**
   * Adding a new activity with no participants, unless the name is taken.
   * The maximum is stored as given, so a negative one makes the store break
   * the capacity invariant.
   */
  function Create(reg: Registry, req: ActivityCreate): (out: Outcome)
    ensures out.status in {Ok, NameExists}
    ensures out.status == NameExists <==> req.name in reg
    ensures out.status != Ok ==> out.after == reg
    ensures out.status == Ok ==>
      out.after.Keys == reg.Keys + {req.name} &&
      (forall name :: name in reg ==> out.after[name] == reg[name]) &&
      out.after[req.name] == Activity(req.description, req.schedule, req.maxParticipants, [])
    ensures Consistent(reg) ==> Consistent(out.after)
    ensures WithinCapacity(reg) ==>
      (WithinCapacity(out.after) <==> out.status == NameExists || req.maxParticipants >= 0)
  {
    if req.name in reg then Outcome(NameExists, reg)
    else Outcome(Ok, reg[req.name := Activity(req.description, req.schedule, req.maxParticipants, [])])
  }

  /**
   * Overwriting the given fields of an existing activity. The name and the
   * participants never change, and the new maximum is not checked against
   * the current number of participants.
   */
  function Update(reg: Registry, activityName: string, u: ActivityUpdate): (out: Outcome)
    ensures out.status in {Ok, NotFound}
    ensures out.status == NotFound <==> activityName !in reg
    ensures out.status != Ok ==> out.after == reg
    ensures out.status == Ok ==>
      out.after.Keys == reg.Keys &&
      (forall name :: name in reg && name != activityName ==> out.after[name] == reg[name]) &&
      out.after[activityName].participants == reg[activityName].participants &&
      (u.description.None? ==> out.after[activityName].description == reg[activityName].description) &&
      (u.description.Some? ==> out.after[activityName].description == u.description.value) &&
      (u.schedule.None? ==> out.after[activityName].schedule == reg[activityName].schedule) &&
      (u.schedule.Some? ==> out.after[activityName].schedule == u.schedule.value) &&
      (u.maxParticipants.None? ==>
        out.after[activityName].maxParticipants == reg[activityName].maxParticipants) &&
      (u.maxParticipants.Some? ==>
        out.after[activityName].maxParticipants == u.maxParticipants.value)
    ensures Consistent(reg) ==> Consistent(out.after)
    ensures out.status == Ok && WithinCapacity(reg) ==>
      (WithinCapacity(out.after) <==>
        |reg[activityName].participants| <= out.after[activityName].maxParticipants)
  {
    if activityName !in reg then Outcome(NotFound, reg)
    else
      var activity := reg[activityName];
      Outcome(Ok, reg[activityName := Activity(
        Choose(u.description, activity.description),
        Choose(u.schedule, activity.schedule),
        Choose(u.maxParticipants, activity.maxParticipants),
        activity.participants)])
  }

  /** Removing an activity; its participants go with it. */
  function Delete(reg: Registry, activityName: string): (out: Outcome)
    ensures out.status in {Ok, NotFound}
    ensures out.status == NotFound <==> activityName !in reg
    ensures out.status != Ok ==> out.after == reg
    ensures out.status == Ok ==>
      out.after.Keys == reg.Keys - {activityName} &&
      (forall name :: name in out.after ==> out.after[name] == reg[name])
    ensures Consistent(reg) ==> Consistent(out.after)
    ensures WithinCapacity(reg) ==> WithinCapacity(out.after)
  {
    if activityName !in reg then Outcome(NotFound, reg)
    else Outcome(Ok, reg - {activityName})
  }

  // ---------------------------------------------------------------------
  // The handlers, acting on the session's store.
  // ---------------------------------------------------------------------

  /**
   * The listing of all activities: every stored name, each with its
   * description, schedule, maximum and participant emails.
   */
  method GetActivities(session: Store) returns (listing: map<string, Activity>)
    ensures listing.Keys == session.activities.Keys
    ensures forall name :: name in listing ==> listing[name] == session.activities[name]
  {
    listing := map[];
    var remaining := session.activities.Keys;
    while remaining != {}
      invariant remaining <= session.activities.Keys
      invariant listing.Keys == session.activities.Keys - remaining
      invariant forall name :: name in listing ==> listing[name] == session.activities[name]
      decreases remaining
    {
      var name :| name in remaining;
      var activity := session.activities[name];
      listing := listing[name := Activity(activity.description, activity.schedule,
                                          activity.maxParticipants, activity.participants)];
      remaining := remaining - {name};
    }
  }

  method SignupForActivity(session: Store, activityName: string, email: string)
    returns (status: Status)
    requires session.Valid()
    modifies session
    ensures session.Valid()
    ensures Outcome(status, session.activities) == Signup(old(session.activities), activityName, email)
  {
    ghost var expected := Signup(session.activities, activityName, email);
    if activityName !in session.activities {
      return NotFound;
    }
    var activity := session.activities[activityName];
    if email in activity.participants {
      return AlreadySignedUp;
    }
    var participantCount := |activity.participants|;
    if participantCount >= activity.maxParticipants {
      return Full;
    }
    session.activities := session.activities[activityName :=
      activity.(participants := activity.participants + [email])];
    status := Ok;
    assert session.activities == expected.after;
  }

  method UnregisterFromActivity(session: Store, activityName: string, email: string)
    returns (status: Status)
    requires session.Valid()
    modifies session
    ensures session.Valid()
    ensures Outcome(status, session.activities) == Unregister(old(session.activities), activityName, email)
  {
    ghost var expected := Unregister(session.activities, activityName, email);
    if activityName !in session.activities {
      return NotFound;
    }
    var activity := session.activities[activityName];
    if email !in activity.participants {
      return NotSignedUp;
    }
    session.activities := session.activities[activityName :=
      activity.(participants := RemoveFirst(activity.participants, email))];
    status := Ok;
    assert session.activities == expected.after;
  }

  method CreateActivity(session: Store, req: ActivityCreate) returns (status: Status)
    requires session.Valid()
    modifies session
    ensures session.Valid()
    ensures Outcome(status, session.activities) == Create(old(session.activities), req)
  {
    ghost var expected := Create(session.activities, req);
    if req.name in session.activities {
      return NameExists;
    }
    session.activities := session.activities[req.name :=
      Activity(req.description, req.schedule, req.maxParticipants, [])];
    status := Ok;
    assert session.activities == expected.after;
  }

  method UpdateActivity(session: Store, activityName: string, u: ActivityUpdate)
    returns (status: Status)
    requires session.Valid()
    modifies session
    ensures session.Valid()
    ensures Outcome(status, session.activities) == Update(old(session.activities), activityName, u)
  {
    ghost var expected := Update(session.activities, activityName, u);
    if activityName !in session.activities {
      return NotFound;
    }
    var activity := session.activities[activityName];
    if u.description.Some? {
      activity := activity.(description := u.description.value);
    }
    if u.schedule.Some? {
      activity := activity.(schedule := u.schedule.value);
    }
    if u.maxParticipants.Some? {
      activity := activity.(maxParticipants := u.maxParticipants.value);
    }
    session.activities := session.activities[activityName := activity];
    status := Ok;
    assert session.activities == expected.after;
  }

  method DeleteActivity(session: Store, activityName: string) returns (status: Status)
    requires session.Valid()
    modifies session
    ensures session.Valid()
    ensures Outcome(status, session.activities) == Delete(old(session.activities), activityName)
  {
    ghost var expected := Delete(session.activities, activityName);
    if activityName !in session.activities {
      return NotFound;
    }
    session.activities := session.activities - {activityName};
    status := Ok;
    assert session.activities == expected.after;
  }
}
