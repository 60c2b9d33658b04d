/*
 * The persistent part of the school activity service: the Activity and
 * Participant tables, the constraints the rest of the service relies on,
 * and the routine that seeds an empty store with the initial activities.
 *
 * The two tables are folded into one map from activity name to record.
 * Keying by name is the unique, non-null `name` column; keeping the
 * participant emails inside the record is the "all, delete-orphan"
 * cascade: an activity's participants exist only as part of it.
 */
module Database {

  /** One row of the Activity table together with the emails of its Participant rows. */
  datatype Activity = Activity(
    description: string,
    schedule: string,
    maxParticipants: int,
    participants: seq<string>)

  /** The whole store: activity name to activity. */
  type Registry = map<string, Activity>

  predicate NoDuplicates(emails: seq<string>)
  {
    forall i, j :: 0 <= i < j < |emails| ==> emails[i] != emails[j]
  }

  /** No student is signed up twice for the same activity. */
  predicate Consistent(reg: Registry)
  {
    forall name :: name in reg ==> NoDuplicates(reg[name].participants)
  }

  /** Every activity holds at most its maximum number of participants. */
  predicate WithinCapacity(reg: Registry)
  {
    forall name :: name in reg ==> |reg[name].participants| <= reg[name].maxParticipants
  }

  /** One entry of the seeding table: the activity's columns and its initial participants. */
  datatype SeedEntry = SeedEntry(
    name: string,
    description: string,
    schedule: string,
    maxParticipants: int,
    participants: seq<string>)

  function ToActivity(e: SeedEntry): Activity
  {
    Activity(e.description, e.schedule, e.maxParticipants, e.participants)
  }

  predicate DistinctNames(es: seq<SeedEntry>)
  {
    forall i, j :: 0 <= i < j < |es| ==> es[i].name != es[j].name
  }

  function Names(es: seq<SeedEntry>): set<string>
  {
    set e | e in es :: e.name
  }

  /** The nine activities, each with two students, that an empty store is seeded with. */
  const InitialActivities: seq<SeedEntry> :=
    [ SeedEntry("Chess Club",
        "Learn strategies and compete in chess tournaments",
        "Fridays, 3:30 PM - 5:00 PM", 12,
        ["michael@mergington.edu", "daniel@mergington.edu"]),
      SeedEntry("Programming Class",
        "Learn programming fundamentals and build software projects",
        "Tuesdays and Thursdays, 3:30 PM - 4:30 PM", 20,
        ["emma@mergington.edu", "sophia@mergington.edu"]),
      SeedEntry("Gym Class",
        "Physical education and sports activities",
        "Mondays, Wednesdays, Fridays, 2:00 PM - 3:00 PM", 30,
        ["john@mergington.edu", "olivia@mergington.edu"]),
      SeedEntry("Soccer Team",
        "Join the school soccer team and compete in matches",
        "Tuesdays and Thursdays, 4:00 PM - 5:30 PM", 22,
        ["liam@mergington.edu", "noah@mergington.edu"]),
      SeedEntry("Basketball Team",
        "Practice and play basketball with the school team",
        "Wednesdays and Fridays, 3:30 PM - 5:00 PM", 15,
        ["ava@mergington.edu", "mia@mergington.edu"]),
      SeedEntry("Art Club",
        "Explore your creativity through painting and drawing",
        "Thursdays, 3:30 PM - 5:00 PM", 15,
        ["amelia@mergington.edu", "harper@mergington.edu"]),
      SeedEntry("Drama Club",
        "Act, direct, and produce plays and performances",
        "Mondays and Wednesdays, 4:00 PM - 5:30 PM", 20,
        ["ella@mergington.edu", "scarlett@mergington.edu"]),
      SeedEntry("Math Club",
        "Solve challenging problems and participate in math competitions",
        "Tuesdays, 3:30 PM - 4:30 PM", 10,
        ["james@mergington.edu", "benjamin@mergington.edu"]),
      SeedEntry("Debate Team",
        "Develop public speaking and argumentation skills",
        "Fridays, 4:00 PM - 5:30 PM", 12,
        ["charlotte@mergington.edu", "henry@mergington.edu"])
    ]

  /**
   * The store after adding the entries of `es` in order, each with its
   * participants, on top of `reg`. The names it holds afterwards are the
   * old names plus the names of the entries. A name the store or an earlier
   * entry already holds would be overwritten here; the seeding loop is only
   * ever run on fresh, distinct names (see `Store.Load`), where the unique
   * name column never fails.
   */
  function Populate(reg: Registry, es: seq<SeedEntry>): (r: Registry)
    ensures r.Keys == reg.Keys + Names(es)
    decreases |es|
  {
    if es == [] then reg
    else
      var e := es[|es| - 1];
      assert es == es[..|es| - 1] + [e];
      Populate(reg, es[..|es| - 1])[e.name := ToActivity(e)]
  }

  /**
   * What seeding with `table` does to a store: nothing when the store
   * already holds an activity, otherwise it loads the whole table.
   */
  function Seed(reg: Registry, table: seq<SeedEntry>): (r: Registry)
    ensures reg != map[] ==> r == reg
    ensures reg == map[] ==> r.Keys == Names(table)
  {
    if reg != map[] then reg else Populate(reg, table)
  }

  /** Loading one more entry of a table: the step the seeding loop takes. */
  lemma PopulateStep(reg: Registry, es: seq<SeedEntry>, i: nat)
    requires i < |es|
    ensures Populate(reg, es[..i + 1]) == Populate(reg, es[..i])[es[i].name := ToActivity(es[i])]
  {
    assert es[..i + 1][..i] == es[..i];
  }

  /** With distinct names, every entry ends up stored exactly as listed, participants included. */
  lemma {:induction false} PopulateAt(reg: Registry, es: seq<SeedEntry>, k: nat)
    requires DistinctNames(es)
    requires k < |es|
    ensures es[k].name in Populate(reg, es)
    ensures Populate(reg, es)[es[k].name] == ToActivity(es[k])
    decreases |es|
  {
    var n := |es| - 1;
    if k < n {
      assert es[k].name != es[n].name;
      PopulateAt(reg, es[..n], k);
    }
  }

  /**
   * Adding entries keeps each invariant that the entries' own participant
   * lists respect: no repeated email keeps "no email twice", and lists within
   * their maximum keep "within capacity".
   */
  lemma {:induction false} PopulatePreserves(reg: Registry, es: seq<SeedEntry>)
    ensures (forall k :: 0 <= k < |es| ==> NoDuplicates(es[k].participants)) && Consistent(reg) ==>
      Consistent(Populate(reg, es))
    ensures (forall k :: 0 <= k < |es| ==> |es[k].participants| <= es[k].maxParticipants) && WithinCapacity(reg) ==>
      WithinCapacity(Populate(reg, es))
    decreases |es|
  {
    if es != [] {
      PopulatePreserves(reg, es[..|es| - 1]);
    }
  }

  /** When every entry lists `n` participants, every activity loaded into an empty store has `n`. */
  lemma {:induction false} PopulateParticipantCount(es: seq<SeedEntry>, n: nat)
    requires forall k :: 0 <= k < |es| ==> |es[k].participants| == n
    ensures forall name :: name in Populate(map[], es) ==> |Populate(map[], es)[name].participants| == n
    decreases |es|
  {
    if es != [] {
      PopulateParticipantCount(es[..|es| - 1], n);
    }
  }

  /** Distinct names make the name set as large as the entry list. */
  lemma {:induction false} NamesOfDistinct(es: seq<SeedEntry>)
    requires DistinctNames(es)
    ensures |Names(es)| == |es|
    decreases |es|
  {
    if es != [] {
      var n := |es| - 1;
      assert es == es[..n] + [es[n]];
      assert Names(es) == Names(es[..n]) + {es[n].name};
      assert es[n].name !in Names(es[..n]);
      NamesOfDistinct(es[..n]);
    }
  }

  /** A seeding table that can be loaded as it stands: distinct names, and per entry both invariants. */
  predicate LoadableTable(es: seq<SeedEntry>)
  {
    DistinctNames(es) &&
    forall k :: 0 <= k < |es| ==>
      NoDuplicates(es[k].participants) && |es[k].participants| <= es[k].maxParticipants
  }

  /**
   * Loading a table with distinct names into an empty store stores every
   * entry as listed, and nothing else. Each invariant holds when every entry
   * respects it.
   */
  lemma PopulateEmpty(es: seq<SeedEntry>)
    requires DistinctNames(es)
    ensures Populate(map[], es).Keys == Names(es)
    ensures |Populate(map[], es)| == |es|
    ensures forall k :: 0 <= k < |es| ==>
      es[k].name in Populate(map[], es) && Populate(map[], es)[es[k].name] == ToActivity(es[k])
    ensures (forall k :: 0 <= k < |es| ==> NoDuplicates(es[k].participants)) ==>
      Consistent(Populate(map[], es))
    ensures (forall k :: 0 <= k < |es| ==> |es[k].participants| <= es[k].maxParticipants) ==>
      WithinCapacity(Populate(map[], es))
  {
    forall k | 0 <= k < |es|
      ensures es[k].name in Populate(map[], es) && Populate(map[], es)[es[k].name] == ToActivity(es[k])
    {
      PopulateAt(map[], es, k);
    }
    PopulatePreserves(map[], es);
    NamesOfDistinct(es);
  }

  /** Seeding twice with a non-empty table is seeding once: the second run finds an activity and returns. */
  lemma SeedTwice(reg: Registry, table: seq<SeedEntry>)
    requires table != []
    ensures Seed(reg, table) != map[]
    ensures Seed(Seed(reg, table), table) == Seed(reg, table)
  {
    if reg == map[] {
      var last := table[|table| - 1];
      assert last.name in Names(table);
      assert last.name in Seed(reg, table);
    }
  }

  lemma InitialActivitiesCount()
    ensures |InitialActivities| == 9
  {
  }

  lemma InitialActivitiesDistinct()
    ensures DistinctNames(InitialActivities)
  {
  }

  lemma InitialActivitiesTwoEach()
    ensures forall k :: 0 <= k < |InitialActivities| ==>
      |InitialActivities[k].participants| == 2
  {
  }

  lemma InitialActivitiesNoDuplicates()
    ensures forall k :: 0 <= k < |InitialActivities| ==>
      NoDuplicates(InitialActivities[k].participants)
  {
  }

  lemma InitialActivitiesRoom()
    ensures forall k :: 0 <= k < |InitialActivities| ==>
      2 <= InitialActivities[k].maxParticipants
  {
  }

  /** The seeding table can be loaded as it stands and lists nine activities. */
  lemma InitialActivitiesLoadable()
    ensures |InitialActivities| == 9
    ensures LoadableTable(InitialActivities)
  {
    InitialActivitiesCount();
    InitialActivitiesDistinct();
    InitialActivitiesNoDuplicates();
    InitialActivitiesTwoEach();
    InitialActivitiesRoom();
  }

  /**
   * Seeding an empty store yields exactly the nine listed activities, each
   * stored with its listed columns and its listed students.
   */
  lemma SeedingEmptyStore()
    ensures Seed(map[], InitialActivities).Keys == Names(InitialActivities)
    ensures |Seed(map[], InitialActivities)| == 9
    ensures forall k :: 0 <= k < |InitialActivities| ==>
      InitialActivities[k].name in Seed(map[], InitialActivities) &&
      Seed(map[], InitialActivities)[InitialActivities[k].name] == ToActivity(InitialActivities[k])
  {
    var es := InitialActivities;
    InitialActivitiesLoadable();
    PopulateEmpty(es);
    forall k | 0 <= k < |es|
      ensures es[k].name in Seed(map[], es) && Seed(map[], es)[es[k].name] == ToActivity(es[k])
    {
      PopulateAt(map[], es, k);
    }
  }

  /**
   * After seeding an empty store every activity has exactly two students,
   * no student twice, and no more students than its maximum.
   */
  lemma SeededStoreInvariants()
    ensures forall name :: name in Seed(map[], InitialActivities) ==>
      |Seed(map[], InitialActivities)[name].participants| == 2
    ensures Consistent(Seed(map[], InitialActivities))
    ensures WithinCapacity(Seed(map[], InitialActivities))
  {
    InitialActivitiesLoadable();
    PopulatePreserves(map[], InitialActivities);
    InitialActivitiesTwoEach();
    PopulateParticipantCount(InitialActivities, 2);
  }

  /** The first seeded activity: Chess Club, at most 12 students, starting with two. */
  lemma SeededChessClubEntry()
    ensures "Chess Club" in Seed(map[], InitialActivities)
    ensures Seed(map[], InitialActivities)["Chess Club"].maxParticipants == 12
    ensures Seed(map[], InitialActivities)["Chess Club"].participants ==
      ["michael@mergington.edu", "daniel@mergington.edu"]
  {
    InitialActivitiesDistinct();
    PopulateAt(map[], InitialActivities, 0);
  }

  /** Running the seeding routine twice equals running it once, whatever the store held. */
  lemma SeedIdempotent(reg: Registry)
    ensures Seed(Seed(reg, InitialActivities), InitialActivities) == Seed(reg, InitialActivities)
  {
    InitialActivitiesCount();
    SeedTwice(reg, InitialActivities);
  }

  /**
   * The session's view of the store. The methods of the service change
   * `activities` in place; a failing request leaves it as it was.
   */
  class Store {
    var activities: Registry

    ghost predicate Valid()
      reads this
    {
      Consistent(activities)
    }

    /** Freshly created tables: no activities, no participants. */
    constructor ()
      ensures Valid() && activities == map[]
    {
      activities := map[];
    }

    /** Seeds the store with the initial activities unless it already holds one. */
    method SeedInitialData()
      requires Valid()
      modifies this
      ensures Valid()
      ensures activities == Seed(old(activities), InitialActivities)
    {
      if activities != map[] {
        return;
      }
      InitialActivitiesLoadable();
      Load(InitialActivities);
    }

    /**
     * The population loop of the seeding routine: each entry adds its
     * activity and then its participants, which therefore all belong to the
     * activity added in the same iteration. The table's names are distinct
     * and new to the store: the name column is unique, so any other table
     * makes the flush after adding an activity fail.
     */
    method Load(table: seq<SeedEntry>)
      requires Valid()
      requires DistinctNames(table)
      requires forall k :: 0 <= k < |table| ==> table[k].name !in activities
      requires forall k :: 0 <= k < |table| ==> NoDuplicates(table[k].participants)
      modifies this
      ensures Valid()
      ensures activities == Populate(old(activities), table)
      ensures forall k :: 0 <= k < |table| ==>
        table[k].name in activities && activities[table[k].name] == ToActivity(table[k])
    {
      ghost var base := activities;
      var i := 0;
      while i < |table|
        invariant 0 <= i <= |table|
        invariant activities == Populate(base, table[..i])
      {
        var data := table[i];
        activities := activities[data.name := Activity(data.description, data.schedule, data.maxParticipants, [])];
        AddParticipants(data.name, data.participants);
        assert [] + data.participants == data.participants;
        PopulateStep(base, table, i);
        i := i + 1;
      }
      assert table[..i] == table;
      PopulatePreserves(base, table);
      forall k | 0 <= k < |table|
        ensures table[k].name in activities && activities[table[k].name] == ToActivity(table[k])
      {
        PopulateAt(base, table, k);
      }
    }

    /** The inner loop of the seeding routine: one participant row per email, in order. */
    method AddParticipants(activityName: string, emails: seq<string>)
      requires activityName in activities
      modifies this
      ensures activities == old(activities)[activityName :=
        old(activities)[activityName].(participants := old(activities)[activityName].participants + emails)]
    {
      ghost var start := activities[activityName];
      var j := 0;
      assert start.participants + emails[..0] == start.participants;
      assert activities == old(activities)[activityName := start];
      while j < |emails|
        invariant 0 <= j <= |emails|
        invariant activities == old(activities)[activityName :=
          start.(participants := start.participants + emails[..j])]
      {
        var email := emails[j];
        var activity := activities[activityName];
        activities := activities[activityName := activity.(participants := activity.participants + [email])];
        assert start.participants + emails[..j + 1] == (start.participants + emails[..j]) + [email];
        j := j + 1;
      }
      assert emails[..j] == emails;
    }
  }
}
