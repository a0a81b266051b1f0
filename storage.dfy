/** The in-browser store (services/storage.ts): three tables and a session pointer,
    the operations that change them and the queries that read them. The tables are
    fields the operations reassign; the browser's key-value storage underneath is
    not modelled. Fresh identifiers and the current time are parameters, and the
    date parsing the queries sort by is the parameter `timeOf`. */
module Storage {
  import opened Seqs
  import opened Types
  import opened Constants
  import opened Ledger
  import opened Sorting

  /** The errors the store throws. */
  datatype StoreError = UserAlreadyExists | UserNotFound | InsufficientPoints

  /** Sort key of an activity: its date as a timestamp. */
  function ActivityTime(timeOf: string -> int): Activity -> int
  {
    (a: Activity) => timeOf(a.date)
  }

  /** Sort key of a redemption: its redemption time as a timestamp. */
  function RedemptionTime(timeOf: string -> int): Redemption -> int
  {
    (r: Redemption) => timeOf(r.redeemedAt)
  }

  /** The test `a => a.user_id === uid`. */
  function OwnsActivity(uid: string): Activity -> bool
  {
    (a: Activity) => a.userId == uid
  }

  /** The test `r => r.user_id === uid`. */
  function OwnsRedemption(uid: string): Redemption -> bool
  {
    (r: Redemption) => r.userId == uid
  }

  class MockDB {
    var users: seq<User>
    var activities: seq<Activity>
    var redemptions: seq<Redemption>
    /** The session pointer: the id of the logged-in user, if any. */
    var currentUserId: Option<string>

    /** A store whose keys are all missing reads as empty tables and no session. */
    constructor ()
      ensures users == [] && activities == [] && redemptions == [] && currentUserId == None
      ensures Consistent()
    {
      users, activities, redemptions, currentUserId := [], [], [], None;
    }

    /** The invariant every operation keeps: the ledger is balanced and emails are unique. */
    predicate Consistent()
      reads this
    {
      Balanced(users, activities, redemptions) && UniqueEmails(users)
    }

    /** `id` occurs nowhere in the store (what a fresh random UUID guarantees). */
    predicate IdUnused(id: string)
      reads this
    {
      && (forall j :: 0 <= j < |users| ==> users[j].id != id)
      && (forall a | a in activities :: a.id != id && a.userId != id)
      && (forall r | r in redemptions :: r.id != id && r.userId != id)
    }

    /** Logs in as the first user with exactly this email; an unknown email changes nothing. */
    method Login(email: string) returns (r: Option<User>)
      modifies this`currentUserId
      ensures match EmailIndex(users, email)
        case None => r == None && currentUserId == old(currentUserId)
        case Some(i) => r == Some(users[i]) && currentUserId == Some(users[i].id)
    {
      match EmailIndex(users, email) {
        case None =>
          r := None;
        case Some(i) =>
          currentUserId := Some(users[i].id);
          r := Some(users[i]);
      }
    }

    /** Registers a user with zero points and logs them in, unless the email is taken. */
    method Signup(name: string, email: string, newId: string, now: string) returns (r: Result<User, StoreError>)
      modifies this`users, this`currentUserId
      ensures EmailIndex(old(users), email).Some? ==>
        r == Failure(UserAlreadyExists) && users == old(users) && currentUserId == old(currentUserId)
      ensures EmailIndex(old(users), email).None? ==>
        && r == Success(User(newId, name, email, 0, now))
        && users == old(users) + [r.value]
        && currentUserId == Some(newId)
      ensures old(UniqueEmails(users)) ==> UniqueEmails(users)
      ensures old(NonNegativeBalances(users)) ==> NonNegativeBalances(users)
      ensures old(Consistent()) && old(IdUnused(newId)) ==> Consistent()
    {
      if EmailIndex(users, email).Some? {
        return Failure(UserAlreadyExists);
      }
      var newUser := User(newId, name, email, 0, now);
      ghost var before := users;
      if Consistent() && IdUnused(newId) {
        SignupKeepsBalanced(users, activities, redemptions, newUser);
      }
      users := users + [newUser];
      currentUserId := Some(newId);
      r := Success(newUser);
      assert users[|before|] == newUser;
      assert forall j :: 0 <= j < |before| ==> users[j] == before[j];
    }

    /** The user the session points to, if there is a session and that user still exists.
        As in the source, an empty session id counts as no session. */
    function GetCurrentUser(): (r: Option<User>)
      reads this
      ensures r.None? <==>
        currentUserId.None? || currentUserId.value == "" || UserIndex(users, currentUserId.value).None?
      ensures r.Some? ==> currentUserId.Some? && r.value.id == currentUserId.value
      ensures r.Some? ==> exists i :: 0 <= i < |users| && users[i] == r.value && (forall j :: 0 <= j < i ==> users[j].id != r.value.id)
    {
      match currentUserId
      case None => None
      case Some(id) =>
        if id == "" then None
        else match UserIndex(users, id)
          case None => None
          case Some(i) => Some(users[i])
    }

    /** Ends the session; the tables are not touched. */
    method Logout()
      modifies this`currentUserId
      ensures currentUserId == None
    {
      currentUserId := None;
    }

    /** The activities of `userId`, newest date first; activities with equal dates
        keep their order in the table. */
    function GetActivities(userId: string, timeOf: string -> int): (r: seq<Activity>)
      reads this
      ensures forall a | a in r :: a in activities && a.userId == userId
      ensures forall a | a in activities && a.userId == userId :: multiset(r)[a] == multiset(activities)[a]
      ensures forall i, j :: 0 <= i < j < |r| ==> timeOf(r[i].date) >= timeOf(r[j].date)
    {
      var r := SelectSortedDesc(OwnsActivity(userId), ActivityTime(timeOf), activities);
      assert forall i | 0 <= i < |r| :: ActivityTime(timeOf)(r[i]) == timeOf(r[i].date);
      r
    }

    /** Appends the activity under a fresh id and credits its points to the first user
        with its owner's id; with no such user only the activity is recorded. */
    method AddActivity(activity: NewActivity, newId: string, now: string) returns (r: Activity)
      modifies this`activities, this`users
      ensures r == Activity(newId, activity.userId, activity.kind, activity.value, activity.pointsEarned, activity.date, now)
      ensures activities == old(activities) + [r]
      ensures match UserIndex(old(users), activity.userId)
        case None => users == old(users)
        case Some(i) => OnlyPointsChanged(old(users), users, i, old(users)[i].totalPoints + activity.pointsEarned)
      ensures old(UniqueEmails(users)) ==> UniqueEmails(users)
      ensures old(NonNegativeBalances(users)) && activity.pointsEarned >= 0 ==> NonNegativeBalances(users)
      ensures old(Consistent()) && activity.pointsEarned >= 0 && (forall a | a in old(activities) :: a.id != newId)
        ==> Consistent()
    {
      r := Activity(newId, activity.userId, activity.kind, activity.value, activity.pointsEarned, activity.date, now);
      ghost var users0, acts0 := users, activities;
      activities := activities + [r];
      match UserIndex(users, activity.userId) {
        case None =>
        case Some(i) =>
          users := users[i := users[i].(totalPoints := users[i].totalPoints + activity.pointsEarned)];
      }
      if Balanced(users0, acts0, redemptions) && activity.pointsEarned >= 0 && (forall a | a in acts0 :: a.id != newId) {
        AddKeepsBalanced(users0, acts0, redemptions, r, users);
      }
    }

    /** Removes every activity with this id and debits the first one's points from its
        owner, never below 0; an unknown id changes nothing. */
    method DeleteActivity(activityId: string)
      modifies this`activities, this`users
      ensures match ActivityIndex(old(activities), activityId)
        case None => activities == old(activities) && users == old(users)
        case Some(k) =>
          && activities == RemoveActivity(old(activities), activityId)
          && match UserIndex(old(users), old(activities)[k].userId)
            case None => users == old(users)
            case Some(i) =>
              OnlyPointsChanged(old(users), users, i, Max(0, old(users)[i].totalPoints - old(activities)[k].pointsEarned))
      ensures old(UniqueEmails(users)) ==> UniqueEmails(users)
      ensures old(NonNegativeBalances(users)) ==> NonNegativeBalances(users)
      ensures old(Consistent()) ==> Consistent()
    {
      match ActivityIndex(activities, activityId) {
        case None =>
        case Some(k) =>
          var activity := activities[k];
          ghost var users0, acts0 := users, activities;
          activities := RemoveActivity(activities, activityId);
          match UserIndex(users, activity.userId) {
            case None =>
            case Some(i) =>
              var balance := Max(0, users[i].totalPoints - activity.pointsEarned);
              users := users[i := users[i].(totalPoints := balance)];
              assert OnlyPointsChanged(users0, users, i, balance);
              PointsChangeKeeps(users0, users, i, balance);
          }
          assert match UserIndex(users0, acts0[k].userId)
            case None => users == users0
            case Some(i) => OnlyPointsChanged(users0, users, i, Max(0, users0[i].totalPoints - acts0[k].pointsEarned));
          if Balanced(users0, acts0, redemptions) {
            DeleteKeepsBalanced(users0, acts0, redemptions, k, users);
          }
      }
    }

    /** The reward catalog. */
    function GetRewards(): (r: seq<Reward>)
      ensures |r| == 6
      ensures forall i, j :: 0 <= i < j < |r| ==> r[i].id != r[j].id
      ensures forall i :: 0 <= i < |r| ==> r[i].pointsRequired > 0
    {
      CatalogWellFormed();
      InitialRewards
    }

    /** Charges the reward's cost to the user and records a redemption holding a copy
        of the reward. Fails, changing nothing, when the user does not exist or cannot
        afford the reward. */
    method RedeemReward(userId: string, reward: Reward, newId: string, now: string) returns (r: Result<Redemption, StoreError>)
      modifies this`users, this`redemptions
      ensures match UserIndex(old(users), userId)
        case None =>
          r == Failure(UserNotFound) && users == old(users) && redemptions == old(redemptions)
        case Some(i) =>
          if old(users)[i].totalPoints < reward.pointsRequired then
            r == Failure(InsufficientPoints) && users == old(users) && redemptions == old(redemptions)
          else
            && r == Success(Redemption(newId, userId, reward.id, reward, now))
            && OnlyPointsChanged(old(users), users, i, old(users)[i].totalPoints - reward.pointsRequired)
            && users[i].totalPoints >= 0
            && redemptions == old(redemptions) + [r.value]
      ensures old(UniqueEmails(users)) ==> UniqueEmails(users)
      ensures old(NonNegativeBalances(users)) ==> NonNegativeBalances(users)
      ensures old(Consistent()) && reward.pointsRequired >= 0 ==> Consistent()
    {
      var found := UserIndex(users, userId);
      if found.None? {
        return Failure(UserNotFound);
      }
      var i := found.value;
      if users[i].totalPoints < reward.pointsRequired {
        return Failure(InsufficientPoints);
      }
      ghost var users0 := users;
      users := users[i := users[i].(totalPoints := users[i].totalPoints - reward.pointsRequired)];
      PointsChangeKeeps(users0, users, i, users0[i].totalPoints - reward.pointsRequired);
      var redemption := Redemption(newId, userId, reward.id, reward, now);
      if Balanced(users0, activities, redemptions) && reward.pointsRequired >= 0 {
        RedeemKeepsBalanced(users0, activities, redemptions, i, redemption, users);
      }
      redemptions := redemptions + [redemption];
      r := Success(redemption);
    }

    /** The redemptions of `userId`, most recent first; redemptions with equal times
        keep their order in the table. */
    function GetRedemptions(userId: string, timeOf: string -> int): (r: seq<Redemption>)
      reads this
      ensures forall x | x in r :: x in redemptions && x.userId == userId
      ensures forall x | x in redemptions && x.userId == userId :: multiset(r)[x] == multiset(redemptions)[x]
      ensures forall i, j :: 0 <= i < j < |r| ==> timeOf(r[i].redeemedAt) >= timeOf(r[j].redeemedAt)
    {
      var r := SelectSortedDesc(OwnsRedemption(userId), RedemptionTime(timeOf), redemptions);
      assert forall i | 0 <= i < |r| :: RedemptionTime(timeOf)(r[i]) == timeOf(r[i].redeemedAt);
      r
    }
  }

  /** Within one date, `GetActivities` keeps the table's order. */
  lemma GetActivitiesStable(db: MockDB, userId: string, timeOf: string -> int, t: int)
    ensures KeyRun(ActivityTime(timeOf), db.GetActivities(userId, timeOf), t)
         == KeyRun(ActivityTime(timeOf), Filter(OwnsActivity(userId), db.activities), t)
  {
    SortDescStable(ActivityTime(timeOf), Filter(OwnsActivity(userId), db.activities), t);
  }

  /** Within one redemption time, `GetRedemptions` keeps the table's order. */
  lemma GetRedemptionsStable(db: MockDB, userId: string, timeOf: string -> int, t: int)
    ensures KeyRun(RedemptionTime(timeOf), db.GetRedemptions(userId, timeOf), t)
         == KeyRun(RedemptionTime(timeOf), Filter(OwnsRedemption(userId), db.redemptions), t)
  {
    SortDescStable(RedemptionTime(timeOf), Filter(OwnsRedemption(userId), db.redemptions), t);
  }

  /** Signing up registers the user and logs them in; a second signup with the same
      email is refused. */
  method ExampleSignup() returns (db: MockDB)
    ensures fresh(db)
    ensures db.users == [User("u1", "Asha", "asha@example.com", 0, "2024-01-01T08:00:00Z")]
    ensures db.activities == [] && db.redemptions == [] && db.currentUserId == Some("u1")
  {
    db := new MockDB();
    var s := db.Signup("Asha", "asha@example.com", "u1", "2024-01-01T08:00:00Z");
    assert s == Success(User("u1", "Asha", "asha@example.com", 0, "2024-01-01T08:00:00Z"));
    assert db.GetCurrentUser() == Some(db.users[0]);
    var again := db.Signup("Asha B", "asha@example.com", "u2", "2024-01-01T09:00:00Z");
    assert EmailIndex(db.users, "asha@example.com") == Some(0);
    assert again == Failure(UserAlreadyExists);
  }

  /** 30 minutes of running earn 30 points; a 500-point reward is refused with the
      balance untouched; a 10-point reward is granted, leaving 20; deleting the run
      then clamps the balance at 0 instead of -10. Logging out and back in restores
      the session. */
  method ExampleLedger()
  {
    var db := ExampleSignup();
    ExampleEarn(db);
    ExampleRedeem(db);
    ExampleDeleteAndLogin(db);
  }

  /** The run of 30 minutes, credited to the only user. */
  function ExampleRun(): Activity
  {
    Activity("a1", "u1", Running, 30, 30, "2024-01-01", "2024-01-01T10:00:00Z")
  }

  /** A 10-point reward outside the catalog. */
  function Coffee(): Reward
  {
    Reward("c1", "Coffee", Swiggy, 10, "$1.00", "")
  }

  /** Logging the run credits 30 points. */
  method ExampleEarn(db: MockDB)
    requires db.users == [User("u1", "Asha", "asha@example.com", 0, "2024-01-01T08:00:00Z")]
    requires db.activities == [] && db.redemptions == [] && db.currentUserId == Some("u1")
    modifies db
    ensures db.users == [User("u1", "Asha", "asha@example.com", 30, "2024-01-01T08:00:00Z")]
    ensures db.activities == [ExampleRun()] && db.redemptions == [] && db.currentUserId == Some("u1")
  {
    assert UserIndex(db.users, "u1") == Some(0);
    PointsExamples();
    var run := db.AddActivity(NewActivity("u1", Running, 30, Points(Running, 30), "2024-01-01"), "a1", "2024-01-01T10:00:00Z");
    assert db.users == [User("u1", "Asha", "asha@example.com", 30, "2024-01-01T08:00:00Z")];
  }

  /** The 500-point catalog reward is refused with nothing changed; the 10-point reward
      is granted and recorded, leaving 20 points. */
  method ExampleRedeem(db: MockDB)
    requires db.users == [User("u1", "Asha", "asha@example.com", 30, "2024-01-01T08:00:00Z")]
    requires db.activities == [ExampleRun()] && db.redemptions == [] && db.currentUserId == Some("u1")
    modifies db
    ensures db.users == [User("u1", "Asha", "asha@example.com", 20, "2024-01-01T08:00:00Z")]
    ensures db.activities == [ExampleRun()] && db.currentUserId == Some("u1")
    ensures db.redemptions == [Redemption("d2", "u1", "c1", Coffee(), "2024-01-01T12:00:00Z")]
  {
    assert UserIndex(db.users, "u1") == Some(0);
    CatalogWellFormed();
    var refused := db.RedeemReward("u1", InitialRewards[0], "d1", "2024-01-01T11:00:00Z");
    assert refused == Failure(InsufficientPoints);
    assert UserIndex(db.users, "u1") == Some(0);
    var redeemed := db.RedeemReward("u1", Coffee(), "d2", "2024-01-01T12:00:00Z");
    assert redeemed.Success? && redeemed.value.rewardSnapshot == Coffee();
  }

  /** Deleting the run takes the balance to 0, not -10; logging out and back in
      restores the session. */
  method ExampleDeleteAndLogin(db: MockDB)
    requires db.users == [User("u1", "Asha", "asha@example.com", 20, "2024-01-01T08:00:00Z")]
    requires db.activities == [ExampleRun()] && db.currentUserId == Some("u1")
    modifies db
    ensures db.users == [User("u1", "Asha", "asha@example.com", 0, "2024-01-01T08:00:00Z")]
    ensures db.activities == [] && db.currentUserId == Some("u1")
  {
    assert ActivityIndex(db.activities, "a1") == Some(0);
    assert UserIndex(db.users, "u1") == Some(0);
    db.DeleteActivity("a1");
    assert db.users == [User("u1", "Asha", "asha@example.com", 0, "2024-01-01T08:00:00Z")];
    db.Logout();
    assert db.GetCurrentUser() == None;
    var back := db.Login("asha@example.com");
    assert back == Some(db.users[0]);
  }
}
