/** The table logic behind the store's operations (services/storage.ts), on plain
    sequences: the lookups the store performs, the deletion filter, and the ledger
    invariant relating each user's balance to the activities and redemptions on
    record, with one preservation lemma per operation that changes the tables. */
module Ledger {
  import opened Seqs
  import opened Types

  /** `users.findIndex(u => u.id === id)`. */
  function UserIndex(users: seq<User>, id: string): (r: Option<nat>)
    ensures r.Some? ==> r.value < |users| && users[r.value].id == id
    ensures r.Some? ==> forall j :: 0 <= j < r.value ==> users[j].id != id
    ensures r.None? ==> forall j :: 0 <= j < |users| ==> users[j].id != id
  {
    FirstIndex((u: User) => u.id == id, users)
  }

  /** `users.find(u => u.email === email)`, as the index of the user found. */
  function EmailIndex(users: seq<User>, email: string): (r: Option<nat>)
    ensures r.Some? ==> r.value < |users| && users[r.value].email == email
    ensures r.Some? ==> forall j :: 0 <= j < r.value ==> users[j].email != email
    ensures r.None? ==> forall j :: 0 <= j < |users| ==> users[j].email != email
  {
    FirstIndex((u: User) => u.email == email, users)
  }

  /** `all.find(a => a.id === id)`, as the index of the activity found. */
  function ActivityIndex(acts: seq<Activity>, id: string): (r: Option<nat>)
    ensures r.Some? ==> r.value < |acts| && acts[r.value].id == id
    ensures r.Some? ==> forall j :: 0 <= j < r.value ==> acts[j].id != id
    ensures r.None? ==> forall j :: 0 <= j < |acts| ==> acts[j].id != id
  {
    FirstIndex((a: Activity) => a.id == id, acts)
  }

  /** `all.filter(a => a.id !== id)`: drops every activity with that id and keeps
      the others, with their multiplicities and in their order. */
  function RemoveActivity(acts: seq<Activity>, id: string): (r: seq<Activity>)
    ensures forall a | a in r :: a in acts && a.id != id
    ensures forall a | a in acts && a.id != id :: multiset(r)[a] == multiset(acts)[a]
    ensures IsSubsequence(r, acts)
  {
    FilterIsSubsequence(HasOtherId(id), acts);
    FilterContents(HasOtherId(id), acts);
    Filter(HasOtherId(id), acts)
  }

  /** The test `a => a.id !== id`. */
  function HasOtherId(id: string): Activity -> bool
  {
    (a: Activity) => a.id != id
  }

  /** One step of the deletion filter. */
  lemma RemoveActivityCons(acts: seq<Activity>, id: string)
    requires acts != []
    ensures RemoveActivity(acts, id)
         == (if acts[0].id != id then [acts[0]] else []) + RemoveActivity(acts[1..], id)
  {
    assert acts == [acts[0]] + acts[1..];
  }

  /** The larger of two integers (`Math.max`). */
  function Max(a: int, b: int): int
  {
    if a >= b then a else b
  }

  predicate UniqueUserIds(users: seq<User>)
  {
    forall i, j :: 0 <= i < j < |users| ==> users[i].id != users[j].id
  }

  predicate UniqueEmails(users: seq<User>)
  {
    forall i, j :: 0 <= i < j < |users| ==> users[i].email != users[j].email
  }

  predicate UniqueActivityIds(acts: seq<Activity>)
  {
    forall i, j :: 0 <= i < j < |acts| ==> acts[i].id != acts[j].id
  }

  predicate NonNegativeBalances(users: seq<User>)
  {
    forall i :: 0 <= i < |users| ==> users[i].totalPoints >= 0
  }

  /** `after` is `before` with only the balance of record `i` set to `p`. */
  predicate OnlyPointsChanged(before: seq<User>, after: seq<User>, i: nat, p: int)
  {
    && |after| == |before|
    && i < |before|
    && after[i] == before[i].(totalPoints := p)
    && forall j :: 0 <= j < |before| && j != i ==> after[j] == before[j]
  }

  /** Setting one balance leaves the emails as they were, and keeps every balance
      non-negative when the new one is. */
  lemma PointsChangeKeeps(before: seq<User>, after: seq<User>, i: nat, p: int)
    requires OnlyPointsChanged(before, after, i, p)
    ensures UniqueEmails(before) ==> UniqueEmails(after)
    ensures NonNegativeBalances(before) && p >= 0 ==> NonNegativeBalances(after)
  {
  }

  /** Sum of `pointsEarned` over the activities of user `uid`. */
  function Earned(acts: seq<Activity>, uid: string): int
  {
    if acts == [] then 0
    else (if acts[0].userId == uid then acts[0].pointsEarned else 0) + Earned(acts[1..], uid)
  }

  /** Sum of the cost of the rewards user `uid` has redeemed. */
  function Spent(reds: seq<Redemption>, uid: string): int
  {
    if reds == [] then 0
    else (if reds[0].userId == uid then reds[0].rewardSnapshot.pointsRequired else 0) + Spent(reds[1..], uid)
  }

  /** User `uid` has never redeemed a reward. */
  predicate NeverRedeemed(reds: seq<Redemption>, uid: string)
  {
    forall r | r in reds :: r.userId != uid
  }

  /** The ledger invariant: user ids and activity ids are unique, points earned are
      non-negative, every balance lies between what was earned minus what was spent
      and what was earned, and a user who never redeemed has exactly the points of
      the activities still on record. (Deleting an activity of a user who has
      redeemed can clamp the balance at 0, which is why only the bounds survive
      redemptions.) */
  predicate Balanced(users: seq<User>, acts: seq<Activity>, reds: seq<Redemption>)
  {
    && UniqueUserIds(users)
    && UniqueActivityIds(acts)
    && (forall a | a in acts :: a.pointsEarned >= 0)
    && (forall i :: 0 <= i < |users| ==> users[i].totalPoints >= Earned(acts, users[i].id) - Spent(reds, users[i].id))
    && (forall i :: 0 <= i < |users| ==> users[i].totalPoints <= Earned(acts, users[i].id))
    && (forall i :: 0 <= i < |users| && NeverRedeemed(reds, users[i].id) ==> users[i].totalPoints == Earned(acts, users[i].id))
  }

  lemma {:induction false} EarnedAppend(acts: seq<Activity>, a: Activity, uid: string)
    ensures Earned(acts + [a], uid) == Earned(acts, uid) + (if a.userId == uid then a.pointsEarned else 0)
  {
    if acts == [] {
      assert [a][1..] == [];
    } else {
      assert (acts + [a])[1..] == acts[1..] + [a];
      EarnedAppend(acts[1..], a, uid);
    }
  }

  lemma {:induction false} SpentAppend(reds: seq<Redemption>, r: Redemption, uid: string)
    ensures Spent(reds + [r], uid) == Spent(reds, uid) + (if r.userId == uid then r.rewardSnapshot.pointsRequired else 0)
  {
    if reds == [] {
      assert [r][1..] == [];
    } else {
      assert (reds + [r])[1..] == reds[1..] + [r];
      SpentAppend(reds[1..], r, uid);
    }
  }

  /** A user nobody's activities belong to has earned nothing. */
  lemma {:induction false} EarnedNone(acts: seq<Activity>, uid: string)
    requires forall a | a in acts :: a.userId != uid
    ensures Earned(acts, uid) == 0
  {
    if acts != [] {
      assert acts[0] in acts;
      EarnedNone(acts[1..], uid);
    }
  }

  lemma {:induction false} SpentNone(reds: seq<Redemption>, uid: string)
    requires forall r | r in reds :: r.userId != uid
    ensures Spent(reds, uid) == 0
  {
    if reds != [] {
      assert reds[0] in reds;
      SpentNone(reds[1..], uid);
    }
  }

  /** With non-negative points, a user has earned at least the points of any one of
      their activities. */
  lemma {:induction false} EarnedCovers(acts: seq<Activity>, k: nat)
    requires k < |acts|
    requires forall a | a in acts :: a.pointsEarned >= 0
    ensures Earned(acts, acts[k].userId) >= acts[k].pointsEarned
  {
    var uid := acts[k].userId;
    if k == 0 {
      EarnedNonNegative(acts[1..], uid);
    } else {
      assert acts[0] in acts;
      assert acts[1..][k - 1] == acts[k];
      EarnedCovers(acts[1..], k - 1);
    }
  }

  lemma {:induction false} EarnedNonNegative(acts: seq<Activity>, uid: string)
    requires forall a | a in acts :: a.pointsEarned >= 0
    ensures Earned(acts, uid) >= 0
  {
    if acts != [] {
      assert acts[0] in acts;
      EarnedNonNegative(acts[1..], uid);
    }
  }

  /** Deleting the activity at `k` (whose id no other activity has) takes exactly its
      points off its owner's earnings and leaves everyone else's as they were. */
  lemma {:induction false} EarnedRemove(acts: seq<Activity>, k: nat, uid: string)
    requires k < |acts|
    requires UniqueActivityIds(acts)
    ensures Earned(RemoveActivity(acts, acts[k].id), uid)
         == Earned(acts, uid) - (if acts[k].userId == uid then acts[k].pointsEarned else 0)
  {
    var id := acts[k].id;
    var tail := acts[1..];
    RemoveActivityCons(acts, id);
    if k == 0 {
      EarnedRemoveHead(acts, uid);
    } else {
      assert tail[k - 1] == acts[k];
      assert acts[0].id != id;
      assert UniqueActivityIds(tail) by {
        forall i, j | 0 <= i < j < |tail| ensures tail[i].id != tail[j].id {
          assert tail[i] == acts[i + 1] && tail[j] == acts[j + 1];
        }
      }
      EarnedRemove(tail, k - 1, uid);
      var rest := RemoveActivity(tail, id);
      assert RemoveActivity(acts, id) == [acts[0]] + rest;
      assert ([acts[0]] + rest)[1..] == rest;
    }
  }

  lemma EarnedRemoveHead(acts: seq<Activity>, uid: string)
    requires acts != []
    requires UniqueActivityIds(acts)
    ensures Earned(RemoveActivity(acts, acts[0].id), uid)
         == Earned(acts, uid) - (if acts[0].userId == uid then acts[0].pointsEarned else 0)
  {
    var id := acts[0].id;
    var tail := acts[1..];
    RemoveActivityCons(acts, id);
    forall j | 0 <= j < |tail| ensures HasOtherId(id)(tail[j]) {
      assert tail[j] == acts[j + 1];
    }
    FilterKeepsAll(HasOtherId(id), tail);
    assert RemoveActivity(acts, id) == tail;
  }

  /** Filtering keeps a sequence whole when every element passes. */
  lemma {:induction false} FilterKeepsAll<T>(p: T -> bool, s: seq<T>)
    requires forall j :: 0 <= j < |s| ==> p(s[j])
    ensures Filter(p, s) == s
  {
    if s != [] {
      FilterKeepsAll(p, s[1..]);
      assert s == [s[0]] + s[1..];
    }
  }

  /** Deleting keeps activity ids unique. */
  lemma {:induction false} RemoveKeepsUnique(acts: seq<Activity>, id: string)
    requires UniqueActivityIds(acts)
    ensures UniqueActivityIds(RemoveActivity(acts, id))
  {
    if acts != [] {
      RemoveActivityCons(acts, id);
      RemoveKeepsUnique(acts[1..], id);
      var rest := RemoveActivity(acts[1..], id);
      forall j | 0 <= j < |rest| ensures rest[j].id != acts[0].id {
        assert rest[j] in rest;
        assert rest[j] in acts[1..];
      }
    }
  }

  /** Signing up a user with zero points and an id used nowhere keeps the ledger balanced. */
  lemma SignupKeepsBalanced(users: seq<User>, acts: seq<Activity>, reds: seq<Redemption>, u: User)
    requires Balanced(users, acts, reds)
    requires u.totalPoints == 0
    requires forall j :: 0 <= j < |users| ==> users[j].id != u.id
    requires forall a | a in acts :: a.userId != u.id
    requires forall r | r in reds :: r.userId != u.id
    ensures Balanced(users + [u], acts, reds)
  {
    EarnedNone(acts, u.id);
    SpentNone(reds, u.id);
    var users' := users + [u];
    forall i | 0 <= i < |users'|
      ensures users'[i].totalPoints >= Earned(acts, users'[i].id) - Spent(reds, users'[i].id)
      ensures users'[i].totalPoints <= Earned(acts, users'[i].id)
      ensures NeverRedeemed(reds, users'[i].id) ==> users'[i].totalPoints == Earned(acts, users'[i].id)
    {
      if i < |users| {
        assert users'[i] == users[i];
      }
    }
  }

  /** Appending an activity with non-negative points and a fresh id, and crediting its
      owner's record (if there is one), keeps the ledger balanced. */
  lemma AddKeepsBalanced(users: seq<User>, acts: seq<Activity>, reds: seq<Redemption>, a: Activity, users': seq<User>)
    requires Balanced(users, acts, reds)
    requires a.pointsEarned >= 0
    requires forall b | b in acts :: b.id != a.id
    requires match UserIndex(users, a.userId)
      case None => users' == users
      case Some(i) => OnlyPointsChanged(users, users', i, users[i].totalPoints + a.pointsEarned)
    ensures Balanced(users', acts + [a], reds)
  {
    var acts' := acts + [a];
    forall i, j | 0 <= i < j < |acts'| ensures acts'[i].id != acts'[j].id {
      if j == |acts| {
        assert acts'[i] in acts;
      } else {
        assert acts'[i] == acts[i] && acts'[j] == acts[j];
      }
    }
    forall i | 0 <= i < |users'|
      ensures users'[i].totalPoints >= Earned(acts', users'[i].id) - Spent(reds, users'[i].id)
      ensures users'[i].totalPoints <= Earned(acts', users'[i].id)
      ensures NeverRedeemed(reds, users'[i].id) ==> users'[i].totalPoints == Earned(acts', users'[i].id)
    {
      EarnedAppend(acts, a, users'[i].id);
      assert users'[i].id == users[i].id;
      if users[i].id == a.userId {
        assert UserIndex(users, a.userId) == Some(i);
      }
    }
  }

  /** Deleting the activity at `k` and debiting its owner's record (clamped at 0)
      keeps the ledger balanced. */
  lemma DeleteKeepsBalanced(users: seq<User>, acts: seq<Activity>, reds: seq<Redemption>, k: nat, users': seq<User>)
    requires Balanced(users, acts, reds)
    requires k < |acts|
    requires match UserIndex(users, acts[k].userId)
      case None => users' == users
      case Some(i) => OnlyPointsChanged(users, users', i, Max(0, users[i].totalPoints - acts[k].pointsEarned))
    ensures Balanced(users', RemoveActivity(acts, acts[k].id), reds)
  {
    var acts' := RemoveActivity(acts, acts[k].id);
    RemoveKeepsUnique(acts, acts[k].id);
    assert acts[k] in acts;
    EarnedCovers(acts, k);
    forall i | 0 <= i < |users'|
      ensures users'[i].totalPoints >= Earned(acts', users'[i].id) - Spent(reds, users'[i].id)
      ensures users'[i].totalPoints <= Earned(acts', users'[i].id)
      ensures NeverRedeemed(reds, users'[i].id) ==> users'[i].totalPoints == Earned(acts', users'[i].id)
    {
      EarnedRemove(acts, k, users'[i].id);
      assert users'[i].id == users[i].id;
      if users[i].id == acts[k].userId {
        assert UserIndex(users, acts[k].userId) == Some(i);
      }
    }
  }

  /** Recording a redemption of a reward with a non-negative cost by the user at `i`
      and charging that cost to the user keeps the ledger balanced. */
  lemma RedeemKeepsBalanced(users: seq<User>, acts: seq<Activity>, reds: seq<Redemption>, i: nat, red: Redemption, users': seq<User>)
    requires Balanced(users, acts, reds)
    requires i < |users| && red.userId == users[i].id
    requires red.rewardSnapshot.pointsRequired >= 0
    requires OnlyPointsChanged(users, users', i, users[i].totalPoints - red.rewardSnapshot.pointsRequired)
    ensures Balanced(users', acts, reds + [red])
  {
    var reds' := reds + [red];
    forall j | 0 <= j < |users'|
      ensures users'[j].totalPoints >= Earned(acts, users'[j].id) - Spent(reds', users'[j].id)
      ensures users'[j].totalPoints <= Earned(acts, users'[j].id)
      ensures NeverRedeemed(reds', users'[j].id) ==> users'[j].totalPoints == Earned(acts, users'[j].id)
    {
      SpentAppend(reds, red, users'[j].id);
      assert users'[j].id == users[j].id;
      if j == i {
        assert red in reds';
      } else {
        assert users'[j] == users[j];
        if NeverRedeemed(reds', users[j].id) {
          assert NeverRedeemed(reds, users[j].id);
        }
      }
    }
  }
}
