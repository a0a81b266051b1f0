/** The records the application stores (types.ts). Identifiers and timestamps are
    kept as the strings the application uses. */
module Types {

  /** The six kinds of activity a user can log. */
  datatype ActivityType = Steps | Running | Cycling | Gym | Meditation | Swimming

  /** The vendors a reward can come from. */
  datatype Vendor = Amazon | Flipkart | Swiggy | Zomato | Uber | Nike

  /** A registered user with a running points balance. */
  datatype User = User(id: string, name: string, email: string, totalPoints: int, joinedAt: string)

  /** A logged activity. `value` is a step count or a duration in minutes, and
      `pointsEarned` is fixed when the activity is logged. */
  datatype Activity = Activity(
    id: string,
    userId: string,
    kind: ActivityType,
    value: int,
    pointsEarned: int,
    date: string,
    createdAt: string)

  /** What a caller passes to add an activity: an activity without its id and creation time. */
  datatype NewActivity = NewActivity(userId: string, kind: ActivityType, value: int, pointsEarned: int, date: string)

  /** An entry of the reward catalog. */
  datatype Reward = Reward(
    id: string,
    name: string,
    vendor: Vendor,
    pointsRequired: int,
    valueDisplay: string,
    imageUrl: string)

  /** A redeemed reward, holding a copy of the reward as it was at redemption time. */
  datatype Redemption = Redemption(id: string, userId: string, rewardId: string, rewardSnapshot: Reward, redeemedAt: string)
}
