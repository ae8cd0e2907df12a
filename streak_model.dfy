/** The `Streak` document: one per user, holding the current streak, the
    longest streak, the number of study days and the time of the last
    counted activity (milliseconds since the epoch). */
module StreakModel {
  import opened Base

  datatype Streak = Streak(
    userId: UserId,
    streakCount: int,
    lastActiveDate: int,
    longestStreak: int,
    totalStudyDays: int)

  /** The schema's `min: 0` bounds on the three counters. */
  predicate WithinBounds(s: Streak)
  {
    s.streakCount >= 0 && s.longestStreak >= 0 && s.totalStudyDays >= 0
  }

  /** What every saved record satisfies: the schema bounds, and the longest
      streak and the day count never fall behind the current streak. */
  predicate Consistent(s: Streak)
  {
    WithinBounds(s) && s.longestStreak >= s.streakCount && s.totalStudyDays >= s.streakCount
  }

  /** `new Streak({ userId })` at time `now`: the schema defaults. */
  function NewStreak(userId: UserId, now: int): (s: Streak)
    ensures s.userId == userId && s.lastActiveDate == now
    ensures s.streakCount == 0 && s.longestStreak == 0 && s.totalStudyDays == 0
    ensures Consistent(s)
  {
    Streak(userId, 0, now, 0, 0)
  }

  /** The collection holds at most one record per user (`userId` is
      unique), stored under its own user id, and every record is consistent. */
  predicate ValidStore(records: map<UserId, Streak>)
  {
    forall u :: u in records ==> records[u].userId == u && Consistent(records[u])
  }
}
