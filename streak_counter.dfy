/** The streak card: an emoji tier, a message and a tip chosen by bands of
    the current streak count, and the next milestone while the count is
    below 30. Counts are the server's streak counts, never negative. */
module StreakCounter {
  import opened Base

  // ---------------------------------------------------------------------
  // getStreakEmoji

  /** The five emoji, lowest tier first. */
  datatype Tier = Rocket | Star | Lightning | Muscle | Fire

  function Rank(t: Tier): nat
  {
    match t
    case Rocket => 0
    case Star => 1
    case Lightning => 2
    case Muscle => 3
    case Fire => 4
  }

  /** The emoji each tier is meant to show. */
  function Emoji(t: Tier): (e: string)
    ensures |e| == 1
  {
    match t
    case Rocket => "\U{1F680}"
    case Star => "\U{1F31F}"
    case Lightning => "\U{26A1}"
    case Muscle => "\U{1F4AA}"
    case Fire => "\U{1F525}"
  }

  /** The literals `getStreakEmoji` actually returns: each is the UTF-8
      byte sequence of the intended emoji with every byte read back as a
      Windows-1252 character. */
  function EmojiAsWritten(t: Tier): string
  {
    match t
    case Rocket => "\U{00F0}\U{0178}\U{0161}\U{20AC}"
    case Star => "\U{00F0}\U{0178}\U{0152}\U{0178}"
    case Lightning => "\U{00E2}\U{0161}\U{00A1}"
    case Muscle => "\U{00F0}\U{0178}\U{2019}\U{00AA}"
    case Fire => "\U{00F0}\U{0178}\U{201D}\U{00A5}"
  }

  /** The UTF-8 encoding of a code point, as byte values. */
  function Utf8(cp: int): (r: seq<int>)
    requires 0 <= cp < 0x11_0000
    ensures 1 <= |r| <= 4
    ensures forall i :: 0 <= i < |r| ==> 0 <= r[i] < 256
  {
    if cp < 0x80 then [cp]
    else if cp < 0x800 then [0xC0 + cp / 64, 0x80 + cp % 64]
    else if cp < 0x1_0000 then [0xE0 + cp / 4096, 0x80 + (cp / 64) % 64, 0x80 + cp % 64]
    else [0xF0 + cp / 262144, 0x80 + (cp / 4096) % 64, 0x80 + (cp / 64) % 64, 0x80 + cp % 64]
  }

  /** Windows-1252 for the bytes 0x80 to 0x9F; the undefined five map to
      the code point of the same value. */
  const CP1252_HIGH: seq<int> := [
    0x20AC, 0x0081, 0x201A, 0x0192, 0x201E, 0x2026, 0x2020, 0x2021,
    0x02C6, 0x2030, 0x0160, 0x2039, 0x0152, 0x008D, 0x017D, 0x008F,
    0x0090, 0x2018, 0x2019, 0x201C, 0x201D, 0x2022, 0x2013, 0x2014,
    0x02DC, 0x2122, 0x0161, 0x203A, 0x0153, 0x009D, 0x017E, 0x0178]

  /** The character a Windows-1252 reader shows for byte `b`. */
  function Cp1252(b: int): char
    requires 0 <= b < 256
  {
    if 0x80 <= b < 0xA0 then CP1252_HIGH[b - 0x80] as char else b as char
  }

  /** Bytes read as Windows-1252 text. */
  function Misread(bytes: seq<int>): (r: string)
    requires forall i :: 0 <= i < |bytes| ==> 0 <= bytes[i] < 256
    ensures |r| == |bytes|
    ensures forall i :: 0 <= i < |bytes| ==> r[i] == Cp1252(bytes[i])
  {
    if bytes == [] then [] else [Cp1252(bytes[0])] + Misread(bytes[1..])
  }

  /** Each literal is the intended emoji, encoded as UTF-8 and read back as
      Windows-1252: several characters instead of one. */
  lemma EmojiAsWrittenIsMisread(t: Tier)
    ensures |Emoji(t)| == 1 && |EmojiAsWritten(t)| >= 3
    ensures EmojiAsWritten(t) == Misread(Utf8(Emoji(t)[0] as int))
  {
    match t
    case Rocket => RocketMisread();
    case Star => StarMisread();
    case Lightning => LightningMisread();
    case Muscle => MuscleMisread();
    case Fire => FireMisread();
  }

  lemma RocketMisread()
    ensures EmojiAsWritten(Rocket) == Misread(Utf8(Emoji(Rocket)[0] as int))
  {
    assert Utf8(0x1F680) == [0xF0, 0x9F, 0x9A, 0x80];
    MisreadFour(0xF0, 0x9F, 0x9A, 0x80);
  }

  lemma StarMisread()
    ensures EmojiAsWritten(Star) == Misread(Utf8(Emoji(Star)[0] as int))
  {
    assert Utf8(0x1F31F) == [0xF0, 0x9F, 0x8C, 0x9F];
    MisreadFour(0xF0, 0x9F, 0x8C, 0x9F);
  }

  lemma LightningMisread()
    ensures EmojiAsWritten(Lightning) == Misread(Utf8(Emoji(Lightning)[0] as int))
  {
    assert Utf8(0x26A1) == [0xE2, 0x9A, 0xA1];
    var m := Misread([0xE2, 0x9A, 0xA1]);
    assert m[0] == Cp1252(0xE2) && m[1] == Cp1252(0x9A) && m[2] == Cp1252(0xA1);
  }

  lemma MuscleMisread()
    ensures EmojiAsWritten(Muscle) == Misread(Utf8(Emoji(Muscle)[0] as int))
  {
    assert Utf8(0x1F4AA) == [0xF0, 0x9F, 0x92, 0xAA];
    MisreadFour(0xF0, 0x9F, 0x92, 0xAA);
  }

  lemma FireMisread()
    ensures EmojiAsWritten(Fire) == Misread(Utf8(Emoji(Fire)[0] as int))
  {
    assert Utf8(0x1F525) == [0xF0, 0x9F, 0x94, 0xA5];
    MisreadFour(0xF0, 0x9F, 0x94, 0xA5);
  }

  lemma MisreadFour(a: int, b: int, c: int, d: int)
    requires 0 <= a < 256 && 0 <= b < 256 && 0 <= c < 256 && 0 <= d < 256
    ensures Misread([a, b, c, d]) == [Cp1252(a), Cp1252(b), Cp1252(c), Cp1252(d)]
  {
    var m := Misread([a, b, c, d]);
    assert m[0] == Cp1252(a) && m[1] == Cp1252(b) && m[2] == Cp1252(c) && m[3] == Cp1252(d);
  }

  /** `getStreakEmoji`, with the emoji it was evidently meant to return:
      thresholds 30, 14, 7 and 3, tested from the top. */
  function StreakTier(count: nat): (t: Tier)
    ensures t == Fire <==> count >= 30
    ensures t == Muscle <==> 14 <= count < 30
    ensures t == Lightning <==> 7 <= count < 14
    ensures t == Star <==> 3 <= count < 7
    ensures t == Rocket <==> count < 3
  {
    if count >= 30 then Fire
    else if count >= 14 then Muscle
    else if count >= 7 then Lightning
    else if count >= 3 then Star
    else Rocket
  }

  /** A longer streak never shows a lower tier. */
  lemma TierMonotone(a: nat, b: nat)
    requires a <= b
    ensures Rank(StreakTier(a)) <= Rank(StreakTier(b))
  {
  }

  /** Different tiers show different emoji. */
  lemma EmojiInjective(s: Tier, t: Tier)
    ensures Emoji(s) == Emoji(t) ==> s == t
  {
    if s != t {
      assert Emoji(s)[0] != Emoji(t)[0];
    }
  }

  // ---------------------------------------------------------------------
  // getStreakMessage and getMotivationalTip

  const MESSAGES: seq<string> := [
    "Start your streak today!", "Great start! Keep it up!", "Building momentum!",
    "You're on fire!", "Incredible dedication!", "Legendary streak!"]

  const TIPS: seq<string> := [
    "Log your first study session to start building your streak.",
    "Study for just 30 minutes today to keep your streak alive.",
    "You're building a great habit! Don't break the chain.",
    "Two weeks is within reach. Stay consistent!",
    "You're a study machine! Keep pushing forward."]

  /** Which message `getStreakMessage` returns: 0, 1, then below 7, 14, 30, and the rest. */
  function MessageBand(count: nat): (b: nat)
    ensures b < |MESSAGES|
    ensures b == 0 <==> count == 0
    ensures b == 1 <==> count == 1
    ensures b == 2 <==> 2 <= count < 7
    ensures b == 3 <==> 7 <= count < 14
    ensures b == 4 <==> 14 <= count < 30
    ensures b == 5 <==> count >= 30
  {
    if count == 0 then 0
    else if count == 1 then 1
    else if count < 7 then 2
    else if count < 14 then 3
    else if count < 30 then 4
    else 5
  }

  function StreakMessage(count: nat): string
  {
    MESSAGES[MessageBand(count)]
  }

  /** Which tip `getMotivationalTip` returns: 0, then below 3, 7, 14, and the rest. */
  function TipBand(count: nat): (b: nat)
    ensures b < |TIPS|
    ensures b == 0 <==> count == 0
    ensures b == 1 <==> 1 <= count < 3
    ensures b == 2 <==> 3 <= count < 7
    ensures b == 3 <==> 7 <= count < 14
    ensures b == 4 <==> count >= 14
  {
    if count == 0 then 0
    else if count < 3 then 1
    else if count < 7 then 2
    else if count < 14 then 3
    else 4
  }

  function MotivationalTip(count: nat): string
  {
    TIPS[TipBand(count)]
  }

  /** The message and the tip only move forward as the streak grows. */
  lemma BandsMonotone(a: nat, b: nat)
    requires a <= b
    ensures MessageBand(a) <= MessageBand(b)
    ensures TipBand(a) <= TipBand(b)
  {
  }

  // ---------------------------------------------------------------------
  // next milestone

  const MILESTONES: set<nat> := {7, 14, 30}

  /** The "Next milestone" label: shown only below 30, and then the
      smallest of 7, 14 and 30 beyond the count. */
  function NextMilestone(count: nat): (m: Option<nat>)
    ensures m.Some? <==> count < 30
    ensures m.Some? ==> m.value in MILESTONES && m.value > count
    ensures m.Some? ==> forall k :: k in MILESTONES && k > count ==> m.value <= k
  {
    if count < 30 then
      Some(if count < 7 then 7 else if count < 14 then 14 else 30)
    else None
  }

  /** The top tier, the last message and the missing milestone block all
      start at 30. */
  lemma LegendaryAtThirty(count: nat)
    ensures NextMilestone(count).None? <==> StreakTier(count) == Fire
    ensures NextMilestone(count).None? <==> StreakMessage(count) == "Legendary streak!"
  {
  }

  // ---------------------------------------------------------------------
  // the component

  datatype StreakData = StreakData(streakCount: nat, longestStreak: nat, totalStudyDays: nat)

  datatype Card = Card(
    emoji: string, count: nat, dayLabel: string, message: string, tip: string,
    longest: nat, totalDays: nat, milestone: Option<nat>)

  datatype View = Skeleton | Shown(card: Card)

  /** `StreakCounter({ streakData })`: the skeleton without data, otherwise the card. */
  function Render(streakData: Option<StreakData>): (v: View)
    ensures v.Skeleton? <==> streakData.None?
    ensures v.Shown? ==> v.card.count == streakData.value.streakCount
    ensures v.Shown? ==> v.card.dayLabel == (if streakData.value.streakCount == 1 then "Day Streak" else "Days Streak")
    ensures v.Shown? ==> (v.card.milestone.Some? <==> streakData.value.streakCount < 30)
    ensures v.Shown? ==> v.card.milestone == NextMilestone(streakData.value.streakCount)
    ensures v.Shown? ==> v.card.emoji == Emoji(StreakTier(streakData.value.streakCount))
    ensures v.Shown? ==> v.card.message == StreakMessage(streakData.value.streakCount)
    ensures v.Shown? ==> v.card.tip == MotivationalTip(streakData.value.streakCount)
    ensures v.Shown? ==> v.card.longest == streakData.value.longestStreak
    ensures v.Shown? ==> v.card.totalDays == streakData.value.totalStudyDays
  {
    match streakData
    case None => Skeleton
    case Some(d) =>
      var c := d.streakCount;
      Shown(Card(
        Emoji(StreakTier(c)), c,
        "Day" + (if c != 1 then "s" else "") + " Streak",
        StreakMessage(c), MotivationalTip(c),
        d.longestStreak, d.totalStudyDays, NextMilestone(c)))
  }
}
