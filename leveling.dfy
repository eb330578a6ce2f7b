/**
 * The experience ledger behind `add_xp`: one credit of experience either
 * adds to the user's xp or, once the level's threshold is reached, raises
 * the level by exactly one and discards the xp.
 */
module Leveling {
  import opened Wrappers

  type UserId = int

  /** Experience needed per level: level `l` is left at `l * XpPerLevel` xp. */
  const XpPerLevel := 100

  /** The gain `on_message` passes to `add_xp`. */
  const MessageGain := 10

  /** What one call of `add_xp` leaves for one user, and what it returns. */
  datatype Credited = Credited(xp: int, level: int, levelUp: Option<int>)

  /** The record of an unknown user is xp 0, level 1. */
  function XpOf(xp: map<UserId, int>, u: UserId): int {
    if u in xp then xp[u] else 0
  }

  function LevelOf(level: map<UserId, int>, u: UserId): int {
    if u in level then level[u] else 1
  }

  /** One credit of `gain` to a record holding `oldXp` at `oldLevel`. */
  function Credit(oldXp: int, oldLevel: int, gain: int): (c: Credited)
    ensures c.levelUp.Some? <==> oldXp + gain >= oldLevel * XpPerLevel
    ensures c.levelUp.Some? ==> c.levelUp.value == c.level
  {
    var newXp := oldXp + gain;
    if newXp >= oldLevel * XpPerLevel then Credited(0, oldLevel + 1, Some(oldLevel + 1))
    else Credited(newXp, oldLevel, None)
  }

  /**
   * The outcome of one credit: on reaching the threshold the level rises by
   * one and the xp over the threshold is discarded; otherwise the xp grows
   * by the gain and the level stays.
   */
  lemma CreditOutcome(oldXp: int, oldLevel: int, gain: int)
    ensures var c := Credit(oldXp, oldLevel, gain);
      if oldXp + gain >= oldLevel * XpPerLevel
      then c == Credited(0, oldLevel + 1, Some(oldLevel + 1))
      else c == Credited(oldXp + gain, oldLevel, None)
  {
  }

  /** A record at rest: level at least 1 and xp below the level's threshold. */
  predicate ValidRecord(xp: int, level: int) {
    level >= 1 && 0 <= xp < level * XpPerLevel
  }

  /**
   * A non-negative credit keeps a record valid and raises its level by at
   * most one, however large the gain.
   */
  lemma CreditKeepsRecordValid(oldXp: int, oldLevel: int, gain: int)
    requires ValidRecord(oldXp, oldLevel) && gain >= 0
    ensures var c := Credit(oldXp, oldLevel, gain);
      ValidRecord(c.xp, c.level) && oldLevel <= c.level <= oldLevel + 1
  {
  }

  /** Every user's record in the two maps, absent users read as xp 0, level 1. */
  ghost predicate ValidLedger(xp: map<UserId, int>, level: map<UserId, int>) {
    forall u :: (u in xp || u in level) ==> ValidRecord(XpOf(xp, u), LevelOf(level, u))
  }

  /** The maps after crediting `u`: only `u`'s two entries are written. */
  function CreditLedger(xp: map<UserId, int>, level: map<UserId, int>, u: UserId, gain: int)
    : (r: (map<UserId, int>, map<UserId, int>))
    ensures r.0.Keys == xp.Keys + {u} && r.1.Keys == level.Keys + {u}
    ensures forall v :: v != u ==> XpOf(r.0, v) == XpOf(xp, v) && LevelOf(r.1, v) == LevelOf(level, v)
  {
    var c := Credit(XpOf(xp, u), LevelOf(level, u), gain);
    (xp[u := c.xp], level[u := c.level])
  }

  /** Crediting a non-negative gain keeps every record of the ledger valid. */
  lemma CreditLedgerKeepsValid(xp: map<UserId, int>, level: map<UserId, int>, u: UserId, gain: int)
    requires ValidLedger(xp, level) && gain >= 0
    ensures var r := CreditLedger(xp, level, u, gain); ValidLedger(r.0, r.1)
  {
    var r := CreditLedger(xp, level, u, gain);
    assert ValidRecord(XpOf(xp, u), LevelOf(level, u)) by {
      if u !in xp && u !in level { assert XpOf(xp, u) == 0 && LevelOf(level, u) == 1; }
    }
    CreditKeepsRecordValid(XpOf(xp, u), LevelOf(level, u), gain);
    forall v | v in r.0 || v in r.1 ensures ValidRecord(XpOf(r.0, v), LevelOf(r.1, v)) {
      if v != u { assert v in xp || v in level; }
    }
  }

  /** The record after `n` credits of `gain` each. */
  function CreditTimes(xp: int, level: int, gain: int, n: nat): (r: (int, int))
    ensures level <= r.1 <= level + n
    ensures r.1 == level ==> r.0 == xp + n * gain
  {
    if n == 0 then (xp, level)
    else
      var prev := CreditTimes(xp, level, gain, n - 1);
      var c := Credit(prev.0, prev.1, gain);
      (c.xp, c.level)
  }

  /**
   * From a fresh level `l`, ordinary messages (10 xp each) reach the next
   * level at exactly the `10 * l`-th message: before it the xp is `10 * k`
   * after `k` messages, and at it the record is xp 0, level `l + 1`.
   */
  lemma {:induction false} MessagesToNextLevel(l: int, k: nat)
    requires l >= 1 && k <= 10 * l
    ensures CreditTimes(0, l, MessageGain, k) == if k < 10 * l then (MessageGain * k, l) else (0, l + 1)
  {
    if k > 0 {
      MessagesToNextLevel(l, k - 1);
    }
  }

  /** A fresh user needs ten ordinary messages to reach level 2. */
  lemma TenMessagesReachLevelTwo()
    ensures CreditTimes(0, 1, MessageGain, 9) == (90, 1)
    ensures CreditTimes(0, 1, MessageGain, 10) == (0, 2)
  {
    MessagesToNextLevel(1, 9);
    MessagesToNextLevel(1, 10);
  }
}
