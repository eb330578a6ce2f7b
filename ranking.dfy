/**
 * The leaderboard order of `rank`: user ids sorted by `(level, xp)`
 * descending with Python's stable `sorted(..., reverse=True)`, so users with
 * equal scores keep the order in which the level map holds them, and then
 * cut to the number of places shown.
 */
module Ranking {
  import opened Leveling

  /** The sort key of one user: level first, then xp. */
  datatype Score = Score(level: int, xp: int)

  /** The key `rank` sorts by; a user missing from a map reads as level 1, xp 0. */
  function ScoreOf(xp: map<UserId, int>, level: map<UserId, int>, u: UserId): Score {
    Score(LevelOf(level, u), XpOf(xp, u))
  }

  /** `rank`'s sort key as a function of the user. */
  function Key(xp: map<UserId, int>, level: map<UserId, int>): UserId -> Score {
    u => ScoreOf(xp, level, u)
  }

  /** `a` ranks at or above `b` in the lexicographic order of the key. */
  predicate AtLeast(a: Score, b: Score) {
    a.level > b.level || (a.level == b.level && a.xp >= b.xp)
  }

  /** The key order is total and transitive, and `AtLeast` both ways means equal keys. */
  lemma AtLeastIsTotalOrder(a: Score, b: Score, c: Score)
    ensures AtLeast(a, b) || AtLeast(b, a)
    ensures AtLeast(a, b) && AtLeast(b, c) ==> AtLeast(a, c)
    ensures AtLeast(a, b) && AtLeast(b, a) <==> a == b
  {
  }

  /**
   * Places `u` before the first entry it ranks at or above. Since `u` stands
   * before every entry of `ids` in the input, this keeps equal keys in input order.
   */
  function Insert(key: UserId -> Score, u: UserId, ids: seq<UserId>): (r: seq<UserId>)
    ensures multiset(r) == multiset(ids) + multiset{u} && |r| == |ids| + 1
  {
    if ids == [] then [u]
    else if AtLeast(key(u), key(ids[0])) then [u] + ids
    else
      assert ids == [ids[0]] + ids[1..];
      [ids[0]] + Insert(key, u, ids[1..])
  }

  /** The ids sorted by key, highest first, stable on ties. */
  function SortDesc(key: UserId -> Score, ids: seq<UserId>): (r: seq<UserId>)
    ensures multiset(r) == multiset(ids) && |r| == |ids|
  {
    if ids == [] then []
    else
      assert ids == [ids[0]] + ids[1..];
      Insert(key, ids[0], SortDesc(key, ids[1..]))
  }

  /** Every earlier id ranks at or above every later one. */
  predicate Descending(key: UserId -> Score, ids: seq<UserId>) {
    forall i, j :: 0 <= i < j < |ids| ==> AtLeast(key(ids[i]), key(ids[j]))
  }

  /** The head of a descending list ranks at or above every other entry. */
  lemma HeadRanksFirst(key: UserId -> Score, ids: seq<UserId>)
    requires ids != [] && Descending(key, ids)
    ensures forall y :: y in ids[1..] ==> AtLeast(key(ids[0]), key(y))
  {
    forall y | y in ids[1..] ensures AtLeast(key(ids[0]), key(y)) {
      var m :| 0 <= m < |ids[1..]| && ids[1..][m] == y;
      assert ids[m + 1] == y;
    }
  }

  /** An entry that ranks at or above the head of a descending list may lead it. */
  lemma PrependKeepsDescending(key: UserId -> Score, u: UserId, ids: seq<UserId>)
    requires Descending(key, ids) && ids != [] && AtLeast(key(u), key(ids[0]))
    ensures Descending(key, [u] + ids)
  {
    var r := [u] + ids;
    forall i, j | 0 <= i < j < |r| ensures AtLeast(key(r[i]), key(r[j])) {
      if i == 0 {
        AtLeastIsTotalOrder(key(u), key(ids[0]), key(ids[j - 1]));
      } else {
        assert r[i] == ids[i - 1] && r[j] == ids[j - 1];
      }
    }
  }

  /** A head that ranks at or above every entry of a descending tail keeps the list descending. */
  lemma ConsKeepsDescending(key: UserId -> Score, x: UserId, tail: seq<UserId>)
    requires Descending(key, tail)
    requires forall k :: 0 <= k < |tail| ==> AtLeast(key(x), key(tail[k]))
    ensures Descending(key, [x] + tail)
  {
    var r := [x] + tail;
    forall i, j | 0 <= i < j < |r| ensures AtLeast(key(r[i]), key(r[j])) {
      assert r[j] == tail[j - 1];
      if i > 0 {
        assert r[i] == tail[i - 1];
      }
    }
  }

  lemma {:induction false} InsertKeepsDescending(key: UserId -> Score, u: UserId, ids: seq<UserId>)
    requires Descending(key, ids)
    ensures Descending(key, Insert(key, u, ids))
  {
    if ids == [] {
    } else if AtLeast(key(u), key(ids[0])) {
      PrependKeepsDescending(key, u, ids);
    } else {
      var rest := ids[1..];
      assert Descending(key, rest) by {
        forall i, j | 0 <= i < j < |rest| ensures AtLeast(key(rest[i]), key(rest[j])) {
          assert rest[i] == ids[i + 1] && rest[j] == ids[j + 1];
        }
      }
      InsertKeepsDescending(key, u, rest);
      var tail := Insert(key, u, rest);
      HeadRanksFirst(key, ids);
      forall k | 0 <= k < |tail| ensures AtLeast(key(ids[0]), key(tail[k])) {
        assert tail[k] in multiset(rest) + multiset{u};
      }
      ConsKeepsDescending(key, ids[0], tail);
    }
  }

  /** `rank`'s order is non-increasing in the key. */
  lemma {:induction false} SortDescIsDescending(key: UserId -> Score, ids: seq<UserId>)
    ensures Descending(key, SortDesc(key, ids))
  {
    if ids != [] {
      SortDescIsDescending(key, ids[1..]);
      InsertKeepsDescending(key, ids[0], SortDesc(key, ids[1..]));
    }
  }

  /** The ids, in order, whose key is exactly `sc`. */
  function WithScore(key: UserId -> Score, ids: seq<UserId>, sc: Score): seq<UserId> {
    if ids == [] then []
    else (if key(ids[0]) == sc then [ids[0]] else []) + WithScore(key, ids[1..], sc)
  }

  /** `WithScore` on a list with a known first entry. */
  lemma WithScoreCons(key: UserId -> Score, x: UserId, ids: seq<UserId>, sc: Score)
    ensures WithScore(key, [x] + ids, sc) == (if key(x) == sc then [x] else []) + WithScore(key, ids, sc)
  {
    assert ([x] + ids)[0] == x && ([x] + ids)[1..] == ids;
  }

  /** Inserting never reorders `u` against the entries that share its key. */
  lemma {:induction false} InsertIsStable(key: UserId -> Score, u: UserId, ids: seq<UserId>, sc: Score)
    ensures WithScore(key, Insert(key, u, ids), sc) == WithScore(key, [u] + ids, sc)
  {
    if ids == [] || AtLeast(key(u), key(ids[0])) {
      assert Insert(key, u, ids) == [u] + ids;
    } else {
      var x, rest := ids[0], ids[1..];
      var hu := if key(u) == sc then [u] else [];
      var hx := if key(x) == sc then [x] else [];
      assert ids == [x] + rest;
      InsertIsStable(key, u, rest, sc);
      WithScoreCons(key, x, Insert(key, u, rest), sc);
      WithScoreCons(key, u, rest, sc);
      WithScoreCons(key, u, ids, sc);
      WithScoreCons(key, x, rest, sc);
      var w := WithScore(key, rest, sc);
      calc {
        WithScore(key, Insert(key, u, ids), sc);
        { assert Insert(key, u, ids) == [x] + Insert(key, u, rest); }
        hx + WithScore(key, Insert(key, u, rest), sc);
        hx + (hu + w);
        { assert hx == [] || hu == []; }
        hu + (hx + w);
        hu + WithScore(key, ids, sc);
      }
    }
  }

  /**
   * The sort is stable: for every key, the users holding that key appear in
   * the result in the order they had in the input.
   */
  lemma {:induction false} SortDescIsStable(key: UserId -> Score, ids: seq<UserId>, sc: Score)
    ensures WithScore(key, SortDesc(key, ids), sc) == WithScore(key, ids, sc)
  {
    if ids != [] {
      var rest := ids[1..];
      SortDescIsStable(key, rest, sc);
      InsertIsStable(key, ids[0], SortDesc(key, rest), sc);
      WithScoreCons(key, ids[0], SortDesc(key, rest), sc);
      WithScoreCons(key, ids[0], rest, sc);
      assert ids == [ids[0]] + rest;
    }
  }

  /**
   * How many places `rank` shows out of `n`: `min(top, n)` for a slice
   * `ranking[:top]`, where Python reads a negative bound from the end.
   */
  function ShownCount(n: nat, top: int): (k: nat)
    ensures k <= n
    ensures top >= 0 ==> k == if top < n then top else n
    ensures top < 0 ==> k + (if -top < n then -top else n) == n
  {
    var t := if top < n then top else n;
    if t >= 0 then t else if n + t >= 0 then n + t else 0
  }

  /** Two users, equal in level: the one with more xp ranks first whatever the map order. */
  lemma XpBreaksLevelTies()
    ensures SortDesc(Key(map[1 := 30, 2 := 70], map[1 := 2, 2 := 2]), [1, 2]) == [2, 1]
  {
    var key := Key(map[1 := 30, 2 := 70], map[1 := 2, 2 := 2]);
    assert key(1) == Score(2, 30) && key(2) == Score(2, 70);
    assert [1, 2][1..] == [2];
    assert SortDesc(key, [2]) == [2];
  }

  /** Two users tied below a third: the third goes first and the tied pair keeps its order. */
  lemma TiedPairBelowLeader(key: UserId -> Score)
    requires key(1) == key(2) && !AtLeast(key(2), key(3))
    ensures SortDesc(key, [1, 2, 3]) == [3, 1, 2]
  {
    assert SortDesc(key, [3]) == [3];
    assert SortDesc(key, [2, 3]) == Insert(key, 2, [3]) == [3, 2] by {
      assert [2, 3][1..] == [3];
    }
    assert Insert(key, 1, [2]) == [1, 2];
    assert Insert(key, 1, [3, 2]) == [3, 1, 2] by {
      assert [3, 2][1..] == [2];
    }
    assert [1, 2, 3][1..] == [2, 3];
  }

  /** Users with equal keys keep map order, and a higher level beats any xp. */
  lemma TiesKeepMapOrder()
    ensures SortDesc(Key(map[1 := 50, 2 := 50, 3 := 0], map[1 := 1, 2 := 1, 3 := 2]), [1, 2, 3]) == [3, 1, 2]
  {
    var key := Key(map[1 := 50, 2 := 50, 3 := 0], map[1 := 1, 2 := 1, 3 := 2]);
    assert key(1) == Score(1, 50) == key(2) && key(3) == Score(2, 0);
    TiedPairBelowLeader(key);
  }
}
