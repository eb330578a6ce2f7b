/**
 * The bot as an object: its dictionaries are fields that the event
 * handlers and slash commands update in place. Each method is proved to
 * leave the state, and return the effects, that the functions of
 * `Pipeline` describe.
 */
module DiscordBot {
  import opened Wrappers
  import opened Text
  import opened Answers
  import opened Leveling
  import opened Flood
  import opened Effects
  import opened Ranking
  import opened Pipeline

  /** One line of the leaderboard: place (from 1), user, level and xp. */
  datatype RankEntry = RankEntry(place: int, user: UserId, level: int, xp: int)

  /** The reply of `rank`: the no-data message, or the board. */
  datatype Leaderboard = NoData | Board(entries: seq<RankEntry>)

  class Bot {
    var xp: map<UserId, int>
    var level: map<UserId, int>
    /** The keys of `level` in insertion order. */
    var levelOrder: seq<UserId>
    var welcome: map<GuildId, WelcomeEntry>
    var joinDm: map<GuildId, string>
    var qa: map<GuildId, map<string, string>>
    var antispam: map<GuildId, SpamPolicy>
    /** Per guild and user, the times of the recent messages. */
    var logs: map<GuildId, map<UserId, seq<Instant>>>

    predicate Valid()
      reads this
    {
      OrderMatches(level, levelOrder)
    }

    function Snapshot(): State
      reads this
    {
      State(xp, level, levelOrder, welcome, joinDm, qa, antispam, logs)
    }

    /** Start-up: the saved dictionaries as loaded, and no message history. */
    constructor (xp0: map<UserId, int>, level0: map<UserId, int>, order0: seq<UserId>,
                 welcome0: map<GuildId, WelcomeEntry>, joinDm0: map<GuildId, string>,
                 qa0: map<GuildId, map<string, string>>, antispam0: map<GuildId, SpamPolicy>)
      requires OrderMatches(level0, order0)
      ensures Valid()
      ensures Snapshot() == State(xp0, level0, order0, welcome0, joinDm0, qa0, antispam0, map[])
    {
      xp, level, levelOrder := xp0, level0, order0;
      welcome, joinDm, qa, antispam := welcome0, joinDm0, qa0, antispam0;
      logs := map[];
    }

    /** `user_level[u] = l`: a new key goes to the end of the insertion order. */
    method StoreLevel(u: UserId, l: int)
      modifies this
      ensures level == old(level)[u := l]
      ensures levelOrder == if u in old(level) then old(levelOrder) else old(levelOrder) + [u]
      ensures Snapshot() == old(Snapshot()).(level := level, order := levelOrder)
    {
      if u !in level {
        levelOrder := levelOrder + [u];
      }
      level := level[u := l];
    }

    /**
     * `add_xp`: reaching `level * 100` xp raises the level by one, resets
     * the xp to 0 and returns the new level; otherwise the xp grows by the
     * gain and nothing is returned. Only `u`'s entries are written.
     */
    method AddXp(u: UserId, gain: int) returns (newLevel: Option<int>)
      modifies this
      ensures var c := CreditUser(old(Snapshot()), u, gain); Snapshot() == c.0 && newLevel == c.1
    {
      var oldXp := XpOf(xp, u);
      var oldLevel := LevelOf(level, u);
      var newXp := oldXp + gain;
      var lvl := oldLevel;
      if newXp >= oldLevel * XpPerLevel {
        lvl := lvl + 1;
        newXp := 0;
        StoreLevel(u, lvl);
        xp := xp[u := newXp];
        return Some(lvl);
      }
      xp := xp[u := newXp];
      StoreLevel(u, lvl);
      return None;
    }

    /**
     * `on_message`: flood control, then the Q&A table, then the keyword
     * replies and the experience credit. `now` is the clock reading and
     * `outcome` what `member.timeout` does if the monitor fires.
     */
    method OnMessage(msg: Message, now: Instant, outcome: TimeoutResult) returns (actions: seq<Action>)
      requires Valid()
      modifies this
      ensures Valid()
      ensures var r := OnMessageSpec(old(Snapshot()), msg, now, outcome);
        Snapshot() == r.state && actions == r.actions
    {
      if msg.authorIsBot || msg.guild.None? {
        return [];
      }
      var g := msg.guild.value;
      if g in antispam {
        var fired;
        fired, actions := Throttle(msg, g, now, outcome);
        if fired {
          return;
        }
      }
      actions := Reply(msg, g);
    }

    /**
     * The flood-control block: append `now` to the author's log, keep the
     * entries at most `window` whole seconds old, and on reaching `limit`
     * time the author out (or report that it may not), clear the log and
     * hand the message to the command parser.
     */
    method Throttle(msg: Message, g: GuildId, now: Instant, outcome: TimeoutResult)
      returns (fired: bool, actions: seq<Action>)
      requires g in antispam
      modifies this
      ensures var m := Monitor(old(Snapshot()), g, msg.author, now);
        Snapshot() == m.0 && fired == m.1
      ensures fired ==> actions == TimeoutActions(msg, old(antispam)[g], outcome) + [ProcessCommands]
      ensures !fired ==> actions == []
    {
      var u, policy := msg.author, antispam[g];
      var log := LogOf(logs, g, u) + [now];
      log := Prune(log, now, policy.window);
      logs := WithLog(logs, g, u, log);
      fired := |log| >= policy.limit;
      if fired {
        match outcome {
          case Muted =>
            actions := [Timeout(u, policy.mute), MutedNotice(msg.mention, policy.mute)];
          case TimeoutForbidden =>
            actions := [ChannelSend(NoPermissionText)];
        }
        logs := WithLog(logs, g, u, []);
        WithLogTwice(old(logs), g, u, log, []);
        actions := actions + [ProcessCommands];
      } else {
        actions := [];
      }
    }

    /**
     * The rest of `on_message`, for a message flood control let through.
     * Bots were turned away at the start, so the second bot test always passes.
     */
    method Reply(msg: Message, g: GuildId) returns (actions: seq<Action>)
      requires Valid() && !msg.authorIsBot
      modifies this
      ensures Valid()
      ensures var r := Pipeline.Reply(old(Snapshot()), msg, g); Snapshot() == r.state && actions == r.actions
    {
      if g in qa {
        var question := LookupKey(msg.content);
        if question in qa[g] {
          return [ChannelSend(qa[g][question]), ProcessCommands];
        }
      }
      actions := [];
      if Contains(msg.content, MorningWord) {
        actions := actions + [ChannelSend(MorningReply)];
      }
      if Contains(msg.content, ByeWord) {
        actions := actions + [ChannelSend(ByeReply)];
      }
      assert actions == KeywordReplies(msg.content);
      assert Pipeline.AnswerFor(Snapshot(), g, msg.content).None?;
      if !msg.authorIsBot {
        var newLevel := AddXp(msg.author, MessageGain);
        if newLevel.Some? && newLevel.value != 0 {
          actions := actions + [LevelUpNotice(msg.mention, newLevel.value)];
        }
      }
      actions := actions + [ProcessCommands];
    }

    /** `on_member_join`: no state changes; `channels` are the ids the guild still has. */
    method OnMemberJoin(g: GuildId, member: UserId, mention: string, channels: set<ChannelId>)
      returns (actions: seq<Action>)
      ensures actions == Pipeline.OnMemberJoin(Snapshot(), g, member, mention, channels)
    {
      actions := [];
      if g in welcome {
        var entry := welcome[g];
        if entry.channel in channels {
          actions := actions + [SendTo(entry.channel, Commands.FillUser(entry.message, mention))];
        }
      }
      if g in joinDm {
        actions := actions + [DirectMessage(member, Commands.FillUser(joinDm[g], mention))];
      }
    }

    /** `set_welcome`. */
    method SetWelcome(g: GuildId, channel: ChannelId, message: string)
      requires Valid()
      modifies this
      ensures Valid()
      ensures Snapshot() == WithWelcome(old(Snapshot()), g, channel, message)
    {
      welcome := welcome[g := WelcomeEntry(channel, message)];
    }

    /** `set_join_dm`. */
    method SetJoinDm(g: GuildId, message: string)
      requires Valid()
      modifies this
      ensures Valid()
      ensures Snapshot() == WithJoinDm(old(Snapshot()), g, message)
    {
      joinDm := joinDm[g := message];
    }

    /** `set_antispam`. */
    method SetAntispam(g: GuildId, limit: int, window: int, mute: int)
      requires Valid()
      modifies this
      ensures Valid()
      ensures Snapshot() == WithAntispam(old(Snapshot()), g, limit, window, mute)
    {
      antispam := antispam[g := SpamPolicy(limit, window, mute)];
    }

    /** `set_answer`. */
    method SetAnswer(g: GuildId, question: string, answer: string)
      requires Valid()
      modifies this
      ensures Valid()
      ensures Snapshot() == WithAnswer(old(Snapshot()), g, StoredKey(question), answer)
    {
      if g !in qa {
        qa := qa[g := map[]];
      }
      qa := qa[g := qa[g][Lower(question) := answer]];
    }

    /**
     * `rank`: with no level recorded the no-data reply; otherwise the first
     * `min(top, n)` users of the stable `(level, xp)`-descending order of the
     * level map's keys, numbered from 1. The board lists distinct users of
     * the level map, each with its own level and xp, highest first.
     */
    method Rank(top: int) returns (board: Leaderboard)
      requires Valid()
      ensures level == map[] <==> board == NoData
      ensures board.Board? ==>
        var ranking := SortDesc(Key(xp, level), levelOrder);
        && |board.entries| == ShownCount(|levelOrder|, top)
        && forall i :: 0 <= i < |board.entries| ==>
             board.entries[i] == RankEntry(i + 1, ranking[i], LevelOf(level, ranking[i]), XpOf(xp, ranking[i]))
      ensures board.Board? ==>
        && (forall i :: 0 <= i < |board.entries| ==> board.entries[i].user in level)
        && (forall i, j :: 0 <= i < j < |board.entries| ==>
              board.entries[i].user != board.entries[j].user
              && AtLeast(Score(board.entries[i].level, board.entries[i].xp),
                         Score(board.entries[j].level, board.entries[j].xp)))
    {
      if level == map[] {
        return NoData;
      }
      var ranking := SortDesc(Key(xp, level), levelOrder);
      var shown := ShownCount(|ranking|, top);
      var entries: seq<RankEntry> := [];
      var i := 0;
      while i < shown
        invariant 0 <= i <= shown
        invariant |entries| == i
        invariant forall k :: 0 <= k < i ==>
          entries[k] == RankEntry(k + 1, ranking[k], LevelOf(level, ranking[k]), XpOf(xp, ranking[k]))
      {
        var uid := ranking[i];
        entries := entries + [RankEntry(i + 1, uid, LevelOf(level, uid), XpOf(xp, uid))];
        i := i + 1;
      }
      board := Board(entries);
      BoardIsRanked(xp, level, levelOrder, entries);
    }
  }

  /**
   * The order `rank` sorts into lists each user of the level map once,
   * highest `(level, xp)` first.
   */
  lemma RankingLists(xp: map<UserId, int>, level: map<UserId, int>, order: seq<UserId>)
    requires OrderMatches(level, order)
    ensures var ranking := SortDesc(Key(xp, level), order);
      && (forall k :: 0 <= k < |ranking| ==> ranking[k] in level)
      && (forall k, m :: 0 <= k < m < |ranking| ==> ranking[k] != ranking[m])
      && Descending(Key(xp, level), ranking)
  {
    var ranking := SortDesc(Key(xp, level), order);
    SortDescIsDescending(Key(xp, level), order);
    forall k | 0 <= k < |ranking| ensures ranking[k] in level {
      assert ranking[k] in multiset(order);
    }
    forall k, m | 0 <= k < m < |ranking| ensures ranking[k] != ranking[m] {
      DistinctAfterSort(order, ranking, k, m);
    }
  }

  /** A board built from the ranking lists distinct users of the level map, highest first. */
  lemma BoardIsRanked(xp: map<UserId, int>, level: map<UserId, int>, order: seq<UserId>, entries: seq<RankEntry>)
    requires OrderMatches(level, order)
    requires var ranking := SortDesc(Key(xp, level), order);
      && |entries| <= |ranking|
      && forall i :: 0 <= i < |entries| ==>
           entries[i] == RankEntry(i + 1, ranking[i], LevelOf(level, ranking[i]), XpOf(xp, ranking[i]))
    ensures forall i :: 0 <= i < |entries| ==> entries[i].user in level
    ensures forall i, j :: 0 <= i < j < |entries| ==>
      entries[i].user != entries[j].user
      && AtLeast(Score(entries[i].level, entries[i].xp), Score(entries[j].level, entries[j].xp))
  {
    RankingLists(xp, level, order);
  }

  /** A permutation of a list without repeats has no repeats. */
  lemma DistinctAfterSort(order: seq<UserId>, ranking: seq<UserId>, k: int, m: int)
    requires forall i, j :: 0 <= i < j < |order| ==> order[i] != order[j]
    requires multiset(ranking) == multiset(order)
    requires 0 <= k < m < |ranking|
    ensures ranking[k] != ranking[m]
  {
    DistinctCountsOnce(order, ranking[k]);
    RepeatCountsTwice(ranking, k, m);
  }

  lemma {:induction false} DistinctCountsOnce(order: seq<UserId>, x: UserId)
    requires forall i, j :: 0 <= i < j < |order| ==> order[i] != order[j]
    ensures multiset(order)[x] <= 1
  {
    if order != [] {
      var rest := order[1..];
      forall i, j | 0 <= i < j < |rest| ensures rest[i] != rest[j] {
        assert rest[i] == order[i + 1] && rest[j] == order[j + 1];
      }
      DistinctCountsOnce(rest, x);
      assert order == [order[0]] + rest;
      if order[0] == x {
        forall j | 0 <= j < |rest| ensures rest[j] != x {
          assert rest[j] == order[j + 1];
        }
      }
    }
  }

  lemma RepeatCountsTwice(s: seq<UserId>, k: int, m: int)
    requires 0 <= k < m < |s|
    ensures s[k] == s[m] ==> multiset(s)[s[m]] >= 2
  {
    assert s == s[..m] + [s[m]] + s[m + 1..];
    assert s[..m][k] == s[k];
  }
}
