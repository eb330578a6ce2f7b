/**
 * What each event handler of the bot does to its in-memory state, as
 * functions on a snapshot of that state, and the properties of the
 * message pipeline: flood control first, then the guild's Q&A table, then
 * the keyword replies and the experience credit.
 */
module Pipeline {
  import opened Wrappers
  import opened Text
  import opened Answers
  import opened Leveling
  import opened Flood
  import opened Effects
  import opened Commands

  /** A guild's welcome setting: the channel to greet in and the message template. */
  datatype WelcomeEntry = WelcomeEntry(channel: ChannelId, message: string)

  /** The parts of a Discord message the handler reads. */
  datatype Message = Message(authorIsBot: bool, guild: Option<GuildId>, author: UserId, mention: string, content: string)

  /** How `member.timeout` ends: the member is muted, or `discord.Forbidden` is raised. */
  datatype TimeoutResult = Muted | TimeoutForbidden

  /**
   * The bot's dictionaries. `order` is the insertion order of the keys of
   * the level map, which decides how `rank` breaks ties.
   */
  datatype State = State(
    xp: map<UserId, int>,
    level: map<UserId, int>,
    order: seq<UserId>,
    welcome: map<GuildId, WelcomeEntry>,
    joinDm: map<GuildId, string>,
    qa: map<GuildId, map<string, string>>,
    antispam: map<GuildId, SpamPolicy>,
    logs: map<GuildId, map<UserId, seq<Instant>>>)

  /** What a handler leaves: the new state and the effects it performed, in order. */
  datatype Reaction = Reaction(state: State, actions: seq<Action>)

  /** `order` lists each key of the level map exactly once. */
  predicate OrderMatches(level: map<UserId, int>, order: seq<UserId>) {
    && (forall i, j :: 0 <= i < j < |order| ==> order[i] != order[j])
    && (forall u :: u in level ==> u in order)
    && (forall i :: 0 <= i < |order| ==> order[i] in level)
  }

  /** A user's timestamp log; the nested default dictionary reads a missing one as empty. */
  function LogOf(logs: map<GuildId, map<UserId, seq<Instant>>>, g: GuildId, u: UserId): seq<Instant> {
    if g in logs && u in logs[g] then logs[g][u] else []
  }

  /** The logs with user `u`'s log in guild `g` replaced. */
  function WithLog(logs: map<GuildId, map<UserId, seq<Instant>>>, g: GuildId, u: UserId, log: seq<Instant>)
    : (r: map<GuildId, map<UserId, seq<Instant>>>)
    ensures forall h, v :: LogOf(r, h, v) == if h == g && v == u then log else LogOf(logs, h, v)
  {
    logs[g := (if g in logs then logs[g] else map[])[u := log]]
  }

  /** Writing a log twice keeps the second write only. */
  lemma WithLogTwice(logs: map<GuildId, map<UserId, seq<Instant>>>, g: GuildId, u: UserId, a: seq<Instant>, b: seq<Instant>)
    ensures WithLog(WithLog(logs, g, u, a), g, u, b) == WithLog(logs, g, u, b)
  {
    var inner := if g in logs then logs[g] else map[];
    assert inner[u := a][u := b] == inner[u := b];
  }

  /** `add_xp(u, gain)` on the snapshot: the new state and the returned level, if any. */
  function CreditUser(s: State, u: UserId, gain: int): (r: (State, Option<int>))
    ensures (r.0.xp, r.0.level) == CreditLedger(s.xp, s.level, u, gain)
    ensures r.0 == s.(xp := r.0.xp, level := r.0.level, order := r.0.order)
    ensures r.1 == Credit(XpOf(s.xp, u), LevelOf(s.level, u), gain).levelUp
    ensures OrderMatches(s.level, s.order) ==> OrderMatches(r.0.level, r.0.order)
  {
    var c := Credit(XpOf(s.xp, u), LevelOf(s.level, u), gain);
    var order := if u in s.level then s.order else s.order + [u];
    (s.(xp := s.xp[u := c.xp], level := s.level[u := c.level], order := order), c.levelUp)
  }

  /**
   * The flood-control block: for a guild with a policy, one step of the
   * author's log, and whether it fired; a guild without one is left alone.
   */
  function Monitor(s: State, g: GuildId, u: UserId, now: Instant): (r: (State, bool))
    ensures r.0 == s.(logs := r.0.logs)
    ensures g !in s.antispam ==> r == (s, false)
    ensures g in s.antispam ==>
      var v := Step(LogOf(s.logs, g, u), now, s.antispam[g]);
      r.0.logs == WithLog(s.logs, g, u, v.log) && r.1 == v.fired
  {
    if g in s.antispam then
      var v := Step(LogOf(s.logs, g, u), now, s.antispam[g]);
      (s.(logs := WithLog(s.logs, g, u, v.log)), v.fired)
    else (s, false)
  }

  /** The effects of a firing: the timeout and its notice, or the no-permission message. */
  function TimeoutActions(msg: Message, policy: SpamPolicy, outcome: TimeoutResult): (r: seq<Action>)
    ensures 1 <= |r| <= 2 && ProcessCommands !in r
    ensures Timeout(msg.author, policy.mute) in r <==> outcome == Muted
    ensures outcome == Muted ==> r[0] == Timeout(msg.author, policy.mute)
  {
    match outcome
    case Muted => [Timeout(msg.author, policy.mute), MutedNotice(msg.mention, policy.mute)]
    case TimeoutForbidden => [ChannelSend(NoPermissionText)]
  }

  /** Guild `g`'s question table; a guild without one has none. */
  function TableOf(s: State, g: GuildId): map<string, string> {
    if g in s.qa then s.qa[g] else map[]
  }

  /** The stored answer to a message in guild `g`, looked up by its lowercased, stripped text. */
  function AnswerFor(s: State, g: GuildId, content: string): (r: Option<string>)
    ensures r.Some? <==> g in s.qa && LookupKey(content) in s.qa[g]
  {
    if g in s.qa && LookupKey(content) in s.qa[g] then Some(s.qa[g][LookupKey(content)]) else None
  }

  /** The fixed replies: one per keyword the original text contains, morning first. */
  function KeywordReplies(content: string): (r: seq<Action>)
    ensures ChannelSend(MorningReply) in r <==> Contains(content, MorningWord)
    ensures ChannelSend(ByeReply) in r <==> Contains(content, ByeWord)
    ensures forall a :: a in r ==> a == ChannelSend(MorningReply) || a == ChannelSend(ByeReply)
    ensures forall i, j :: 0 <= i < j < |r| ==> r[i] != r[j]
    ensures |r| == 2 ==> r == [ChannelSend(MorningReply), ChannelSend(ByeReply)]
  {
    (if Contains(content, MorningWord) then [ChannelSend(MorningReply)] else [])
      + (if Contains(content, ByeWord) then [ChannelSend(ByeReply)] else [])
  }

  /**
   * The part of `on_message` after flood control let the message through:
   * the stored answer if the message asks a known question, otherwise the
   * keyword replies and the experience credit.
   */
  function Reply(s: State, msg: Message, g: GuildId): (r: Reaction)
    ensures r.state == s.(xp := r.state.xp, level := r.state.level, order := r.state.order)
  {
    match AnswerFor(s, g, msg.content)
    case Some(answer) => Reaction(s, [ChannelSend(answer), ProcessCommands])
    case None =>
      var c := CreditUser(s, msg.author, MessageGain);
      var notice := if c.1.Some? && c.1.value != 0 then [LevelUpNotice(msg.mention, c.1.value)] else [];
      Reaction(c.0, KeywordReplies(msg.content) + notice + [ProcessCommands])
  }

  /** `on_message` on the snapshot. */
  function OnMessageSpec(s: State, msg: Message, now: Instant, outcome: TimeoutResult): (r: Reaction)
    ensures r.state.welcome == s.welcome && r.state.joinDm == s.joinDm
    ensures r.state.qa == s.qa && r.state.antispam == s.antispam
  {
    if msg.authorIsBot || msg.guild.None? then Reaction(s, [])
    else
      var g := msg.guild.value;
      var m := Monitor(s, g, msg.author, now);
      if m.1 then Reaction(m.0, TimeoutActions(msg, s.antispam[g], outcome) + [ProcessCommands])
      else Reply(m.0, msg, g)
  }

  /** Messages from bots and outside guilds are ignored: no effect, no change. */
  lemma IgnoredMessagesChangeNothing(s: State, msg: Message, now: Instant, outcome: TimeoutResult)
    requires msg.authorIsBot || msg.guild.None?
    ensures OnMessageSpec(s, msg, now, outcome) == Reaction(s, [])
  {
  }

  /** `actions` hands the message to the command parser exactly once, as its last effect. */
  predicate CommandsLast(actions: seq<Action>) {
    actions != [] && actions[|actions| - 1] == ProcessCommands
      && ProcessCommands !in actions[..|actions| - 1]
  }

  /** Effects free of `ProcessCommands`, followed by it, end with the only hand-over. */
  lemma ThenCommands(init: seq<Action>)
    requires ProcessCommands !in init
    ensures CommandsLast(init + [ProcessCommands])
  {
    assert (init + [ProcessCommands])[..|init|] == init;
  }

  /** Both arms of `Reply` end with the only hand-over to the command parser. */
  lemma ReplyReachesCommands(s: State, msg: Message, g: GuildId)
    ensures CommandsLast(Reply(s, msg, g).actions)
  {
    if AnswerFor(s, g, msg.content).Some? {
      ThenCommands([ChannelSend(AnswerFor(s, g, msg.content).value)]);
    } else {
      var c := CreditUser(s, msg.author, MessageGain);
      var notice := if c.1.Some? && c.1.value != 0 then [LevelUpNotice(msg.mention, c.1.value)] else [];
      ThenCommands(KeywordReplies(msg.content) + notice);
    }
  }

  /** Every handled message is passed on to the command parser exactly once, as the last effect. */
  lemma HandledMessagesReachCommands(s: State, msg: Message, now: Instant, outcome: TimeoutResult)
    requires !msg.authorIsBot && msg.guild.Some?
    ensures var r := OnMessageSpec(s, msg, now, outcome);
      && r.actions != [] && r.actions[|r.actions| - 1] == ProcessCommands
      && ProcessCommands !in r.actions[..|r.actions| - 1]
  {
    var g := msg.guild.value;
    var m := Monitor(s, g, msg.author, now);
    if m.1 {
      ThenCommands(TimeoutActions(msg, s.antispam[g], outcome));
    } else {
      ReplyReachesCommands(m.0, msg, g);
    }
  }

  /** A guild without a flood-control policy never touches a timestamp log. */
  lemma NoPolicyNoLogs(s: State, msg: Message, now: Instant, outcome: TimeoutResult)
    requires msg.guild.Some? && msg.guild.value !in s.antispam
    ensures OnMessageSpec(s, msg, now, outcome).state.logs == s.logs
  {
  }

  /**
   * With a policy, the author's log becomes `now` after the earlier
   * entries at most `window` whole seconds old, in order; the monitor fires
   * exactly when that log holds at least `limit` entries. Firing empties the
   * log whatever the timeout did, performs the timeout effects, and skips
   * the Q&A, keyword and experience steps, so the ledger is unchanged; no
   * other user's log changes.
   */
  lemma FloodControl(s: State, msg: Message, now: Instant, outcome: TimeoutResult)
    requires !msg.authorIsBot && msg.guild.Some? && msg.guild.value in s.antispam
    ensures var g, u, policy := msg.guild.value, msg.author, s.antispam[msg.guild.value];
      var r := OnMessageSpec(s, msg, now, outcome);
      var kept := Prune(LogOf(s.logs, g, u), now, policy.window) + (if policy.window >= 0 then [now] else []);
      var fired := |kept| >= policy.limit;
      && LogOf(r.state.logs, g, u) == (if fired then [] else kept)
      && (forall h, v :: (h, v) != (g, u) ==> LogOf(r.state.logs, h, v) == LogOf(s.logs, h, v))
      && (fired ==> r.actions == TimeoutActions(msg, policy, outcome) + [ProcessCommands])
      && (fired ==> r.state.xp == s.xp && r.state.level == s.level && r.state.order == s.order)
  {
    var g, u := msg.guild.value, msg.author;
    StepSpec(LogOf(s.logs, g, u), now, s.antispam[g]);
  }

  /**
   * A message whose lowercased, stripped text is a question of its guild
   * gets the stored answer and nothing else: no keyword reply and no
   * experience.
   */
  lemma AnswerShortCircuits(s: State, msg: Message, now: Instant, outcome: TimeoutResult)
    requires !msg.authorIsBot && msg.guild.Some? && !Monitor(s, msg.guild.value, msg.author, now).1
    requires var g := msg.guild.value; g in s.qa && LookupKey(msg.content) in s.qa[g]
    ensures var r := OnMessageSpec(s, msg, now, outcome);
      && r.actions == [ChannelSend(s.qa[msg.guild.value][LookupKey(msg.content)]), ProcessCommands]
      && r.state.xp == s.xp && r.state.level == s.level
  {
  }

  /**
   * Otherwise the message gets one reply per keyword its original text
   * contains, earns 10 xp through `add_xp`, and the level-up is announced
   * when `add_xp` returns a level other than 0.
   */
  lemma OrdinaryMessage(s: State, msg: Message, now: Instant, outcome: TimeoutResult)
    requires !msg.authorIsBot && msg.guild.Some?
    requires var m := Monitor(s, msg.guild.value, msg.author, now);
      !m.1 && AnswerFor(m.0, msg.guild.value, msg.content).None?
    ensures var r := OnMessageSpec(s, msg, now, outcome);
      var u := msg.author;
      var c := Credit(XpOf(s.xp, u), LevelOf(s.level, u), MessageGain);
      var notice := if c.levelUp.Some? && c.levelUp.value != 0 then [LevelUpNotice(msg.mention, c.level)] else [];
      && (r.state.xp, r.state.level) == CreditLedger(s.xp, s.level, u, MessageGain)
      && r.actions == KeywordReplies(msg.content) + notice + [ProcessCommands]
  {
  }

  /**
   * Handling a message keeps the ledger valid (level at least 1, xp below
   * the level's threshold) and the level map's key order consistent.
   */
  lemma OnMessageKeepsLedgerValid(s: State, msg: Message, now: Instant, outcome: TimeoutResult)
    requires ValidLedger(s.xp, s.level) && OrderMatches(s.level, s.order)
    ensures var r := OnMessageSpec(s, msg, now, outcome);
      ValidLedger(r.state.xp, r.state.level) && OrderMatches(r.state.level, r.state.order)
  {
    if !msg.authorIsBot && msg.guild.Some? {
      var m := Monitor(s, msg.guild.value, msg.author, now);
      CreditLedgerKeepsValid(m.0.xp, m.0.level, msg.author, MessageGain);
    }
  }

  /** A message with both keywords gets both replies, in the source's order. */
  lemma BothKeywordsBothReplies()
    ensures KeywordReplies("早安，掰掰") == [ChannelSend(MorningReply), ChannelSend(ByeReply)]
  {
    var s := "早安，掰掰";
    assert s[..2] == MorningWord;
    assert s[1..][2..][..2] == ByeWord;
  }

  /** `set_welcome`: the guild's welcome channel and message are overwritten. */
  function WithWelcome(s: State, g: GuildId, channel: ChannelId, message: string): (r: State)
    ensures r.welcome.Keys == s.welcome.Keys + {g} && r.welcome[g] == WelcomeEntry(channel, message)
    ensures forall h :: h in s.welcome && h != g ==> r.welcome[h] == s.welcome[h]
    ensures r == s.(welcome := r.welcome)
  {
    s.(welcome := s.welcome[g := WelcomeEntry(channel, message)])
  }

  /** `set_join_dm`: the guild's join message is overwritten. */
  function WithJoinDm(s: State, g: GuildId, message: string): (r: State)
    ensures r.joinDm.Keys == s.joinDm.Keys + {g} && r.joinDm[g] == message
    ensures forall h :: h in s.joinDm && h != g ==> r.joinDm[h] == s.joinDm[h]
    ensures r == s.(joinDm := r.joinDm)
  {
    s.(joinDm := s.joinDm[g := message])
  }

  /** `set_antispam`: the three numbers are stored as given, without any check. */
  function WithAntispam(s: State, g: GuildId, limit: int, window: int, mute: int): (r: State)
    ensures r.antispam.Keys == s.antispam.Keys + {g} && r.antispam[g] == SpamPolicy(limit, window, mute)
    ensures forall h :: h in s.antispam && h != g ==> r.antispam[h] == s.antispam[h]
    ensures r == s.(antispam := r.antispam)
  {
    s.(antispam := s.antispam[g := SpamPolicy(limit, window, mute)])
  }

  /**
   * `set_answer`: the guild's table is created when missing, and `answer`
   * is stored under `key`, which `set_answer` computes as the question
   * lowercased but not stripped (`StoredKey`).
   */
  function WithAnswer(s: State, g: GuildId, key: string, answer: string): (r: State)
    ensures r == s.(qa := r.qa)
    ensures r.qa.Keys == s.qa.Keys + {g}
    ensures forall h :: h in s.qa && h != g ==> r.qa[h] == s.qa[h]
    ensures TableOf(r, g) == TableOf(s, g)[key := answer]
  {
    s.(qa := s.qa[g := TableOf(s, g)[key := answer]])
  }

  /**
   * Once an answer is set, a message that does not trigger flood control and
   * whose text is the question in any letter case (`asked`), padded with any
   * whitespace, gets that answer.
   */
  lemma AnswerSetThenAsked(s: State, g: GuildId, question: string, answer: string, asked: string,
                           msg: Message, now: Instant, outcome: TimeoutResult, pre: string, post: string)
    requires Trimmed(asked) && Lower(asked) == Lower(question) && AllSpace(pre) && AllSpace(post)
    requires msg.content == pre + asked + post && !msg.authorIsBot && msg.guild == Some(g)
    requires !Monitor(WithAnswer(s, g, StoredKey(question), answer), g, msg.author, now).1
    ensures OnMessageSpec(WithAnswer(s, g, StoredKey(question), answer), msg, now, outcome).actions
      == [ChannelSend(answer), ProcessCommands]
  {
    LookupIgnoresCaseAndPadding(pre, asked, post);
  }

  /** A padded capitalised question finds the answer stored for its lowercase form. */
  lemma CapitalisedQuestionFindsAnswer(s: State, g: GuildId)
    ensures AnswerFor(WithAnswer(s, g, StoredKey("hi"), "hello"), g, " Hi ") == Some("hello")
  {
    assert " Hi " == " " + "Hi" + " ";
    assert Lower("Hi") == "hi" by {
      assert "Hi"[1..] == "i";
    }
    LookupIgnoresCaseAndPadding(" ", "Hi", " ");
  }

  /**
   * A question that starts or ends with whitespace is stored as written,
   * but the lookup key of every message is stripped, so setting it changes
   * no reply of the guild.
   */
  lemma PaddedQuestionChangesNoReply(s: State, g: GuildId, question: string, answer: string, content: string)
    requires !Trimmed(question)
    ensures AnswerFor(WithAnswer(s, g, StoredKey(question), answer), g, content) == AnswerFor(s, g, content)
  {
    UntrimmedQuestionNeverMatches(question, content);
  }

  /**
   * A limit of zero or below, which `set_antispam` accepts, mutes the author
   * of every message a person sends in that guild.
   */
  lemma NonPositiveLimitMutesEveryone(s: State, g: GuildId, limit: int, window: int, mute: int,
                                      msg: Message, now: Instant, outcome: TimeoutResult)
    requires limit <= 0 && !msg.authorIsBot && msg.guild == Some(g)
    ensures OnMessageSpec(WithAntispam(s, g, limit, window, mute), msg, now, outcome).actions
      == TimeoutActions(msg, SpamPolicy(limit, window, mute), outcome) + [ProcessCommands]
  {
    var s' := WithAntispam(s, g, limit, window, mute);
    NonPositiveLimitAlwaysFires(LogOf(s'.logs, g, msg.author), now, s'.antispam[g]);
  }

  /**
   * `on_member_join`: the welcome goes to the configured channel when the
   * guild still has it, and the join message goes to the member; both with
   * `{user}` replaced by the member's mention.
   */
  function OnMemberJoin(s: State, g: GuildId, member: UserId, mention: string, channels: set<ChannelId>)
    : (r: seq<Action>)
    ensures |r| == (if g in s.welcome && s.welcome[g].channel in channels then 1 else 0) + (if g in s.joinDm then 1 else 0)
    ensures forall i :: 0 < i < |r| ==> !r[i].SendTo?
    ensures (exists c, t :: SendTo(c, t) in r) <==> g in s.welcome && s.welcome[g].channel in channels
    ensures (exists v, t :: DirectMessage(v, t) in r) <==> g in s.joinDm
    ensures forall a :: a in r ==>
      || (a.SendTo? && g in s.welcome && a == SendTo(s.welcome[g].channel, FillUser(s.welcome[g].message, mention)))
      || (a.DirectMessage? && g in s.joinDm && a == DirectMessage(member, FillUser(s.joinDm[g], mention)))
  {
    var greet := if g in s.welcome && s.welcome[g].channel in channels
      then [SendTo(s.welcome[g].channel, FillUser(s.welcome[g].message, mention))] else [];
    var dm := if g in s.joinDm then [DirectMessage(member, FillUser(s.joinDm[g], mention))] else [];
    greet + dm
  }

  /** No effect of a join carries a `{user}` placeholder once a mention is filled in. */
  lemma JoinMessagesHaveNoPlaceholder(s: State, g: GuildId, member: UserId, mention: string, channels: set<ChannelId>)
    requires mention != [] && Disjoint(UserPlaceholder, mention)
    ensures forall a :: a in OnMemberJoin(s, g, member, mention, channels) ==>
      (a.SendTo? || a.DirectMessage?) && !Contains(a.text, UserPlaceholder)
  {
    if g in s.welcome {
      FillUserReplacesEveryPlaceholder(s.welcome[g].message, mention);
    }
    if g in s.joinDm {
      FillUserReplacesEveryPlaceholder(s.joinDm[g], mention);
    }
  }
}
