/**
 * The outbound Discord effects of the handlers, as values: a handler
 * returns the sequence of effects it performs, in order.
 */
module Effects {
  import opened Leveling

  /** `str(guild.id)` keys: distinct guild ids give distinct keys, so an id stands for its key. */
  type GuildId = int
  type ChannelId = int

  datatype Action =
    /** `member.timeout(...)` for `seconds` seconds from now. */
    | Timeout(user: UserId, seconds: int)
    /** The channel notice that the member mentioned as `mention` was muted for `seconds` seconds. */
    | MutedNotice(mention: string, seconds: int)
    /** The channel notice that the member mentioned as `mention` reached `level`. */
    | LevelUpNotice(mention: string, level: int)
    /** `message.channel.send(text)` or `interaction.channel.send(text)`: the channel the event came from. */
    | ChannelSend(text: string)
    /** `channel.send(text)` to a channel picked by id. */
    | SendTo(channel: ChannelId, text: string)
    /** `member.send(text)`: a direct message. */
    | DirectMessage(user: UserId, text: string)
    /** `interaction.response.send_message(text)`: the reply to a slash command. */
    | Respond(text: string)
    /** `bot.process_commands(message)`: hand the message to the prefix-command parser. */
    | ProcessCommands

  /** Sent in place of the muted notice when the bot may not time the member out. */
  const NoPermissionText := "❌ 我沒有權限禁言這個成員。"

  /** The two keywords and their fixed replies. */
  const MorningWord := "早安"
  const MorningReply := "早安呀 🌞 祝你今天順利！"
  const ByeWord := "掰掰"
  const ByeReply := "掰掰 👋 下次見！"

  /** The replies of `repeat`. */
  const TooManyRepeatsText := "⚠️ 不能超過 5 次，避免刷屏！"
  const RepeatDoneText := "✅ 已完成重複"

  /** The placeholder a welcome or join message uses for the new member. */
  const UserPlaceholder := "{user}"
}
