/**
 * The slash commands whose logic is more than one Discord call: the bound
 * of `repeat`, the option list of `choose`, and the `{user}` templating of
 * the welcome and join messages.
 */
module Commands {
  import opened Wrappers
  import opened Text
  import opened Effects

  /** `repeat` refuses more repetitions than this. */
  const MaxRepeats := 5

  /**
   * `repeat`: more than five repetitions are refused with a warning and
   * nothing is sent; otherwise the message is sent `times` times (none for
   * a negative count) when the channel can be written to, and the command
   * then confirms. A failing send is swallowed, so each attempt is one effect.
   */
  method Repeat(times: int, message: string, canSend: bool) returns (actions: seq<Action>)
    ensures times > MaxRepeats ==> actions == [Respond(TooManyRepeatsText)]
    ensures times <= MaxRepeats ==>
      var sends := if canSend && times > 0 then times else 0;
      && |actions| == sends + 1
      && (forall i :: 0 <= i < sends ==> actions[i] == ChannelSend(message))
      && actions[sends] == Respond(RepeatDoneText)
    ensures |actions| <= MaxRepeats + 1
  {
    if times > MaxRepeats {
      return [Respond(TooManyRepeatsText)];
    }
    actions := [];
    var i := 0;
    while i < times
      invariant 0 <= i <= (if times > 0 then times else 0)
      invariant |actions| == if canSend then i else 0
      invariant forall k :: 0 <= k < |actions| ==> actions[k] == ChannelSend(message)
    {
      if canSend {
        actions := actions + [ChannelSend(message)];
      }
      i := i + 1;
    }
    actions := actions + [Respond(RepeatDoneText)];
  }

  /**
   * `choose`'s candidates: the first two options, and the third only when
   * it was given and is not empty (Python's truthiness of a string).
   */
  function ChoiceOptions(option1: string, option2: string, option3: Option<string>): (r: seq<string>)
    ensures 2 <= |r| <= 3 && r[0] == option1 && r[1] == option2
    ensures |r| == 3 <==> option3.Some? && option3.value != []
  {
    if option3.Some? && option3.value != [] then [option1, option2, option3.value] else [option1, option2]
  }

  /** A string is a candidate exactly when it is one of the options offered, an empty third one aside. */
  lemma ChoiceOptionsOffered(option1: string, option2: string, option3: Option<string>, x: string)
    ensures x in ChoiceOptions(option1, option2, option3) <==>
      x == option1 || x == option2 || (option3 == Some(x) && x != [])
  {
  }

  /** `message.replace("{user}", mention)`. */
  function FillUser(template: string, mention: string): (r: string)
    ensures !Contains(template, UserPlaceholder) ==> r == template
  {
    ReplaceAll(template, UserPlaceholder, mention)
  }

  /**
   * After filling, no `{user}` is left: a Discord mention such as `<@42>`
   * is non-empty and shares no character with the placeholder.
   */
  lemma FillUserReplacesEveryPlaceholder(template: string, mention: string)
    requires mention != [] && Disjoint(UserPlaceholder, mention)
    ensures !Contains(FillUser(template, mention), UserPlaceholder)
  {
    ReplaceAllLeavesNoPlaceholder(template, UserPlaceholder, mention);
  }

  /** Every occurrence is replaced, not just the first. */
  lemma FillUserTwice()
    ensures FillUser("{user}{user}", "<@7>") == "<@7><@7>"
  {
    var s := "{user}{user}";
    assert s[..6] == UserPlaceholder;
    assert s[6..][..6] == UserPlaceholder;
    assert s[6..][6..] == [];
  }
}
