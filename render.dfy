/** Speaker names and the Markdown fragment of one message. */
module Render {
  import opened JsValues
  import opened Orpg

  /** The sentinel `characterId` of the human participant. */
  const UserId: string := "USER"

  /**
   * `getAIName`: `characters[characterId]?.modelInfo`, then `short_name || name || "AI"`.
   * An absent character or an absent `modelInfo` gives "AI"; empty names count as absent.
   */
  function AIName(characterId: string, characters: map<string, Character>): (name: string)
    ensures name != ""
    ensures characterId !in characters || characters[characterId].modelInfo.None? ==> name == "AI"
    ensures characterId in characters && characters[characterId].modelInfo.Some? ==>
      var info := characters[characterId].modelInfo.value;
      && (Truthy(info.shortName) ==> name == info.shortName.value)
      && (!Truthy(info.shortName) && Truthy(info.name) ==> name == info.name.value)
      && (!Truthy(info.shortName) && !Truthy(info.name) ==> name == "AI")
  {
    var modelInfo := if characterId in characters then characters[characterId].modelInfo else None;
    match modelInfo
    case None => "AI"
    case Some(info) => OrElse(info.shortName, OrElse(info.name, "AI"))
  }

  /** The name shown in a message's heading: "You" for the user, the AI name otherwise. */
  function SpeakerName(characterId: string, characters: map<string, Character>): (name: string)
    ensures name != ""
  {
    if characterId == UserId then "You" else AIName(characterId, characters)
  }

  /**
   * `convertMessageToMarkdown`: the heading `#### <speaker>:`, a blank line, the
   * content, and a blank line; `FragmentLayout` places each piece.
   */
  function MessageToMarkdown(message: Message, characters: map<string, Character>): (fragment: string)
    ensures |fragment| == |SpeakerName(message.characterId, characters)| + |message.content| + 10
  {
    var isUser := message.characterId == UserId;
    var prefix := if isUser then "#### You:" else "#### " + AIName(message.characterId, characters) + ":";
    prefix + "\n\n" + message.content + "\n\n"
  }

  /**
   * Every fragment is `#### <speaker>:`, a blank line, the content exactly as stored,
   * and a blank line; the speaker is "You" for the user and the AI name otherwise.
   */
  lemma FragmentLayout(message: Message, characters: map<string, Character>)
    ensures var fragment := MessageToMarkdown(message, characters);
      var heading := "#### " + SpeakerName(message.characterId, characters) + ":";
      && fragment[..|heading|] == heading
      && fragment[|heading|..|heading| + 2] == "\n\n"
      && fragment[|heading| + 2..|fragment| - 2] == message.content
      && fragment[|fragment| - 2..] == "\n\n"
  {
  }

  /** A user message is headed `#### You:` whatever the characters map holds, even a "USER" entry. */
  lemma UserHeadingIgnoresCharacters(message: Message, characters: map<string, Character>, others: map<string, Character>)
    requires message.characterId == UserId
    ensures MessageToMarkdown(message, characters)[..9] == "#### You:"
    ensures MessageToMarkdown(message, characters) == MessageToMarkdown(message, others)
  {
  }

  /** A non-empty short name wins over the long name. */
  lemma ShortNameWins(characterId: string, characters: map<string, Character>, shortName: string, name: Option<string>)
    requires characterId != UserId && shortName != ""
    requires characterId in characters
    requires characters[characterId].modelInfo == Some(ModelInfo(Some(shortName), name))
    ensures SpeakerName(characterId, characters) == shortName
  {
  }
}
