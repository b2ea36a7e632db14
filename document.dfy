/** The parsed ORPG export: a version tag, the characters by id, and the messages. */
module Orpg {
  import opened JsValues

  /** The optional display-name hints of an AI persona. */
  datatype ModelInfo = ModelInfo(shortName: Option<string>, name: Option<string>)

  /** A non-user participant; only its `modelInfo` is read. */
  datatype Character = Character(modelInfo: Option<ModelInfo>)

  /** One chat message; `updatedAt` is the timestamp the transcript is ordered by. */
  datatype Message = Message(characterId: string, content: string, updatedAt: string)

  /**
   * The whole document. `messages` holds the values of the JSON `messages` object
   * in the order `Object.values` yields them; the message ids are not kept.
   */
  datatype Document = Document(
    version: Option<string>,
    characters: map<string, Character>,
    messages: seq<Message>)
}
