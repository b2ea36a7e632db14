/**
 * `convertToMarkdown`: one conversion, from the loaded input to what the run reports and
 * writes. Reading and writing files and the JSON parser are outside the model; the
 * input arrives as the parser's outcome and the output leaves as a value.
 */
module Converter {
  import opened JsValues
  import opened Orpg
  import opened Render
  import opened Transcript
  import opened OutputPath
  import opened VersionCheck
  import opened Ordering
  import opened StableSort

  /** What reading and parsing the input file gave. */
  datatype Loaded =
    | Parsed(doc: Document)
    | SyntaxError          // `JSON.parse` rejected the text
    | OtherError(error: string)  // any other exception (reading the file, for one)

  /** How the run ends. */
  datatype Outcome =
    | Converted(warning: Option<string>, markdown: string, outputFile: string, notice: string)
    | Exited(message: string, status: int)
    | Rethrown(error: string)

  const InvalidJsonMessage: string := "Error: File doesn't appear to be a valid JSON file"

  /**
   * A JSON syntax error is reported and ends the run with status 1, every other error
   * is rethrown unchanged, and a parsed document is converted whatever its version:
   * the warning is only reported beside the Markdown.
   */
  method ConvertToMarkdown(loaded: Loaded, inputFile: string, outputFile: Option<string>) returns (outcome: Outcome)
    ensures loaded.SyntaxError? ==> outcome == Exited(InvalidJsonMessage, 1)
    ensures loaded.OtherError? ==> outcome == Rethrown(loaded.error)
    ensures loaded.Parsed? ==> outcome.Converted?
    ensures loaded.Parsed? ==> outcome.warning == VersionWarning(loaded.doc.version)
    ensures loaded.Parsed? ==> outcome.markdown == Markdown(loaded.doc)
    ensures loaded.Parsed? ==> outcome.outputFile == FinalOutputFile(inputFile, outputFile)
    ensures loaded.Parsed? ==> outcome.notice == "Converted " + inputFile + " to " + outcome.outputFile
  {
    match loaded
    case SyntaxError =>
      outcome := Exited(InvalidJsonMessage, 1);
    case OtherError(error) =>
      outcome := Rethrown(error);
    case Parsed(doc) =>
      var warning := VersionWarning(doc.version);
      var markdown := ProcessMessages(doc);
      var finalOutputFile := FinalOutputFile(inputFile, outputFile);
      outcome := Converted(warning, markdown, finalOutputFile, "Converted " + inputFile + " to " + finalOutputFile);
  }

  /** A user greeting and a later reply from a character whose short name is "Bot". */
  const Hi: Message := Message("USER", "Hi", "2024-01-01T00:00:00Z")
  const Hello: Message := Message("c1", "Hello", "2024-01-01T00:00:01Z")
  const Chat: Document := Document(Some("orpg.1.0"), map["c1" := Character(Some(ModelInfo(Some("Bot"), None)))], [Hi, Hello])

  /** The greeting's timestamp sorts before the reply's. */
  lemma HiStampedFirst()
    ensures NotAfter(Hi, Hello)
  {
    var common := "2024-01-01T00:00:0";
    assert Hi.updatedAt == common + "0Z" && Hello.updatedAt == common + "1Z";
    LexLeCommonPrefix(common, "0Z", "1Z");
  }

  /**
   * The chat above, converted from "chat.json" with no output path: "chat.md" receives
   * both fragments in order and no warning is issued.
   */
  lemma ChatConversion()
    ensures Markdown(Chat) == ("#### You:" + "\n\n" + "Hi" + "\n\n") + ("#### " + "Bot" + ":" + "\n\n" + "Hello" + "\n\n")
    ensures FinalOutputFile("chat.json", None) == "chat.md"
    ensures VersionWarning(Chat.version) == None
  {
    ChatTranscript();
    OutputArgumentExamples();
  }

  /** The chat's transcript: the greeting's fragment, then the reply's under "Bot". */
  lemma ChatTranscript()
    ensures Markdown(Chat) == ("#### You:" + "\n\n" + "Hi" + "\n\n") + ("#### " + "Bot" + ":" + "\n\n" + "Hello" + "\n\n")
  {
    HiStampedFirst();
    ChatFragments();
    TwoMessageTranscript(Chat, Hi, Hello);
  }

  /** The greeting is headed `#### You:` and the reply `#### Bot:`. */
  lemma ChatFragments()
    ensures MessageToMarkdown(Hi, Chat.characters) == "#### You:" + "\n\n" + "Hi" + "\n\n"
    ensures MessageToMarkdown(Hello, Chat.characters) == "#### " + "Bot" + ":" + "\n\n" + "Hello" + "\n\n"
  {
    assert AIName("c1", Chat.characters) == "Bot";
  }
}
