/** Where the Markdown is written: `outputFile || inputFile.replace(/\.[^.]+$/, ".md")`. */
module OutputPath {
  import opened JsValues

  /**
   * The regular expression `/\.[^.]+$/` matches `path[start..end]`: `\.` is the dot at
   * `start`, `[^.]+` is one or more characters other than a dot, and `$` holds at `end`,
   * the end of the string (the expression has no multiline flag).
   */
  ghost predicate PatternMatches(path: string, start: int, end: int) {
    && 0 <= start < |path| && path[start] == '.'
    && start + 1 < end <= |path|
    && (forall j :: start < j < end ==> path[j] != '.')
    && end == |path|
  }

  /** The position of the last dot in `path`, if it has one. */
  function LastDot(path: string): (r: Option<nat>)
    ensures r.Some? ==> r.value < |path| && path[r.value] == '.'
    ensures r.Some? ==> forall j :: r.value < j < |path| ==> path[j] != '.'
    ensures r.None? ==> forall j :: 0 <= j < |path| ==> path[j] != '.'
  {
    if path == [] then None
    else if path[|path| - 1] == '.' then Some(|path| - 1)
    else LastDot(path[..|path| - 1])
  }

  /**
   * `path.replace(/\.[^.]+$/, ".md")`: a string's `replace` with a non-global pattern
   * puts ".md" in place of the first match and leaves a string without a match alone.
   * The only possible match starts at the last dot, and only if something follows it;
   * `[^.]` also matches "/", so a dot in a directory name can be the one replaced.
   */
  function ReplaceExtension(path: string): (r: string)
    ensures forall start, end :: PatternMatches(path, start, end) ==> r == path[..start] + ".md" + path[end..]
    ensures (forall start, end :: !PatternMatches(path, start, end)) ==> r == path
  {
    match LastDot(path)
    case Some(i) =>
      if i + 1 < |path| then
        assert PatternMatches(path, i, |path|);
        assert path[|path|..] == [];
        path[..i] + ".md"
      else path
    case None => path
  }

  /** `outputFile || inputFile.replace(...)`: a non-empty output path wins. */
  function FinalOutputFile(inputFile: string, outputFile: Option<string>): (r: string)
    ensures Truthy(outputFile) ==> r == outputFile.value
    ensures !Truthy(outputFile) ==> r == ReplaceExtension(inputFile)
  {
    OrElse(outputFile, ReplaceExtension(inputFile))
  }

  /** Deriving the name again from a derived name changes nothing. */
  lemma ReplaceExtensionIdempotent(path: string)
    ensures ReplaceExtension(ReplaceExtension(path)) == ReplaceExtension(path)
  {
    var r := ReplaceExtension(path);
    match LastDot(path)
    case Some(i) =>
      if i + 1 < |path| {
        assert r == path[..i] + ".md";
        assert PatternMatches(r, i, |r|);
        assert r[..i] == path[..i] && r[|r|..] == [];
      }
    case None =>
  }

  /**
   * The derived name is the input name itself, so the input file is overwritten, exactly
   * when the pattern does not match or the name already ends in ".md".
   */
  lemma ReplaceExtensionKeepsPathIff(path: string)
    ensures ReplaceExtension(path) == path
      <==> (forall start, end :: !PatternMatches(path, start, end)) || (|path| >= 3 && path[|path| - 3..] == ".md")
  {
    if |path| >= 3 && path[|path| - 3..] == ".md" {
      assert path[|path| - 3] == '.' && path[|path| - 2] == 'm' && path[|path| - 1] == 'd';
      assert PatternMatches(path, |path| - 3, |path|);
      assert path == path[..|path| - 3] + ".md";
    }
    match LastDot(path)
    case Some(i) =>
      if i + 1 < |path| {
        assert PatternMatches(path, i, |path|);
        var r := path[..i] + ".md";
        if r == path {
          assert |path| == i + 3;
          assert path[i..] == r[i..];
        }
      }
    case None =>
  }

  /** A last extension, the dot-free text after the last dot, is replaced by ".md". */
  lemma ReplaceLastExtension(stem: string, extension: string)
    requires extension != [] && forall j :: 0 <= j < |extension| ==> extension[j] != '.'
    ensures ReplaceExtension(stem + "." + extension) == stem + ".md"
  {
    var path := stem + "." + extension;
    assert PatternMatches(path, |stem|, |path|) by {
      forall j | |stem| < j < |path|
        ensures path[j] != '.'
      {
        assert path[j] == extension[j - |stem| - 1];
      }
    }
    assert path[..|stem|] == stem && path[|path|..] == [];
  }

  /** A path without a dot, or one whose last dot ends it, is kept as it is. */
  lemma KeepPathWithoutExtension(path: string)
    requires (forall j :: 0 <= j < |path| ==> path[j] != '.') || (path != [] && path[|path| - 1] == '.')
    ensures ReplaceExtension(path) == path
  {
  }

  /**
   * Derived names: the `.json` extension goes, as for the repository's test input
   * `temp-example.json`, and since `[^.]` also matches "/", a dot in a directory name
   * can be the one replaced.
   */
  lemma DerivedPathExamples()
    ensures ReplaceExtension("temp-example.json") == "temp-example.md"
    ensures ReplaceExtension("a.b/c") == "a.md"
  {
    assert "temp-example.json" == "temp-example" + "." + "json";
    ReplaceLastExtension("temp-example", "json");
    assert "a.b/c" == "a" + "." + "b/c";
    ReplaceLastExtension("a", "b/c");
  }

  /** A path with no dot, or with nothing after its last dot, is kept as it is. */
  lemma KeptPathExamples()
    ensures ReplaceExtension("notes") == "notes"
    ensures ReplaceExtension("notes.") == "notes."
  {
    KeepPathWithoutExtension("notes");
    KeepPathWithoutExtension("notes.");
  }

  /** The output argument wins unless it is absent or empty. */
  lemma OutputArgumentExamples()
    ensures FinalOutputFile("chat.json", None) == "chat.md"
    ensures FinalOutputFile("chat.json", Some("")) == "chat.md"
    ensures FinalOutputFile("chat.json", Some("custom-output.md")) == "custom-output.md"
  {
    assert "chat.json" == "chat" + "." + "json";
    ReplaceLastExtension("chat", "json");
  }
}
