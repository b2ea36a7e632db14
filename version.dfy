/** The soft check of the document's `version` tag; it only ever warns. */
module VersionCheck {
  import opened JsValues

  const ExpectedVersion: string := "orpg.1.0"
  const WarningLead: string := "Warning: File may not be a valid ORPG export"

  /** `data.version || "none"`: the version as the warning quotes it. */
  function ReportedVersion(version: Option<string>): (shown: string)
    ensures shown != ""
    ensures Truthy(version) ==> shown == version.value
    ensures !Truthy(version) ==> shown == "none"
  {
    OrElse(version, "none")
  }

  /**
   * The warning `!data.version || data.version !== "orpg.1.0"` issues: present exactly
   * when the version is not the expected tag, quoting the expected and the actual one.
   */
  function VersionWarning(version: Option<string>): (warning: Option<string>)
    ensures warning.Some? <==> version != Some(ExpectedVersion)
    ensures warning.Some? ==> var text, shown := warning.value, ReportedVersion(version);
      && |text| == |WarningLead| + 20 + |ExpectedVersion| + 8 + |shown| + 2
      && text[..|WarningLead|] == WarningLead
      && text[|WarningLead| + 20..|WarningLead| + 20 + |ExpectedVersion|] == ExpectedVersion
      && text[|text| - |shown| - 2..|text| - 2] == shown
      && text[|text| - 2..] == "\")"
  {
    if !Truthy(version) || version.value != ExpectedVersion then
      Some(WarningLead + " (expected version \"" + ExpectedVersion + "\", got \"" + ReportedVersion(version) + "\")")
    else None
  }

  /** The tagged version passes; another tag, an absent one and an empty one all warn. */
  lemma VersionExamples()
    ensures VersionWarning(Some("orpg.1.0")) == None
    ensures VersionWarning(Some("orpg.2.0"))
      == Some(WarningLead + " (expected version \"" + ExpectedVersion + "\", got \"" + "orpg.2.0" + "\")")
    ensures VersionWarning(None)
      == Some(WarningLead + " (expected version \"" + ExpectedVersion + "\", got \"" + "none" + "\")")
    ensures VersionWarning(Some("")) == VersionWarning(None)
  {
    assert "orpg.2.0"[5] != ExpectedVersion[5];
  }
}
