/** What each rendered file is, in literal paths. */
module SkillListing {

  import opened SkillRegistry
  import opened SkillRendering
  import opened SkillPaths

  /** `codex` skills are installed under `.agents/skills`, `claude-code` skills under `.claude/skills`. */
  function InstalledText(name: string, host: string, relPath: string): string {
    (if host == "codex" then ".agents/skills/" else ".claude/skills/") + name + "/" + relPath
  }

  /** Skills are published by host and name, the one at the target root by host alone. */
  function PublishedText(d: SkillDefinition, host: string, relPath: string): string {
    "skills/" + host + "/" + (if d.publishAtTargetRoot then relPath else d.name + "/" + relPath)
  }

  lemma PathTexts(d: SkillDefinition, host: string, relPath: string)
    requires host in {"codex", "claude-code"}
    ensures InstalledPath(d, host, relPath) == InstalledText(d.name, host, relPath)
    ensures PublishPath(d, host, relPath) == PublishedText(d, host, relPath)
  {
  }

  function FileText(d: SkillDefinition, host: string, stamp: Stamp, m: nat): RegisteredFile
    requires m <= |d.files|
  {
    var relPath := if m == 0 then "SKILL.md" else d.files[m - 1].relPath;
    var content := if m == 0 then stamp(d, d.renderBody(host)) else d.files[m - 1].render(host);
    RegisteredFile(d.name, d.version, host, relPath, content, PublishedText(d, host, relPath), InstalledText(d.name, host, relPath))
  }

  /**
   * File 0 of a definition that supports the host is its stamped body, and file `m` its `m`th file rendered for the
   * host; each stands in the listing behind the files of the definitions before it, under its own paths.
   */
  lemma ListedFile(ds: seq<SkillDefinition>, host: string, stamp: Stamp, a: nat, m: nat)
    requires host in {"codex", "claude-code"} && a < |ds| && host in ds[a].supportedHosts && m <= |ds[a].files|
    ensures var i := |Listing(ds[..a], host, stamp)| + m;
            i < |Listing(ds, host, stamp)| && Listing(ds, host, stamp)[i] == FileText(ds[a], host, stamp, m)
  {
    FileAt(ds, host, stamp, a, m);
    PathTexts(ds[a], host, RelPath(ds[a], m));
  }

  /** A definition that does not support the host has no file in its listing; one that does has one more than its files. */
  lemma ListingLength(ds: seq<SkillDefinition>, host: string, stamp: Stamp, a: nat)
    requires a < |ds|
    ensures |Listing(ds[..a + 1], host, stamp)|
         == |Listing(ds[..a], host, stamp)| + if host in ds[a].supportedHosts then 1 + |ds[a].files| else 0
  {
    ListingStep(ds, host, stamp, a);
  }
}
