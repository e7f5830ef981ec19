/** One name for the findings that different packs name differently. */
module Topics {
  import opened Basics

  /** A check without the name of its control: all that stands after the first slash. */
  function LocalCheckId(qualified: string): string {
    AfterSlash(qualified, qualified)
  }

  /** What follows the first slash of `s`, or `whole` without one. */
  function AfterSlash(s: string, whole: string): string {
    if s == [] then whole
    else if s[0] == '/' then s[1..]
    else AfterSlash(s[1..], whole)
  }

  datatype Topic = Topic(key: string, title: string)

  function Spaced(id: string): string {
    seq(|id|, i requires 0 <= i < |id| => if id[i] == '-' then ' ' else id[i])
  }

  /** The topic an id is listed under, if it is. */
  function CommonTopic(id: string): Option<Topic> {
    if id in {"vulnerability-scanning", "vulnerability-scanning-in-ci", "dependency-audit-in-ci",
              "automated-vulnerability-scanning", "patch-automation-configured", "automated-update-policy",
              "automated-remediation-policy", "automated-dependency-updates", "dependency-scanning-configured",
              "remediation-automation"} then
      Some(Topic("dependency-scanning", "Automated dependency vulnerability scanning"))
    else if id in {"secret-scanning-configured"} then
      Some(Topic("secret-scanning", "Automated secret detection"))
    else if id in {"release-signing-configured", "provenance-signed", "provenance-generated", "checksum-publication",
                   "trusted-builder-used"} then
      Some(Topic("release-signing", "Signed releases and build provenance"))
    else if id in {"sbom-generated-in-ci", "sbom-generated", "sbom-artifact-present"} then
      Some(Topic("sbom", "Software bill of materials"))
    else if id in {"static-analysis-in-ci", "static-analysis-configured", "automated-security-gate",
                   "automated-code-review-tooling", "sast-tooling-in-ci"} then
      Some(Topic("static-analysis", "Static analysis in the pipeline"))
    else if id in {"review-required", "review-required-as-code", "pr-review-required", "branch-protection-as-code",
                   "approval-enforced", "change-approval", "code-review-enforced-settings-yml"} then
      Some(Topic("branch-protection", "Enforced review before merge"))
    else if id in {"ci-runs-tests", "tests-run-in-ci", "automated-testing-in-ci", "testing-before-release",
                   "change-testing"} then
      Some(Topic("ci-testing", "Automated testing on every change"))
    else None
  }

  function TopicOf(id: string): Topic {
    match CommonTopic(id)
    case Some(topic) => topic
    case None => Topic(id, Spaced(id))
  }

  /** A name without its first part and the slash after it; a name of one part is
    * left alone.
    */
  lemma {:induction false} AfterSlashIs(control: string, check: string, whole: string)
    requires '/' !in control
    ensures AfterSlash(control + "/" + check, whole) == check && AfterSlash(control, whole) == whole
  {
    var s := control + "/" + check;
    if control == [] {
      assert s[1..] == check;
    } else {
      assert s[1..] == control[1..] + "/" + check;
      AfterSlashIs(control[1..], check, whole);
    }
  }

  lemma LocalCheckIdIs(control: string, check: string)
    requires '/' !in control
    ensures LocalCheckId(control + "/" + check) == check && LocalCheckId(control) == control
  {
    AfterSlashIs(control, check, control + "/" + check);
    AfterSlashIs(control, check, control);
  }

  /** A check of no common topic keys on itself, and its title is its id with spaces
    * for dashes.
    */
  lemma OwnTopic(id: string, i: nat)
    requires CommonTopic(id).None?
    ensures TopicOf(id).key == id && |TopicOf(id).title| == |id|
    ensures i < |id| ==> TopicOf(id).title[i] == if id[i] == '-' then ' ' else id[i]
  {
    hide CommonTopic;
  }
}
