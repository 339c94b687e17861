/**
 * Rule construction (`generate_json`): one Safari content-blocker rule per
 * host, in order, and the skip statistics reported after them.
 */
module Emit {
  import opened Util
  import opened RegexEscape

  /** `{"url-filter": ...}` */
  datatype Trigger = Trigger(urlFilter: string)
  /** `{"type": ...}` */
  datatype Action = Action(kind: string)
  /** `{"trigger": ..., "action": ...}` */
  datatype Rule = Rule(trigger: Trigger, action: Action)

  const Scheme: string := "http://"
  const MakeHttps: string := "make-https"

  /** The record built for one target host. */
  function RuleFor(host: string): Rule
  {
    Rule(Trigger(Scheme + Escape(host)), Action(MakeHttps))
  }

  /** Reads a rule back: the host it upgrades to HTTPS, when it has that shape. */
  function UpgradedHost(r: Rule): Option<string>
  {
    var f := r.trigger.urlFilter;
    if r.action.kind == MakeHttps && |f| >= |Scheme| && f[..|Scheme|] == Scheme
    then Some(Unescape(f[|Scheme|..]))
    else None
  }

  /**
   * A rule upgrades exactly the host it was built from, and its filter is
   * the scheme followed by the host as a regular-expression literal.
   */
  lemma RuleRoundTrip(host: string)
    ensures UpgradedHost(RuleFor(host)) == Some(host)
    ensures Literal(RuleFor(host).trigger.urlFilter[|Scheme|..])
  {
    var f := Scheme + Escape(host);
    assert f[..|Scheme|] == Scheme;
    assert f[|Scheme|..] == Escape(host);
    UnescapeEscape(host);
    EscapeIsLiteral(host);
  }

  /** The example rule: host "a.com" gives the filter "http://a\.com". */
  lemma RuleForExample()
    ensures RuleFor("a.com") == Rule(Trigger("http://a\\.com"), Action("make-https"))
  {
    DotEscaped("a", "com");
    assert Escape("a") == "a";
    assert Escape("com") == "com";
  }

  /** The append loop that builds `objs`. */
  method BuildRules(targets: seq<string>) returns (objs: seq<Rule>)
    ensures |objs| == |targets|
    ensures forall i :: 0 <= i < |targets| ==> objs[i] == RuleFor(targets[i])
  {
    objs := [];
    for i := 0 to |targets|
      invariant |objs| == i
      invariant forall k :: 0 <= k < i ==> objs[k] == RuleFor(targets[k])
    {
      objs := objs + [RuleFor(targets[i])];
    }
  }

  function RulesFor(targets: seq<string>): seq<Rule>
  {
    seq(|targets|, i requires 0 <= i < |targets| => RuleFor(targets[i]))
  }

  /**
   * The percentage of skipped files, `skipped / (skipped + good)` scaled to
   * 100 and truncated: the largest whole number not above the exact value.
   */
  function SkipPercent(skipped: nat, good: nat): (p: nat)
    requires skipped + good > 0
    ensures p * (skipped + good) <= 100 * skipped < (p + 1) * (skipped + good)
    ensures good > 0 ==> p < 100
  {
    var total := skipped + good;
    var p := (100 * skipped) / total;
    p
  }

  /** The "Files skipped" report: the names, their number and the percentage. */
  datatype SkipReport = SkipReport(files: seq<string>, count: nat, percent: nat)

  /** What `generate_json` produces: nothing (an error message) or the rule list and maybe a skip report. */
  datatype Emission = NoTargets | Rules(rules: seq<Rule>, skips: Option<SkipReport>)

  function Emitted(targets: Option<seq<string>>, skipped: seq<string>, good: nat): Emission
  {
    if targets.None? || targets.value == [] then NoTargets
    else
      var report := if good != 0 && skipped != []
                    then Some(SkipReport(skipped, |skipped|, SkipPercent(|skipped|, good)))
                    else None;
      Rules(RulesFor(targets.value), report)
  }

  /**
   * `generate_json` without its printing and writing: no targets gives no
   * output at all; otherwise the rule list, and the skip report when some
   * file contributed and some file was skipped.
   */
  method GenerateJson(targets: Option<seq<string>>, skipped: seq<string>, good: nat) returns (out: Emission)
    ensures out.NoTargets? <==> targets.None? || targets.value == []
    ensures out == Emitted(targets, skipped, good)
  {
    if targets.None? || targets.value == [] {
      return NoTargets;
    }
    var objs := BuildRules(targets.value);
    assert objs == RulesFor(targets.value);
    var report: Option<SkipReport> := None;
    if good != 0 && skipped != [] {
      report := Some(SkipReport(skipped, |skipped|, SkipPercent(|skipped|, good)));
    }
    out := Rules(objs, report);
  }

  /**
   * Every target becomes exactly one rule, in the same order, and reading the
   * rules back gives the targets.
   */
  lemma EmittedRulesMatchTargets(targets: seq<string>, skipped: seq<string>, good: nat)
    requires targets != []
    ensures Emitted(Some(targets), skipped, good).Rules?
    ensures |Emitted(Some(targets), skipped, good).rules| == |targets|
    ensures forall i :: 0 <= i < |targets| ==>
              UpgradedHost(Emitted(Some(targets), skipped, good).rules[i]) == Some(targets[i])
  {
    forall i | 0 <= i < |targets|
      ensures UpgradedHost(RulesFor(targets)[i]) == Some(targets[i])
    {
      RuleRoundTrip(targets[i]);
    }
  }

  /** The skip report appears exactly when rules are produced, some file contributed and some was skipped; its percentage is below 100. */
  lemma SkipReportShown(targets: seq<string>, skipped: seq<string>, good: nat)
    requires targets != []
    ensures Emitted(Some(targets), skipped, good).skips.Some? <==> good > 0 && |skipped| > 0
    ensures Emitted(Some(targets), skipped, good).skips.Some? ==>
              var rep := Emitted(Some(targets), skipped, good).skips.value;
              rep.files == skipped && rep.count == |skipped| && rep.percent < 100
  {
  }
}
