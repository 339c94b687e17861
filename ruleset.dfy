/**
 * Per-file extraction (`get_targets`): a ruleset file contributes the hosts
 * of its `<target>` elements only when it is an XML file, has no
 * `<exclusion>` and has exactly one `<rule>`.
 */
module Ruleset {
  import opened Util
  import opened Paths

  /** A `<target host="...">` element. */
  datatype Target = Target(host: string)

  /** What the converter looks at in a parsed ruleset document. */
  datatype Document = Document(exclusions: nat, rules: nat, targets: seq<Target>)

  const XmlExt: string := ".xml"

  /** The rulesets the converter trusts: no exclusion and a single rewrite rule. */
  predicate Eligible(doc: Document)
  {
    doc.exclusions == 0 && doc.rules == 1
  }

  /** The `host` attribute of every target, in document order. */
  function Hosts(ts: seq<Target>): seq<string>
  {
    seq(|ts|, i requires 0 <= i < |ts| => ts[i].host)
  }

  /** What `get_targets(path)` returns when `doc` is the file's parsed content. */
  function Extract(path: string, doc: Document): Option<seq<string>>
  {
    if !HasExtension(path, XmlExt) then None
    else if !Eligible(doc) then None
    else Some(Hosts(doc.targets))
  }

  /**
   * `get_targets`: the extension guard first (the document is not looked at
   * for any other file), then the eligibility test, then the append loop
   * over the targets.
   */
  method GetTargets(path: string, doc: Document) returns (r: Option<seq<string>>)
    ensures r.None? <==> !HasExtension(path, XmlExt) || !Eligible(doc)
    ensures r.Some? ==> |r.value| == |doc.targets|
    ensures r.Some? ==> forall i :: 0 <= i < |doc.targets| ==> r.value[i] == doc.targets[i].host
    ensures r == Extract(path, doc)
  {
    if !HasExtension(path, XmlExt) {
      return None;
    }
    if !Eligible(doc) {
      return None;
    }
    var arr: seq<string> := [];
    var i := 0;
    while i < |doc.targets|
      invariant 0 <= i <= |doc.targets|
      invariant |arr| == i
      invariant forall k :: 0 <= k < i ==> arr[k] == doc.targets[k].host
    {
      arr := arr + [doc.targets[i].host];
      i := i + 1;
    }
    assert arr == Hosts(doc.targets);
    r := Some(arr);
  }

  /** The result depends on the file only through its base name's extension and its document. */
  lemma ExtractInDirectory(root: string, name: string, doc: Document)
    requires Sep !in name
    ensures Extract(Join(root, name), doc) == Extract(name, doc)
  {
    ExtOfJoin(root, name);
  }

  /** A file whose name does not end in ".xml" (in any case) after a real stem is never parsed. */
  lemma NonXmlSkipped(path: string, doc: Document)
    requires !NamedWith(Basename(path), XmlExt)
    ensures Extract(path, doc) == None
  {
    HasExtensionIff(path, XmlExt);
  }
}
