/** The Freebase link handling shared by scripts/publication_summary.py and
    scripts/snpedia_to_disease.py: a Zemanta link lists targets, and an `rdf`
    target whose URL is under the Freebase RDF namespace is rewritten to the
    URL of the Freebase topic service. */
module Freebase {
  import opened Wrappers
  import opened Text

  const FreebaseMain := "http://rdf.freebase.com/ns"
  const FreebaseJson := "http://www.freebase.com/experimental/topic/standard"

  /** One entry of a link's `target` list. */
  datatype Target = Target(kind: string, url: string, title: string)

  /** One entry of `output["markup"]["links"]`. */
  datatype Link = Link(targets: seq<Target>)

  /** `target['type'] in ['rdf'] and target['url'].startswith(freebase_main)` */
  predicate IsFreebaseRdf(t: Target) {
    t.kind == "rdf" && StartsWith(t.url, FreebaseMain)
  }

  /** `url.replace(freebase_main, freebase_json)` on a URL under the RDF
      namespace: the result is under the topic service and is never empty, so
      the truth test on it always passes. */
  function TopicUrl(url: string): (r: string)
    requires StartsWith(url, FreebaseMain)
    ensures StartsWith(r, FreebaseJson) && |r| > 0
  {
    ReplaceAll(url, FreebaseMain, FreebaseJson)
  }

  /** The index of the last qualifying target, or -1 when there is none. */
  function LastRdfIndex(targets: seq<Target>): (r: int)
    ensures -1 <= r < |targets|
    ensures r >= 0 ==> IsFreebaseRdf(targets[r])
    ensures forall j :: r < j < |targets| ==> !IsFreebaseRdf(targets[j])
    decreases |targets|
  {
    if |targets| == 0 then -1
    else if IsFreebaseRdf(targets[|targets| - 1]) then |targets| - 1
    else
      var init := targets[..|targets| - 1];
      assert forall i :: 0 <= i < |init| ==> init[i] == targets[i];
      LastRdfIndex(init)
  }

  /** The topic URL of the last qualifying target: the loop in
      `_get_freebase_info` of publication_summary.py overwrites `cur_url` at
      every qualifying target. */
  function LastTopicUrl(targets: seq<Target>): (r: Option<string>)
    ensures r.Some? ==> StartsWith(r.value, FreebaseJson)
  {
    var i := LastRdfIndex(targets);
    if i < 0 then None else Some(TopicUrl(targets[i].url))
  }

  /** There is no topic URL exactly when no target qualifies; otherwise it
      is that of the last qualifying target. */
  lemma LastTopicUrlNone(targets: seq<Target>)
    ensures LastTopicUrl(targets).None? <==> forall i :: 0 <= i < |targets| ==> !IsFreebaseRdf(targets[i])
    ensures LastTopicUrl(targets).Some? ==>
      exists i :: 0 <= i < |targets| && IsFreebaseRdf(targets[i]) &&
        LastTopicUrl(targets).value == TopicUrl(targets[i].url) &&
        (forall j :: i < j < |targets| ==> !IsFreebaseRdf(targets[j]))
  {
    var i := LastRdfIndex(targets);
    if i >= 0 {
      assert IsFreebaseRdf(targets[i]);
    }
  }

  /** One more target: it replaces the URL found so far exactly when it
      qualifies. */
  lemma LastTopicUrlSnoc(targets: seq<Target>, t: Target)
    ensures LastTopicUrl(targets + [t]) ==
      if IsFreebaseRdf(t) then Some(TopicUrl(t.url)) else LastTopicUrl(targets)
  {
    var s := targets + [t];
    assert s[..|s| - 1] == targets;
    if !IsFreebaseRdf(t) {
      assert LastRdfIndex(s) == LastRdfIndex(targets);
      if LastRdfIndex(targets) >= 0 {
        assert s[LastRdfIndex(targets)] == targets[LastRdfIndex(targets)];
      }
    }
  }
}
