/** `KeywordRetriever` of scripts/publication_summary.py: keywords for a
    PubMed article are the Zemanta suggestions for its title and abstract,
    filtered by the Freebase topics of each suggestion; both the keywords
    per article and the Freebase answers per topic URL are memoised.

    PubMed, Zemanta and Freebase are the fields of `Services`: total functions
    standing for the first successful answer of each retry loop. */
module KeywordRetrieval {
  import opened Wrappers
  import opened Collections
  import opened Text
  import opened Freebase

  /** `recs[0]["MedlineCitation"]["Article"]`, reduced to the two entries read. */
  datatype Article = Article(title: string, abstractText: string)

  /** The `result` object of a Freebase topic answer. As a dict it is true
      when it has an entry; only its `type` entry is read, a list of types
      each reduced to its `id`. */
  datatype TopicInfo = TopicInfo(types: Option<seq<string>>, hasOtherEntries: bool)

  datatype Services = Services(
    pubmed: string -> Article,              // `Entrez.efetch` and `Entrez.read`
    suggest: string -> seq<Link>,           // `zemanta.suggest`: `output["markup"]["links"]`
    freebase: string -> Option<TopicInfo>)  // the topic answer's `result`, `None` when absent

  /** The exceptions the keyword filter can raise. */
  datatype KwdError =
    | NoTypeList                  // `len(None)`: a non-empty result without `type`
    | TypeWithoutTopic(id: string)  // `split("/")[1]` on an id without `/`
    | NoTarget                    // `link["target"][0]` on an empty target list

  // The two topic sets share no topic; the order of the tests in
  // `PassKeyword` decides only for a link with topics from both.
  const WantTopics: set<string> :=
    {"medicine", "biology", "measurement_unit", "education", "chemistry", "award", "physics"}

  const AvoidTopics: set<string> :=
    {"location", "organization", "business", "book", "freebase", "internet", "aviation",
     "computer", "people", "fictional_universe", "law", "geography", "religion",
     "architecture", "language", "sports", "baseball", "metropolitan_transit",
     "media_common", "film", "event", "transportation", "food", "finance", "spaceflight"}

  // ---------------------------------------------------------------------------
  // The per-link test.

  /** The truth value of `fb_info`: not `None` and not an empty dict. */
  predicate Truthy(info: Option<TopicInfo>) {
    info.Some? && (info.value.types.Some? || info.value.hasOtherEntries)
  }

  /** `t["id"].split("/")[1]`: the segment after the first `/`, which exists
      exactly when the id holds a `/`. */
  function TopicOf(typeId: string): (r: Result<string, KwdError>)
    ensures r.Success? <==> '/' in typeId
    ensures r.Success? ==> '/' !in r.value
  {
    var parts := Split(typeId, '/');
    SplitSingle(typeId, '/');
    if |parts| < 2 then Failure(TypeWithoutTopic(typeId)) else Success(parts[1])
  }

  /** The list comprehension `fb_ids`, evaluated left to right: the first id
      without `/` raises. */
  function TopicsOf(typeIds: seq<string>): (r: Result<seq<string>, KwdError>)
    ensures r.Success? <==> forall i :: 0 <= i < |typeIds| ==> '/' in typeIds[i]
    ensures r.Success? ==> |r.value| == |typeIds|
    ensures r.Success? ==> forall i :: 0 <= i < |typeIds| ==> TopicOf(typeIds[i]) == Success(r.value[i])
    decreases |typeIds|
  {
    if |typeIds| == 0 then Success([])
    else
      var t :- TopicOf(typeIds[0]);
      assert forall i :: 1 <= i < |typeIds| ==> typeIds[1..][i - 1] == typeIds[i];
      var rest :- TopicsOf(typeIds[1..]);
      Success([t] + rest)
  }

  predicate AnyIn(topics: seq<string>, s: set<string>) {
    exists i :: 0 <= i < |topics| && topics[i] in s
  }

  /** `pass_kwd` for a link whose Freebase answer is `info`. */
  function PassKeyword(info: Option<TopicInfo>): Result<bool, KwdError> {
    if !Truthy(info) then Success(true)
    else match info.value.types
      case None => Failure(NoTypeList)
      case Some(ids) =>
        if |ids| == 0 then Success(true)
        else
          var topics :- TopicsOf(ids);
          if AnyIn(topics, WantTopics) then Success(true)
          else if AnyIn(topics, AvoidTopics) then Success(false)
          else Success(true)
  }

  /** The Freebase answer `_get_freebase_info` gives for a link. */
  function InfoOf(services: Services, link: Link): Option<TopicInfo> {
    match LastTopicUrl(link.targets)
    case None => None
    case Some(u) => services.freebase(u)
  }

  /** What one link adds to the keywords: nothing when it is dropped, the
      title of its first target when it passes. */
  function KeywordOf(services: Services, link: Link): Result<seq<string>, KwdError> {
    var pass :- PassKeyword(InfoOf(services, link));
    if !pass then Success([])
    else if |link.targets| == 0 then Failure(NoTarget)
    else Success([link.targets[0].title])
  }

  /** The keywords `_zemanta_keywords` returns for the given links. */
  function LinkKeywords(services: Services, links: seq<Link>): Result<seq<string>, KwdError>
    decreases |links|
  {
    if |links| == 0 then Success([])
    else
      var kept :- LinkKeywords(services, links[..|links| - 1]);
      var k :- KeywordOf(services, links[|links| - 1]);
      Success(kept + k)
  }

  /** The keywords `get_kwds` returns: PubMed's title and abstract joined by a
      space, sent to Zemanta, and filtered. */
  function Keywords(services: Services, pubmedId: string): Result<seq<string>, KwdError> {
    var article := services.pubmed(pubmedId);
    LinkKeywords(services, services.suggest(article.title + " " + article.abstractText))
  }

  /** The topic URL of one link, if it has one. */
  function UrlOf(link: Link): set<string> {
    var u := LastTopicUrl(link.targets);
    if u.Some? then {u.value} else {}
  }

  /** The topic URLs of the given links. */
  function TopicUrls(links: seq<Link>): set<string>
    decreases |links|
  {
    if |links| == 0 then {} else TopicUrls(links[..|links| - 1]) + UrlOf(links[|links| - 1])
  }

  // ---------------------------------------------------------------------------
  // The memoising retriever.

  class KeywordRetriever {
    const services: Services
    /** `_cache`: keywords by PubMed id. */
    var cache: map<string, seq<string>>
    /** `_fb_cache`: Freebase answers, `None` included, by topic URL. */
    var fbCache: map<string, Option<TopicInfo>>
    /** The PubMed ids fetched, in call order. */
    ghost var pubmedLog: seq<string>
    /** The topic URLs fetched from Freebase, in call order. */
    ghost var freebaseLog: seq<string>

    /** Every cached value is the one the services give, and Freebase was
        asked about each cached URL exactly once. */
    ghost predicate Valid()
      reads this
    {
      && (forall p :: p in cache ==> Keywords(services, p) == Success(cache[p]))
      && (forall u :: u in fbCache ==> fbCache[u] == services.freebase(u))
      && NoDup(freebaseLog)
      && (forall u :: u in freebaseLog <==> u in fbCache)
      && (forall p :: p in cache ==> p in pubmedLog)
    }

    /** Every PubMed id fetched so far is cached, and none was fetched twice:
        what `_cache` keeps while no fetch has raised. */
    ghost predicate FetchedOnce()
      reads this
    {
      NoDup(pubmedLog) && forall p :: p in pubmedLog ==> p in cache
    }

    constructor (services: Services)
      ensures Valid()
      ensures this.services == services
      ensures cache == map[] && fbCache == map[] && pubmedLog == [] && freebaseLog == []
      ensures FetchedOnce()
    {
      this.services := services;
      cache := map[];
      fbCache := map[];
      pubmedLog := [];
      freebaseLog := [];
    }

    /** `get_kwds`: a cached id is answered from the cache and changes
        nothing; otherwise PubMed is asked once and a successful answer is
        cached. A fetch never repeats an id the retriever has fetched
        successfully before. */
    method GetKwds(pubmedId: string) returns (r: Result<seq<string>, KwdError>)
      requires Valid()
      modifies this
      ensures Valid()
      ensures r == Keywords(services, pubmedId)
      ensures pubmedId in old(cache) ==>
        r == Success(old(cache)[pubmedId]) &&
        cache == old(cache) && fbCache == old(fbCache) &&
        pubmedLog == old(pubmedLog) && freebaseLog == old(freebaseLog)
      ensures pubmedId !in old(cache) ==>
        pubmedLog == old(pubmedLog) + [pubmedId] &&
        cache == (if r.Success? then old(cache)[pubmedId := r.value] else old(cache))
      ensures r.Success? ==> pubmedId in cache && cache[pubmedId] == r.value
      ensures forall p :: p in old(cache) ==> p in cache && cache[p] == old(cache)[p]
      ensures forall u :: u in old(fbCache) ==> u in fbCache && fbCache[u] == old(fbCache)[u]
      ensures old(FetchedOnce()) ==> NoDup(pubmedLog)
      ensures old(FetchedOnce()) && r.Success? ==> FetchedOnce()
    {
      if pubmedId in cache {
        return Success(cache[pubmedId]);
      }
      if FetchedOnce() {
        NoDupSnoc(pubmedLog, pubmedId);
      }
      r := FetchKwds(pubmedId);
      if r.Success? {
        cache := cache[pubmedId := r.value];
      }
    }

    /** `_fetch_kwds`: the article's title and abstract text, joined by a
        space, go to Zemanta. */
    method FetchKwds(pubmedId: string) returns (r: Result<seq<string>, KwdError>)
      requires Valid()
      modifies this
      ensures Valid()
      ensures r == Keywords(services, pubmedId)
      ensures cache == old(cache) && pubmedLog == old(pubmedLog) + [pubmedId]
      ensures forall u :: u in old(fbCache) ==> u in fbCache && fbCache[u] == old(fbCache)[u]
    {
      pubmedLog := pubmedLog + [pubmedId];
      var article := services.pubmed(pubmedId);
      var text := article.title + " " + article.abstractText;
      r := ZemantaKeywords(text);
    }

    /** `_zemanta_keywords`: the title of the first target of every link that
        passes the topic test, in link order. */
    method ZemantaKeywords(text: string) returns (r: Result<seq<string>, KwdError>)
      requires Valid()
      modifies this
      ensures Valid()
      ensures r == LinkKeywords(services, services.suggest(text))
      ensures cache == old(cache) && pubmedLog == old(pubmedLog)
      ensures forall u :: u in old(fbCache) ==> u in fbCache && fbCache[u] == old(fbCache)[u]
      ensures forall u :: u in fbCache ==> u in old(fbCache) || u in TopicUrls(services.suggest(text))
      ensures r.Success? ==> fbCache.Keys == old(fbCache).Keys + TopicUrls(services.suggest(text))
    {
      var links := services.suggest(text);
      var keywords: seq<string> := [];
      for i := 0 to |links|
        invariant Valid()
        invariant LinkKeywords(services, links[..i]) == Success(keywords)
        invariant cache == old(cache) && pubmedLog == old(pubmedLog)
        invariant forall u :: u in old(fbCache) ==> u in fbCache && fbCache[u] == old(fbCache)[u]
        invariant fbCache.Keys == old(fbCache).Keys + TopicUrls(links[..i])
      {
        LinkKeywordsStep(services, links, i);
        TopicUrlsSnoc(links, i);
        TopicUrlsPrefix(links, i + 1);
        var k := LinkKeyword(links[i]);
        if k.Failure? {
          LinkKeywordsStop(services, links, i + 1);
          return Failure(k.error);
        }
        keywords := keywords + k.value;
      }
      assert links[..|links|] == links;
      return Success(keywords);
    }

    /** The loop body of `_zemanta_keywords` for one link: its Freebase
        answer, the topic test, and the title of its first target. */
    method LinkKeyword(link: Link) returns (k: Result<seq<string>, KwdError>)
      requires Valid()
      modifies this
      ensures Valid()
      ensures k == KeywordOf(services, link)
      ensures cache == old(cache) && pubmedLog == old(pubmedLog)
      ensures forall u :: u in old(fbCache) ==> u in fbCache && fbCache[u] == old(fbCache)[u]
      ensures fbCache.Keys == old(fbCache).Keys + UrlOf(link)
    {
      var fbInfo := GetFreebaseInfo(link);
      var pass := PassKeyword(fbInfo);
      if pass.Failure? {
        return Failure(pass.error);
      }
      if !pass.value {
        return Success([]);
      }
      if |link.targets| == 0 {
        return Failure(NoTarget);
      }
      return Success([link.targets[0].title]);
    }

    /** `_get_freebase_info`: the last qualifying target's topic URL, then the
        cached answer for it or, for a new URL, one Freebase call whose answer
        (`None` included) is cached. */
    method GetFreebaseInfo(link: Link) returns (info: Option<TopicInfo>)
      requires Valid()
      modifies this
      ensures Valid()
      ensures info == InfoOf(services, link)
      ensures cache == old(cache) && pubmedLog == old(pubmedLog)
      ensures LastTopicUrl(link.targets).None? ==>
        fbCache == old(fbCache) && freebaseLog == old(freebaseLog)
      ensures LastTopicUrl(link.targets).Some? ==>
        var u := LastTopicUrl(link.targets).value;
        if u in old(fbCache) then fbCache == old(fbCache) && freebaseLog == old(freebaseLog)
        else fbCache == old(fbCache)[u := services.freebase(u)] && freebaseLog == old(freebaseLog) + [u]
    {
      var curUrl := FindTopicUrl(link);
      if curUrl.None? {
        return None;
      }
      var u := curUrl.value;
      if u in fbCache {
        return fbCache[u];
      }
      info := services.freebase(u);
      fbCache := fbCache[u := info];
      freebaseLog := freebaseLog + [u];
    }
  }

  /** The target loop of `_get_freebase_info`: `cur_url` is overwritten at
      every qualifying target. */
  method FindTopicUrl(link: Link) returns (curUrl: Option<string>)
    ensures curUrl == LastTopicUrl(link.targets)
  {
    curUrl := None;
    for i := 0 to |link.targets|
      invariant curUrl == LastTopicUrl(link.targets[..i])
    {
      var target := link.targets[i];
      assert link.targets[..i + 1] == link.targets[..i] + [target];
      LastTopicUrlSnoc(link.targets[..i], target);
      if target.kind == "rdf" && StartsWith(target.url, FreebaseMain) {
        curUrl := Some(TopicUrl(target.url));
      }
    }
    assert link.targets[..|link.targets|] == link.targets;
  }

  // ---------------------------------------------------------------------------
  // Laws of the filter and of the link fold.

  lemma TopicUrlsSnoc(links: seq<Link>, i: nat)
    requires i < |links|
    ensures TopicUrls(links[..i + 1]) == TopicUrls(links[..i]) + UrlOf(links[i])
  {
    assert links[..i + 1][..i] == links[..i];
  }

  /** A URL is a topic URL of the links exactly when it is the topic URL of
      one of them. */
  lemma {:induction false} TopicUrlsMember(links: seq<Link>, u: string)
    ensures u in TopicUrls(links) <==> exists j :: 0 <= j < |links| && u in UrlOf(links[j])
    decreases |links|
  {
    if |links| > 0 {
      var init := links[..|links| - 1];
      TopicUrlsMember(init, u);
      assert forall j :: 0 <= j < |init| ==> init[j] == links[j];
    }
  }

  /** The fold over `a + b` is the fold over `a` followed by the fold over
      `b`: kept titles come out in link order and a raise stops the fold. */
  lemma {:induction false} LinkKeywordsAppend(services: Services, a: seq<Link>, b: seq<Link>)
    ensures LinkKeywords(services, a + b) ==
      match LinkKeywords(services, a)
      case Failure(e) => Failure(e)
      case Success(ka) =>
        match LinkKeywords(services, b)
        case Failure(e) => Failure(e)
        case Success(kb) => Success(ka + kb)
    decreases |b|
  {
    if |b| == 0 {
      assert a + b == a;
      if LinkKeywords(services, a).Success? {
        assert LinkKeywords(services, a).value + [] == LinkKeywords(services, a).value;
      }
    } else {
      var b0, x := b[..|b| - 1], b[|b| - 1];
      assert (a + b)[..|a + b| - 1] == a + b0;
      assert (a + b)[|a + b| - 1] == x;
      LinkKeywordsAppend(services, a, b0);
      var ka, kb0, k := LinkKeywords(services, a), LinkKeywords(services, b0), KeywordOf(services, x);
      if ka.Success? && kb0.Success? && k.Success? {
        assert ka.value + kb0.value + k.value == ka.value + (kb0.value + k.value);
      }
    }
  }

  lemma LinkKeywordsStep(services: Services, links: seq<Link>, i: nat)
    requires i < |links|
    ensures LinkKeywords(services, links[..i + 1]) ==
      match LinkKeywords(services, links[..i])
      case Failure(e) => Failure(e)
      case Success(kept) =>
        match KeywordOf(services, links[i])
        case Failure(e) => Failure(e)
        case Success(k) => Success(kept + k)
  {
    assert links[..i + 1][..i] == links[..i];
    assert links[..i + 1][i] == links[i];
  }

  lemma {:induction false} TopicUrlsPrefix(links: seq<Link>, n: nat)
    requires n <= |links|
    ensures TopicUrls(links[..n]) <= TopicUrls(links)
    decreases |links|
  {
    if n < |links| {
      var init := links[..|links| - 1];
      assert init[..n] == links[..n];
      TopicUrlsPrefix(init, n);
    } else {
      assert links[..n] == links;
    }
  }

  lemma LinkKeywordsStop(services: Services, links: seq<Link>, n: nat)
    requires n <= |links| && LinkKeywords(services, links[..n]).Failure?
    ensures LinkKeywords(services, links) == LinkKeywords(services, links[..n])
  {
    assert links == links[..n] + links[n..];
    LinkKeywordsAppend(services, links[..n], links[n..]);
  }

  /** A link is dropped exactly when its Freebase answer is a non-empty dict
      with a non-empty type list whose topics all parse, none of them wanted
      and some of them avoided. */
  lemma DroppedExactly(info: Option<TopicInfo>)
    ensures PassKeyword(info) == Success(false) <==>
      && Truthy(info) && info.value.types.Some? && |info.value.types.value| > 0
      && TopicsOf(info.value.types.value).Success?
      && !AnyIn(TopicsOf(info.value.types.value).value, WantTopics)
      && AnyIn(TopicsOf(info.value.types.value).value, AvoidTopics)
  {
  }

  /** A wanted topic keeps the link whatever else its types say. */
  lemma WantWins(info: Option<TopicInfo>)
    requires Truthy(info) && info.value.types.Some?
    requires TopicsOf(info.value.types.value).Success?
    requires AnyIn(TopicsOf(info.value.types.value).value, WantTopics)
    ensures PassKeyword(info) == Success(true)
  {
  }

  /** A link without a qualifying target has no Freebase answer and is kept
      (and raises only for want of a target to take the title from). */
  lemma NoTopicUrlKept(services: Services, link: Link)
    requires LastTopicUrl(link.targets).None?
    ensures InfoOf(services, link) == None
    ensures LinkKeywords(services, [link]) ==
      if |link.targets| == 0 then Failure(NoTarget) else Success([link.targets[0].title])
  {
    assert [link][..0] == [];
    assert [link][0] == link;
    if |link.targets| > 0 {
      assert [] + [link.targets[0].title] == [link.targets[0].title];
    }
  }
}
