/** The disease and description lookup of scripts/snpedia_to_disease.py: the
    page text goes to Zemanta, every Freebase target of the answer is looked
    up in Freebase, the texts of the topics typed as a disease are collected,
    and the description of the topic named like the variant is kept. */
module SnpediaDisease {
  import opened Wrappers
  import opened Text
  import opened Freebase

  const DiseaseType := "/medicine/disease"

  /** The part of a Freebase topic, `json.loads(...)["result"]`, that is
      read: the `id` of each `type` entry, the `text`, the `description`.
      A missing key is `None`. */
  datatype FbTopic = FbTopic(types: Option<seq<Option<string>>>, text: Option<string>, description: Option<string>)

  /** The calls into Zemanta (the links of the answer) and Freebase (`None`
      when the answer has no `result`). */
  datatype Services = Services(suggest: string -> seq<Link>, topic: string -> Option<FbTopic>)

  /** The `KeyError` of a missing key. */
  datatype QueryError = KeyError(key: string)

  /** One pair yielded by `_get_freebase_info`, before its topic is fetched:
      the target's title and the topic URL. */
  datatype Item = Item(title: string, url: string)

  /** The diseases collected and the description kept so far. */
  datatype Selection = Selection(diseases: seq<string>, description: string)

  // ---------------------------------------------------------------------------
  // `_get_freebase_info`

  /** The items of the qualifying targets of one link, in order. */
  function ItemsOf(targets: seq<Target>): (r: seq<Item>)
    ensures |r| <= |targets|
    ensures forall t :: t in targets && IsFreebaseRdf(t) ==> Item(t.title, TopicUrl(t.url)) in r
    decreases |targets|
  {
    if |targets| == 0 then []
    else
      var t := targets[|targets| - 1];
      var init := targets[..|targets| - 1];
      assert forall u :: u in targets ==> u in init || u == t;
      ItemsOf(init) + if IsFreebaseRdf(t) then [Item(t.title, TopicUrl(t.url))] else []
  }

  /** The items of all links, link after link. */
  function FreebaseItems(links: seq<Link>): seq<Item>
    decreases |links|
  {
    if |links| == 0 then [] else FreebaseItems(links[..|links| - 1]) + ItemsOf(links[|links| - 1].targets)
  }

  lemma ItemsOfSnoc(targets: seq<Target>, t: Target)
    ensures ItemsOf(targets + [t]) == ItemsOf(targets) + if IsFreebaseRdf(t) then [Item(t.title, TopicUrl(t.url))] else []
  {
    assert (targets + [t])[..|targets|] == targets;
  }

  lemma {:induction false} ItemsOfAppend(a: seq<Target>, b: seq<Target>)
    ensures ItemsOf(a + b) == ItemsOf(a) + ItemsOf(b)
    decreases |b|
  {
    if |b| == 0 {
      assert a + b == a;
    } else {
      assert (a + b)[..|a + b| - 1] == a + b[..|b| - 1];
      ItemsOfAppend(a, b[..|b| - 1]);
    }
  }

  lemma {:induction false} FreebaseItemsAppend(a: seq<Link>, b: seq<Link>)
    ensures FreebaseItems(a + b) == FreebaseItems(a) + FreebaseItems(b)
    decreases |b|
  {
    if |b| == 0 {
      assert a + b == a;
    } else {
      assert (a + b)[..|a + b| - 1] == a + b[..|b| - 1];
      FreebaseItemsAppend(a, b[..|b| - 1]);
    }
  }

  // ---------------------------------------------------------------------------
  // The selection loop of `query_zemanta`.

  /** `for fb_type in freebase_info["type"]: if fb_type["id"] ==
      "/medicine/disease": diseases.append(freebase_info["text"])` */
  function AddDiseases(diseases: seq<string>, types: seq<Option<string>>, text: Option<string>)
    : Result<seq<string>, QueryError>
    decreases |types|
  {
    if |types| == 0 then Success(diseases)
    else
      var d :- AddDiseases(diseases, types[..|types| - 1], text);
      var t := types[|types| - 1];
      if t.None? then Failure(KeyError("id"))
      else if t.value != DiseaseType then Success(d)
      else if text.None? then Failure(KeyError("text"))
      else Success(d + [text.value])
  }

  /** One yielded pair: a missing `result` or `type` raises, then the
      diseases are collected, then the description is replaced when the
      title equals the searched name case-insensitively. */
  function SelectItem(sel: Selection, searchName: string, title: string, info: Option<FbTopic>)
    : Result<Selection, QueryError>
  {
    if info.None? then Failure(KeyError("result"))
    else if info.value.types.None? then Failure(KeyError("type"))
    else
      var ds :- AddDiseases(sel.diseases, info.value.types.value, info.value.text);
      if Lower(title) != Lower(searchName) then Success(Selection(ds, sel.description))
      else if info.value.description.None? then Failure(KeyError("description"))
      else Success(Selection(ds, ReplaceChar(info.value.description.value, '\n', ' ')))
  }

  /** The selection after the given items. */
  function Select(services: Services, searchName: string, items: seq<Item>): Result<Selection, QueryError>
    decreases |items|
  {
    if |items| == 0 then Success(Selection([], ""))
    else
      var sel :- Select(services, searchName, items[..|items| - 1]);
      var it := items[|items| - 1];
      SelectItem(sel, searchName, it.title, services.topic(it.url))
  }

  /** What `query_zemanta` returns. */
  function Query(services: Services, searchName: string, searchText: string): Result<Selection, QueryError> {
    Select(services, searchName, FreebaseItems(services.suggest(searchText)))
  }

  method QueryZemanta(services: Services, searchName: string, searchText: string)
    returns (r: Result<Selection, QueryError>)
    ensures r == Query(services, searchName, searchText)
  {
    var links := services.suggest(searchText);
    var sel := Selection([], "");
    for i := 0 to |links|
      invariant Select(services, searchName, FreebaseItems(links[..i])) == Success(sel)
    {
      assert links[..i + 1][..i] == links[..i];
      var next := SelectLink(services, searchName, sel, links[i].targets, FreebaseItems(links[..i]));
      if next.Failure? {
        assert links == links[..i + 1] + links[i + 1..];
        FreebaseItemsAppend(links[..i + 1], links[i + 1..]);
        SelectStop(services, searchName, FreebaseItems(links[..i + 1]), FreebaseItems(links[i + 1..]));
        return Failure(next.error);
      }
      sel := next.value;
    }
    assert links[..|links|] == links;
    return Success(sel);
  }

  /** The targets of one link, after the items `before`. */
  method SelectLink(services: Services, searchName: string, sel0: Selection, targets: seq<Target>,
                    ghost before: seq<Item>)
    returns (r: Result<Selection, QueryError>)
    requires Select(services, searchName, before) == Success(sel0)
    ensures r == Select(services, searchName, before + ItemsOf(targets))
  {
    var sel := sel0;
    assert before + ItemsOf(targets[..0]) == before;
    for j := 0 to |targets|
      invariant Select(services, searchName, before + ItemsOf(targets[..j])) == Success(sel)
    {
      var target := targets[j];
      SelectLinkStep(services, searchName, before, targets, j);
      if IsFreebaseRdf(target) {
        var curUrl := TopicUrl(target.url);
        var freebaseInfo := services.topic(curUrl);
        var next := ProcessItem(sel, searchName, target.title, freebaseInfo);
        if next.Failure? {
          SelectLinkStop(services, searchName, before, targets, j + 1);
          return Failure(next.error);
        }
        sel := next.value;
      }
    }
    assert targets[..|targets|] == targets;
    return Success(sel);
  }

  /** One more target of a link: a qualifying one is selected from. */
  lemma SelectLinkStep(services: Services, searchName: string, before: seq<Item>, targets: seq<Target>, j: nat)
    requires j < |targets|
    ensures var prev := Select(services, searchName, before + ItemsOf(targets[..j]));
      var t := targets[j];
      Select(services, searchName, before + ItemsOf(targets[..j + 1])) ==
        if !IsFreebaseRdf(t) || prev.Failure? then prev
        else SelectItem(prev.value, searchName, t.title, services.topic(TopicUrl(t.url)))
  {
    var t := targets[j];
    var items := before + ItemsOf(targets[..j]);
    ItemsOfSnoc(targets[..j], t);
    assert targets[..j + 1] == targets[..j] + [t];
    if IsFreebaseRdf(t) {
      assert before + ItemsOf(targets[..j + 1]) == items + [Item(t.title, TopicUrl(t.url))];
      SelectSnoc(services, searchName, items, Item(t.title, TopicUrl(t.url)));
    } else {
      assert before + ItemsOf(targets[..j + 1]) == items + [] == items;
    }
  }

  lemma SelectSnoc(services: Services, searchName: string, items: seq<Item>, it: Item)
    ensures Select(services, searchName, items + [it]) ==
      var before := Select(services, searchName, items);
      if before.Failure? then before else SelectItem(before.value, searchName, it.title, services.topic(it.url))
  {
    assert (items + [it])[..|items|] == items;
  }

  /** A `KeyError` at a target of a link ends the loop. */
  lemma SelectLinkStop(services: Services, searchName: string, before: seq<Item>, targets: seq<Target>, n: nat)
    requires n <= |targets|
    requires Select(services, searchName, before + ItemsOf(targets[..n])).Failure?
    ensures Select(services, searchName, before + ItemsOf(targets)) ==
      Select(services, searchName, before + ItemsOf(targets[..n]))
  {
    assert targets == targets[..n] + targets[n..];
    ItemsOfAppend(targets[..n], targets[n..]);
    assert before + ItemsOf(targets) == (before + ItemsOf(targets[..n])) + ItemsOf(targets[n..]);
    SelectStop(services, searchName, before + ItemsOf(targets[..n]), ItemsOf(targets[n..]));
  }

  /** One yielded pair, with the loop over its types. */
  method ProcessItem(sel: Selection, searchName: string, title: string, info: Option<FbTopic>)
    returns (r: Result<Selection, QueryError>)
    ensures r == SelectItem(sel, searchName, title, info)
  {
    if info.None? {
      return Failure(KeyError("result"));
    }
    if info.value.types.None? {
      return Failure(KeyError("type"));
    }
    var types := info.value.types.value;
    var diseases := sel.diseases;
    for k := 0 to |types|
      invariant AddDiseases(sel.diseases, types[..k], info.value.text) == Success(diseases)
    {
      assert types[..k + 1][..k] == types[..k];
      var fbType := types[k];
      if fbType.None? {
        AddDiseasesStop(sel.diseases, types, info.value.text, k + 1);
        return Failure(KeyError("id"));
      }
      if fbType.value == DiseaseType {
        if info.value.text.None? {
          AddDiseasesStop(sel.diseases, types, info.value.text, k + 1);
          return Failure(KeyError("text"));
        }
        diseases := diseases + [info.value.text.value];
      }
    }
    assert types[..|types|] == types;
    var description := sel.description;
    if Lower(title) == Lower(searchName) {
      if info.value.description.None? {
        return Failure(KeyError("description"));
      }
      description := ReplaceChar(info.value.description.value, '\n', ' ');
    }
    return Success(Selection(diseases, description));
  }

  lemma {:induction false} AddDiseasesStop(diseases: seq<string>, types: seq<Option<string>>, text: Option<string>, n: nat)
    requires n <= |types| && AddDiseases(diseases, types[..n], text).Failure?
    ensures AddDiseases(diseases, types, text) == AddDiseases(diseases, types[..n], text)
    decreases |types| - n
  {
    if n < |types| {
      assert types[..n + 1][..n] == types[..n];
      AddDiseasesStop(diseases, types, text, n + 1);
    } else {
      assert types[..n] == types;
    }
  }

  /** A `KeyError` ends the loop: later items change nothing. */
  lemma {:induction false} SelectStop(services: Services, searchName: string, items: seq<Item>, more: seq<Item>)
    requires Select(services, searchName, items).Failure?
    ensures Select(services, searchName, items + more) == Select(services, searchName, items)
    decreases |more|
  {
    if |more| == 0 {
      assert items + more == items;
    } else {
      assert (items + more)[..|items + more| - 1] == items + more[..|more| - 1];
      SelectStop(services, searchName, items, more[..|more| - 1]);
    }
  }

  // ---------------------------------------------------------------------------
  // What the selection holds.

  /** The number of type entries whose id is `/medicine/disease`. */
  function DiseaseCount(types: seq<Option<string>>): nat
    decreases |types|
  {
    if |types| == 0 then 0
    else DiseaseCount(types[..|types| - 1]) + if types[|types| - 1] == Some(DiseaseType) then 1 else 0
  }

  /** The text is appended once per disease type, after what was there; the
      collection fails exactly when a type has no `id`, or a disease type
      comes with a topic without `text`. */
  lemma {:induction false} AddDiseasesLaws(diseases: seq<string>, types: seq<Option<string>>, text: Option<string>)
    ensures AddDiseases(diseases, types, text).Failure? <==>
      exists k :: 0 <= k < |types| && (types[k].None? || (types[k] == Some(DiseaseType) && text.None?))
    ensures var r := AddDiseases(diseases, types, text);
      r.Success? ==>
        && |r.value| == |diseases| + DiseaseCount(types)
        && r.value[..|diseases|] == diseases
        && forall i :: |diseases| <= i < |r.value| ==> text == Some(r.value[i])
    decreases |types|
  {
    if |types| > 0 {
      var init := types[..|types| - 1];
      AddDiseasesLaws(diseases, init, text);
      assert forall k :: 0 <= k < |init| ==> init[k] == types[k];
    }
  }

  /** The disease entries of an item's topic. */
  function ItemDiseases(services: Services, it: Item): nat {
    var info := services.topic(it.url);
    if info.Some? && info.value.types.Some? then DiseaseCount(info.value.types.value) else 0
  }

  function TotalDiseases(services: Services, items: seq<Item>): nat
    decreases |items|
  {
    if |items| == 0 then 0 else TotalDiseases(services, items[..|items| - 1]) + ItemDiseases(services, items[|items| - 1])
  }

  /** The item's topic carries this text. */
  predicate TextOf(services: Services, it: Item, d: string) {
    services.topic(it.url).Some? && services.topic(it.url).value.text == Some(d)
  }

  /** The diseases one item contributes: its topic's text, once per disease
      type. */
  function DiseaseTexts(services: Services, it: Item): seq<string> {
    var info := services.topic(it.url);
    if info.Some? && info.value.types.Some? && info.value.text.Some?
    then seq(DiseaseCount(info.value.types.value), _ => info.value.text.value)
    else []
  }

  /** The contributions of the items, item after item. */
  function AllDiseaseTexts(services: Services, items: seq<Item>): seq<string>
    decreases |items|
  {
    if |items| == 0 then [] else AllDiseaseTexts(services, items[..|items| - 1]) + DiseaseTexts(services, items[|items| - 1])
  }

  /** The diseases are the contributions of the items in item order; so
      every disease entry of every item gives one disease, which is the text
      of that item's topic. */
  lemma {:induction false} SelectDiseases(services: Services, searchName: string, items: seq<Item>)
    requires Select(services, searchName, items).Success?
    ensures Select(services, searchName, items).value.diseases == AllDiseaseTexts(services, items)
    ensures |Select(services, searchName, items).value.diseases| == TotalDiseases(services, items)
    ensures forall d :: d in Select(services, searchName, items).value.diseases ==>
      exists i :: 0 <= i < |items| && TextOf(services, items[i], d)
    decreases |items|
  {
    if |items| > 0 {
      var n := |items|;
      var init := items[..n - 1];
      var it := items[n - 1];
      SelectDiseases(services, searchName, init);
      var before := Select(services, searchName, init).value.diseases;
      var info := services.topic(it.url).value;
      AddDiseasesLaws(before, info.types.value, info.text);
      var after := Select(services, searchName, items).value.diseases;
      assert after == before + DiseaseTexts(services, it) by {
        var ds := AddDiseases(before, info.types.value, info.text);
        assert ds.Success? && after == ds.value;
        var tail := after[|before|..];
        assert |tail| == DiseaseCount(info.types.value);
        if |tail| > 0 {
          assert info.text == Some(after[|before|]);
          assert forall k :: 0 <= k < |tail| ==> tail[k] == after[|before| + k];
          assert tail == DiseaseTexts(services, it);
        }
        assert after[..|before|] == before;
        assert after == after[..|before|] + after[|before|..];
      }
      forall d | d in after ensures exists i :: 0 <= i < n && TextOf(services, items[i], d) {
        var k :| 0 <= k < |after| && after[k] == d;
        if k < |before| {
          assert after[..|before|] == before;
          assert d == before[k] && before[k] in before;
          var i :| 0 <= i < n - 1 && TextOf(services, init[i], d);
          assert init[i] == items[i];
        } else {
          assert TextOf(services, items[n - 1], d);
        }
      }
    }
  }

  /** The index of the last item whose title equals the searched name
      case-insensitively, or -1. */
  function LastNamed(items: seq<Item>, searchName: string): (r: int)
    ensures -1 <= r < |items|
    ensures r >= 0 ==> Lower(items[r].title) == Lower(searchName)
    ensures forall j :: r < j < |items| ==> Lower(items[j].title) != Lower(searchName)
    decreases |items|
  {
    if |items| == 0 then -1
    else if Lower(items[|items| - 1].title) == Lower(searchName) then |items| - 1
    else
      var init := items[..|items| - 1];
      assert forall i :: 0 <= i < |init| ==> init[i] == items[i];
      LastNamed(init, searchName)
  }

  /** The description is that of the last item named like the search, with
      its newlines turned into spaces, and empty when no item is. */
  lemma {:induction false} SelectDescription(services: Services, searchName: string, items: seq<Item>)
    requires Select(services, searchName, items).Success?
    ensures var d := Select(services, searchName, items).value.description;
      var i := LastNamed(items, searchName);
      && (i < 0 ==> d == "")
      && (i >= 0 ==>
            && services.topic(items[i].url).Some?
            && services.topic(items[i].url).value.description.Some?
            && d == ReplaceChar(services.topic(items[i].url).value.description.value, '\n', ' '))
      && '\n' !in d
    decreases |items|
  {
    if |items| > 0 {
      var init := items[..|items| - 1];
      SelectDescription(services, searchName, init);
      var i := LastNamed(init, searchName);
      if i >= 0 {
        assert init[i] == items[i];
      }
    }
  }

  /** What `query_zemanta` returns: the texts of the topics, once per
      disease entry, in target order; and the description of the last target
      titled like the variant, with newlines made spaces, or "" when none
      is. */
  lemma QueryLaws(services: Services, searchName: string, searchText: string)
    requires Query(services, searchName, searchText).Success?
    ensures var items := FreebaseItems(services.suggest(searchText));
      var sel := Query(services, searchName, searchText).value;
      && |sel.diseases| == TotalDiseases(services, items)
      && (forall d :: d in sel.diseases ==> exists i :: 0 <= i < |items| && TextOf(services, items[i], d))
      && sel.diseases == AllDiseaseTexts(services, items)
      && (LastNamed(items, searchName) < 0 ==> sel.description == "")
      && (LastNamed(items, searchName) >= 0 ==>
            var t := services.topic(items[LastNamed(items, searchName)].url);
            t.Some? && t.value.description.Some? && sel.description == ReplaceChar(t.value.description.value, '\n', ' '))
      && '\n' !in sel.description
  {
    var items := FreebaseItems(services.suggest(searchText));
    SelectDiseases(services, searchName, items);
    SelectDescription(services, searchName, items);
  }
}
