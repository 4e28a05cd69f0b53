/** `process_variant_content` and `main` of scripts/snpedia_to_disease.py:
    each SNP's page yields its references, genotype effects, diseases and
    description; a run may start after a given SNP. */
module SnpediaRun {
  import opened Wrappers
  import opened Collections
  import opened Text
  import SnpediaGenotypes
  import SnpediaPmids
  import SnpediaDisease

  /** The page fetch `get_content` (`None` when SNPedia has no such page),
      the infobox search `re.search(infotable_re, ...)` and the summary search
      `re.search(summary_re, ...)` with their first group (`None` when they
      do not match), the Zemanta and Freebase calls, and the category
      listing `title_list(categories[0])`. */
  datatype Services = Services(
    content: string -> Option<string>,
    infotable: string -> Option<string>,
    summary: string -> Option<string>,
    zemanta: SnpediaDisease.Services,
    titles: seq<string>)

  /** What `print json.dumps(out_info)` writes for one SNP. */
  datatype VariantInfo = VariantInfo(
    variation: string,
    diseases: seq<string>,
    genotypes: seq<SnpediaGenotypes.Genotype>,
    refs: seq<string>,
    description: string)

  /** The exceptions that end a run: a SNP without a page (`content.encode`
      on `None`), a genotype table that does not unpack, a missing key in a
      Freebase topic. */
  datatype RunError =
    | NoContent(snp: string)
    | TableFailed(tableError: SnpediaGenotypes.TableError)
    | QueryFailed(queryError: SnpediaDisease.QueryError)

  // ---------------------------------------------------------------------------
  // `process_variant_content`

  /** The infobox, or "" when the search finds none. */
  function Infotable(services: Services, content: string): string {
    var m := services.infotable(content);
    if m.Some? then m.value else ""
  }

  /** The stripped summary of the infobox, or "". */
  function InfoSummary(services: Services, infotable: string): string {
    var m := services.summary(infotable);
    if m.Some? then Strip(m.value) else ""
  }

  /** `description or summary` */
  function Description(found: string, summary: string): (r: string)
    ensures found != "" ==> r == found
    ensures found == "" ==> r == summary
  {
    if found != "" then found else summary
  }

  function Variant(services: Services, varId: string, content: string): Result<VariantInfo, RunError> {
    var pmids := SnpediaPmids.Pmids(content);
    var infotable := Infotable(services, content);
    var summary := InfoSummary(services, infotable);
    match SnpediaGenotypes.Effects(services.content, varId, infotable, SnpediaGenotypes.GenoNames)
    case Failure(e) => Failure(TableFailed(e))
    case Success(genotypes) =>
      var effectText := SnpediaGenotypes.EffectText(genotypes);
      match SnpediaDisease.Query(services.zemanta, varId, content + effectText)
      case Failure(e) => Failure(QueryFailed(e))
      case Success(sel) =>
        Success(VariantInfo(varId, sel.diseases, genotypes, pmids, Description(sel.description, summary)))
  }

  method ProcessVariantContent(services: Services, varId: string, content: string)
    returns (r: Result<VariantInfo, RunError>)
    ensures r == Variant(services, varId, content)
  {
    var pmids := SnpediaPmids.Pmids(content);
    var infotable := Infotable(services, content);
    var summary := InfoSummary(services, infotable);
    var genotypes := SnpediaGenotypes.GenotypeEffects(services.content, varId, infotable);
    if genotypes.Failure? {
      return Failure(TableFailed(genotypes.error));
    }
    var effectText := SnpediaGenotypes.EffectText(genotypes.value);
    var found := SnpediaDisease.QueryZemanta(services.zemanta, varId, content + effectText);
    if found.Failure? {
      return Failure(QueryFailed(found.error));
    }
    var description := Description(found.value.description, summary);
    return Success(VariantInfo(varId, found.value.diseases, genotypes.value, pmids, description));
  }

  /** What is written for a SNP: its references are every `PMID` match of
      the page, at most three genotype effects without an `rsid`, and the
      Zemanta description, or the infobox summary when that is empty. */
  lemma VariantLaws(services: Services, varId: string, content: string)
    requires Variant(services, varId, content).Success?
    ensures var v := Variant(services, varId, content).value;
      && v.variation == varId
      && v.refs == SnpediaPmids.EveryMatch(content, 0)
      && |v.genotypes| <= 3
      && (forall g :: g in v.genotypes ==> "rsid" !in g)
      && (v.description == "" ==> InfoSummary(services, Infotable(services, content)) == "")
  {
    var infotable := Infotable(services, content);
    SnpediaPmids.ScanFindsEveryMatch(content, 0);
    SnpediaGenotypes.GenotypeEffectsAtMostThree(services.content, varId, infotable);
    SnpediaGenotypes.EffectsClean(services.content, varId, infotable, SnpediaGenotypes.GenoNames);
  }

  // ---------------------------------------------------------------------------
  // `main`

  /** `in_snps.split(",")` when it is given and not empty, else the
      category listing. */
  function Snps(services: Services, inSnps: Option<string>): seq<string> {
    if inSnps.Some? && inSnps.value != "" then Split(inSnps.value, ',') else services.titles
  }

  /** `delay_start` after the given SNPs: a start was given and has not
      been met yet. */
  predicate Delayed(start: Option<string>, snps: seq<string>) {
    start.Some? && start.value !in snps
  }

  /** The SNPs that get processed, in order: while delayed each SNP is
      skipped, the start SNP included. */
  function ToProcess(start: Option<string>, snps: seq<string>): seq<string>
    decreases |snps|
  {
    if |snps| == 0 then []
    else
      var init := snps[..|snps| - 1];
      ToProcess(start, init) + if Delayed(start, init) then [] else [snps[|snps| - 1]]
  }

  /** The SNPs written and the exception that ended the run, if any. */
  datatype RunResult = RunResult(printed: seq<VariantInfo>, error: Option<RunError>)

  /** One SNP of the loop: its page, then `process_variant_content`. */
  function Step(services: Services, snp: string): Result<VariantInfo, RunError> {
    match services.content(snp)
    case None => Failure(NoContent(snp))
    case Some(content) => Variant(services, snp, content)
  }

  /** Processing the given SNPs one after the other, up to the first
      exception. */
  function Outputs(services: Services, snps: seq<string>): RunResult
    decreases |snps|
  {
    if |snps| == 0 then RunResult([], None)
    else
      var r := Outputs(services, snps[..|snps| - 1]);
      if r.error.Some? then r
      else match Step(services, snps[|snps| - 1])
        case Failure(e) => RunResult(r.printed, Some(e))
        case Success(v) => RunResult(r.printed + [v], None)
  }

  function RunOf(services: Services, inSnps: Option<string>, snpStart: Option<string>): RunResult {
    Outputs(services, ToProcess(snpStart, Snps(services, inSnps)))
  }

  method ProcessSnp(services: Services, snp: string) returns (r: Result<VariantInfo, RunError>)
    ensures r == Step(services, snp)
  {
    var content := services.content(snp);
    if content.None? {
      return Failure(NoContent(snp));
    }
    r := ProcessVariantContent(services, snp, content.value);
  }

  method ProcessSnps(services: Services, inSnps: Option<string>, snpStart: Option<string>)
    returns (r: RunResult)
    ensures r == RunOf(services, inSnps, snpStart)
  {
    var snps: seq<string>;
    if inSnps.Some? && inSnps.value != "" {
      snps := Split(inSnps.value, ',');
    } else {
      snps := services.titles;
    }
    r := ProcessList(services, snps, snpStart);
  }

  /** The loop of `main` over the chosen SNPs, with its `delay_start` flag. */
  method ProcessList(services: Services, snps: seq<string>, snpStart: Option<string>)
    returns (r: RunResult)
    ensures r == Outputs(services, ToProcess(snpStart, snps))
  {
    var delayStart := snpStart.Some?;
    var printed: seq<VariantInfo> := [];
    for i := 0 to |snps|
      invariant delayStart == Delayed(snpStart, snps[..i])
      invariant Outputs(services, ToProcess(snpStart, snps[..i])) == RunResult(printed, None)
    {
      var snp := snps[i];
      ToProcessSnoc(snpStart, snps, i);
      if delayStart {
        if snp == snpStart.value {
          delayStart := false;
        }
      } else {
        var info := ProcessSnp(services, snp);
        if info.Failure? {
          StopAt(services, snpStart, snps, i);
          return RunResult(printed, Some(info.error));
        }
        OutputsSnoc(services, ToProcess(snpStart, snps[..i]), snp);
        printed := printed + [info.value];
      }
    }
    assert snps[..|snps|] == snps;
    return RunResult(printed, None);
  }

  /** An exception at the `i`-th SNP, once the start is behind, is the
      outcome of the whole run. */
  lemma StopAt(services: Services, start: Option<string>, snps: seq<string>, i: nat)
    requires i < |snps| && !Delayed(start, snps[..i])
    requires Outputs(services, ToProcess(start, snps[..i])).error.None?
    requires Step(services, snps[i]).Failure?
    ensures Outputs(services, ToProcess(start, snps)) ==
      RunResult(Outputs(services, ToProcess(start, snps[..i])).printed, Some(Step(services, snps[i]).error))
  {
    var done := ToProcess(start, snps[..i]);
    ResumeAt(start, snps, i);
    OutputsSnoc(services, done, snps[i]);
    OutputsStop(services, done + [snps[i]], snps[i + 1..]);
  }

  /** Once the start is behind, the `i`-th SNP and all after it are processed. */
  lemma ResumeAt(start: Option<string>, snps: seq<string>, i: nat)
    requires i < |snps| && !Delayed(start, snps[..i])
    ensures ToProcess(start, snps) == (ToProcess(start, snps[..i]) + [snps[i]]) + snps[i + 1..]
  {
    var done, rest := ToProcess(start, snps[..i]), snps[i + 1..];
    ResumeRest(start, snps, i);
    assert snps[i..] == [snps[i]] + rest;
    assert done + snps[i..] == (done + [snps[i]]) + rest;
  }

  /** One more SNP: it is processed exactly when the start is behind, and
      the start is behind once it has been met. */
  lemma ToProcessSnoc(start: Option<string>, snps: seq<string>, i: nat)
    requires i < |snps|
    ensures Delayed(start, snps[..i]) ==> ToProcess(start, snps[..i + 1]) == ToProcess(start, snps[..i])
    ensures !Delayed(start, snps[..i]) ==> ToProcess(start, snps[..i + 1]) == ToProcess(start, snps[..i]) + [snps[i]]
    ensures Delayed(start, snps[..i + 1]) <==> Delayed(start, snps[..i]) && snps[i] != start.value
  {
    assert snps[..i + 1][..i] == snps[..i];
    assert snps[..i + 1] == snps[..i] + [snps[i]];
    assert ToProcess(start, snps[..i]) + [] == ToProcess(start, snps[..i]);
  }

  /** One more SNP after a run without exception. */
  lemma OutputsSnoc(services: Services, snps: seq<string>, snp: string)
    requires Outputs(services, snps).error.None?
    ensures var step := Step(services, snp);
      Outputs(services, snps + [snp]) ==
        if step.Failure? then RunResult(Outputs(services, snps).printed, Some(step.error))
        else RunResult(Outputs(services, snps).printed + [step.value], None)
  {
    assert (snps + [snp])[..|snps|] == snps;
  }

  /** Once the start is behind, every later SNP is processed. */
  lemma {:induction false} ResumeRest(start: Option<string>, snps: seq<string>, m: nat)
    requires m <= |snps| && !Delayed(start, snps[..m])
    ensures ToProcess(start, snps) == ToProcess(start, snps[..m]) + snps[m..]
    decreases |snps|
  {
    if |snps| == m {
      assert snps[..m] == snps;
    } else {
      var init := snps[..|snps| - 1];
      assert init[..m] == snps[..m];
      ResumeRest(start, init, m);
      if start.Some? {
        assert start.value in init by {
          var k := IndexOf(snps[..m], start.value);
          assert init[k] == start.value;
        }
      }
      assert snps[m..] == init[m..] + [snps[|snps| - 1]];
    }
  }

  /** Which SNPs `main` processes: all of them without a start; with one,
      those after its first occurrence, and none when it never occurs. */
  lemma {:induction false} ToProcessSpec(start: Option<string>, snps: seq<string>)
    ensures start.None? ==> ToProcess(start, snps) == snps
    ensures start.Some? && start.value in snps ==>
      ToProcess(start, snps) == snps[IndexOf(snps, start.value) + 1..]
    ensures start.Some? && start.value !in snps ==> ToProcess(start, snps) == []
    decreases |snps|
  {
    if |snps| > 0 {
      var init := snps[..|snps| - 1];
      var last := snps[|snps| - 1];
      ToProcessSpec(start, init);
      assert snps == init + [last];
      if start.Some? && start.value in init {
        IndexOfPrefix(init, last, start.value);
      } else if start.Some? && start.value in snps {
        assert last == start.value;
        assert forall j :: 0 <= j < |init| ==> snps[j] == init[j];
        assert IndexOf(snps, start.value) == |snps| - 1;
      }
    }
  }

  /** An exception ends the run: later SNPs change nothing. */
  lemma {:induction false} OutputsStop(services: Services, snps: seq<string>, more: seq<string>)
    requires Outputs(services, snps).error.Some?
    ensures Outputs(services, snps + more) == Outputs(services, snps)
    decreases |more|
  {
    if |more| == 0 {
      assert snps + more == snps;
    } else {
      assert (snps + more)[..|snps + more| - 1] == snps + more[..|more| - 1];
      OutputsStop(services, snps, more[..|more| - 1]);
    }
  }

  /** One line per SNP in the given order, until the first SNP whose
      processing raises; a run without exception writes every SNP. */
  lemma {:induction false} OutputsLaws(services: Services, snps: seq<string>)
    ensures var r := Outputs(services, snps);
      && |r.printed| <= |snps|
      && (forall k :: 0 <= k < |r.printed| ==>
            Step(services, snps[k]) == Success(r.printed[k]) && r.printed[k].variation == snps[k])
      && (r.error.None? ==> |r.printed| == |snps|)
      && (r.error.Some? ==> |r.printed| < |snps| && Step(services, snps[|r.printed|]) == Failure(r.error.value))
    decreases |snps|
  {
    if |snps| > 0 {
      var init, last := snps[..|snps| - 1], snps[|snps| - 1];
      assert snps == init + [last];
      OutputsLaws(services, init);
      if Outputs(services, init).error.None? {
        OutputsSnoc(services, init, last);
        if Step(services, last).Success? {
          StepVariation(services, last);
        }
      } else {
        OutputsStop(services, init, [last]);
      }
      assert forall k :: 0 <= k < |init| ==> init[k] == snps[k];
    }
  }

  /** A SNP processed without exception is written under its own name. */
  lemma StepVariation(services: Services, snp: string)
    requires Step(services, snp).Success?
    ensures Step(services, snp).value.variation == snp
  {
    VariantLaws(services, snp, services.content(snp).value);
  }
}
