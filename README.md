# r-var data scripts in Dafny

This project models three data-munging scripts of r-var: the part that does
the logic, with the surrounding I/O stripped out.

- **The phenotype merge** (`scripts/merge_phenotype_data.py`).
  - Rows come from many phenotype directories, each holding the files a glob matched.
  - The rows are folded into a table keyed by a pluggable uniqueness key (gene, transcript or whole row).
  - Keys are kept in first-seen order.
  - An optional merge function is called on a repeated key; it can only abort the merge.
  - The header of the last file read is written first, then the rows.
- **Publication enrichment** (`scripts/publication_summary.py`).
  - The rows of `variation-phenotypes.csv` are grouped into (variation, phenotype) units carrying sorted, deduplicated PubMed ids.
  - A memoising `KeywordRetriever` turns each PubMed id into keywords through PubMed, Zemanta and Freebase, and filters them by wanted and avoided Freebase topics.
  - `main` walks the units. Each PubMed id not seen in an earlier unit gets one row holding the running keyword tally. A run can resume after a checkpoint unit.
- **SNPedia parsing** (`scripts/snpedia_to_disease.py`).
  - Each SNP page yields its `PMID` references, its genotype effects and a set of diseases and a description.
  - Genotype effects are the key/value tables of up to three genotype pages.
  - Diseases and the description come from the Freebase topics of its Zemanta links.
  - The main loop can skip ahead to a start SNP.

The network services (PubMed, Zemanta, Freebase, SNPedia) are function-valued
fields of `Services` datatypes. They stand for the first successful answer of
each call. Files are inputs and outputs: sequences of rows of strings.

Stateful parts of the source are imperative Dafny:
- the nested loops of `_get_unique_values`;
- the loops of `vrn_phenotype_ids`, `main`, `genotype_effects` and `query_zemanta`;
- the `KeywordRetriever` class with its two caches.

Each method is proved equal to a reference function. The promised properties
are proved about those functions as lemmas.

Modules:
- `Wrappers`: `Option` and `Result`.
- `Collections`: no-duplicates and first-seen order.
- `Text`: Python string operations on `seq<char>`.
- `MergePhenotypeData`.
- `Freebase`: shared URL rewrite.
- `PublicationUnits`.
- `KeywordRetrieval`.
- `PublicationSummary`.
- `SnpediaGenotypes`.
- `SnpediaPmids`.
- `SnpediaDisease`.
- `SnpediaRun`.

The model follows what the code does, in particular:
- **The merge header.** `_get_unique_values` returns the header of the *last* file read (`scripts/merge_phenotype_data.py:68`), not the first.
- **The merge function.** Its result is computed and discarded (`:73-74`). It can only make the merge fail. The stored row is never replaced.
- **Grouping into units.** Units are grouped through a dict, not over consecutive rows (`scripts/publication_summary.py:154-159`). Rows with one key that are far apart form one unit.
- **When rows are written.** Each id's row is written inside the id loop, with the tally *as it stands after that id* (`:37-42`). It is not written at the end of the unit with its final tally.
- **Wanted against avoided topics.** A wanted topic wins over an avoided one (`:106-109`).

## Model

| member | source | states |
|---|---|---|
| MergePhenotypeData.GeneUnique | scripts/merge_phenotype_data.py:25-27 | the key is column 0 exactly when the row has a non-empty column 0; an empty row raises `IndexError`, otherwise the row is dropped |
| MergePhenotypeData.TxUnique | scripts/merge_phenotype_data.py:29-31 | the key is (column 0, column 2) exactly when both exist and are non-empty; indexing past the end raises only when column 0 is non-empty or the row is empty |
| MergePhenotypeData.PhenotypeUnique | scripts/merge_phenotype_data.py:33-34 | the whole row is the key, except that an empty row (an empty, falsy tuple) is dropped; it never raises |
| MergePhenotypeData.ApplyMerge | scripts/merge_phenotype_data.py:39-41 | `_phenotype_merge` succeeds exactly when the rows are equal, and then returns the stored row |
| MergePhenotypeData.AddRowsConsistent | scripts/merge_phenotype_data.py:69-77 | the row fold keeps the table invariant: `seen_order` lists each stored key once, and each row is stored under its own key |
| MergePhenotypeData.ReadGroupsConsistent | scripts/merge_phenotype_data.py:62-77 | the directory and file loops keep the same invariant |
| MergePhenotypeData.GetUniqueValues | scripts/merge_phenotype_data.py:57-78 | the nested loops updating `info` and `seen_order` in place return what the reference fold `UniqueValues` returns, error or result |
| MergePhenotypeData.ReadGroupFiles | scripts/merge_phenotype_data.py:63-77 | one directory: no matching file aborts, a file without a header aborts, and each file's header overwrites `header`; equals the reference fold |
| MergePhenotypeData.ReadRows | scripts/merge_phenotype_data.py:69-77 | the row loop of one file equals the reference row fold, including the error on a short row and on a merge assertion |
| MergePhenotypeData.CombineFiles | scripts/merge_phenotype_data.py:49-55 | a failed merge writes nothing; otherwise the header line, then every merged row in order |
| MergePhenotypeData.UniqueValuesFlat | scripts/merge_phenotype_data.py:62-78 | the merge succeeds exactly when there is a directory, every directory matched a file, every file has a header and the flat fold over all data rows succeeds; it returns the last header and the rows of that flat fold |
| MergePhenotypeData.ReadFilesFlat | scripts/merge_phenotype_data.py:65-77 | the file loop is the flat row fold over the files' data rows, and leaves the last file's header |
| MergePhenotypeData.ReadGroupsFlat | scripts/merge_phenotype_data.py:62-77 | the directory loop is the flat row fold over all data rows, and leaves the last directory's last header |
| MergePhenotypeData.AddRowsNoMissing | scripts/merge_phenotype_data.py:70 | a successful fold met no row too short for the key function |
| MergePhenotypeData.AddRowOrder | scripts/merge_phenotype_data.py:72-77 | one row appends its key to `seen_order` exactly when the key is new |
| MergePhenotypeData.AddRowsOrder | scripts/merge_phenotype_data.py:69-77 | from an empty table, `seen_order` is the distinct keys of the rows in first-encounter order |
| MergePhenotypeData.AddRowsFirstWins | scripts/merge_phenotype_data.py:72-77 | a key is stored exactly when some row has it, and the row stored is the first row with that key |
| MergePhenotypeData.AddRowsSucceeds | scripts/merge_phenotype_data.py:69-77 | without a merge function the fold fails exactly when some row is too short for the key |
| MergePhenotypeData.AddRowsMergeOnlyFails | scripts/merge_phenotype_data.py:73-74 | a merge function that does not raise leaves the result equal to the fold without it |
| MergePhenotypeData.AddRowsPhenotypeMergeHolds | scripts/merge_phenotype_data.py:33-41 | with the whole row as key, the equality assertion never fails: the fold with `_phenotype_merge` equals the fold without it |
| MergePhenotypeData.MergeKeepsFirstSeen | scripts/merge_phenotype_data.py:62-78 | one output row per distinct key, in first-encounter order over directories, files and rows; each is the first row with its key; the header is that of the last file |
| MergePhenotypeData.MergeKeysDistinct | scripts/merge_phenotype_data.py:70-78 | every output row has a key (a falsy key never reaches the output), and no two output rows share a key |
| MergePhenotypeData.GeneRowsDistinct | scripts/merge_phenotype_data.py:25-27 | with the gene key, every output row has a non-empty column 0 and no two share it |
| MergePhenotypeData.TxRowsDistinct | scripts/merge_phenotype_data.py:29-31 | with the transcript key, every output row has non-empty columns 0 and 2 and no two share the pair |
| MergePhenotypeData.NoMatchingFilesAborts | scripts/merge_phenotype_data.py:63-64 | a directory whose glob matched nothing makes the merge fail |
| MergePhenotypeData.WithoutMergeFnSucceeds | scripts/merge_phenotype_data.py:62-78 | without a merge function the merge succeeds exactly when there is a directory, all directories matched files, all files have headers and no row is too short |
| MergePhenotypeData.MergeResultDiscarded | scripts/merge_phenotype_data.py:73-74 | when the merge function does not raise, the output equals the output without it |
| MergePhenotypeData.ReadFilesPhenotypeMerge | scripts/merge_phenotype_data.py:65-77 | over one directory's files, the phenotype merge changes nothing |
| MergePhenotypeData.ReadGroupsPhenotypeMerge | scripts/merge_phenotype_data.py:62-77 | over all directories, the phenotype merge changes nothing |
| MergePhenotypeData.PhenotypeMergeHarmless | scripts/merge_phenotype_data.py:20-21 | the phenotype merge as `main` runs it has the outcome of the merge without the merge function, error or not |
| Collections.DistinctLaws | scripts/merge_phenotype_data.py:72-77 | the first-seen key list has no repeats and holds exactly the keys met |
| Collections.DistinctOrder | scripts/merge_phenotype_data.py:72-77 | a key listed earlier in the first-seen list was first met earlier |
| Collections.DistinctSnoc | scripts/merge_phenotype_data.py:72-77 | a key already met leaves the list unchanged; a new one goes to its end |
| Text.Split | scripts/publication_summary.py:152 | `str.split` on one character: at least one piece, no piece holds the separator, and joining the pieces gives the text back |
| Text.SplitJoin | scripts/publication_summary.py:152 | splitting a join of separator-free pieces gives the pieces back |
| Text.SplitLast | scripts/publication_summary.py:152 | `split(sep)[-1]` is a suffix of the text, all of it when `sep` does not occur, and preceded by `sep` otherwise |
| Text.SplitLastNoOccurrence | scripts/publication_summary.py:152 | the last piece holds no occurrence of the separator |
| Text.Find | scripts/snpedia_to_disease.py:70 | `str.find`: -1 exactly when the pattern occurs nowhere, otherwise its first occurrence |
| Text.Strip | scripts/snpedia_to_disease.py:75 | `str.strip` returns a slice of the text with only whitespace outside it and no whitespace at either of its ends; a string without any there comes back unchanged |
| Text.RemoveChar | scripts/snpedia_to_disease.py:75 | removing the bar character with `replace` leaves none and keeps every other character exactly as often as it occurred |
| Text.RemoveCharAppend | scripts/snpedia_to_disease.py:75 | removing the bar character from a concatenation removes it from each part, so the kept characters keep their order |
| Text.ReplaceAll | scripts/publication_summary.py:126 | `str.replace`: a text starting with the pattern gives one starting with the replacement; a text without the pattern is unchanged |
| Text.Lower | scripts/snpedia_to_disease.py:129 | `lower()` maps each ASCII capital to its small letter, position by position |
| Text.ReplaceChar | scripts/snpedia_to_disease.py:130 | `replace("\n", " ")` maps each newline to a space and leaves no newline |
| Text.LessTransitive | scripts/publication_summary.py:161 | the string order `sorted` uses is transitive |
| Text.LessTotal | scripts/publication_summary.py:161 | the string order `sorted` uses is total |
| Text.LessIrreflexive | scripts/publication_summary.py:161 | the string order `sorted` uses is irreflexive |
| PublicationUnits.KeptId | scripts/publication_summary.py:152-153 | a token yields an id exactly when it starts with `pubmed/`, and the id holds no `pubmed/` |
| PublicationUnits.KeptIdsMember | scripts/publication_summary.py:152-153 | an id is kept exactly when some token starts with `pubmed/` and the id is the text after its last `pubmed/` |
| PublicationUnits.FirstShort | scripts/publication_summary.py:151 | the first data row with fewer than three fields, and none exactly when every row has three |
| PublicationUnits.Insert | scripts/publication_summary.py:161 | inserting into a strictly ascending list keeps it strictly ascending and adds exactly the element |
| PublicationUnits.SortedSet | scripts/publication_summary.py:161 | `sorted(list(set(xs)))` is strictly ascending and holds exactly the elements of `xs` |
| PublicationUnits.VrnPhenotypeIds | scripts/publication_summary.py:145-161 | the loop filling the `ids` dict and the `order` list, then the yield loop, gives the reference units (or the error of the first short row) |
| PublicationUnits.GatherRow | scripts/publication_summary.py:151-159 | one row extends the ids stored under its key or starts a new key at the end of `order`, keeping the dict and list equal to their reference values |
| PublicationUnits.YieldUnits | scripts/publication_summary.py:160-161 | the yield loop gives each key of `order` with its sorted, deduplicated ids |
| PublicationUnits.GatheredMember | scripts/publication_summary.py:152-158 | an id is gathered under a key exactly when some row with that key lists it |
| PublicationUnits.UnitsOutcome | scripts/publication_summary.py:150-151 | a file without a header yields nothing; otherwise the generator raises exactly when some data row has fewer than three fields |
| PublicationUnits.UnitsKeysOnce | scripts/publication_summary.py:154-160 | no (variation, phenotype) is yielded twice, even when its rows are not adjacent, and each yielded key is a row's key |
| PublicationUnits.UnitsCoverRows | scripts/publication_summary.py:154-160 | every row's key is yielded |
| PublicationUnits.UnitsFirstSeenOrder | scripts/publication_summary.py:154-160 | units come in the order in which their keys are first met |
| PublicationUnits.UnitsIds | scripts/publication_summary.py:152-161 | each unit's ids are strictly ascending and are exactly the kept ids of all rows with its key |
| PublicationUnits.StrictlySortedNoDup | scripts/publication_summary.py:161 | a strictly ascending id list has no repeats |
| Freebase.TopicUrl | scripts/publication_summary.py:126 | the rewritten URL starts with the topic-service prefix |
| Freebase.LastRdfIndex | scripts/publication_summary.py:124-126 | the index of a qualifying `rdf` target with none after it, or -1 |
| Freebase.LastTopicUrlNone | scripts/publication_summary.py:123-127 | there is no topic URL exactly when no target qualifies; otherwise it is the rewrite of the last qualifying target's URL |
| Freebase.LastTopicUrlSnoc | scripts/publication_summary.py:124-126 | a later qualifying target overwrites `cur_url`; any other leaves it |
| KeywordRetrieval.TopicOf | scripts/publication_summary.py:105 | `id.split("/")[1]` exists exactly when the id holds a `/`, and holds none itself |
| KeywordRetrieval.TopicsOf | scripts/publication_summary.py:105 | `fb_ids` succeeds exactly when every id holds a `/`, with one topic per type in order |
| KeywordRetrieval.DroppedExactly | scripts/publication_summary.py:104-109 | a link is dropped exactly when its Freebase answer is a non-empty dict with non-empty types, none wanted and some avoided |
| KeywordRetrieval.WantWins | scripts/publication_summary.py:106-107 | a wanted topic keeps the link whatever else its types say |
| KeywordRetrieval.NoTopicUrlKept | scripts/publication_summary.py:102-115 | a link without a qualifying target has no Freebase answer and is kept, raising only when it has no target for the title |
| KeywordRetrieval.LinkKeywordsAppend | scripts/publication_summary.py:100-116 | kept titles come out in link order, and a raise stops the loop |
| KeywordRetrieval.TopicUrlsMember | scripts/publication_summary.py:118-127 | a URL is a topic URL of the links exactly when some link's last qualifying target gives it |
| KeywordRetrieval.KeywordRetriever.constructor | scripts/publication_summary.py:52-62 | both caches start empty, the invariant holds, and nothing has been fetched |
| KeywordRetrieval.KeywordRetriever.GetKwds | scripts/publication_summary.py:64-70 | returns the keywords of the article; a cached id is answered from the cache without a fetch and changes nothing; a new id is fetched once and cached on success; no cached entry of either cache is changed; when every earlier fetch is cached and none repeats, the new fetch repeats no id, and that state survives a successful call |
| KeywordRetrieval.KeywordRetriever.FetchKwds | scripts/publication_summary.py:72-84 | title and abstract, joined by a space, go to Zemanta; one PubMed fetch is recorded; old Freebase cache entries stay |
| KeywordRetrieval.KeywordRetriever.ZemantaKeywords | scripts/publication_summary.py:86-116 | returns the titles of the links that pass the topic test, in order; the Freebase cache gains at most the topic URLs of the links, and all of them when no link raises; nothing cached is changed |
| KeywordRetrieval.KeywordRetriever.LinkKeyword | scripts/publication_summary.py:101-115 | one link's keyword, and the Freebase cache gains exactly its topic URL |
| KeywordRetrieval.KeywordRetriever.GetFreebaseInfo | scripts/publication_summary.py:118-134 | the answer for the last qualifying target's rewritten URL; no URL means `None` and no call; a cached URL is answered from the cache; a new one is fetched once and its answer, `None` included, is cached |
| KeywordRetrieval.FindTopicUrl | scripts/publication_summary.py:123-126 | the target loop leaves `cur_url` at the rewrite of the last qualifying target |
| PublicationSummary.Checkpoint | scripts/publication_summary.py:23-24 | a fresh run exactly when `start_info` is absent or empty |
| PublicationSummary.TallyKeywords | scripts/publication_summary.py:39-40 | the counting loop gives the reference tally |
| PublicationSummary.TallyCounts | scripts/publication_summary.py:36-40 | each keyword's count grows by its number of occurrences; the keys are the old ones plus the keywords |
| PublicationSummary.TallyAppend | scripts/publication_summary.py:37-40 | tallying two keyword lists one after the other is tallying their concatenation |
| PublicationSummary.Summarize | scripts/publication_summary.py:22-47 | `main` writes what the reference `SummaryOf` gives: the header on a fresh run, then the rows of the unit loop, up to the first exception; its retriever's fetch log has no repeats, holds only ids of units reached while ready, and without an exception holds exactly those |
| PublicationSummary.RunUnits | scripts/publication_summary.py:34-47 | the unit loop with its `ready` flag and `seen_pubmedids` set equals the reference run; started with a retriever that has fetched nothing twice (as `main`'s fresh one at :33), it fetches no PubMed id twice however many units list it; it asks the retriever only for ids of units reached while ready (`if ready:` at :35 skips the rest); without an exception every id of every unit reached while ready is in `_cache`, and from an empty log the log then holds exactly those ids |
| PublicationSummary.ReadyIdsMember | scripts/publication_summary.py:34-38 | an id is in `ReadyIds` exactly when some unit lists it and the loop reaches that unit while ready and before any exception |
| PublicationSummary.AddSeen | scripts/publication_summary.py:46-47 | the seen set gains exactly the unit's ids |
| PublicationSummary.EmitUnit | scripts/publication_summary.py:36-42 | the id loop of a ready unit equals the reference emission; it fetches no id twice if the retriever had none repeated before; without an exception every id of the unit is then in `_cache`, no cached key is lost, and the retriever is asked for no id outside the unit |
| PublicationSummary.RunStop | scripts/publication_summary.py:34-47 | a raise ends the unit loop: later units change nothing |
| PublicationSummary.EmitCounts | scripts/publication_summary.py:36-40 | after the id loop the tally counts every keyword of every id of the unit |
| PublicationSummary.EmitKeywordRows | scripts/publication_summary.py:42 | the id loop writes only keyword rows |
| PublicationSummary.EmitWritesUnseen | scripts/publication_summary.py:41-42 | the id loop writes only ids of the unit not seen in an earlier unit |
| PublicationSummary.EmitWritesOnce | scripts/publication_summary.py:37-42 | distinct ids are written at most once each |
| PublicationSummary.EmitWritesAllUnseen | scripts/publication_summary.py:37-42 | a completed id loop writes every unseen id of the unit |
| PublicationSummary.EmitSnapshot | scripts/publication_summary.py:36-42 | each written row carries the tally of the unit's ids up to and including its own |
| PublicationSummary.IdsOfFirst | scripts/publication_summary.py:46-47 | every seen id has a first unit holding it |
| PublicationSummary.RunTracks | scripts/publication_summary.py:32-47 | without exception, every unit's ids are seen, and the run is ready exactly when fresh or past its checkpoint |
| PublicationSummary.RunKeywordRows | scripts/publication_summary.py:34-47 | the unit loop writes only keyword rows |
| PublicationSummary.RunWritesFirst | scripts/publication_summary.py:34-47 | each id written belongs to a unit met while ready, and no earlier unit holds it |
| PublicationSummary.RunWritesAll | scripts/publication_summary.py:34-47 | without exception, every id whose first unit came while ready is written |
| PublicationSummary.RunWritesOnce | scripts/publication_summary.py:29-47 | when no unit lists an id twice (which `UnitsIds` guarantees), no id is written twice in a run |
| PublicationSummary.RunNoCheckpoint | scripts/publication_summary.py:32-45 | a resumed run whose checkpoint matches no unit writes nothing and never becomes ready |
| PublicationSummary.RunSkipsToCheckpoint | scripts/publication_summary.py:44-47 | a resumed run writes no id of the units up to and including the checkpoint unit |
| PublicationSummary.RunSnapshot | scripts/publication_summary.py:35-42 | every row is a keyword row for an id whose first unit came while ready, and holds that unit's tally up to and including the id |
| PublicationSummary.SummaryHeader | scripts/publication_summary.py:27-31 | a fresh run starts with the header row and only a fresh run writes it; every other row is a keyword row |
| PublicationSummary.SummarySnapshots | scripts/publication_summary.py:36-42 | every keyword row written carries the running tally of the unit that wrote it, the first unit holding its id, up to and including that id |
| PublicationSummary.SummaryWritesOnce | scripts/publication_summary.py:29-47 | no PubMed id is written twice |
| PublicationSummary.SummaryFresh | scripts/publication_summary.py:30-47 | a fresh run without exception writes exactly the ids of all units |
| PublicationSummary.SummaryResume | scripts/publication_summary.py:23-47 | a resumed run writes no id of the units up to and including its checkpoint, and without exception every later first-seen id |
| PublicationSummary.SummaryNoCheckpoint | scripts/publication_summary.py:30-45 | a resumed run whose checkpoint names no unit writes nothing at all |
| SnpediaGenotypes.TableText | scripts/snpedia_to_disease.py:70 | the text before the first `}}`; without one, everything but the last character; it never holds `}}` |
| SnpediaGenotypes.ParseLine | scripts/snpedia_to_disease.py:73-75 | one line: skipped unless `=` is at an index above 0, rejected on a second `=`, else an entry |
| SnpediaGenotypes.BuildTable | scripts/snpedia_to_disease.py:73-75 | the loop filling the `genotype` dict equals the reference parse |
| SnpediaGenotypes.ParseGenotype | scripts/snpedia_to_disease.py:69-80 | a fetched genotype page gives the reference table without `rsid` |
| SnpediaGenotypes.KindsAt | scripts/snpedia_to_disease.py:73 | each line is classified on its own |
| SnpediaGenotypes.ClassifyTooMany | scripts/snpedia_to_disease.py:73-74 | a line is rejected exactly when it is kept and holds more than one `=` |
| SnpediaGenotypes.ParseKindsFails | scripts/snpedia_to_disease.py:73-74 | the parse fails exactly when some line is rejected, with the first rejected line |
| SnpediaGenotypes.LastWithKey | scripts/snpedia_to_disease.py:75 | the index of an entry for the key with no later one, or -1 |
| SnpediaGenotypes.ParseKindsEntries | scripts/snpedia_to_disease.py:75 | the table holds exactly the keys with an entry, each with its last entry's value: a later duplicate overwrites |
| SnpediaGenotypes.ClassifyClean | scripts/snpedia_to_disease.py:75 | an entry's key holds no bar character and is trimmed, and its value is trimmed |
| SnpediaGenotypes.ParseKindsClean | scripts/snpedia_to_disease.py:75 | every key and value of a table is clean |
| SnpediaGenotypes.StripTwice | scripts/snpedia_to_disease.py:75 | stripping twice is stripping once |
| SnpediaGenotypes.GenotypeTableLaws | scripts/snpedia_to_disease.py:70-80 | removing an absent `rsid` never fails, no table holds `rsid`, and every entry is clean |
| SnpediaGenotypes.BaseRun | scripts/snpedia_to_disease.py:35-37 | `[ACGT]+` is greedy: the run ends at a non-base or at the end |
| SnpediaGenotypes.GenoMatchAt | scripts/snpedia_to_disease.py:35-37 | a match of a genotype pattern yields two alleles made of bases |
| SnpediaGenotypes.FirstGenoMatch | scripts/snpedia_to_disease.py:64 | the leftmost position where the pattern matches, or -1 |
| SnpediaGenotypes.GenoSearch | scripts/snpedia_to_disease.py:64 | `re.search` finds nothing exactly when the pattern matches nowhere; otherwise both groups are made of bases |
| SnpediaGenotypes.GenoSearchLeftmost | scripts/snpedia_to_disease.py:64 | when `re.search` finds something, its groups are those of the match at a position with no match to its left |
| SnpediaGenotypes.GenotypeEffects | scripts/snpedia_to_disease.py:61-82 | the pattern loop filling `effects` equals the reference effects over `geno1`, `geno2`, `geno3` |
| SnpediaGenotypes.PatternEffect | scripts/snpedia_to_disease.py:64-81 | one pattern: nothing when it does not match or the page is empty, else the page's table |
| SnpediaGenotypes.EffectsStop | scripts/snpedia_to_disease.py:74 | a table that raises ends `genotype_effects` |
| SnpediaGenotypes.EffectsPrefix | scripts/snpedia_to_disease.py:63-81 | the effects come in pattern order |
| SnpediaGenotypes.EffectsAtMost | scripts/snpedia_to_disease.py:63-81 | at most one effect per pattern |
| SnpediaGenotypes.EffectsSound | scripts/snpedia_to_disease.py:63-81 | each effect is the table of a pattern that matched and whose page is not empty |
| SnpediaGenotypes.EffectsComplete | scripts/snpedia_to_disease.py:63-81 | the table of every pattern that matched with a non-empty page is among the effects |
| SnpediaGenotypes.EffectsClean | scripts/snpedia_to_disease.py:73-80 | no effect holds `rsid`, and no value holds a newline |
| SnpediaGenotypes.GenotypeEffectsAtMostThree | scripts/snpedia_to_disease.py:34-38 | `genotype_effects` yields at most three effects |
| SnpediaGenotypes.Summaries | scripts/snpedia_to_disease.py:99 | one `summary` entry or "" per effect, in order |
| SnpediaGenotypes.EffectTextSplits | scripts/snpedia_to_disease.py:99 | the effect text splits back at newlines into the summaries |
| SnpediaPmids.DigitRun | scripts/snpedia_to_disease.py:24 | `\d+` is greedy: the run ends at a non-digit or at the end |
| SnpediaPmids.MatchEnd | scripts/snpedia_to_disease.py:24 | a match covers `PMID`, a separator and at least one digit |
| SnpediaPmids.NoMatchInside | scripts/snpedia_to_disease.py:24 | no match starts inside another |
| SnpediaPmids.ScanFindsEveryMatch | scripts/snpedia_to_disease.py:87 | the `findall` scan, which resumes after each match, finds every match of the text in order |
| SnpediaPmids.PmidsLaws | scripts/snpedia_to_disease.py:87 | every reference is `pubmed/` and at least one digit, nothing else; every match gives one |
| SnpediaPmids.RefShape | scripts/snpedia_to_disease.py:87 | the reference of a match is `pubmed/` followed by its digits |
| SnpediaPmids.EveryMatchShape | scripts/snpedia_to_disease.py:87 | each reference comes from a match |
| SnpediaPmids.EveryMatchHas | scripts/snpedia_to_disease.py:87 | each match gives a reference |
| SnpediaDisease.ItemsOf | scripts/snpedia_to_disease.py:139-144 | every qualifying target of a link is yielded with its title and rewritten URL |
| SnpediaDisease.ItemsOfAppend | scripts/snpedia_to_disease.py:139-144 | targets are yielded in order |
| SnpediaDisease.FreebaseItemsAppend | scripts/snpedia_to_disease.py:138-144 | links are walked in order |
| SnpediaDisease.QueryZemanta | scripts/snpedia_to_disease.py:108-131 | the loops filling `diseases` and `description` equal the reference query |
| SnpediaDisease.SelectLink | scripts/snpedia_to_disease.py:139-144 | the targets of one link are selected from in order |
| SnpediaDisease.ProcessItem | scripts/snpedia_to_disease.py:123-130 | one yielded pair: a missing key raises, disease types append the text, a matching title replaces the description |
| SnpediaDisease.SelectStop | scripts/snpedia_to_disease.py:123-130 | a `KeyError` ends the loop |
| SnpediaDisease.AddDiseasesLaws | scripts/snpedia_to_disease.py:125-127 | the text is appended once per `/medicine/disease` type after what was there; the loop fails exactly on a type without `id` or a disease type of a topic without `text` |
| SnpediaDisease.SelectDiseases | scripts/snpedia_to_disease.py:123-127 | the diseases are, item after item in yield order, each topic's text once per disease type; so one per disease type, each the text of a topic |
| SnpediaDisease.LastNamed | scripts/snpedia_to_disease.py:129 | the last item titled like the searched name, ignoring case, or -1 |
| SnpediaDisease.SelectDescription | scripts/snpedia_to_disease.py:128-130 | the description is that of the last item titled like the search, with newlines made spaces; "" when none is; never a newline |
| SnpediaDisease.QueryLaws | scripts/snpedia_to_disease.py:121-131 | what `query_zemanta` returns: the disease texts of all topics in target order; the description of the last target titled like the search, ignoring case, with newlines made spaces, and "" when none is |
| SnpediaRun.Description | scripts/snpedia_to_disease.py:102 | the Zemanta description when non-empty, else the infobox summary |
| SnpediaRun.ProcessVariantContent | scripts/snpedia_to_disease.py:84-105 | the record for one SNP page equals the reference `Variant`, error or not |
| SnpediaRun.VariantLaws | scripts/snpedia_to_disease.py:86-104 | the record names the SNP, its refs are every `PMID` match, it has at most three genotypes without `rsid`, and an empty description means there was no summary |
| SnpediaRun.ProcessSnp | scripts/snpedia_to_disease.py:157-158 | a SNP without a page raises; otherwise its page is processed |
| SnpediaRun.ProcessSnps | scripts/snpedia_to_disease.py:146-159 | `main` splits `in_snps` on commas when given, else lists the category, and runs the loop; equals the reference run |
| SnpediaRun.ProcessList | scripts/snpedia_to_disease.py:151-159 | the loop with the `delay_start` flag equals processing the reference list of SNPs, up to the first exception |
| SnpediaRun.ToProcessSnoc | scripts/snpedia_to_disease.py:152-156 | one more SNP is processed exactly when the start is behind, and the start is behind once met |
| SnpediaRun.ResumeRest | scripts/snpedia_to_disease.py:151-158 | once the start is behind, every later SNP is processed |
| SnpediaRun.ToProcessSpec | scripts/snpedia_to_disease.py:151-156 | without a start every SNP is processed; with one, exactly the SNPs after its first occurrence; none when it never occurs |
| SnpediaRun.OutputsStop | scripts/snpedia_to_disease.py:157-158 | an exception ends the run |
| SnpediaRun.OutputsLaws | scripts/snpedia_to_disease.py:152-158 | one record per processed SNP in order, each its own, up to the first SNP that raises; without exception every SNP is written |
| SnpediaRun.StepVariation | scripts/snpedia_to_disease.py:103 | a processed SNP is written under its own name |

## Left out

- Network access is not modelled. PubMed (`Entrez.efetch`/`Entrez.read`), Zemanta, Freebase, and SNPedia's `get_content` and `title_list` are fields of `Services`. Each is a total function giving an answer.
- The calls of `scripts/publication_summary.py` go through retry loops (`_safe_urlopen`, `_fetch_kwds`); their `Services` field gives the first successful answer.
- The SNPedia, Zemanta and Freebase calls of `scripts/snpedia_to_disease.py` (`urllib.urlopen` at :42 and :52, `urllib2.urlopen` at :119 and :143) have no retry. An HTTP error there raises and ends the run; this failure is not modelled, since the services always answer.
- The `time.sleep(2)` after each SNP in `main` of `scripts/snpedia_to_disease.py` (:159) is not modelled. It only paces the requests.
- The retry-forever loops with `time.sleep` (`_safe_urlopen`, `_fetch_kwds`) are not modelled. They are I/O, and do not terminate by design.
- `title_list` pagination is not modelled. The category listing is given as a finished sequence, `Services.titles`.
- File and data formats are not modelled: CSV reading and writing, JSON and XML parsing and encoding, `open` modes including append mode, `glob` and `os.listdir` enumeration, `os.environ`, and `print` (including the per-unit progress line and the ambiguous-topic dump). Files are sequences of string rows; the output of `main` scripts is the rows they write.
- `main` of `merge_phenotype_data.py` only chooses the directories and calls `combine_files` three times. The directories are an input here.
- The infobox and summary regular expressions (`scripts/snpedia_to_disease.py:25`, `:32`) are functions of `Services`. Only the `PMID` pattern and the three genotype patterns are written out.
- The `except AttributeError` around `re.findall` (`scripts/snpedia_to_disease.py:88`) is not modelled, because it cannot fire on a string.
- `Text.Lower`: models `lower()` on ASCII letters only; Unicode case mapping is not modelled.
- `Text.Strip`: removes ASCII whitespace only, not the other Unicode spaces.
- `Text.ReplaceAll`: its contract states only the two cases the Freebase rewrite needs (a URL that starts with the pattern, and a text without the pattern), not every replacement.
- `content.encode('utf-8')` and `text.encode('utf-8')` are not modelled: strings are sequences of characters.
- `KeywordRetrieval.KeywordRetriever.GetKwds`: exceptions other than the three of `KwdError` are not modelled. Those would be a `KeyError` from the PubMed record, Zemanta's answer or a Freebase type without `id`; PubMed articles are given as title and abstract.
- `SnpediaDisease.QueryZemanta`: the `KeyError`s of a Zemanta answer without `markup`, `links`, a link's `target` or a target's `type`, `url` or `title` (`scripts/snpedia_to_disease.py:138-144`) are not modelled. The answer is given as typed links and targets, so those lookups always succeed. The Freebase topic keys, by contrast, are modelled as optional fields.
- `PublicationSummary.Summarize`: a `KeyError` inside the unit loop other than a `KwdError` is not modelled.
- `scripts/upload_data_to_gae.py` is not part of this model. It is subprocess and file-deletion plumbing.
- The JavaScript files under `resources/static/js` and `war/static/js` are not part of this model. They are browser UI code.
