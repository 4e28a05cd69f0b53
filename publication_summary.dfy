/** `main` of scripts/publication_summary.py: the (variation, phenotype)
    units are walked in order; each unit's PubMed ids have their keywords
    tallied, and a row is written for every id not seen in an earlier unit,
    carrying the tally at that moment. A run may resume after a checkpoint
    unit named "vrn,phenotype": the units up to and including it are only
    recorded as seen.

    The output file is modelled as the rows written to it; the data
    directory as the rows of variation-phenotypes.csv. */
module PublicationSummary {
  import opened Wrappers
  import opened Collections
  import opened Text
  import opened KeywordRetrieval
  import opened PublicationUnits

  /** A row of lit-kwds.csv: the header, or an id with the JSON of the
      keyword counts. */
  datatype OutRow = HeaderRow | KeywordRow(pubmedId: string, counts: map<string, nat>)

  /** The exceptions that end a run. */
  datatype MainError = UnitsFailed(unitsError: UnitsError) | KeywordsFailed(kwdError: KwdError)

  /** The rows written and the exception that ended the run, if any. */
  datatype Summary = Summary(rows: seq<OutRow>, error: Option<MainError>)

  /** `start_info` after `if start_info: start_info = tuple(start_info.split(","))`:
      `None` and the empty string mean a fresh run. */
  function Checkpoint(startInfo: Option<string>): (r: Option<seq<string>>)
    ensures r.None? <==> startInfo.None? || startInfo.value == ""
  {
    if startInfo.None? || startInfo.value == "" then None else Some(Split(startInfo.value, ','))
  }

  /** `(vrn, phenotype) == start_info` */
  predicate IsCheckpoint(cp: Option<seq<string>>, u: Unit) {
    cp == Some([u.vrn, u.phenotype])
  }

  // ---------------------------------------------------------------------------
  // Counting.

  /** A `defaultdict(int)` lookup. */
  function Get(counts: map<string, nat>, k: string): nat {
    if k in counts then counts[k] else 0
  }

  /** `for kwd in kwds: vrn_kwds[kwd] += 1` */
  function Tally(counts: map<string, nat>, kwds: seq<string>): map<string, nat>
    decreases |kwds|
  {
    if |kwds| == 0 then counts
    else
      var c := Tally(counts, kwds[..|kwds| - 1]);
      var k := kwds[|kwds| - 1];
      c[k := Get(c, k) + 1]
  }

  method TallyKeywords(counts: map<string, nat>, kwds: seq<string>) returns (c: map<string, nat>)
    ensures c == Tally(counts, kwds)
  {
    c := counts;
    for i := 0 to |kwds|
      invariant c == Tally(counts, kwds[..i])
    {
      assert kwds[..i + 1][..i] == kwds[..i];
      c := c[kwds[i] := Get(c, kwds[i]) + 1];
    }
    assert kwds[..|kwds|] == kwds;
  }

  // ---------------------------------------------------------------------------
  // The reference run.

  /** The state of the id loop of one unit: the counts, the rows written, the
      exception that ended it. */
  datatype Emission = Emission(counts: map<string, nat>, rows: seq<OutRow>, error: Option<KwdError>)

  /** The id loop of a ready unit, given the ids seen in earlier units. */
  function Emit(services: Services, seen: set<string>, ids: seq<string>): Emission
    decreases |ids|
  {
    if |ids| == 0 then Emission(map[], [], None)
    else
      var e := Emit(services, seen, ids[..|ids| - 1]);
      var pid := ids[|ids| - 1];
      if e.error.Some? then e
      else match Keywords(services, pid)
        case Failure(err) => Emission(e.counts, e.rows, Some(err))
        case Success(kwds) =>
          var c := Tally(e.counts, kwds);
          Emission(c, e.rows + (if pid in seen then [] else [KeywordRow(pid, c)]), None)
  }

  /** The state of the unit loop: `ready`, `seen_pubmedids`, the rows written
      after the header, the exception that ended the run. */
  datatype RunState = RunState(ready: bool, seen: set<string>, rows: seq<OutRow>, error: Option<MainError>)

  function Run(services: Services, cp: Option<seq<string>>, units: seq<Unit>): RunState
    decreases |units|
  {
    if |units| == 0 then RunState(cp.None?, {}, [], None)
    else
      var st := Run(services, cp, units[..|units| - 1]);
      var u := units[|units| - 1];
      if st.error.Some? then st
      else if st.ready then
        var e := Emit(services, st.seen, u.ids);
        if e.error.Some? then RunState(true, st.seen, st.rows + e.rows, Some(KeywordsFailed(e.error.value)))
        else RunState(true, st.seen + Elements(u.ids), st.rows + e.rows, None)
      else RunState(IsCheckpoint(cp, u), st.seen + Elements(u.ids), st.rows, None)
  }

  /** What `main` writes: the header on a fresh run only, then the rows of the
      unit loop; an exception of the unit generator comes before any unit. */
  function SummaryOf(services: Services, lines: seq<Row>, startInfo: Option<string>): Summary {
    var cp := Checkpoint(startInfo);
    var header := if cp.None? then [HeaderRow] else [];
    match Units(lines)
    case Failure(e) => Summary(header, Some(UnitsFailed(e)))
    case Success(units) =>
      var st := Run(services, cp, units);
      Summary(header + st.rows, st.error)
  }

  // ---------------------------------------------------------------------------
  // The loops as methods.

  /** `main`. Its fresh retriever fetches every PubMed id at most once, and
      only ids of units the loop reaches while ready; without an exception it
      fetches each of those. `fetched` is that retriever's fetch log. */
  method Summarize(services: Services, lines: seq<Row>, startInfo: Option<string>)
    returns (s: Summary, ghost fetched: seq<string>)
    ensures s == SummaryOf(services, lines, startInfo)
    ensures NoDup(fetched)
    ensures Units(lines).Failure? ==> fetched == []
    ensures Units(lines).Success? ==>
      forall p :: p in fetched ==> p in ReadyIds(services, Checkpoint(startInfo), Units(lines).value)
    ensures Units(lines).Success? && s.error.None? ==>
      forall p :: p in fetched <==> p in ReadyIds(services, Checkpoint(startInfo), Units(lines).value)
  {
    var cp := Checkpoint(startInfo);
    var header: seq<OutRow> := [];
    if cp.None? {
      header := [HeaderRow];
    }
    var retriever := new KeywordRetriever(services);
    var units := VrnPhenotypeIds(lines);
    if units.Failure? {
      return Summary(header, Some(UnitsFailed(units.error))), retriever.pubmedLog;
    }
    var st := RunUnits(retriever, cp, units.value);
    return Summary(header + st.rows, st.error), retriever.pubmedLog;
  }

  /** The unit loop: a ready unit runs its id loop, the checkpoint unit makes
      the run ready, and every unit's ids are then recorded as seen. It asks
      the retriever only for ids of the units it reaches while ready. Started
      with a retriever that has fetched nothing twice, as `main`'s fresh one,
      it fetches no PubMed id twice however many units list it, and without
      an exception it leaves every id of every ready unit cached. */
  method RunUnits(retriever: KeywordRetriever, cp: Option<seq<string>>, us: seq<Unit>) returns (st: RunState)
    requires retriever.Valid()
    modifies retriever
    ensures retriever.Valid()
    ensures st == Run(retriever.services, cp, us)
    ensures old(retriever.FetchedOnce()) ==> NoDup(retriever.pubmedLog)
    ensures old(retriever.FetchedOnce()) && st.error.None? ==> retriever.FetchedOnce()
    ensures st.error.None? ==> SetCached(ReadyIds(retriever.services, cp, us), retriever.cache)
    ensures forall p :: p in retriever.pubmedLog ==> p in old(retriever.pubmedLog) || p in ReadyIds(retriever.services, cp, us)
    ensures old(retriever.pubmedLog) == [] && st.error.None? ==>
      forall p :: p in retriever.pubmedLog <==> p in ReadyIds(retriever.services, cp, us)
  {
    var seen: set<string> := {};
    var ready := cp.None?;
    var written: seq<OutRow> := [];
    ghost var readyIds: set<string> := {};
    ghost var log0 := retriever.pubmedLog;
    for g := 0 to |us|
      invariant retriever.Valid()
      invariant Run(retriever.services, cp, us[..g]) == RunState(ready, seen, written, None)
      invariant readyIds == ReadyIds(retriever.services, cp, us[..g])
      invariant old(retriever.FetchedOnce()) ==> retriever.FetchedOnce()
      invariant SetCached(readyIds, retriever.cache)
      invariant forall p :: p in retriever.pubmedLog ==> p in log0 || p in readyIds
    {
      var u := us[g];
      RunSnoc(retriever.services, cp, us, g);
      ReadyIdsSnoc(retriever.services, cp, us, g);
      if ready {
        ghost var before, log := retriever.cache, retriever.pubmedLog;
        var e := EmitUnit(retriever, seen, u.ids);
        LogWithin(retriever.pubmedLog, log, log0, readyIds, u.ids);
        written := written + e.rows;
        if e.error.Some? {
          RunStop(retriever.services, cp, us, g + 1);
          ReadyIdsStop(retriever.services, cp, us, g + 1);
          return RunState(true, seen, written, Some(KeywordsFailed(e.error.value)));
        }
        CachedUnion(readyIds, u.ids, before, retriever.cache);
        readyIds := readyIds + Elements(u.ids);
      } else if cp == Some([u.vrn, u.phenotype]) {
        ready := true;
      }
      seen := AddSeen(seen, u.ids);
    }
    assert us[..|us|] == us;
    return RunState(ready, seen, written, None);
  }

  /** `for pid in ids: seen_pubmedids.add(pid)` */
  method AddSeen(seen: set<string>, ids: seq<string>) returns (s: set<string>)
    ensures s == seen + Elements(ids)
  {
    s := seen;
    for i := 0 to |ids|
      invariant s == seen + Elements(ids[..i])
    {
      assert Elements(ids[..i + 1]) == Elements(ids[..i]) + {ids[i]} by {
        assert ids[..i + 1] == ids[..i] + [ids[i]];
      }
      s := s + {ids[i]};
    }
    assert ids[..|ids|] == ids;
  }

  /** Every id of the list is a key of the keyword cache. */
  predicate AllCached(ids: seq<string>, cache: map<string, seq<string>>) {
    forall i :: 0 <= i < |ids| ==> ids[i] in cache
  }

  /** One more id of the id loop, after ids that raised nothing. */
  lemma EmitSnoc(services: Services, seen: set<string>, ids: seq<string>, j: nat)
    requires j < |ids| && Emit(services, seen, ids[..j]).error.None?
    ensures var e, pid := Emit(services, seen, ids[..j]), ids[j];
      Emit(services, seen, ids[..j + 1]) ==
        match Keywords(services, pid)
        case Failure(err) => Emission(e.counts, e.rows, Some(err))
        case Success(kwds) =>
          var c := Tally(e.counts, kwds);
          Emission(c, e.rows + (if pid in seen then [] else [KeywordRow(pid, c)]), None)
  {
    assert ids[..j + 1][..j] == ids[..j];
  }

  /** The unit loop, after the given units, is ready and has raised nothing:
      the next unit runs its id loop. */
  predicate Reached(services: Services, cp: Option<seq<string>>, units: seq<Unit>) {
    var st := Run(services, cp, units);
    st.ready && st.error.None?
  }

  /** The ids of the units whose id loop runs: those the unit loop reaches
      while ready and before any exception. */
  ghost function ReadyIds(services: Services, cp: Option<seq<string>>, units: seq<Unit>): set<string>
    decreases |units|
  {
    if |units| == 0 then {}
    else
      var init := units[..|units| - 1];
      ReadyIds(services, cp, init) +
        (if Reached(services, cp, init) then Elements(units[|units| - 1].ids) else {})
  }

  lemma ReadyIdsSnoc(services: Services, cp: Option<seq<string>>, units: seq<Unit>, g: nat)
    requires g < |units|
    ensures ReadyIds(services, cp, units[..g + 1]) ==
      ReadyIds(services, cp, units[..g]) +
        (if Reached(services, cp, units[..g]) then Elements(units[g].ids) else {})
  {
    assert units[..g + 1][..g] == units[..g];
  }

  /** An id is in `ReadyIds` exactly when some unit lists it and the loop
      reaches that unit while ready and before any exception. */
  lemma {:induction false} ReadyIdsMember(services: Services, cp: Option<seq<string>>, units: seq<Unit>, p: string)
    ensures p in ReadyIds(services, cp, units) <==>
      exists k :: 0 <= k < |units| && Reached(services, cp, units[..k]) && p in units[k].ids
    decreases |units|
  {
    if |units| > 0 {
      var n := |units|;
      var init := units[..n - 1];
      ReadyIdsMember(services, cp, init, p);
      assert ReadyIds(services, cp, units) ==
        ReadyIds(services, cp, init) + (if Reached(services, cp, init) then Elements(units[n - 1].ids) else {});
      if p in ReadyIds(services, cp, units) {
        if p in ReadyIds(services, cp, init) {
          var k :| 0 <= k < |init| && Reached(services, cp, init[..k]) && p in init[k].ids;
          assert init[..k] == units[..k];
        } else {
          assert Reached(services, cp, units[..n - 1]) && p in units[n - 1].ids;
        }
      }
      if exists k :: 0 <= k < n && Reached(services, cp, units[..k]) && p in units[k].ids {
        var k :| 0 <= k < n && Reached(services, cp, units[..k]) && p in units[k].ids;
        if k < n - 1 {
          assert init[..k] == units[..k] && init[k] == units[k];
        }
      }
    }
  }

  /** A raise ends the unit loop, so no later unit adds to `ReadyIds`. */
  lemma {:induction false} ReadyIdsStop(services: Services, cp: Option<seq<string>>, units: seq<Unit>, n: nat)
    requires n <= |units| && Run(services, cp, units[..n]).error.Some?
    ensures ReadyIds(services, cp, units) == ReadyIds(services, cp, units[..n])
    decreases |units| - n
  {
    if n < |units| {
      assert units[..n + 1][..n] == units[..n];
      ReadyIdsStop(services, cp, units, n + 1);
    } else {
      assert units[..n] == units;
    }
  }

  /** A log that grew by ids of one unit, from a log within `base` and an
      earlier set, is within `base`, that set and the unit's ids. */
  lemma LogWithin(log: seq<string>, mid: seq<string>, base: seq<string>, s: set<string>, ids: seq<string>)
    requires forall p :: p in log ==> p in mid || p in ids
    requires forall p :: p in mid ==> p in base || p in s
    ensures forall p :: p in log ==> p in base || p in s + Elements(ids)
  {
  }

  /** Every element of the set is a key of the keyword cache. */
  ghost predicate SetCached(s: set<string>, cache: map<string, seq<string>>) {
    forall p :: p in s ==> p in cache
  }

  /** A cache that has grown and holds a unit's ids holds the earlier set and
      that unit's ids. */
  lemma CachedUnion(s: set<string>, ids: seq<string>, before: map<string, seq<string>>, after: map<string, seq<string>>)
    requires SetCached(s, before) && AllCached(ids, after)
    requires forall p :: p in before ==> p in after
    ensures SetCached(s + Elements(ids), after)
  {
    forall p | p in Elements(ids) ensures p in after {
      var i := IndexOf(ids, p);
    }
  }

  /** A grown cache that holds the next id keeps the first `j + 1` ids cached. */
  lemma CachedSnoc(ids: seq<string>, j: nat, before: map<string, seq<string>>, after: map<string, seq<string>>)
    requires j < |ids| && ids[j] in after
    requires forall i :: 0 <= i < j ==> ids[i] in before
    requires forall p :: p in before ==> p in after
    ensures forall i :: 0 <= i < j + 1 ==> ids[i] in after
  {
  }

  /** The id loop of a ready unit. Through the cache it fetches no id twice,
      and without an exception it leaves every id of the unit cached. */
  method EmitUnit(retriever: KeywordRetriever, seen: set<string>, ids: seq<string>) returns (e: Emission)
    requires retriever.Valid()
    modifies retriever
    ensures retriever.Valid()
    ensures e == Emit(retriever.services, seen, ids)
    ensures old(retriever.FetchedOnce()) ==> NoDup(retriever.pubmedLog)
    ensures old(retriever.FetchedOnce()) && e.error.None? ==> retriever.FetchedOnce()
    ensures e.error.None? ==> AllCached(ids, retriever.cache)
    ensures forall p :: p in old(retriever.cache) ==> p in retriever.cache
    ensures forall p :: p in retriever.pubmedLog ==> p in old(retriever.pubmedLog) || p in ids
  {
    var counts: map<string, nat> := map[];
    var rows: seq<OutRow> := [];
    for j := 0 to |ids|
      invariant retriever.Valid()
      invariant Emit(retriever.services, seen, ids[..j]) == Emission(counts, rows, None)
      invariant old(retriever.FetchedOnce()) ==> retriever.FetchedOnce()
      invariant forall i :: 0 <= i < j ==> ids[i] in retriever.cache
      invariant forall p :: p in old(retriever.cache) ==> p in retriever.cache
      invariant forall p :: p in retriever.pubmedLog ==> p in old(retriever.pubmedLog) || p in ids
    {
      var pid := ids[j];
      EmitSnoc(retriever.services, seen, ids, j);
      ghost var before := retriever.cache;
      var kwds := retriever.GetKwds(pid);
      if kwds.Failure? {
        EmitStop(retriever.services, seen, ids, j + 1);
        return Emission(counts, rows, Some(kwds.error));
      }
      CachedSnoc(ids, j, before, retriever.cache);
      counts := TallyKeywords(counts, kwds.value);
      if pid !in seen {
        rows := rows + [KeywordRow(pid, counts)];
      } else {
        assert rows + [] == rows;
      }
    }
    assert ids[..|ids|] == ids;
    return Emission(counts, rows, None);
  }

  // ---------------------------------------------------------------------------
  // A raise ends the loops.

  lemma {:induction false} EmitStop(services: Services, seen: set<string>, ids: seq<string>, n: nat)
    requires n <= |ids| && Emit(services, seen, ids[..n]).error.Some?
    ensures Emit(services, seen, ids) == Emit(services, seen, ids[..n])
    decreases |ids| - n
  {
    if n < |ids| {
      assert ids[..n + 1][..n] == ids[..n];
      EmitStop(services, seen, ids, n + 1);
    } else {
      assert ids[..n] == ids;
    }
  }

  /** One more unit of the unit loop, after units that raised nothing. */
  lemma RunSnoc(services: Services, cp: Option<seq<string>>, units: seq<Unit>, g: nat)
    requires g < |units| && Run(services, cp, units[..g]).error.None?
    ensures var st, u := Run(services, cp, units[..g]), units[g];
      var e := Emit(services, st.seen, u.ids);
      Run(services, cp, units[..g + 1]) ==
        if !st.ready then RunState(IsCheckpoint(cp, u), st.seen + Elements(u.ids), st.rows, None)
        else if e.error.Some? then RunState(true, st.seen, st.rows + e.rows, Some(KeywordsFailed(e.error.value)))
        else RunState(true, st.seen + Elements(u.ids), st.rows + e.rows, None)
  {
    assert units[..g + 1][..g] == units[..g];
  }

  lemma {:induction false} RunStop(services: Services, cp: Option<seq<string>>, units: seq<Unit>, n: nat)
    requires n <= |units| && Run(services, cp, units[..n]).error.Some?
    ensures Run(services, cp, units) == Run(services, cp, units[..n])
    decreases |units| - n
  {
    if n < |units| {
      assert units[..n + 1][..n] == units[..n];
      RunStop(services, cp, units, n + 1);
    } else {
      assert units[..n] == units;
    }
  }

  // ---------------------------------------------------------------------------
  // Counting laws.

  /** `Tally` counts: each key's count grows by its number of occurrences, and
      the keys are the old ones plus the keywords. */
  lemma {:induction false} TallyCounts(counts: map<string, nat>, kwds: seq<string>)
    ensures Tally(counts, kwds).Keys == counts.Keys + Elements(kwds)
    ensures forall k :: Get(Tally(counts, kwds), k) == Get(counts, k) + multiset(kwds)[k]
    decreases |kwds|
  {
    if |kwds| > 0 {
      var init, last := kwds[..|kwds| - 1], kwds[|kwds| - 1];
      assert kwds == init + [last];
      TallyCounts(counts, init);
      assert multiset(kwds) == multiset(init) + multiset{last};
      assert Elements(kwds) == Elements(init) + {last};
    }
  }

  lemma {:induction false} TallyAppend(counts: map<string, nat>, a: seq<string>, b: seq<string>)
    ensures Tally(Tally(counts, a), b) == Tally(counts, a + b)
    decreases |b|
  {
    if |b| == 0 {
      assert a + b == a;
    } else {
      assert (a + b)[..|a + b| - 1] == a + b[..|b| - 1];
      TallyAppend(counts, a, b[..|b| - 1]);
    }
  }

  /** The keywords of the given ids, one list after the other. */
  function KeywordsOfIds(services: Services, ids: seq<string>): Result<seq<string>, KwdError>
    decreases |ids|
  {
    if |ids| == 0 then Success([])
    else
      var before :- KeywordsOfIds(services, ids[..|ids| - 1]);
      var k :- Keywords(services, ids[|ids| - 1]);
      Success(before + k)
  }

  /** After the id loop, `vrn_kwds` holds for every keyword the number of its
      occurrences among the keywords of all the unit's ids. */
  lemma {:induction false} EmitCounts(services: Services, seen: set<string>, ids: seq<string>)
    requires Emit(services, seen, ids).error.None?
    ensures KeywordsOfIds(services, ids).Success?
    ensures Emit(services, seen, ids).counts == Tally(map[], KeywordsOfIds(services, ids).value)
    decreases |ids|
  {
    if |ids| > 0 {
      var init := ids[..|ids| - 1];
      EmitCounts(services, seen, init);
      TallyAppend(map[], KeywordsOfIds(services, init).value, Keywords(services, ids[|ids| - 1]).value);
    }
  }

  // ---------------------------------------------------------------------------
  // Rows written by one unit.

  /** The ids of the keyword rows, in order. */
  function Pids(rows: seq<OutRow>): seq<string>
    decreases |rows|
  {
    if |rows| == 0 then []
    else
      var last := rows[|rows| - 1];
      Pids(rows[..|rows| - 1]) + (if last.KeywordRow? then [last.pubmedId] else [])
  }

  lemma {:induction false} PidsAppend(a: seq<OutRow>, b: seq<OutRow>)
    ensures Pids(a + b) == Pids(a) + Pids(b)
    decreases |b|
  {
    if |b| == 0 {
      assert a + b == a;
    } else {
      assert (a + b)[..|a + b| - 1] == a + b[..|b| - 1];
      PidsAppend(a, b[..|b| - 1]);
    }
  }

  /** The step of the id loop, on the rows: nothing or one row for the id. */
  lemma EmitStep(services: Services, seen: set<string>, ids: seq<string>)
    requires |ids| > 0
    ensures var e := Emit(services, seen, ids[..|ids| - 1]);
      var pid := ids[|ids| - 1];
      Pids(Emit(services, seen, ids).rows) ==
        Pids(e.rows) + (if e.error.None? && Keywords(services, pid).Success? && pid !in seen then [pid] else [])
  {
    var e := Emit(services, seen, ids[..|ids| - 1]);
    var pid := ids[|ids| - 1];
    var kw := Keywords(services, pid);
    var rows := Emit(services, seen, ids).rows;
    if e.error.None? && kw.Success? {
      var row := KeywordRow(pid, Tally(e.counts, kw.value));
      var added := if pid in seen then [] else [row];
      assert rows == e.rows + added;
      PidsAppend(e.rows, added);
      assert [row][..0] == [];
      assert Pids(added) == if pid in seen then [] else [pid];
    } else {
      assert rows == e.rows;
    }
  }

  /** The id loop writes only keyword rows. */
  lemma {:induction false} EmitKeywordRows(services: Services, seen: set<string>, ids: seq<string>)
    ensures forall row :: row in Emit(services, seen, ids).rows ==> row.KeywordRow?
    decreases |ids|
  {
    if |ids| > 0 {
      EmitKeywordRows(services, seen, ids[..|ids| - 1]);
    }
  }

  /** The id loop writes rows only for ids of the unit not seen before. */
  lemma {:induction false} EmitWritesUnseen(services: Services, seen: set<string>, ids: seq<string>)
    ensures forall x :: x in Pids(Emit(services, seen, ids).rows) ==> x in ids && x !in seen
    decreases |ids|
  {
    if |ids| > 0 {
      var init := ids[..|ids| - 1];
      EmitWritesUnseen(services, seen, init);
      EmitStep(services, seen, ids);
      assert forall x :: x in init ==> x in ids;
      assert ids[|ids| - 1] in ids;
    }
  }

  /** When the unit's ids are distinct, each is written at most once. */
  lemma {:induction false} EmitWritesOnce(services: Services, seen: set<string>, ids: seq<string>)
    requires NoDup(ids)
    ensures NoDup(Pids(Emit(services, seen, ids).rows))
    decreases |ids|
  {
    if |ids| > 0 {
      var init, pid := ids[..|ids| - 1], ids[|ids| - 1];
      assert NoDup(init) by {
        forall i, j | 0 <= i < j < |init| ensures init[i] != init[j] {
          assert init[i] == ids[i] && init[j] == ids[j];
        }
      }
      EmitWritesOnce(services, seen, init);
      EmitWritesUnseen(services, seen, init);
      EmitStep(services, seen, ids);
      assert pid !in init by {
        forall j | 0 <= j < |init| ensures init[j] != pid {
          assert init[j] == ids[j];
        }
      }
      NoDupSnoc(Pids(Emit(services, seen, init).rows), pid);
    }
  }

  /** A completed id loop writes a row for every id of the unit not seen
      before. */
  lemma {:induction false} EmitWritesAllUnseen(services: Services, seen: set<string>, ids: seq<string>)
    requires Emit(services, seen, ids).error.None?
    ensures forall x :: x in ids && x !in seen ==> x in Pids(Emit(services, seen, ids).rows)
    decreases |ids|
  {
    if |ids| > 0 {
      var init, pid := ids[..|ids| - 1], ids[|ids| - 1];
      assert Emit(services, seen, init).error.None? && Keywords(services, pid).Success?;
      EmitWritesAllUnseen(services, seen, init);
      EmitStep(services, seen, ids);
      forall x | x in ids && x !in seen ensures x in Pids(Emit(services, seen, ids).rows) {
        if x != pid {
          var j :| 0 <= j < |ids| && ids[j] == x;
          assert init[j] == x;
        }
      }
    }
  }

  /** The row written for the id at some index `j` of the unit, with the
      counts of the keywords of the unit's ids up to and including it. */
  ghost predicate Snapshot(services: Services, ids: seq<string>, row: OutRow) {
    exists j :: 0 <= j < |ids| && KeywordsOfIds(services, ids[..j + 1]).Success? &&
      row == KeywordRow(ids[j], Tally(map[], KeywordsOfIds(services, ids[..j + 1]).value))
  }

  /** Every row the id loop writes carries the counts as they stood right
      after its id was tallied. */
  lemma {:induction false} EmitSnapshot(services: Services, seen: set<string>, ids: seq<string>)
    ensures forall row :: row in Emit(services, seen, ids).rows ==> Snapshot(services, ids, row)
    decreases |ids|
  {
    if |ids| > 0 {
      var n := |ids|;
      var init := ids[..n - 1];
      EmitSnapshot(services, seen, init);
      var e := Emit(services, seen, init);
      forall row | row in Emit(services, seen, ids).rows ensures Snapshot(services, ids, row) {
        if row in e.rows {
          var j :| 0 <= j < n - 1 && KeywordsOfIds(services, init[..j + 1]).Success? &&
            row == KeywordRow(init[j], Tally(map[], KeywordsOfIds(services, init[..j + 1]).value));
          assert init[..j + 1] == ids[..j + 1];
          assert ids[j] == init[j];
        } else {
          assert ids[..n] == ids;
          EmitCounts(services, seen, ids);
          assert row == KeywordRow(ids[n - 1], Emit(services, seen, ids).counts);
        }
      }
    }
  }

  // ---------------------------------------------------------------------------
  // The unit loop.

  /** The ids of all the given units. */
  function IdsOf(units: seq<Unit>): set<string>
    decreases |units|
  {
    if |units| == 0 then {} else IdsOf(units[..|units| - 1]) + Elements(units[|units| - 1].ids)
  }

  /** Whether the run is ready once the given units are done: a fresh run is
      ready from the start, a resumed one after its checkpoint unit. */
  ghost predicate ReadyAfter(cp: Option<seq<string>>, units: seq<Unit>) {
    cp.None? || exists i :: 0 <= i < |units| && IsCheckpoint(cp, units[i])
  }

  /** `x` belongs to unit `j`, no earlier unit holds it, and the run is ready
      when unit `j` comes. */
  ghost predicate FirstAt(cp: Option<seq<string>>, units: seq<Unit>, j: int, x: string) {
    0 <= j < |units| && ReadyAfter(cp, units[..j]) && x in units[j].ids && x !in IdsOf(units[..j])
  }

  lemma {:induction false} IdsOfMember(units: seq<Unit>, j: int, x: string)
    requires 0 <= j < |units| && x in units[j].ids
    ensures x in IdsOf(units)
    decreases |units|
  {
    if j < |units| - 1 {
      var init := units[..|units| - 1];
      assert init[j] == units[j];
      IdsOfMember(init, j, x);
    }
  }

  /** The ids of a prefix are among the ids of a longer prefix. */
  lemma {:induction false} IdsOfPrefix(units: seq<Unit>, a: nat, b: nat)
    requires a <= b <= |units|
    ensures IdsOf(units[..a]) <= IdsOf(units[..b])
    decreases b - a
  {
    if a < b {
      IdsOfPrefix(units, a, b - 1);
      assert units[..b][..b - 1] == units[..b - 1];
    }
  }

  /** Every id of the units has a first unit holding it. */
  lemma {:induction false} IdsOfFirst(units: seq<Unit>, x: string)
    requires x in IdsOf(units)
    ensures exists j :: 0 <= j < |units| && x in units[j].ids && x !in IdsOf(units[..j])
    decreases |units|
  {
    var n := |units|;
    var init := units[..n - 1];
    assert units[..n - 1] == init;
    if x in IdsOf(init) {
      IdsOfFirst(init, x);
      var j :| 0 <= j < n - 1 && x in init[j].ids && x !in IdsOf(init[..j]);
      assert init[..j] == units[..j];
      assert units[j] == init[j];
    } else {
      assert x in Elements(units[n - 1].ids);
    }
  }

  /** Unless an exception ended it, the run has recorded as seen the ids of
      every unit, and is ready exactly when it is fresh or has met its
      checkpoint. */
  lemma {:induction false} RunTracks(services: Services, cp: Option<seq<string>>, units: seq<Unit>)
    requires Run(services, cp, units).error.None?
    ensures Run(services, cp, units).seen == IdsOf(units)
    ensures Run(services, cp, units).ready == ReadyAfter(cp, units)
    decreases |units|
  {
    if |units| > 0 {
      var n := |units|;
      var init := units[..n - 1];
      RunTracks(services, cp, init);
      if IsCheckpoint(cp, units[n - 1]) {
        assert ReadyAfter(cp, units);
      }
      assert forall i :: 0 <= i < n - 1 ==> units[i] == init[i];
      if ReadyAfter(cp, init) && cp.Some? {
        var i :| 0 <= i < n - 1 && IsCheckpoint(cp, init[i]);
        assert units[i] == init[i];
      }
    }
  }

  /** The unit loop writes only keyword rows. */
  lemma {:induction false} RunKeywordRows(services: Services, cp: Option<seq<string>>, units: seq<Unit>)
    ensures forall row :: row in Run(services, cp, units).rows ==> row.KeywordRow?
    decreases |units|
  {
    if |units| > 0 {
      var st := Run(services, cp, units[..|units| - 1]);
      RunKeywordRows(services, cp, units[..|units| - 1]);
      EmitKeywordRows(services, st.seen, units[|units| - 1].ids);
    }
  }

  /** One unit of the loop, on the ids written. */
  lemma RunStep(services: Services, cp: Option<seq<string>>, units: seq<Unit>)
    requires |units| > 0
    ensures var st := Run(services, cp, units[..|units| - 1]);
      var e := Emit(services, st.seen, units[|units| - 1].ids);
      Pids(Run(services, cp, units).rows) ==
        Pids(st.rows) + (if st.error.None? && st.ready then Pids(e.rows) else [])
  {
    var st := Run(services, cp, units[..|units| - 1]);
    var e := Emit(services, st.seen, units[|units| - 1].ids);
    if st.error.None? && st.ready {
      PidsAppend(st.rows, e.rows);
    } else {
      assert Run(services, cp, units).rows == st.rows;
      assert Pids(st.rows) + [] == Pids(st.rows);
    }
  }

  /** Each id written belongs to a unit that came once the run was ready,
      and no earlier unit holds it. */
  lemma {:induction false} RunWritesFirst(services: Services, cp: Option<seq<string>>, units: seq<Unit>)
    ensures forall x :: x in Pids(Run(services, cp, units).rows) ==>
      exists j :: FirstAt(cp, units, j, x)
    decreases |units|
  {
    if |units| > 0 {
      var n := |units|;
      var init := units[..n - 1];
      var st := Run(services, cp, init);
      RunWritesFirst(services, cp, init);
      RunStep(services, cp, units);
      forall x | x in Pids(Run(services, cp, units).rows) ensures exists j :: FirstAt(cp, units, j, x) {
        if x in Pids(st.rows) {
          var j :| FirstAt(cp, init, j, x);
          assert init[..j] == units[..j];
          assert init[j] == units[j];
          assert FirstAt(cp, units, j, x);
        } else {
          RunTracks(services, cp, init);
          EmitWritesUnseen(services, st.seen, units[n - 1].ids);
          assert FirstAt(cp, units, n - 1, x);
        }
      }
    }
  }

  /** A run that no exception ended writes every id whose first unit came
      once the run was ready. */
  lemma {:induction false} RunWritesAll(services: Services, cp: Option<seq<string>>, units: seq<Unit>)
    requires Run(services, cp, units).error.None?
    ensures forall j, x :: FirstAt(cp, units, j, x) ==> x in Pids(Run(services, cp, units).rows)
    decreases |units|
  {
    if |units| > 0 {
      var n := |units|;
      var init := units[..n - 1];
      var st := Run(services, cp, init);
      RunWritesAll(services, cp, init);
      RunStep(services, cp, units);
      forall j, x | FirstAt(cp, units, j, x) ensures x in Pids(Run(services, cp, units).rows) {
        if j < n - 1 {
          assert init[..j] == units[..j];
          assert init[j] == units[j];
          assert FirstAt(cp, init, j, x);
        } else {
          RunTracks(services, cp, init);
          assert units[..j] == init;
          EmitWritesAllUnseen(services, st.seen, units[n - 1].ids);
        }
      }
    }
  }

  /** When every unit lists its ids without repetition, no id is written
      twice. */
  lemma {:induction false} RunWritesOnce(services: Services, cp: Option<seq<string>>, units: seq<Unit>)
    requires forall j :: 0 <= j < |units| ==> NoDup(units[j].ids)
    ensures NoDup(Pids(Run(services, cp, units).rows))
    decreases |units|
  {
    if |units| > 0 {
      var n := |units|;
      var init := units[..n - 1];
      var st := Run(services, cp, init);
      assert forall j :: 0 <= j < n - 1 ==> init[j] == units[j];
      RunWritesOnce(services, cp, init);
      RunStep(services, cp, units);
      if st.error.None? && st.ready {
        var ids := units[n - 1].ids;
        var e := Emit(services, st.seen, ids);
        EmitWritesOnce(services, st.seen, ids);
        EmitWritesUnseen(services, st.seen, ids);
        RunTracks(services, cp, init);
        RunWritesFirst(services, cp, init);
        forall x | x in Pids(st.rows) ensures x !in Pids(e.rows) {
          var j :| FirstAt(cp, init, j, x);
          IdsOfMember(init, j, x);
        }
        NoDupAppend(Pids(st.rows), Pids(e.rows));
      }
    }
  }

  /** A resumed run whose checkpoint matches no unit writes nothing. */
  lemma {:induction false} RunNoCheckpoint(services: Services, cp: Option<seq<string>>, units: seq<Unit>)
    requires cp.Some?
    requires forall i :: 0 <= i < |units| ==> !IsCheckpoint(cp, units[i])
    ensures Run(services, cp, units).rows == []
    ensures Run(services, cp, units).error.None? && !Run(services, cp, units).ready
    decreases |units|
  {
    if |units| > 0 {
      var init := units[..|units| - 1];
      assert forall i :: 0 <= i < |init| ==> init[i] == units[i];
      RunNoCheckpoint(services, cp, init);
    }
  }

  /** A resumed run writes no id of the units up to and including the first
      unit matching its checkpoint. */
  lemma RunSkipsToCheckpoint(services: Services, cp: Option<seq<string>>, units: seq<Unit>, m: nat)
    requires m < |units| && IsCheckpoint(cp, units[m])
    requires forall i :: 0 <= i < m ==> !IsCheckpoint(cp, units[i])
    ensures forall x :: x in Pids(Run(services, cp, units).rows) ==> x !in IdsOf(units[..m + 1])
  {
    RunWritesFirst(services, cp, units);
    forall x | x in Pids(Run(services, cp, units).rows) ensures x !in IdsOf(units[..m + 1]) {
      var j :| FirstAt(cp, units, j, x);
      var i :| 0 <= i < j && IsCheckpoint(cp, units[..j][i]);
      assert units[..j][i] == units[i];
      IdsOfPrefix(units, m + 1, j);
    }
  }

  /** A keyword row lists its id among the ids of the rows. */
  lemma {:induction false} PidsMember(rows: seq<OutRow>, row: OutRow)
    requires row in rows && row.KeywordRow?
    ensures row.pubmedId in Pids(rows)
    decreases |rows|
  {
    var init := rows[..|rows| - 1];
    if row != rows[|rows| - 1] {
      assert row in init;
      PidsMember(init, row);
    }
  }

  /** The row is a keyword row for an id whose first unit `j` came once the
      run was ready, and it carries the counts of unit `j`'s keywords up to
      and including that id. */
  ghost predicate OwnSnapshot(services: Services, cp: Option<seq<string>>, units: seq<Unit>, row: OutRow) {
    row.KeywordRow? &&
    exists j :: FirstAt(cp, units, j, row.pubmedId) && Snapshot(services, units[j].ids, row)
  }

  /** Every row of the unit loop holds the running tally of the unit that
      wrote it (the first unit holding its id), taken right after its id:
      the counts are never those of another unit. */
  lemma {:induction false} RunSnapshot(services: Services, cp: Option<seq<string>>, units: seq<Unit>)
    ensures forall row :: row in Run(services, cp, units).rows ==> OwnSnapshot(services, cp, units, row)
    decreases |units|
  {
    if |units| > 0 {
      var n := |units|;
      var init := units[..n - 1];
      var st := Run(services, cp, init);
      RunSnapshot(services, cp, init);
      forall row | row in Run(services, cp, units).rows ensures OwnSnapshot(services, cp, units, row) {
        if row in st.rows {
          var j :| FirstAt(cp, init, j, row.pubmedId) && Snapshot(services, init[j].ids, row);
          assert init[..j] == units[..j];
          assert init[j] == units[j];
          assert FirstAt(cp, units, j, row.pubmedId);
        } else {
          var e := Emit(services, st.seen, units[n - 1].ids);
          assert st.error.None? && st.ready && row in e.rows;
          EmitSnapshot(services, st.seen, units[n - 1].ids);
          EmitKeywordRows(services, st.seen, units[n - 1].ids);
          PidsMember(e.rows, row);
          EmitWritesUnseen(services, st.seen, units[n - 1].ids);
          RunTracks(services, cp, init);
          assert units[..n - 1] == init;
          assert FirstAt(cp, units, n - 1, row.pubmedId);
        }
      }
    }
  }

  // ---------------------------------------------------------------------------
  // What `main` writes.

  lemma PidsHeader(header: seq<OutRow>, rows: seq<OutRow>)
    requires header == [] || header == [HeaderRow]
    ensures Pids(header + rows) == Pids(rows)
  {
    PidsAppend(header, rows);
    if header != [] {
      assert header[..0] == [];
    }
  }

  /** A fresh run starts with the header and only a fresh run writes one;
      every other row is a keyword row. */
  lemma SummaryHeader(services: Services, lines: seq<Row>, startInfo: Option<string>)
    ensures var r := SummaryOf(services, lines, startInfo);
      && (Checkpoint(startInfo).None? ==> |r.rows| > 0 && r.rows[0] == HeaderRow)
      && (Checkpoint(startInfo).Some? ==> HeaderRow !in r.rows)
      && (forall k :: 0 < k < |r.rows| ==> r.rows[k].KeywordRow?)
  {
    var cp := Checkpoint(startInfo);
    var header := if cp.None? then [HeaderRow] else [];
    match Units(lines)
    case Failure(_) =>
    case Success(units) =>
      var rows := Run(services, cp, units).rows;
      RunKeywordRows(services, cp, units);
      assert forall k :: 0 < k < |header + rows| ==> (header + rows)[k] in rows;
      assert cp.Some? ==> header + rows == rows;
  }

  /** Every keyword row holds the running tally of the unit that wrote it,
      the first unit holding its id, up to and including that id. */
  lemma SummarySnapshots(services: Services, lines: seq<Row>, startInfo: Option<string>)
    requires Units(lines).Success?
    ensures var r := SummaryOf(services, lines, startInfo);
      forall row :: row in r.rows && row.KeywordRow? ==>
        OwnSnapshot(services, Checkpoint(startInfo), Units(lines).value, row)
  {
    var cp := Checkpoint(startInfo);
    var header := if cp.None? then [HeaderRow] else [];
    RunSnapshot(services, cp, Units(lines).value);
    assert forall row :: row in header + Run(services, cp, Units(lines).value).rows && row.KeywordRow? ==>
      row in Run(services, cp, Units(lines).value).rows;
  }

  /** Each id is written at most once. */
  lemma SummaryWritesOnce(services: Services, lines: seq<Row>, startInfo: Option<string>)
    ensures NoDup(Pids(SummaryOf(services, lines, startInfo).rows))
  {
    var cp := Checkpoint(startInfo);
    var header := if cp.None? then [HeaderRow] else [];
    match Units(lines)
    case Failure(_) =>
      PidsHeader(header, []);
      assert header + [] == header;
    case Success(units) =>
      if |lines| > 0 {
        UnitsIds(lines);
        forall j | 0 <= j < |units| ensures NoDup(units[j].ids) {
          StrictlySortedNoDup(units[j].ids);
        }
      }
      RunWritesOnce(services, cp, units);
      PidsHeader(header, Run(services, cp, units).rows);
  }

  /** A fresh run that no exception ends writes exactly the ids of all the
      units. */
  lemma SummaryFresh(services: Services, lines: seq<Row>, startInfo: Option<string>)
    requires Checkpoint(startInfo).None? && Units(lines).Success?
    requires SummaryOf(services, lines, startInfo).error.None?
    ensures forall x :: x in Pids(SummaryOf(services, lines, startInfo).rows) <==> x in IdsOf(Units(lines).value)
  {
    var cp := Checkpoint(startInfo);
    var units := Units(lines).value;
    var st := Run(services, cp, units);
    PidsHeader([HeaderRow], st.rows);
    RunWritesFirst(services, cp, units);
    RunWritesAll(services, cp, units);
    forall x ensures x in Pids(st.rows) <==> x in IdsOf(units) {
      if x in Pids(st.rows) {
        var j :| FirstAt(cp, units, j, x);
        IdsOfMember(units, j, x);
      }
      if x in IdsOf(units) {
        IdsOfFirst(units, x);
        var j :| 0 <= j < |units| && x in units[j].ids && x !in IdsOf(units[..j]);
        assert FirstAt(cp, units, j, x);
      }
    }
  }

  /** A resumed run writes no id of the units up to and including its
      checkpoint unit, and, unless an exception ends it, every id of a later
      unit that no earlier unit holds. */
  lemma SummaryResume(services: Services, lines: seq<Row>, startInfo: Option<string>, m: nat)
    requires Units(lines).Success? && m < |Units(lines).value|
    requires IsCheckpoint(Checkpoint(startInfo), Units(lines).value[m])
    ensures var r := SummaryOf(services, lines, startInfo);
      forall x :: x in Pids(r.rows) ==> x !in IdsOf(Units(lines).value[..m + 1])
    ensures var r, units := SummaryOf(services, lines, startInfo), Units(lines).value;
      r.error.None? ==> forall j, x :: m < j < |units| && x in units[j].ids && x !in IdsOf(units[..j]) ==>
        x in Pids(r.rows)
  {
    var cp := Checkpoint(startInfo);
    var units := Units(lines).value;
    var st := Run(services, cp, units);
    PidsHeader([], st.rows);
    assert [] + st.rows == st.rows;
    UnitsKeysOnce(lines);
    forall i | 0 <= i < m ensures !IsCheckpoint(cp, units[i]) {
      assert KeyOf(units[i]) != KeyOf(units[m]);
    }
    RunSkipsToCheckpoint(services, cp, units, m);
    if st.error.None? {
      RunWritesAll(services, cp, units);
      forall j, x | m < j < |units| && x in units[j].ids && x !in IdsOf(units[..j])
        ensures x in Pids(st.rows)
      {
        assert units[..j][m] == units[m];
        assert FirstAt(cp, units, j, x);
      }
    }
  }

  /** A resumed run whose checkpoint names no unit writes nothing at all. */
  lemma SummaryNoCheckpoint(services: Services, lines: seq<Row>, startInfo: Option<string>)
    requires Checkpoint(startInfo).Some? && Units(lines).Success?
    requires forall i :: 0 <= i < |Units(lines).value| ==> !IsCheckpoint(Checkpoint(startInfo), Units(lines).value[i])
    ensures SummaryOf(services, lines, startInfo) == Summary([], None)
  {
    RunNoCheckpoint(services, Checkpoint(startInfo), Units(lines).value);
  }
}
