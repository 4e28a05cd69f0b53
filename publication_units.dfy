/** `vrn_phenotype_ids` of scripts/publication_summary.py: the rows of
    variation-phenotypes.csv are grouped by (variation, phenotype), the
    `pubmed/` references of each row are gathered per group, and each group
    is yielded once, in first-seen order, with its ids sorted and
    deduplicated.

    The CSV file is an input: the sequence of rows the reader yields, header
    first. */
module PublicationUnits {
  import opened Wrappers
  import opened Collections
  import opened Text

  type Row = seq<string>

  /** `(vrn, phenotype)` */
  type UnitKey = (string, string)

  /** One yielded triple `vrn, phenotype, ids`. */
  datatype Unit = Unit(vrn: string, phenotype: string, ids: seq<string>)

  /** Unpacking `p[:3]` into three names raises `ValueError` on a row with
      fewer than three fields. */
  datatype UnitsError = TooFewFields(row: Row)

  const PubmedPrefix := "pubmed/"

  // ---------------------------------------------------------------------------
  // The token filter: `[i.split("pubmed/")[-1] for i in tokens if i.startswith("pubmed/")]`

  /** The id kept for one token, if any. */
  function KeptId(token: string): (r: Option<string>)
    ensures r.Some? <==> StartsWith(token, PubmedPrefix)
    ensures r.Some? ==> Find(r.value, PubmedPrefix) == -1
  {
    if StartsWith(token, PubmedPrefix) then
      SplitLastNoOccurrence(token, PubmedPrefix);
      Some(SplitLast(token, PubmedPrefix))
    else None
  }

  function KeptIds(tokens: seq<string>): (r: seq<string>)
    ensures |r| <= |tokens|
    ensures forall i :: 0 <= i < |r| ==> Find(r[i], PubmedPrefix) == -1
    decreases |tokens|
  {
    if |tokens| == 0 then []
    else
      var k := KeptId(tokens[|tokens| - 1]);
      KeptIds(tokens[..|tokens| - 1]) + (if k.Some? then [k.value] else [])
  }

  /** An id is kept exactly when some token starts with `pubmed/` and the id is
      the text after that token's last `pubmed/`. */
  lemma {:induction false} KeptIdsMember(tokens: seq<string>, x: string)
    ensures x in KeptIds(tokens) <==>
      exists i :: 0 <= i < |tokens| && StartsWith(tokens[i], PubmedPrefix) && x == SplitLast(tokens[i], PubmedPrefix)
    decreases |tokens|
  {
    if |tokens| > 0 {
      var init := tokens[..|tokens| - 1];
      KeptIdsMember(init, x);
      assert forall i :: 0 <= i < |init| ==> init[i] == tokens[i];
    }
  }

  /** The ids of one row's third field, split on `;`. */
  function PubmedIds(field: string): seq<string> {
    KeptIds(Split(field, ';'))
  }

  // ---------------------------------------------------------------------------
  // The reference definition of what the generator yields.

  predicate WellFormed(rows: seq<Row>) {
    forall i :: 0 <= i < |rows| ==> |rows[i]| >= 3
  }

  /** The first row with fewer than three fields. */
  function FirstShort(rows: seq<Row>): (r: Option<Row>)
    ensures r.None? <==> WellFormed(rows)
    ensures r.Some? ==> |r.value| < 3
    decreases |rows|
  {
    if |rows| == 0 then None
    else if |rows[0]| < 3 then Some(rows[0])
    else
      assert forall i :: 1 <= i < |rows| ==> rows[i] == rows[1..][i - 1];
      FirstShort(rows[1..])
  }

  function RowKey(row: Row): UnitKey
    requires |row| >= 3
  {
    (row[0], row[1])
  }

  /** The keys of the rows in reading order, repeats included. */
  function RowKeys(rows: seq<Row>): (r: seq<UnitKey>)
    requires WellFormed(rows)
    ensures |r| == |rows|
    ensures forall i :: 0 <= i < |rows| ==> r[i] == RowKey(rows[i])
    decreases |rows|
  {
    if |rows| == 0 then [] else RowKeys(rows[..|rows| - 1]) + [RowKey(rows[|rows| - 1])]
  }

  /** Every id of every row with key `k`, in reading order. */
  function Gathered(rows: seq<Row>, k: UnitKey): seq<string>
    requires WellFormed(rows)
    decreases |rows|
  {
    if |rows| == 0 then []
    else
      var last := rows[|rows| - 1];
      Gathered(rows[..|rows| - 1], k) + (if RowKey(last) == k then PubmedIds(last[2]) else [])
  }

  /** A strictly ascending sequence: sorted, and so without duplicates. */
  predicate StrictlySorted(s: seq<string>) {
    forall i, j :: 0 <= i < j < |s| ==> Less(s[i], s[j])
  }

  /** Inserts `x` into a strictly ascending sequence unless it is there. */
  function Insert(s: seq<string>, x: string): (r: seq<string>)
    requires StrictlySorted(s)
    ensures StrictlySorted(r)
    ensures forall y :: y in r <==> y in s || y == x
    decreases |s|
  {
    if |s| == 0 then [x]
    else if x == s[0] then s
    else if Less(x, s[0]) then
      assert forall j :: 0 <= j < |s| ==> Less(x, s[j]) by {
        forall j | 0 <= j < |s| ensures Less(x, s[j]) {
          if j > 0 {
            LessTransitive(x, s[0], s[j]);
          }
        }
      }
      [x] + s
    else
      LessTotal(x, s[0]);
      var rest := Insert(s[1..], x);
      assert forall j :: 0 <= j < |rest| ==> Less(s[0], rest[j]) by {
        forall j | 0 <= j < |rest| ensures Less(s[0], rest[j]) {
          if rest[j] != x {
            assert rest[j] in rest;
            assert rest[j] in s[1..];
            var k :| 0 <= k < |s[1..]| && s[1..][k] == rest[j];
            assert s[k + 1] == rest[j];
          }
        }
      }
      [s[0]] + rest
  }

  /** `sorted(list(set(xs)))`: strictly ascending, with the elements of `xs`. */
  function SortedSet(xs: seq<string>): (r: seq<string>)
    ensures StrictlySorted(r)
    ensures forall y :: y in r <==> y in xs
    decreases |xs|
  {
    if |xs| == 0 then []
    else Insert(SortedSet(xs[..|xs| - 1]), xs[|xs| - 1])
  }

  /** The unit yielded for key `k`. */
  function UnitOf(rows: seq<Row>, k: UnitKey): Unit
    requires WellFormed(rows)
  {
    Unit(k.0, k.1, SortedSet(Gathered(rows, k)))
  }

  /** The units for the given keys, in their order. */
  function UnitsOf(rows: seq<Row>, keys: seq<UnitKey>): (r: seq<Unit>)
    requires WellFormed(rows)
    ensures |r| == |keys|
    ensures forall i :: 0 <= i < |keys| ==> r[i] == UnitOf(rows, keys[i])
    decreases |keys|
  {
    if |keys| == 0 then [] else UnitsOf(rows, keys[..|keys| - 1]) + [UnitOf(rows, keys[|keys| - 1])]
  }

  /** What the generator yields: nothing for a file without a header (the
      `StopIteration` of `reader.next()` ends the generator), the
      `ValueError` of the first short row, and otherwise one unit per
      distinct key in first-seen order. */
  function Units(lines: seq<Row>): Result<seq<Unit>, UnitsError> {
    if |lines| == 0 then Success([])
    else
      var rows := lines[1..];
      match FirstShort(rows)
      case Some(row) => Failure(TooFewFields(row))
      case None =>
        Success(UnitsOf(rows, Distinct(RowKeys(rows))))
  }

  // ---------------------------------------------------------------------------
  // The loop of the source, updating the `ids` dict and the `order` list.

  method VrnPhenotypeIds(lines: seq<Row>) returns (r: Result<seq<Unit>, UnitsError>)
    ensures r == Units(lines)
  {
    if |lines| == 0 {
      return Success([]);
    }
    var rows := lines[1..];
    var order: seq<UnitKey> := [];
    var ids: map<UnitKey, seq<string>> := map[];
    for i := 0 to |rows|
      invariant WellFormed(rows[..i])
      invariant Gathering(rows[..i], ids, order)
    {
      var p := rows[i];
      if |p| < 3 {
        FirstShortAt(rows, i);
        return Failure(TooFewFields(p));
      }
      ids, order := GatherRow(rows, i, ids, order);
    }
    assert rows[..|rows|] == rows;
    var out := YieldUnits(rows, ids, order);
    return Success(out);
  }

  /** The body of the row loop: the row's ids are appended to those stored
      under its key, or stored under a new key that goes to the end of
      `order`. */
  method GatherRow(rows: seq<Row>, i: nat, ids: map<UnitKey, seq<string>>, order: seq<UnitKey>)
    returns (ids': map<UnitKey, seq<string>>, order': seq<UnitKey>)
    requires i < |rows| && WellFormed(rows[..i]) && |rows[i]| >= 3
    requires Gathering(rows[..i], ids, order)
    ensures WellFormed(rows[..i + 1]) && Gathering(rows[..i + 1], ids', order')
  {
    var p := rows[i];
    var key := (p[0], p[1]);
    var pubmedIds := PubmedIds(p[2]);
    if key in ids {
      GatherSeenKey(rows, i, ids, order);
      ids', order' := ids[key := ids[key] + pubmedIds], order;
    } else {
      GatherNewKey(rows, i, ids, order);
      ids', order' := ids[key := pubmedIds], order + [key];
    }
  }

  /** The final loop: `for key in order: yield key[0], key[1], sorted(list(set(ids[key])))`. */
  method YieldUnits(rows: seq<Row>, ids: map<UnitKey, seq<string>>, order: seq<UnitKey>) returns (out: seq<Unit>)
    requires WellFormed(rows) && Gathering(rows, ids, order)
    ensures out == UnitsOf(rows, order)
  {
    out := [];
    for j := 0 to |order|
      invariant out == UnitsOf(rows, order[..j])
    {
      YieldStep(rows, ids, order, j);
      out := out + [Unit(order[j].0, order[j].1, SortedSet(ids[order[j]]))];
    }
    assert order[..|order|] == order;
  }

  /** One more key of `order`: its unit is built from the ids stored under it. */
  lemma YieldStep(rows: seq<Row>, ids: map<UnitKey, seq<string>>, order: seq<UnitKey>, j: nat)
    requires WellFormed(rows) && Gathering(rows, ids, order) && j < |order|
    ensures order[j] in ids
    ensures UnitsOf(rows, order[..j + 1]) ==
      UnitsOf(rows, order[..j]) + [Unit(order[j].0, order[j].1, SortedSet(ids[order[j]]))]
  {
    var key := order[j];
    assert key in order;
    assert order[..j + 1][..j] == order[..j];
  }

  /** The dict and the list after one more row, as the loop updates them. */
  ghost predicate Gathering(rows: seq<Row>, ids: map<UnitKey, seq<string>>, order: seq<UnitKey>)
    requires WellFormed(rows)
  {
    && order == Distinct(RowKeys(rows))
    && (forall k :: k in ids <==> k in order)
    && (forall k :: k in ids ==> ids[k] == Gathered(rows, k))
  }

  /** A row whose key was seen before extends the ids gathered under it. */
  lemma GatherSeenKey(rows: seq<Row>, i: nat, ids: map<UnitKey, seq<string>>, order: seq<UnitKey>)
    requires i < |rows| && WellFormed(rows[..i]) && |rows[i]| >= 3
    requires Gathering(rows[..i], ids, order) && RowKey(rows[i]) in ids
    ensures WellFormed(rows[..i + 1])
    ensures Gathering(rows[..i + 1], ids[RowKey(rows[i]) := ids[RowKey(rows[i])] + PubmedIds(rows[i][2])], order)
  {
    var key, t := RowKey(rows[i]), rows[..i + 1];
    var ids' := ids[key := ids[key] + PubmedIds(rows[i][2])];
    RowKeysStep(rows, i);
    DistinctMember(RowKeys(rows[..i]), key);
    DistinctSnoc(RowKeys(rows[..i]), key);
    forall k | k in ids' ensures ids'[k] == Gathered(t, k) {
      SeenKeyEntry(rows, i, ids, order, k);
    }
  }

  lemma SeenKeyEntry(rows: seq<Row>, i: nat, ids: map<UnitKey, seq<string>>, order: seq<UnitKey>, k: UnitKey)
    requires i < |rows| && WellFormed(rows[..i]) && |rows[i]| >= 3
    requires Gathering(rows[..i], ids, order) && RowKey(rows[i]) in ids && k in ids
    ensures WellFormed(rows[..i + 1])
    ensures ids[RowKey(rows[i]) := ids[RowKey(rows[i])] + PubmedIds(rows[i][2])][k] == Gathered(rows[..i + 1], k)
  {
    GatheredStep(rows, i, k);
  }

  /** A row with a new key starts a new entry and appends the key to the order. */
  lemma GatherNewKey(rows: seq<Row>, i: nat, ids: map<UnitKey, seq<string>>, order: seq<UnitKey>)
    requires i < |rows| && WellFormed(rows[..i]) && |rows[i]| >= 3
    requires Gathering(rows[..i], ids, order) && RowKey(rows[i]) !in ids
    ensures WellFormed(rows[..i + 1])
    ensures Gathering(rows[..i + 1], ids[RowKey(rows[i]) := PubmedIds(rows[i][2])], order + [RowKey(rows[i])])
  {
    var key, t := RowKey(rows[i]), rows[..i + 1];
    var ids' := ids[key := PubmedIds(rows[i][2])];
    RowKeysStep(rows, i);
    DistinctMember(RowKeys(rows[..i]), key);
    DistinctSnoc(RowKeys(rows[..i]), key);
    forall k | k in ids' ensures ids'[k] == Gathered(t, k) {
      NewKeyEntry(rows, i, ids, order, k);
    }
    forall k ensures k in ids' <==> k in order + [key] {
      assert k in order + [key] <==> k in order || k == key;
    }
  }

  lemma NewKeyEntry(rows: seq<Row>, i: nat, ids: map<UnitKey, seq<string>>, order: seq<UnitKey>, k: UnitKey)
    requires i < |rows| && WellFormed(rows[..i]) && |rows[i]| >= 3
    requires Gathering(rows[..i], ids, order) && RowKey(rows[i]) !in ids
    requires k in ids || k == RowKey(rows[i])
    ensures WellFormed(rows[..i + 1])
    ensures ids[RowKey(rows[i]) := PubmedIds(rows[i][2])][k] == Gathered(rows[..i + 1], k)
  {
    GatheredStep(rows, i, k);
    if k == RowKey(rows[i]) {
      RowKeysStep(rows, i);
      DistinctMember(RowKeys(rows[..i]), k);
      GatheredAbsent(rows[..i], k);
    }
  }

  lemma FirstShortAt(rows: seq<Row>, i: nat)
    requires i < |rows| && WellFormed(rows[..i]) && |rows[i]| < 3
    ensures FirstShort(rows) == Some(rows[i])
    decreases i
  {
    if i > 0 {
      var t := rows[1..][..i - 1];
      assert WellFormed(t) by {
        forall m | 0 <= m < |t| ensures |t[m]| >= 3 {
          assert t[m] == rows[..i][m + 1];
        }
      }
      assert |rows[0]| >= 3 by {
        assert rows[0] == rows[..i][0];
      }
      FirstShortAt(rows[1..], i - 1);
    }
  }

  /** One more row: its key is appended to the keys. */
  lemma RowKeysStep(rows: seq<Row>, i: nat)
    requires i < |rows| && WellFormed(rows[..i]) && |rows[i]| >= 3
    ensures WellFormed(rows[..i + 1])
    ensures RowKeys(rows[..i + 1]) == RowKeys(rows[..i]) + [RowKey(rows[i])]
  {
    var t := rows[..i + 1];
    assert t[..i] == rows[..i];
    assert WellFormed(t) by {
      forall m | 0 <= m < |t| ensures |t[m]| >= 3 {
        if m < i {
          assert t[m] == rows[..i][m];
        }
      }
    }
  }

  /** One more row: its ids are appended to those gathered under its key. */
  lemma GatheredStep(rows: seq<Row>, i: nat, k: UnitKey)
    requires i < |rows| && WellFormed(rows[..i]) && |rows[i]| >= 3
    ensures WellFormed(rows[..i + 1])
    ensures RowKey(rows[i]) == k ==> Gathered(rows[..i + 1], k) == Gathered(rows[..i], k) + PubmedIds(rows[i][2])
    ensures RowKey(rows[i]) != k ==> Gathered(rows[..i + 1], k) == Gathered(rows[..i], k)
  {
    RowKeysStep(rows, i);
    assert rows[..i + 1][..i] == rows[..i];
    assert Gathered(rows[..i], k) + [] == Gathered(rows[..i], k);
  }

  lemma {:induction false} GatheredAbsent(rows: seq<Row>, k: UnitKey)
    requires WellFormed(rows) && k !in RowKeys(rows)
    ensures Gathered(rows, k) == []
    decreases |rows|
  {
    if |rows| > 0 {
      var init := rows[..|rows| - 1];
      assert RowKeys(rows) == RowKeys(init) + [RowKey(rows[|rows| - 1])];
      GatheredAbsent(init, k);
    }
  }

  // ---------------------------------------------------------------------------
  // What the generator promises.

  function KeyOf(u: Unit): UnitKey {
    (u.vrn, u.phenotype)
  }

  lemma {:induction false} GatheredMember(rows: seq<Row>, k: UnitKey, x: string)
    requires WellFormed(rows)
    ensures x in Gathered(rows, k) <==>
      exists j :: 0 <= j < |rows| && RowKey(rows[j]) == k && x in PubmedIds(rows[j][2])
    decreases |rows|
  {
    if |rows| > 0 {
      var n := |rows|;
      var init := rows[..n - 1];
      assert WellFormed(init) by {
        forall j | 0 <= j < |init| ensures |init[j]| >= 3 {
          assert init[j] == rows[j];
        }
      }
      GatheredMember(init, k, x);
      if x in Gathered(rows, k) && x in Gathered(init, k) {
        var j :| 0 <= j < |init| && RowKey(init[j]) == k && x in PubmedIds(init[j][2]);
        assert init[j] == rows[j];
      }
      if exists j :: 0 <= j < n && RowKey(rows[j]) == k && x in PubmedIds(rows[j][2]) {
        var j :| 0 <= j < n && RowKey(rows[j]) == k && x in PubmedIds(rows[j][2]);
        if j < n - 1 {
          assert init[j] == rows[j];
        }
      }
    }
  }

  /** A file without a header yields nothing; otherwise the generator raises
      exactly when some data row has fewer than three fields. */
  lemma UnitsOutcome(lines: seq<Row>)
    ensures |lines| == 0 ==> Units(lines) == Success([])
    ensures |lines| > 0 ==> (Units(lines).Failure? <==> !WellFormed(lines[1..]))
  {
  }

  /** No key is yielded twice, even when the rows with one key are not
      adjacent, and every yielded key is the key of some row. */
  lemma UnitsKeysOnce(lines: seq<Row>)
    requires |lines| > 0 && Units(lines).Success?
    ensures var rows, us := lines[1..], Units(lines).value;
      && WellFormed(rows)
      && (forall i, j :: 0 <= i < j < |us| ==> KeyOf(us[i]) != KeyOf(us[j]))
      && (forall i :: 0 <= i < |us| ==> KeyOf(us[i]) in RowKeys(rows))
  {
    var rows := lines[1..];
    var keys := Distinct(RowKeys(rows));
    DistinctLaws(RowKeys(rows));
    assert forall i :: 0 <= i < |keys| ==> KeyOf(Units(lines).value[i]) == keys[i];
  }

  /** Every key of the rows is yielded. */
  lemma UnitsCoverRows(lines: seq<Row>)
    requires |lines| > 0 && Units(lines).Success?
    ensures var rows, us := lines[1..], Units(lines).value;
      && WellFormed(rows)
      && (forall j :: 0 <= j < |rows| ==> exists i :: 0 <= i < |us| && KeyOf(us[i]) == RowKey(rows[j]))
  {
    var rows := lines[1..];
    var keys := Distinct(RowKeys(rows));
    var us := Units(lines).value;
    assert forall i :: 0 <= i < |keys| ==> KeyOf(us[i]) == keys[i];
    forall j | 0 <= j < |rows| ensures exists i :: 0 <= i < |us| && KeyOf(us[i]) == RowKey(rows[j]) {
      var k := RowKeys(rows)[j];
      DistinctMember(RowKeys(rows), k);
      var i :| 0 <= i < |keys| && keys[i] == k;
      assert KeyOf(us[i]) == RowKey(rows[j]);
    }
  }

  /** The units come in the order in which their keys are first met. */
  lemma UnitsFirstSeenOrder(lines: seq<Row>)
    requires |lines| > 0 && Units(lines).Success?
    ensures var rows, us := lines[1..], Units(lines).value;
      && WellFormed(rows)
      && (forall i :: 0 <= i < |us| ==> KeyOf(us[i]) in RowKeys(rows))
      && (forall i, j :: 0 <= i < j < |us| ==>
            IndexOf(RowKeys(rows), KeyOf(us[i])) < IndexOf(RowKeys(rows), KeyOf(us[j])))
  {
    var rows := lines[1..];
    var keys := Distinct(RowKeys(rows));
    var us := Units(lines).value;
    assert forall i :: 0 <= i < |us| ==> KeyOf(us[i]) == keys[i];
    DistinctLaws(RowKeys(rows));
    DistinctOrder(RowKeys(rows));
  }

  /** The ids of each unit are strictly ascending (so sorted and without
      repeats) and are exactly the `pubmed/` ids of all rows with its key. */
  lemma UnitsIds(lines: seq<Row>)
    requires |lines| > 0 && Units(lines).Success?
    ensures var rows, us := lines[1..], Units(lines).value;
      && WellFormed(rows)
      && (forall i :: 0 <= i < |us| ==> StrictlySorted(us[i].ids))
      && (forall i, x :: 0 <= i < |us| ==>
            (x in us[i].ids <==>
             exists j :: 0 <= j < |rows| && RowKey(rows[j]) == KeyOf(us[i]) && x in PubmedIds(rows[j][2])))
  {
    var rows := lines[1..];
    var us := Units(lines).value;
    var keys := Distinct(RowKeys(rows));
    forall i, x | 0 <= i < |us| ensures x in us[i].ids <==>
      exists j :: 0 <= j < |rows| && RowKey(rows[j]) == KeyOf(us[i]) && x in PubmedIds(rows[j][2])
    {
      assert us[i] == UnitOf(rows, keys[i]);
      GatheredMember(rows, keys[i], x);
    }
  }

  /** A strictly ascending sequence has no repeats. */
  lemma StrictlySortedNoDup(s: seq<string>)
    requires StrictlySorted(s)
    ensures NoDup(s)
  {
    forall i, j | 0 <= i < j < |s| ensures s[i] != s[j] {
      if s[i] == s[j] {
        LessIrreflexive(s[i]);
      }
    }
  }
}
