/** The merge engine of scripts/merge_phenotype_data.py: rows from many
    phenotype directories, each holding the files a glob matched, are folded
    into a table keyed by a pluggable uniqueness key, kept in first-seen key
    order, and written out after one header line.

    The file system is an input: a directory is a `Group` (its name and the
    matching files in match order) and a file is the sequence of rows the CSV
    reader yields, header first. */
module MergePhenotypeData {
  import opened Wrappers
  import opened Collections

  type Row = seq<string>

  /** One CSV file as the reader yields it; the first row is the header. */
  datatype DataFile = DataFile(lines: seq<Row>)

  /** One phenotype directory: its name and the files its glob matched. */
  datatype Group = Group(name: string, files: seq<DataFile>)

  /** The three key functions of the source. */
  datatype KeyPolicy = GeneKey | TxKey | PhenotypeKey

  /** The values the key functions return: a column value, a pair of column
      values, or the whole row as a tuple. */
  datatype Key = Gene(gene: string) | Transcript(gene: string, transcript: string) | WholeRow(parts: Row)

  /** What `unique_fn(parts)` followed by the truth test `if unique_bit:` gives:
      a key, a dropped row (the key is `None` or an empty tuple), or the
      `IndexError` raised by indexing past the end of the row. */
  datatype KeyOutcome = Keyed(key: Key) | Dropped | IndexError

  /** The one merge function of the source, `_phenotype_merge`. */
  datatype MergeFn = AssertEqual

  datatype MergeError =
    | NoMatchingFiles(group: string)      // `assert len(in_files) > 0`
    | EmptyFile                           // `reader.next()` on a file without a header
    | MissingColumn(row: Row)             // a key function indexed past the row's end
    | MergeConflict(stored: Row, incoming: Row)  // the assertion in `_phenotype_merge`
    | NoHeader                            // no directory at all: `header` is never bound

  /** `_gene_unique`: column 0 when it is non-empty. */
  function GeneUnique(parts: Row): (r: KeyOutcome)
    ensures r.IndexError? <==> |parts| == 0
    ensures r.Keyed? <==> |parts| > 0 && parts[0] != ""
    ensures r.Keyed? ==> r.key == Gene(parts[0])
  {
    if |parts| == 0 then IndexError
    else if parts[0] != "" then Keyed(Gene(parts[0]))
    else Dropped
  }

  /** `_tx_unique`: columns 0 and 2 when both are non-empty; column 2 is only
      looked at when column 0 is non-empty. */
  function TxUnique(parts: Row): (r: KeyOutcome)
    ensures r.IndexError? <==> |parts| == 0 || (parts[0] != "" && |parts| < 3)
    ensures r.Keyed? <==> |parts| >= 3 && parts[0] != "" && parts[2] != ""
    ensures r.Keyed? ==> r.key == Transcript(parts[0], parts[2])
  {
    if |parts| == 0 then IndexError
    else if parts[0] == "" then Dropped
    else if |parts| < 3 then IndexError
    else if parts[2] != "" then Keyed(Transcript(parts[0], parts[2]))
    else Dropped
  }

  /** `_phenotype_unique`: the whole row; an empty tuple is falsy. */
  function PhenotypeUnique(parts: Row): (r: KeyOutcome)
    ensures !r.IndexError?
    ensures r.Keyed? <==> |parts| > 0
    ensures r.Keyed? ==> r.key == WholeRow(parts)
  {
    if |parts| == 0 then Dropped else Keyed(WholeRow(parts))
  }

  function UniqueKey(policy: KeyPolicy, parts: Row): KeyOutcome {
    match policy
    case GeneKey => GeneUnique(parts)
    case TxKey => TxUnique(parts)
    case PhenotypeKey => PhenotypeUnique(parts)
  }

  /** `_phenotype_merge`: the two rows must be equal; the stored one is returned. */
  function ApplyMerge(m: MergeFn, stored: Row, incoming: Row): (r: Result<Row, MergeError>)
    ensures r.Success? <==> stored == incoming
    ensures r.Success? ==> r.value == stored
  {
    match m
    case AssertEqual => if stored == incoming then Success(stored) else Failure(MergeConflict(stored, incoming))
  }

  /** The `info` dictionary and the `seen_order` list. */
  datatype Table = Table(info: map<Key, Row>, order: seq<Key>)

  function EmptyTable(): Table {
    Table(map[], [])
  }

  /** The table invariant: `order` lists every stored key exactly once, and
      each stored row has the key it is stored under. */
  ghost predicate Consistent(policy: KeyPolicy, t: Table) {
    && NoDup(t.order)
    && (forall k :: k in t.info <==> k in t.order)
    && (forall k :: k in t.info ==> UniqueKey(policy, t.info[k]) == Keyed(k))
  }

  /** One pass of the innermost loop body. The merge function's result is
      computed and thrown away: only its failure has an effect. */
  function AddRow(policy: KeyPolicy, merge: Option<MergeFn>, t: Table, parts: Row): (r: Result<Table, MergeError>)
  {
    match UniqueKey(policy, parts)
    case IndexError => Failure(MissingColumn(parts))
    case Dropped => Success(t)
    case Keyed(k) =>
      if k in t.info then
        if merge.Some? && ApplyMerge(merge.value, t.info[k], parts).Failure? then
          Failure(ApplyMerge(merge.value, t.info[k], parts).error)
        else Success(t)
      else Success(Table(t.info[k := parts], t.order + [k]))
  }

  /** The rows of one file, row by row. */
  function AddRows(policy: KeyPolicy, merge: Option<MergeFn>, t: Table, rows: seq<Row>): (r: Result<Table, MergeError>)
    decreases |rows|
  {
    if |rows| == 0 then Success(t)
    else
      var t' :- AddRows(policy, merge, t, rows[..|rows| - 1]);
      AddRow(policy, merge, t', rows[|rows| - 1])
  }

  /** The state the file loop carries: the last header read and the table. */
  datatype Progress = Progress(header: Option<Row>, table: Table)

  function Start(): Progress {
    Progress(None, EmptyTable())
  }

  function ReadFile(policy: KeyPolicy, merge: Option<MergeFn>, p: Progress, f: DataFile): (r: Result<Progress, MergeError>)
  {
    if |f.lines| == 0 then Failure(EmptyFile)
    else
      var t :- AddRows(policy, merge, p.table, f.lines[1..]);
      Success(Progress(Some(f.lines[0]), t))
  }

  function ReadFiles(policy: KeyPolicy, merge: Option<MergeFn>, p: Progress, files: seq<DataFile>): (r: Result<Progress, MergeError>)
    decreases |files|
  {
    if |files| == 0 then Success(p)
    else
      var p' :- ReadFiles(policy, merge, p, files[..|files| - 1]);
      ReadFile(policy, merge, p', files[|files| - 1])
  }

  function ReadGroup(policy: KeyPolicy, merge: Option<MergeFn>, p: Progress, g: Group): (r: Result<Progress, MergeError>)
  {
    if |g.files| == 0 then Failure(NoMatchingFiles(g.name))
    else ReadFiles(policy, merge, p, g.files)
  }

  function ReadGroups(policy: KeyPolicy, merge: Option<MergeFn>, p: Progress, groups: seq<Group>): (r: Result<Progress, MergeError>)
    decreases |groups|
  {
    if |groups| == 0 then Success(p)
    else
      var p' :- ReadGroups(policy, merge, p, groups[..|groups| - 1]);
      ReadGroup(policy, merge, p', groups[|groups| - 1])
  }

  // ---------------------------------------------------------------------------
  // The table invariant holds throughout.

  lemma AddRowConsistent(policy: KeyPolicy, merge: Option<MergeFn>, t: Table, parts: Row)
    requires Consistent(policy, t)
    ensures AddRow(policy, merge, t, parts).Success? ==> Consistent(policy, AddRow(policy, merge, t, parts).value)
  {
  }

  lemma {:induction false} AddRowsConsistent(policy: KeyPolicy, merge: Option<MergeFn>, t: Table, rows: seq<Row>)
    requires Consistent(policy, t)
    ensures AddRows(policy, merge, t, rows).Success? ==> Consistent(policy, AddRows(policy, merge, t, rows).value)
    decreases |rows|
  {
    if |rows| > 0 {
      var init := rows[..|rows| - 1];
      AddRowsConsistent(policy, merge, t, init);
      var prev := AddRows(policy, merge, t, init);
      if prev.Success? {
        AddRowConsistent(policy, merge, prev.value, rows[|rows| - 1]);
      }
    }
  }

  lemma {:induction false} ReadFilesConsistent(policy: KeyPolicy, merge: Option<MergeFn>, p: Progress, files: seq<DataFile>)
    requires Consistent(policy, p.table)
    ensures ReadFiles(policy, merge, p, files).Success? ==> Consistent(policy, ReadFiles(policy, merge, p, files).value.table)
    decreases |files|
  {
    if |files| > 0 {
      var init, f := files[..|files| - 1], files[|files| - 1];
      ReadFilesConsistent(policy, merge, p, init);
      var prev := ReadFiles(policy, merge, p, init);
      if prev.Success? && |f.lines| > 0 {
        AddRowsConsistent(policy, merge, prev.value.table, f.lines[1..]);
      }
    }
  }

  lemma {:induction false} ReadGroupsConsistent(policy: KeyPolicy, merge: Option<MergeFn>, p: Progress, groups: seq<Group>)
    requires Consistent(policy, p.table)
    ensures ReadGroups(policy, merge, p, groups).Success? ==> Consistent(policy, ReadGroups(policy, merge, p, groups).value.table)
    decreases |groups|
  {
    if |groups| > 0 {
      var init, g := groups[..|groups| - 1], groups[|groups| - 1];
      ReadGroupsConsistent(policy, merge, p, init);
      var prev := ReadGroups(policy, merge, p, init);
      if prev.Success? {
        ReadFilesConsistent(policy, merge, prev.value, g.files);
      }
    }
  }

  /** The stored rows in first-seen key order: `[info[k] for k in seen_order]`. */
  function StoredRows(t: Table): seq<Row>
    requires forall k :: k in t.order ==> k in t.info
  {
    seq(|t.order|, i requires 0 <= i < |t.order| => t.info[t.order[i]])
  }

  /** What `_get_unique_values` returns: the header and the rows. */
  datatype Merged = Merged(header: Row, rows: seq<Row>)

  /** The reference result of `_get_unique_values`. */
  function UniqueValues(policy: KeyPolicy, merge: Option<MergeFn>, groups: seq<Group>): Result<Merged, MergeError> {
    assert Consistent(policy, EmptyTable());
    ReadGroupsConsistent(policy, merge, Start(), groups);
    var p :- ReadGroups(policy, merge, Start(), groups);
    if p.header.None? then Failure(NoHeader)
    else Success(Merged(p.header.value, StoredRows(p.table)))
  }

  // ---------------------------------------------------------------------------
  // The loops as methods: nested loops over directories, files and rows that
  // update the `info` map and the `seen_order` list in place.

  method GetUniqueValues(policy: KeyPolicy, merge: Option<MergeFn>, groups: seq<Group>)
    returns (r: Result<Merged, MergeError>)
    ensures r == UniqueValues(policy, merge, groups)
  {
    var seenOrder: seq<Key> := [];
    var info: map<Key, Row> := map[];
    var header: Option<Row> := None;
    for g := 0 to |groups|
      invariant ReadGroups(policy, merge, Start(), groups[..g]) == Success(Progress(header, Table(info, seenOrder)))
    {
      ReadGroupsSnoc(policy, merge, Start(), groups, g);
      var read := ReadGroupFiles(policy, merge, header, info, seenOrder, groups[g]);
      if read.Failure? {
        ReadGroupsStop(policy, merge, Start(), groups, g + 1);
        return Failure(read.error);
      }
      header, info, seenOrder := read.value.header, read.value.table.info, read.value.table.order;
    }
    assert groups[..|groups|] == groups;
    assert Consistent(policy, EmptyTable());
    ReadGroupsConsistent(policy, merge, Start(), groups);
    if header.None? {
      return Failure(NoHeader);
    }
    var rows := seq(|seenOrder|, j requires 0 <= j < |seenOrder| => info[seenOrder[j]]);
    assert rows == StoredRows(Table(info, seenOrder));
    return Success(Merged(header.value, rows));
  }

  /** The body of the directory loop: the assertion that the glob matched,
      then the file loop, each file's header overwriting `header`. */
  method ReadGroupFiles(policy: KeyPolicy, merge: Option<MergeFn>, header0: Option<Row>, info0: map<Key, Row>, order0: seq<Key>, g: Group)
    returns (r: Result<Progress, MergeError>)
    ensures r == ReadGroup(policy, merge, Progress(header0, Table(info0, order0)), g)
  {
    var files := g.files;
    if |files| == 0 {
      return Failure(NoMatchingFiles(g.name));
    }
    var header, info, seenOrder := header0, info0, order0;
    ghost var before := Progress(header0, Table(info0, order0));
    for f := 0 to |files|
      invariant ReadFiles(policy, merge, before, files[..f]) == Success(Progress(header, Table(info, seenOrder)))
    {
      ReadFilesSnoc(policy, merge, before, files, f);
      var lines := files[f].lines;
      if |lines| == 0 {
        ReadFilesStop(policy, merge, before, files, f + 1);
        return Failure(EmptyFile);
      }
      header := Some(lines[0]);
      var read := ReadRows(policy, merge, info, seenOrder, lines[1..]);
      if read.Failure? {
        ReadFilesStop(policy, merge, before, files, f + 1);
        return Failure(read.error);
      }
      info, seenOrder := read.value.info, read.value.order;
    }
    assert files[..|files|] == files;
    return Success(Progress(header, Table(info, seenOrder)));
  }

  /** The innermost loop of `_get_unique_values`, over the data rows of one
      file, updating `info` and `seen_order`. */
  method ReadRows(policy: KeyPolicy, merge: Option<MergeFn>, info0: map<Key, Row>, order0: seq<Key>, rows: seq<Row>)
    returns (r: Result<Table, MergeError>)
    ensures r == AddRows(policy, merge, Table(info0, order0), rows)
  {
    var info, seenOrder := info0, order0;
    for i := 0 to |rows|
      invariant AddRows(policy, merge, Table(info0, order0), rows[..i]) == Success(Table(info, seenOrder))
    {
      AddRowsSnoc(policy, merge, Table(info0, order0), rows, i);
      var parts := rows[i];
      var uniqueBit := UniqueKey(policy, parts);
      if uniqueBit.IndexError? {
        AddRowsStop(policy, merge, Table(info0, order0), rows, i + 1);
        return Failure(MissingColumn(parts));
      }
      if uniqueBit.Keyed? {
        var k := uniqueBit.key;
        if k in info {
          if merge.Some? {
            var newData := ApplyMerge(merge.value, info[k], parts);
            if newData.Failure? {
              AddRowsStop(policy, merge, Table(info0, order0), rows, i + 1);
              return Failure(newData.error);
            }
          }
        } else {
          info := info[k := parts];
          seenOrder := seenOrder + [k];
        }
      }
    }
    assert rows[..|rows|] == rows;
    return Success(Table(info, seenOrder));
  }

  /** `combine_files` as the lines it writes: the output file is opened for
      writing (and so truncated) first, and only a successful merge writes the
      header and then every row in order. */
  datatype Written = Written(lines: seq<Row>, error: Option<MergeError>)

  method CombineFiles(policy: KeyPolicy, merge: Option<MergeFn>, groups: seq<Group>) returns (w: Written)
    ensures UniqueValues(policy, merge, groups).Failure? ==>
      w == Written([], Some(UniqueValues(policy, merge, groups).error))
    ensures UniqueValues(policy, merge, groups).Success? ==>
      var m := UniqueValues(policy, merge, groups).value;
      w == Written([m.header] + m.rows, None)
  {
    var result := GetUniqueValues(policy, merge, groups);
    if result.Failure? {
      return Written([], Some(result.error));
    }
    var out := [result.value.header];
    var info := result.value.rows;
    for i := 0 to |info|
      invariant out == [result.value.header] + info[..i]
    {
      out := out + [info[i]];
    }
    assert info[..|info|] == info;
    return Written(out, None);
  }

  // ---------------------------------------------------------------------------
  // Failure propagation: once one step raises, the whole run raises the same.

  lemma {:induction false} AddRowsAppend(policy: KeyPolicy, merge: Option<MergeFn>, t: Table, a: seq<Row>, b: seq<Row>)
    ensures AddRows(policy, merge, t, a + b) ==
      match AddRows(policy, merge, t, a)
      case Failure(e) => Failure(e)
      case Success(t') => AddRows(policy, merge, t', b)
    decreases |b|
  {
    if |b| == 0 {
      assert a + b == a;
    } else {
      assert (a + b)[..|a + b| - 1] == a + b[..|b| - 1];
      AddRowsAppend(policy, merge, t, a, b[..|b| - 1]);
    }
  }

  lemma {:induction false} ReadFilesAppend(policy: KeyPolicy, merge: Option<MergeFn>, p: Progress, a: seq<DataFile>, b: seq<DataFile>)
    ensures ReadFiles(policy, merge, p, a + b) ==
      match ReadFiles(policy, merge, p, a)
      case Failure(e) => Failure(e)
      case Success(p') => ReadFiles(policy, merge, p', b)
    decreases |b|
  {
    if |b| == 0 {
      assert a + b == a;
    } else {
      assert (a + b)[..|a + b| - 1] == a + b[..|b| - 1];
      ReadFilesAppend(policy, merge, p, a, b[..|b| - 1]);
    }
  }

  lemma {:induction false} ReadGroupsAppend(policy: KeyPolicy, merge: Option<MergeFn>, p: Progress, a: seq<Group>, b: seq<Group>)
    ensures ReadGroups(policy, merge, p, a + b) ==
      match ReadGroups(policy, merge, p, a)
      case Failure(e) => Failure(e)
      case Success(p') => ReadGroups(policy, merge, p', b)
    decreases |b|
  {
    if |b| == 0 {
      assert a + b == a;
    } else {
      assert (a + b)[..|a + b| - 1] == a + b[..|b| - 1];
      ReadGroupsAppend(policy, merge, p, a, b[..|b| - 1]);
    }
  }

  lemma ReadGroupsStop(policy: KeyPolicy, merge: Option<MergeFn>, p: Progress, groups: seq<Group>, n: nat)
    requires n <= |groups| && ReadGroups(policy, merge, p, groups[..n]).Failure?
    ensures ReadGroups(policy, merge, p, groups) == ReadGroups(policy, merge, p, groups[..n])
  {
    assert groups == groups[..n] + groups[n..];
    ReadGroupsAppend(policy, merge, p, groups[..n], groups[n..]);
  }

  lemma AddRowsStop(policy: KeyPolicy, merge: Option<MergeFn>, t: Table, rows: seq<Row>, n: nat)
    requires n <= |rows| && AddRows(policy, merge, t, rows[..n]).Failure?
    ensures AddRows(policy, merge, t, rows) == AddRows(policy, merge, t, rows[..n])
  {
    assert rows == rows[..n] + rows[n..];
    AddRowsAppend(policy, merge, t, rows[..n], rows[n..]);
  }

  lemma ReadFilesStop(policy: KeyPolicy, merge: Option<MergeFn>, p: Progress, files: seq<DataFile>, n: nat)
    requires n <= |files| && ReadFiles(policy, merge, p, files[..n]).Failure?
    ensures ReadFiles(policy, merge, p, files) == ReadFiles(policy, merge, p, files[..n])
  {
    assert files == files[..n] + files[n..];
    ReadFilesAppend(policy, merge, p, files[..n], files[n..]);
  }

  /** One more row, file or directory: the fold so far, then one step. */
  lemma AddRowsSnoc(policy: KeyPolicy, merge: Option<MergeFn>, t: Table, rows: seq<Row>, i: nat)
    requires i < |rows|
    ensures AddRows(policy, merge, t, rows[..i + 1]) ==
      match AddRows(policy, merge, t, rows[..i])
      case Failure(e) => Failure(e)
      case Success(t') => AddRow(policy, merge, t', rows[i])
  {
    assert rows[..i + 1][..i] == rows[..i];
  }

  lemma ReadFilesSnoc(policy: KeyPolicy, merge: Option<MergeFn>, p: Progress, files: seq<DataFile>, i: nat)
    requires i < |files|
    ensures ReadFiles(policy, merge, p, files[..i + 1]) ==
      match ReadFiles(policy, merge, p, files[..i])
      case Failure(e) => Failure(e)
      case Success(p') => ReadFile(policy, merge, p', files[i])
  {
    assert files[..i + 1][..i] == files[..i];
  }

  lemma ReadGroupsSnoc(policy: KeyPolicy, merge: Option<MergeFn>, p: Progress, groups: seq<Group>, i: nat)
    requires i < |groups|
    ensures ReadGroups(policy, merge, p, groups[..i + 1]) ==
      match ReadGroups(policy, merge, p, groups[..i])
      case Failure(e) => Failure(e)
      case Success(p') => ReadGroup(policy, merge, p', groups[i])
  {
    assert groups[..i + 1][..i] == groups[..i];
  }

  // ---------------------------------------------------------------------------
  // The reference view: all data rows in reading order, their keys, and the
  // first row seen for each key.

  /** The data rows of a file (everything after the header). */
  function DataRows(f: DataFile): seq<Row> {
    if |f.lines| == 0 then [] else f.lines[1..]
  }

  function FilesRows(files: seq<DataFile>): seq<Row>
    decreases |files|
  {
    if |files| == 0 then [] else FilesRows(files[..|files| - 1]) + DataRows(files[|files| - 1])
  }

  /** Every data row, directory by directory, file by file, row by row. */
  function AllRows(groups: seq<Group>): seq<Row>
    decreases |groups|
  {
    if |groups| == 0 then [] else AllRows(groups[..|groups| - 1]) + FilesRows(groups[|groups| - 1].files)
  }

  predicate HaveHeaders(files: seq<DataFile>) {
    forall j :: 0 <= j < |files| ==> |files[j].lines| > 0
  }

  /** Every directory matched a file and every file has a header line. */
  predicate AllFound(groups: seq<Group>) {
    forall i :: 0 <= i < |groups| ==> |groups[i].files| > 0 && HaveHeaders(groups[i].files)
  }

  /** The header of the last file of the last directory. */
  function LastHeader(groups: seq<Group>): Row
    requires |groups| > 0 && AllFound(groups)
  {
    var files := groups[|groups| - 1].files;
    files[|files| - 1].lines[0]
  }

  /** The keys of the keyed rows, in reading order, repeats included. */
  function KeysOf(policy: KeyPolicy, rows: seq<Row>): seq<Key>
    decreases |rows|
  {
    if |rows| == 0 then []
    else
      var last := UniqueKey(policy, rows[|rows| - 1]);
      KeysOf(policy, rows[..|rows| - 1]) + (if last.Keyed? then [last.key] else [])
  }

  /** The first row whose key is `k`. */
  function FirstWithKey(policy: KeyPolicy, rows: seq<Row>, k: Key): Option<Row>
    decreases |rows|
  {
    if |rows| == 0 then None
    else if UniqueKey(policy, rows[0]) == Keyed(k) then Some(rows[0])
    else FirstWithKey(policy, rows[1..], k)
  }

  predicate NoMissingColumn(policy: KeyPolicy, rows: seq<Row>) {
    forall i :: 0 <= i < |rows| ==> !UniqueKey(policy, rows[i]).IndexError?
  }

  lemma {:induction false} FirstWithKeySnoc(policy: KeyPolicy, rows: seq<Row>, x: Row, k: Key)
    ensures FirstWithKey(policy, rows + [x], k) ==
      if FirstWithKey(policy, rows, k).Some? then FirstWithKey(policy, rows, k)
      else if UniqueKey(policy, x) == Keyed(k) then Some(x)
      else None
    decreases |rows|
  {
    if |rows| > 0 {
      assert (rows + [x])[1..] == rows[1..] + [x];
      FirstWithKeySnoc(policy, rows[1..], x, k);
    }
  }

  /** A successful fold has met no row that is too short for the key. */
  lemma {:induction false} AddRowsNoMissing(policy: KeyPolicy, merge: Option<MergeFn>, t: Table, rows: seq<Row>)
    requires AddRows(policy, merge, t, rows).Success?
    ensures NoMissingColumn(policy, rows)
    decreases |rows|
  {
    if |rows| > 0 {
      AddRowsNoMissing(policy, merge, t, rows[..|rows| - 1]);
      assert forall i :: 0 <= i < |rows| - 1 ==> rows[i] == rows[..|rows| - 1][i];
    }
  }

  /** One step of the fold appends the row's key to the order exactly when
      the key is new. */
  lemma AddRowOrder(policy: KeyPolicy, merge: Option<MergeFn>, t: Table, x: Row, keys: seq<Key>)
    requires Consistent(policy, t) && t.order == Distinct(keys)
    requires AddRow(policy, merge, t, x).Success?
    ensures AddRow(policy, merge, t, x).value.order ==
      Distinct(keys + (if UniqueKey(policy, x).Keyed? then [UniqueKey(policy, x).key] else []))
  {
    match UniqueKey(policy, x)
    case Dropped =>
      assert keys + [] == keys;
    case Keyed(k) =>
      DistinctSnoc(keys, k);
      DistinctMember(keys, k);
  }

  /** Started from the empty table, the fold keeps the keys of the stream in
      first-encounter order. */
  lemma {:induction false} AddRowsOrder(policy: KeyPolicy, merge: Option<MergeFn>, rows: seq<Row>)
    requires AddRows(policy, merge, EmptyTable(), rows).Success?
    ensures AddRows(policy, merge, EmptyTable(), rows).value.order == Distinct(KeysOf(policy, rows))
    decreases |rows|
  {
    assert Consistent(policy, EmptyTable());
    if |rows| > 0 {
      var init, x := rows[..|rows| - 1], rows[|rows| - 1];
      AddRowsOrder(policy, merge, init);
      var t0 := AddRows(policy, merge, EmptyTable(), init).value;
      AddRowsConsistent(policy, merge, EmptyTable(), init);
      assert AddRows(policy, merge, EmptyTable(), rows) == AddRow(policy, merge, t0, x);
      AddRowOrder(policy, merge, t0, x, KeysOf(policy, init));
    }
  }

  /** Started from the empty table, the fold stores a row under `k` exactly
      when some row has key `k`, and the row it stores is the first such row. */
  lemma {:induction false} AddRowsFirstWins(policy: KeyPolicy, merge: Option<MergeFn>, rows: seq<Row>)
    requires AddRows(policy, merge, EmptyTable(), rows).Success?
    ensures var t := AddRows(policy, merge, EmptyTable(), rows).value;
      && (forall k :: k in t.info <==> FirstWithKey(policy, rows, k).Some?)
      && (forall k :: k in t.info ==> FirstWithKey(policy, rows, k) == Some(t.info[k]))
    decreases |rows|
  {
    if |rows| > 0 {
      var init, x := rows[..|rows| - 1], rows[|rows| - 1];
      assert rows == init + [x];
      AddRowsFirstWins(policy, merge, init);
      forall k ensures FirstWithKey(policy, rows, k) ==
        if FirstWithKey(policy, init, k).Some? then FirstWithKey(policy, init, k)
        else if UniqueKey(policy, x) == Keyed(k) then Some(x) else None
      {
        FirstWithKeySnoc(policy, init, x, k);
      }
    }
  }

  /** Without a merge function the fold fails only on a missing column. */
  lemma {:induction false} AddRowsSucceeds(policy: KeyPolicy, t: Table, rows: seq<Row>)
    ensures AddRows(policy, None, t, rows).Success? <==> NoMissingColumn(policy, rows)
    decreases |rows|
  {
    if |rows| > 0 {
      var init := rows[..|rows| - 1];
      AddRowsSucceeds(policy, t, init);
      assert NoMissingColumn(policy, rows) <==>
        NoMissingColumn(policy, init) && !UniqueKey(policy, rows[|rows| - 1]).IndexError?;
    }
  }

  /** The merge function can only make the fold fail; when it does not, the
      result is that of the fold without it. */
  lemma {:induction false} AddRowsMergeOnlyFails(policy: KeyPolicy, m: MergeFn, t: Table, rows: seq<Row>)
    ensures AddRows(policy, Some(m), t, rows).Success? ==>
      AddRows(policy, Some(m), t, rows) == AddRows(policy, None, t, rows)
    decreases |rows|
  {
    if |rows| > 0 {
      AddRowsMergeOnlyFails(policy, m, t, rows[..|rows| - 1]);
    }
  }

  /** With the whole row as key, equal keys mean equal rows, so the assertion
      in `_phenotype_merge` never fails. */
  lemma {:induction false} AddRowsPhenotypeMergeHolds(t: Table, rows: seq<Row>)
    requires Consistent(PhenotypeKey, t)
    ensures AddRows(PhenotypeKey, Some(AssertEqual), t, rows) == AddRows(PhenotypeKey, None, t, rows)
    decreases |rows|
  {
    if |rows| > 0 {
      var init, x := rows[..|rows| - 1], rows[|rows| - 1];
      AddRowsPhenotypeMergeHolds(t, init);
      var prev := AddRows(PhenotypeKey, None, t, init);
      AddRowsConsistent(PhenotypeKey, None, t, init);
      if prev.Success? && UniqueKey(PhenotypeKey, x).Keyed? {
        var k := UniqueKey(PhenotypeKey, x).key;
        if k in prev.value.info {
          assert UniqueKey(PhenotypeKey, prev.value.info[k]) == Keyed(k);
          assert prev.value.info[k] == x;
        }
      }
    }
  }

  // ---------------------------------------------------------------------------
  // Flattening: the nested loops read the same row stream as one flat fold.

  lemma {:induction false} ReadFilesFlat(policy: KeyPolicy, merge: Option<MergeFn>, p: Progress, files: seq<DataFile>)
    ensures ReadFiles(policy, merge, p, files).Success? <==>
      HaveHeaders(files) && AddRows(policy, merge, p.table, FilesRows(files)).Success?
    ensures ReadFiles(policy, merge, p, files).Success? ==>
      && ReadFiles(policy, merge, p, files).value.table == AddRows(policy, merge, p.table, FilesRows(files)).value
      && ReadFiles(policy, merge, p, files).value.header ==
         (if |files| == 0 then p.header else Some(files[|files| - 1].lines[0]))
    decreases |files|
  {
    if |files| > 0 {
      var init, f := files[..|files| - 1], files[|files| - 1];
      ReadFilesFlat(policy, merge, p, init);
      AddRowsAppend(policy, merge, p.table, FilesRows(init), DataRows(f));
      assert HaveHeaders(files) <==> HaveHeaders(init) && |f.lines| > 0;
    }
  }

  lemma AllFoundSnoc(groups: seq<Group>)
    requires |groups| > 0
    ensures var g := groups[|groups| - 1];
      AllFound(groups) <==> AllFound(groups[..|groups| - 1]) && |g.files| > 0 && HaveHeaders(g.files)
  {
    var init := groups[..|groups| - 1];
    if AllFound(init) && |groups[|groups| - 1].files| > 0 && HaveHeaders(groups[|groups| - 1].files) {
      forall i | 0 <= i < |groups| ensures |groups[i].files| > 0 && HaveHeaders(groups[i].files) {
        if i < |init| {
          assert groups[i] == init[i];
        }
      }
    }
    if AllFound(groups) {
      forall i | 0 <= i < |init| ensures |init[i].files| > 0 && HaveHeaders(init[i].files) {
        assert init[i] == groups[i];
      }
    }
  }

  lemma {:induction false} ReadGroupsFlat(policy: KeyPolicy, merge: Option<MergeFn>, p: Progress, groups: seq<Group>)
    ensures ReadGroups(policy, merge, p, groups).Success? <==>
      AllFound(groups) && AddRows(policy, merge, p.table, AllRows(groups)).Success?
    ensures ReadGroups(policy, merge, p, groups).Success? ==>
      && ReadGroups(policy, merge, p, groups).value.table == AddRows(policy, merge, p.table, AllRows(groups)).value
      && ReadGroups(policy, merge, p, groups).value.header ==
         (if |groups| == 0 then p.header else Some(LastHeader(groups)))
    decreases |groups|
  {
    if |groups| > 0 {
      var init, g := groups[..|groups| - 1], groups[|groups| - 1];
      ReadGroupsFlat(policy, merge, p, init);
      AddRowsAppend(policy, merge, p.table, AllRows(init), FilesRows(g.files));
      AllFoundSnoc(groups);
      var prev := ReadGroups(policy, merge, p, init);
      if prev.Success? {
        assert ReadGroups(policy, merge, p, groups) == ReadGroup(policy, merge, prev.value, g);
        ReadFilesFlat(policy, merge, prev.value, g.files);
      } else {
        assert ReadGroups(policy, merge, p, groups).Failure?;
      }
    }
  }

  /** `_get_unique_values` succeeds exactly when every directory matched a file,
      every file has a header and the fold over all data rows succeeds; it then
      returns the last header read and the rows the flat fold stored. */
  lemma UniqueValuesFlat(policy: KeyPolicy, merge: Option<MergeFn>, groups: seq<Group>)
    ensures UniqueValues(policy, merge, groups).Success? <==>
      |groups| > 0 && AllFound(groups) && AddRows(policy, merge, EmptyTable(), AllRows(groups)).Success?
    ensures UniqueValues(policy, merge, groups).Success? ==>
      && UniqueValues(policy, merge, groups).value.header == LastHeader(groups)
      && var t := AddRows(policy, merge, EmptyTable(), AllRows(groups)).value;
         && (forall k :: k in t.order ==> k in t.info)
         && UniqueValues(policy, merge, groups).value.rows == StoredRows(t)
  {
    assert Consistent(policy, EmptyTable());
    ReadGroupsFlat(policy, merge, Start(), groups);
    AddRowsConsistent(policy, merge, EmptyTable(), AllRows(groups));
  }

  // ---------------------------------------------------------------------------
  // What the source promises about its output.

  /** Dedup, order and first-wins: the output has one row per distinct key of
      the input, in first-encounter order over directories, files and rows;
      each output row is the first input row with its key; and the header is
      that of the last file read. */
  lemma MergeKeepsFirstSeen(policy: KeyPolicy, merge: Option<MergeFn>, groups: seq<Group>)
    requires UniqueValues(policy, merge, groups).Success?
    ensures var m := UniqueValues(policy, merge, groups).value;
      var keys := Distinct(KeysOf(policy, AllRows(groups)));
      && |groups| > 0 && AllFound(groups)
      && m.header == LastHeader(groups)
      && |m.rows| == |keys|
      && (forall i :: 0 <= i < |keys| ==>
            UniqueKey(policy, m.rows[i]) == Keyed(keys[i]) &&
            FirstWithKey(policy, AllRows(groups), keys[i]) == Some(m.rows[i]))
  {
    UniqueValuesFlat(policy, merge, groups);
    assert Consistent(policy, EmptyTable());
    AddRowsConsistent(policy, merge, EmptyTable(), AllRows(groups));
    AddRowsOrder(policy, merge, AllRows(groups));
    AddRowsFirstWins(policy, merge, AllRows(groups));
  }

  /** No key is output twice, and a row without a key is never output. */
  lemma MergeKeysDistinct(policy: KeyPolicy, merge: Option<MergeFn>, groups: seq<Group>)
    requires UniqueValues(policy, merge, groups).Success?
    ensures var rows := UniqueValues(policy, merge, groups).value.rows;
      && (forall i :: 0 <= i < |rows| ==> UniqueKey(policy, rows[i]).Keyed?)
      && (forall i, j :: 0 <= i < j < |rows| ==> UniqueKey(policy, rows[i]) != UniqueKey(policy, rows[j]))
  {
    MergeKeepsFirstSeen(policy, merge, groups);
    DistinctLaws(KeysOf(policy, AllRows(groups)));
  }

  /** With the gene key, every output row has a non-empty first column and no
      two output rows share it. */
  lemma GeneRowsDistinct(merge: Option<MergeFn>, groups: seq<Group>)
    requires UniqueValues(GeneKey, merge, groups).Success?
    ensures var rows := UniqueValues(GeneKey, merge, groups).value.rows;
      && (forall i :: 0 <= i < |rows| ==> |rows[i]| > 0 && rows[i][0] != "")
      && (forall i, j :: 0 <= i < j < |rows| ==> rows[i][0] != rows[j][0])
  {
    MergeKeysDistinct(GeneKey, merge, groups);
  }

  /** With the transcript key, every output row has non-empty columns 0 and 2
      and no two output rows share that pair. */
  lemma TxRowsDistinct(merge: Option<MergeFn>, groups: seq<Group>)
    requires UniqueValues(TxKey, merge, groups).Success?
    ensures var rows := UniqueValues(TxKey, merge, groups).value.rows;
      && (forall i :: 0 <= i < |rows| ==> |rows[i]| >= 3 && rows[i][0] != "" && rows[i][2] != "")
      && (forall i, j :: 0 <= i < j < |rows| ==> (rows[i][0], rows[i][2]) != (rows[j][0], rows[j][2]))
  {
    MergeKeysDistinct(TxKey, merge, groups);
  }

  /** A directory whose glob matched no file aborts the merge. */
  lemma NoMatchingFilesAborts(policy: KeyPolicy, merge: Option<MergeFn>, groups: seq<Group>, i: nat)
    requires i < |groups| && |groups[i].files| == 0
    ensures UniqueValues(policy, merge, groups).Failure?
  {
    UniqueValuesFlat(policy, merge, groups);
  }

  /** Without a merge function the merge succeeds exactly when there is a
      directory, every directory matched a file, every file has a header and
      no row is too short for the key function. */
  lemma WithoutMergeFnSucceeds(policy: KeyPolicy, groups: seq<Group>)
    ensures UniqueValues(policy, None, groups).Success? <==>
      |groups| > 0 && AllFound(groups) && NoMissingColumn(policy, AllRows(groups))
  {
    UniqueValuesFlat(policy, None, groups);
    AddRowsSucceeds(policy, EmptyTable(), AllRows(groups));
  }

  /** The merge function's result is discarded: when it does not raise, the
      output is exactly the output without it. */
  lemma MergeResultDiscarded(policy: KeyPolicy, m: MergeFn, groups: seq<Group>)
    ensures UniqueValues(policy, Some(m), groups).Success? ==>
      UniqueValues(policy, Some(m), groups) == UniqueValues(policy, None, groups)
  {
    UniqueValuesFlat(policy, Some(m), groups);
    UniqueValuesFlat(policy, None, groups);
    AddRowsMergeOnlyFails(policy, m, EmptyTable(), AllRows(groups));
  }

  lemma {:induction false} ReadFilesPhenotypeMerge(p: Progress, files: seq<DataFile>)
    requires Consistent(PhenotypeKey, p.table)
    ensures ReadFiles(PhenotypeKey, Some(AssertEqual), p, files) == ReadFiles(PhenotypeKey, None, p, files)
    decreases |files|
  {
    if |files| > 0 {
      var init, f := files[..|files| - 1], files[|files| - 1];
      ReadFilesPhenotypeMerge(p, init);
      var prev := ReadFiles(PhenotypeKey, None, p, init);
      ReadFilesConsistent(PhenotypeKey, None, p, init);
      if prev.Success? && |f.lines| > 0 {
        AddRowsPhenotypeMergeHolds(prev.value.table, f.lines[1..]);
      }
    }
  }

  lemma {:induction false} ReadGroupsPhenotypeMerge(p: Progress, groups: seq<Group>)
    requires Consistent(PhenotypeKey, p.table)
    ensures ReadGroups(PhenotypeKey, Some(AssertEqual), p, groups) == ReadGroups(PhenotypeKey, None, p, groups)
    decreases |groups|
  {
    if |groups| > 0 {
      var init, g := groups[..|groups| - 1], groups[|groups| - 1];
      ReadGroupsPhenotypeMerge(p, init);
      var prev := ReadGroups(PhenotypeKey, None, p, init);
      ReadGroupsConsistent(PhenotypeKey, None, p, init);
      if prev.Success? {
        ReadFilesPhenotypeMerge(prev.value, g.files);
      }
    }
  }

  /** The phenotype merge as `main` runs it: `_phenotype_merge` never fails,
      so the outcome, error or not, is that of the merge without it. */
  lemma PhenotypeMergeHarmless(groups: seq<Group>)
    ensures UniqueValues(PhenotypeKey, Some(AssertEqual), groups) == UniqueValues(PhenotypeKey, None, groups)
  {
    assert Consistent(PhenotypeKey, EmptyTable());
    ReadGroupsPhenotypeMerge(Start(), groups);
  }
}
