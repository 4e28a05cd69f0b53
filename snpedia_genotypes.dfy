/** The genotype part of scripts/snpedia_to_disease.py: the infobox is
    searched for the `geno1`, `geno2` and `geno3` entries, the page of each
    genotype found is fetched, and the key/value table at the top of that page
    becomes a dictionary. */
module SnpediaGenotypes {
  import opened Wrappers
  import opened Text

  /** The dictionary built from one genotype page. */
  type Genotype = map<string, string>

  /** The `ValueError` of `key, val = gpart.split("=")` on a line holding more
      than one `=`. */
  datatype TableError = TooManyValues(line: string)

  // ---------------------------------------------------------------------------
  // The table of one genotype page.

  /** `gcontent[:gcontent.find("}}")]`: the text before the first `}}`, or,
      when there is none, everything but the last character (`find` gives -1
      and the slice counts it from the end). The result never holds `}}`. */
  function TableText(g: string): (r: string)
    ensures |r| <= |g| && r == g[..|r|]
    ensures forall j :: 0 <= j <= |r| ==> !OccursAt(r, "}}", j)
    ensures Find(g, "}}") != -1 ==> |r| == Find(g, "}}")
    ensures Find(g, "}}") == -1 ==> |r| == if |g| == 0 then 0 else |g| - 1
  {
    var e := Find(g, "}}");
    var r := SliceTo(g, e);
    assert forall j :: 0 <= j <= |r| && OccursAt(r, "}}", j) ==> OccursAt(g, "}}", j) by {
      forall j | 0 <= j <= |r| && OccursAt(r, "}}", j) ensures OccursAt(g, "}}", j) {
        assert r[j..j + 2] == g[j..j + 2];
      }
    }
    r
  }

  /** What the loop makes of one line. */
  datatype LineKind = Skipped | TooMany(line: string) | Entry(key: string, value: string)

  /** A line is skipped unless `p.find("=") > 0`; a kept line with a second
      `=` raises; any other one is split at its `=` into a key with every `|`
      removed and then trimmed (`key.replace("|", "").strip()`) and a trimmed
      value (`val.strip()`). */
  function Classify(line: string): LineKind {
    if Find(line, "=") <= 0 then Skipped
    else
      var parts := Split(line, '=');
      if |parts| != 2 then TooMany(line)
      else Entry(Strip(RemoveChar(parts[0], '|')), Strip(parts[1]))
  }

  /** The kinds of the lines, one per line. */
  function Kinds(lines: seq<string>): (r: seq<LineKind>)
    ensures |r| == |lines|
    decreases |lines|
  {
    if |lines| == 0 then [] else Kinds(lines[..|lines| - 1]) + [Classify(lines[|lines| - 1])]
  }

  lemma {:induction false} KindsPrefix(lines: seq<string>, n: nat)
    requires n <= |lines|
    ensures Kinds(lines)[..n] == Kinds(lines[..n])
    decreases |lines|
  {
    if n < |lines| {
      var init := lines[..|lines| - 1];
      KindsPrefix(init, n);
      assert init[..n] == lines[..n];
    } else {
      assert lines[..n] == lines;
    }
  }

  lemma {:induction false} KindsAt(lines: seq<string>, i: nat)
    requires i < |lines|
    ensures Kinds(lines)[i] == Classify(lines[i])
    decreases |lines|
  {
    var init := lines[..|lines| - 1];
    assert Kinds(lines) == Kinds(init) + [Classify(lines[|lines| - 1])];
    if i < |init| {
      KindsAt(init, i);
      assert init[i] == lines[i];
    }
  }

  /** The dictionary after the given lines: a skipped line changes nothing,
      a rejected one raises, an entry sets its key. */
  function ParseKinds(kinds: seq<LineKind>): Result<Genotype, TableError>
    decreases |kinds|
  {
    if |kinds| == 0 then Success(map[])
    else
      var g :- ParseKinds(kinds[..|kinds| - 1]);
      match kinds[|kinds| - 1]
      case Skipped => Success(g)
      case TooMany(line) => Failure(TooManyValues(line))
      case Entry(k, v) => Success(g[k := v])
  }

  /** The table of a genotype page, without its `rsid` entry. */
  function GenotypeTable(gcontent: string): Result<Genotype, TableError> {
    var g :- ParseKinds(Kinds(Split(TableText(gcontent), '\n')));
    Success(g - {"rsid"})
  }

  /** The index of the last entry for key `k`, or -1. */
  function LastWithKey(kinds: seq<LineKind>, k: string): (r: int)
    ensures -1 <= r < |kinds|
    ensures r >= 0 ==> kinds[r].Entry? && kinds[r].key == k
    ensures forall j :: r < j < |kinds| ==> !(kinds[j].Entry? && kinds[j].key == k)
    decreases |kinds|
  {
    if |kinds| == 0 then -1
    else if kinds[|kinds| - 1].Entry? && kinds[|kinds| - 1].key == k then |kinds| - 1
    else
      var init := kinds[..|kinds| - 1];
      assert forall i :: 0 <= i < |init| ==> init[i] == kinds[i];
      LastWithKey(init, k)
  }

  /** The table of one fetched genotype page, as `genotype_effects` builds
      it. */
  method ParseGenotype(gcontent: string) returns (r: Result<Genotype, TableError>)
    ensures r == GenotypeTable(gcontent)
  {
    var built := BuildTable(Split(TableText(gcontent), '\n'));
    if built.Failure? {
      return Failure(built.error);
    }
    var genotype := built.value;
    if "rsid" in genotype {
      genotype := genotype - {"rsid"};
    } else {
      assert genotype - {"rsid"} == genotype;
    }
    return Success(genotype);
  }

  /** The loop over the lines. */
  method BuildTable(lines: seq<string>) returns (r: Result<Genotype, TableError>)
    ensures r == ParseKinds(Kinds(lines))
  {
    var genotype: Genotype := map[];
    for i := 0 to |lines|
      invariant ParseKinds(Kinds(lines[..i])) == Success(genotype)
    {
      ghost var before := Kinds(lines[..i]);
      var kind := ParseLine(lines[i]);
      assert lines[..i + 1][..i] == lines[..i];
      assert Kinds(lines[..i + 1]) == before + [kind];
      assert (before + [kind])[..i] == before;
      match kind
      case Skipped =>
      case TooMany(gpart) =>
        KindsPrefix(lines, i + 1);
        ParseKindsStop(Kinds(lines), i + 1);
        return Failure(TooManyValues(gpart));
      case Entry(key, val) =>
        genotype := genotype[key := val];
    }
    assert lines[..|lines|] == lines;
    return Success(genotype);
  }

  /** One line of the loop: the `find` test and the two-name unpacking. */
  method ParseLine(gpart: string) returns (kind: LineKind)
    ensures kind == Classify(gpart)
  {
    if Find(gpart, "=") <= 0 {
      return Skipped;
    }
    var parts := Split(gpart, '=');
    if |parts| != 2 {
      return TooMany(gpart);
    }
    var key, val := parts[0], parts[1];
    return Entry(Strip(RemoveChar(key, '|')), Strip(val));
  }

  /** A rejected line ends the parse. */
  lemma {:induction false} ParseKindsStop(kinds: seq<LineKind>, n: nat)
    requires n <= |kinds| && ParseKinds(kinds[..n]).Failure?
    ensures ParseKinds(kinds) == ParseKinds(kinds[..n])
    decreases |kinds| - n
  {
    if n < |kinds| {
      assert kinds[..n + 1][..n] == kinds[..n];
      ParseKindsStop(kinds, n + 1);
    } else {
      assert kinds[..n] == kinds;
    }
  }

  /** A line is rejected exactly when it is kept and holds a second `=`. */
  lemma ClassifyTooMany(line: string)
    ensures Classify(line).TooMany? <==> Find(line, "=") > 0 && |Split(line, '=')| > 2
    ensures Classify(line).TooMany? ==> Classify(line).line == line
  {
    if Find(line, "=") > 0 {
      SplitSingle(line, '=');
      assert line[Find(line, "=")] == '=';
    }
  }

  /** The parse fails exactly when some line is rejected, and then with the
      first rejected line. */
  lemma {:induction false} ParseKindsFails(kinds: seq<LineKind>)
    ensures ParseKinds(kinds).Failure? <==> exists i :: 0 <= i < |kinds| && kinds[i].TooMany?
    ensures ParseKinds(kinds).Failure? ==>
      exists i :: (0 <= i < |kinds| && kinds[i].TooMany? &&
        ParseKinds(kinds).error == TooManyValues(kinds[i].line) &&
        forall j :: 0 <= j < i ==> !kinds[j].TooMany?)
    decreases |kinds|
  {
    if |kinds| > 0 {
      var init := kinds[..|kinds| - 1];
      ParseKindsFails(init);
      assert forall i :: 0 <= i < |init| ==> init[i] == kinds[i];
    }
  }

  /** A successful parse holds exactly the keys with an entry, each with the
      value of the last entry for it: a later duplicate overwrites an earlier
      one. */
  lemma {:induction false} ParseKindsEntries(kinds: seq<LineKind>, k: string)
    requires ParseKinds(kinds).Success?
    ensures k in ParseKinds(kinds).value <==> LastWithKey(kinds, k) >= 0
    ensures k in ParseKinds(kinds).value ==>
      ParseKinds(kinds).value[k] == kinds[LastWithKey(kinds, k)].value
    decreases |kinds|
  {
    if |kinds| > 0 {
      ParseKindsEntries(kinds[..|kinds| - 1], k);
    }
  }

  /** An entry whose key holds no `|` and is trimmed, and whose value is
      trimmed and holds no `\n`. */
  predicate Clean(kind: LineKind) {
    kind.Entry? ==>
      '|' !in kind.key && kind.key == Strip(kind.key) && kind.value == Strip(kind.value) && '\n' !in kind.value
  }

  /** Stripping twice is stripping once. */
  lemma StripTwice(s: string)
    ensures Strip(Strip(s)) == Strip(s)
  {
  }

  /** The entry of a line without `\n` is clean. */
  lemma ClassifyClean(line: string)
    requires '\n' !in line
    ensures Clean(Classify(line))
  {
    if Classify(line).Entry? {
      var parts := Split(line, '=');
      var r := RemoveChar(parts[0], '|');
      if '|' in Strip(r) {
        StripWithin(r, '|');
      }
      StripTwice(r);
      StripTwice(parts[1]);
      if '\n' in Strip(parts[1]) {
        StripWithin(parts[1], '\n');
        SplitWithin(line, '=', 1, '\n');
      }
    }
  }

  /** Every key of a parse of clean entries is free of `|` and trimmed, and
      every value is trimmed and holds no `\n`. */
  lemma {:induction false} ParseKindsClean(kinds: seq<LineKind>)
    requires ParseKinds(kinds).Success?
    requires forall i :: 0 <= i < |kinds| ==> Clean(kinds[i])
    ensures forall k :: k in ParseKinds(kinds).value ==> Clean(Entry(k, ParseKinds(kinds).value[k]))
    decreases |kinds|
  {
    if |kinds| > 0 {
      var init := kinds[..|kinds| - 1];
      assert forall i :: 0 <= i < |init| ==> init[i] == kinds[i];
      ParseKindsClean(init);
    }
  }

  /** No table holds an `rsid` entry, dropping an absent one never fails,
      and every entry of a table is clean. */
  lemma GenotypeTableLaws(gcontent: string)
    ensures var kinds := Kinds(Split(TableText(gcontent), '\n'));
      GenotypeTable(gcontent).Success? <==> ParseKinds(kinds).Success?
    ensures GenotypeTable(gcontent).Success? ==>
      && "rsid" !in GenotypeTable(gcontent).value
      && forall k :: k in GenotypeTable(gcontent).value ==> Clean(Entry(k, GenotypeTable(gcontent).value[k]))
  {
    var lines := Split(TableText(gcontent), '\n');
    var kinds := Kinds(lines);
    if ParseKinds(kinds).Success? {
      forall i | 0 <= i < |kinds| ensures Clean(kinds[i]) {
        KindsAt(lines, i);
        ClassifyClean(lines[i]);
      }
      ParseKindsClean(kinds);
    }
  }

  // ---------------------------------------------------------------------------
  // The genotype patterns of the infobox.

  /** The names in the patterns of `genotypes_re`, in order. */
  const GenoNames: seq<string> := ["geno1", "geno2", "geno3"]

  /** `[ACGT]` */
  predicate IsBase(c: char) {
    c == 'A' || c == 'C' || c == 'G' || c == 'T'
  }

  /** `[ACGT]+` as a whole string. */
  predicate IsAllele(a: string) {
    |a| > 0 && forall i :: 0 <= i < |a| ==> IsBase(a[i])
  }

  /** The length of the run of bases from `p`. */
  function BaseRun(s: string, p: nat): (n: nat)
    requires p <= |s|
    ensures p + n <= |s|
    ensures forall i :: p <= i < p + n ==> IsBase(s[i])
    ensures p + n == |s| || !IsBase(s[p + n])
    decreases |s| - p
  {
    if p < |s| && IsBase(s[p]) then 1 + BaseRun(s, p + 1) else 0
  }

  predicate CharAt(s: string, p: nat, c: char) {
    p < |s| && s[p] == c
  }

  /** ` ?` */
  function SkipSpace(s: string, p: nat): (q: nat)
    requires p <= |s|
    ensures p <= q <= |s|
  {
    if CharAt(s, p, ' ') then p + 1 else p
  }

  /** `\| ?<name> ?= ?\(([ACGT]+);([ACGT]+)\)` matched at `p`, with its two
      groups. The pattern leaves nothing to backtrack to: every optional
      space comes before a character that is not a space, and each greedy
      run of bases ends before `;` or `)`, which are not bases. */
  function GenoMatchAt(s: string, p: nat, name: string): (r: Option<(string, string)>)
    requires p <= |s|
    ensures r.Some? ==> IsAllele(r.value.0) && IsAllele(r.value.1)
  {
    if !CharAt(s, p, '|') then None
    else
      var q1 := SkipSpace(s, p + 1);
      if !OccursAt(s, name, q1) then None
      else
        var q2 := SkipSpace(s, q1 + |name|);
        if !CharAt(s, q2, '=') then None
        else
          var q3 := SkipSpace(s, q2 + 1);
          if !CharAt(s, q3, '(') then None
          else
            var a := BaseRun(s, q3 + 1);
            var q4 := q3 + 1 + a;
            if a == 0 || !CharAt(s, q4, ';') then None
            else
              var b := BaseRun(s, q4 + 1);
              var q5 := q4 + 1 + b;
              if b == 0 || !CharAt(s, q5, ')') then None
              else Some((s[q3 + 1..q4], s[q4 + 1..q5]))
  }

  /** The leftmost position from `p` where the pattern matches, or -1. */
  function FirstGenoMatch(s: string, name: string, p: nat): (r: int)
    requires p <= |s|
    ensures r == -1 || p <= r <= |s|
    ensures r >= 0 ==> GenoMatchAt(s, r, name).Some?
    ensures forall j :: p <= j <= |s| && (r < 0 || j < r) ==> GenoMatchAt(s, j, name).None?
    decreases |s| - p
  {
    if GenoMatchAt(s, p, name).Some? then p
    else if p == |s| then -1
    else FirstGenoMatch(s, name, p + 1)
  }

  /** `re.search(g_re, content)` with `group(1)` and `group(2)`: the groups
      of the leftmost match, both made of bases. */
  function GenoSearch(s: string, name: string): (r: Option<(string, string)>)
    ensures r.None? <==> forall j :: 0 <= j <= |s| ==> GenoMatchAt(s, j, name).None?
    ensures r.Some? ==> IsAllele(r.value.0) && IsAllele(r.value.1)
  {
    var i := FirstGenoMatch(s, name, 0);
    if i < 0 then None else GenoMatchAt(s, i, name)
  }

  /** `re.search` reports the leftmost match: the groups it returns are those
      of a position with no match to its left. */
  lemma GenoSearchLeftmost(s: string, name: string)
    ensures GenoSearch(s, name).Some? ==> exists i ::
      && 0 <= i <= |s| && GenoMatchAt(s, i, name) == GenoSearch(s, name)
      && forall j :: 0 <= j < i ==> GenoMatchAt(s, j, name).None?
  {
    var i := FirstGenoMatch(s, name, 0);
    if i >= 0 {
      assert 0 <= i <= |s| && GenoMatchAt(s, i, name) == GenoSearch(s, name);
    }
  }

  // ---------------------------------------------------------------------------
  // `genotype_effects`.

  /** The page title `"%s(%s;%s)" % (var_id, a, b)`. */
  function GenotypeTitle(varId: string, a: string, b: string): string {
    varId + "(" + a + ";" + b + ")"
  }

  /** What one pattern contributes: nothing when it does not match or the
      page fetched is `None` or empty, else the page's table. */
  function EffectOf(fetch: string -> Option<string>, varId: string, infotable: string, name: string)
    : Result<Option<Genotype>, TableError>
  {
    match GenoSearch(infotable, name)
    case None => Success(None)
    case Some(alleles) =>
      var g := fetch(GenotypeTitle(varId, alleles.0, alleles.1));
      if g.None? || g.value == "" then Success(None)
      else
        var t :- GenotypeTable(g.value);
        Success(Some(t))
  }

  /** The effects of the given patterns, in pattern order. */
  function Effects(fetch: string -> Option<string>, varId: string, infotable: string, names: seq<string>)
    : Result<seq<Genotype>, TableError>
    decreases |names|
  {
    if |names| == 0 then Success([])
    else
      var before :- Effects(fetch, varId, infotable, names[..|names| - 1]);
      var e :- EffectOf(fetch, varId, infotable, names[|names| - 1]);
      Success(before + if e.Some? then [e.value] else [])
  }

  method GenotypeEffects(fetch: string -> Option<string>, varId: string, content: string)
    returns (r: Result<seq<Genotype>, TableError>)
    ensures r == Effects(fetch, varId, content, GenoNames)
  {
    var effects: seq<Genotype> := [];
    for i := 0 to |GenoNames|
      invariant Effects(fetch, varId, content, GenoNames[..i]) == Success(effects)
    {
      var e := PatternEffect(fetch, varId, content, GenoNames[i]);
      EffectsStep(fetch, varId, content, GenoNames, i);
      if e.Failure? {
        EffectsStop(fetch, varId, content, GenoNames, i + 1);
        return Failure(e.error);
      }
      if e.value.Some? {
        effects := effects + [e.value.value];
      }
    }
    assert GenoNames[..|GenoNames|] == GenoNames;
    return Success(effects);
  }

  /** One pass of the pattern loop: the search, the fetch, the table. */
  method PatternEffect(fetch: string -> Option<string>, varId: string, content: string, name: string)
    returns (e: Result<Option<Genotype>, TableError>)
    ensures e == EffectOf(fetch, varId, content, name)
  {
    var gMatch := GenoSearch(content, name);
    if gMatch.None? {
      return Success(None);
    }
    var gcontent := fetch(GenotypeTitle(varId, gMatch.value.0, gMatch.value.1));
    if gcontent.None? || gcontent.value == "" {
      return Success(None);
    }
    var genotype := ParseGenotype(gcontent.value);
    if genotype.Failure? {
      return Failure(genotype.error);
    }
    return Success(Some(genotype.value));
  }

  /** One more pattern: its contribution is added, or its error ends the
      run. */
  lemma EffectsStep(fetch: string -> Option<string>, varId: string, infotable: string, names: seq<string>, i: nat)
    requires i < |names| && Effects(fetch, varId, infotable, names[..i]).Success?
    ensures var before := Effects(fetch, varId, infotable, names[..i]).value;
      var e := EffectOf(fetch, varId, infotable, names[i]);
      Effects(fetch, varId, infotable, names[..i + 1]) ==
        if e.Failure? then Failure(e.error)
        else if e.value.Some? then Success(before + [e.value.value])
        else Success(before)
  {
    var p := names[..i + 1];
    assert p[..i] == names[..i];
    assert p[i] == names[i];
    var before := Effects(fetch, varId, infotable, names[..i]).value;
    assert before + [] == before;
  }

  /** A table that raises ends `genotype_effects`. */
  lemma {:induction false} EffectsStop(fetch: string -> Option<string>, varId: string, infotable: string,
                                       names: seq<string>, n: nat)
    requires n <= |names| && Effects(fetch, varId, infotable, names[..n]).Failure?
    ensures Effects(fetch, varId, infotable, names) == Effects(fetch, varId, infotable, names[..n])
    decreases |names| - n
  {
    if n < |names| {
      assert names[..n + 1][..n] == names[..n];
      EffectsStop(fetch, varId, infotable, names, n + 1);
    } else {
      assert names[..n] == names;
    }
  }

  /** The effects come in pattern order: the effects of the first patterns
      are the start of the effects of all of them. */
  lemma {:induction false} EffectsPrefix(fetch: string -> Option<string>, varId: string, infotable: string,
                                         names: seq<string>, n: nat)
    requires n <= |names| && Effects(fetch, varId, infotable, names).Success?
    ensures Effects(fetch, varId, infotable, names[..n]).Success?
    ensures Effects(fetch, varId, infotable, names[..n]).value <= Effects(fetch, varId, infotable, names).value
    decreases |names| - n
  {
    if n < |names| {
      var init := names[..|names| - 1];
      assert init[..n] == names[..n];
      EffectsPrefix(fetch, varId, infotable, init, n);
    } else {
      assert names[..n] == names;
    }
  }

  /** A successful run yields at most one effect per pattern, and every
      pattern's contribution succeeded. */
  lemma {:induction false} EffectsAtMost(fetch: string -> Option<string>, varId: string, infotable: string,
                                         names: seq<string>)
    requires Effects(fetch, varId, infotable, names).Success?
    ensures |Effects(fetch, varId, infotable, names).value| <= |names|
    ensures forall i :: 0 <= i < |names| ==> EffectOf(fetch, varId, infotable, names[i]).Success?
    decreases |names|
  {
    if |names| > 0 {
      var init := names[..|names| - 1];
      EffectsAtMost(fetch, varId, infotable, init);
      assert forall i :: 0 <= i < |init| ==> init[i] == names[i];
    }
  }

  /** Each effect is the table of a pattern that matched and whose page is
      not empty. */
  lemma {:induction false} EffectsSound(fetch: string -> Option<string>, varId: string, infotable: string,
                                        names: seq<string>, g: Genotype)
    requires Effects(fetch, varId, infotable, names).Success?
    requires g in Effects(fetch, varId, infotable, names).value
    ensures exists i :: 0 <= i < |names| && EffectOf(fetch, varId, infotable, names[i]) == Success(Some(g))
    decreases |names|
  {
    var n := |names|;
    var init := names[..n - 1];
    var e := EffectOf(fetch, varId, infotable, names[n - 1]);
    assert names[..n] == names;
    assert Effects(fetch, varId, infotable, init).Success? && e.Success?;
    EffectsStep(fetch, varId, infotable, names, n - 1);
    if g in Effects(fetch, varId, infotable, init).value {
      EffectsSound(fetch, varId, infotable, init, g);
      var i :| 0 <= i < |init| && EffectOf(fetch, varId, infotable, init[i]) == Success(Some(g));
      assert init[i] == names[i];
    } else {
      assert e == Success(Some(g));
    }
  }

  /** The table of every pattern that matched with a non-empty page is among
      the effects. */
  lemma {:induction false} EffectsComplete(fetch: string -> Option<string>, varId: string, infotable: string,
                                           names: seq<string>, i: nat)
    requires Effects(fetch, varId, infotable, names).Success?
    requires i < |names|
    requires EffectOf(fetch, varId, infotable, names[i]).Success?
    requires EffectOf(fetch, varId, infotable, names[i]).value.Some?
    ensures EffectOf(fetch, varId, infotable, names[i]).value.value in Effects(fetch, varId, infotable, names).value
    decreases |names|
  {
    var init := names[..|names| - 1];
    if i < |names| - 1 {
      assert init[i] == names[i];
      EffectsComplete(fetch, varId, infotable, init, i);
    }
  }

  /** No effect holds an `rsid` entry, and no value of an effect holds a
      `\n`. */
  lemma {:induction false} EffectsClean(fetch: string -> Option<string>, varId: string, infotable: string,
                                        names: seq<string>)
    requires Effects(fetch, varId, infotable, names).Success?
    ensures forall g :: g in Effects(fetch, varId, infotable, names).value ==>
      "rsid" !in g && forall k :: k in g ==> '\n' !in g[k]
    decreases |names|
  {
    if |names| > 0 {
      EffectsClean(fetch, varId, infotable, names[..|names| - 1]);
      var e := EffectOf(fetch, varId, infotable, names[|names| - 1]);
      if e.value.Some? {
        var alleles := GenoSearch(infotable, names[|names| - 1]).value;
        GenotypeTableLaws(fetch(GenotypeTitle(varId, alleles.0, alleles.1)).value);
      }
    }
  }

  /** `genotype_effects` yields at most three effects. */
  lemma GenotypeEffectsAtMostThree(fetch: string -> Option<string>, varId: string, infotable: string)
    requires Effects(fetch, varId, infotable, GenoNames).Success?
    ensures |Effects(fetch, varId, infotable, GenoNames).value| <= 3
  {
    EffectsAtMost(fetch, varId, infotable, GenoNames);
  }

  // ---------------------------------------------------------------------------
  // The effect text.

  /** `g.get("summary", "")` */
  function SummaryOf(g: Genotype): string {
    if "summary" in g then g["summary"] else ""
  }

  function Summaries(gs: seq<Genotype>): (r: seq<string>)
    ensures |r| == |gs| && forall i :: 0 <= i < |gs| ==> r[i] == SummaryOf(gs[i])
  {
    seq(|gs|, i requires 0 <= i < |gs| => SummaryOf(gs[i]))
  }

  /** `"\n".join(g.get("summary", "") for g in genotypes)` */
  function EffectText(gs: seq<Genotype>): string {
    Join(Summaries(gs), "\n")
  }

  /** The summaries can be read back from the effect text: splitting it at
      `\n` gives them again, since the values of the effects hold none. */
  lemma EffectTextSplits(fetch: string -> Option<string>, varId: string, infotable: string)
    requires Effects(fetch, varId, infotable, GenoNames).Success?
    requires |Effects(fetch, varId, infotable, GenoNames).value| > 0
    ensures var gs := Effects(fetch, varId, infotable, GenoNames).value;
      Split(EffectText(gs), '\n') == Summaries(gs)
  {
    var gs := Effects(fetch, varId, infotable, GenoNames).value;
    EffectsClean(fetch, varId, infotable, GenoNames);
    assert forall i :: 0 <= i < |gs| ==> '\n' !in Summaries(gs)[i] by {
      forall i | 0 <= i < |gs| ensures '\n' !in Summaries(gs)[i] {
        assert gs[i] in gs;
      }
    }
    SplitJoin(Summaries(gs), '\n');
  }
}
