/** The PubMed references of a SNPedia page in scripts/snpedia_to_disease.py:
    every `PMID` followed by a space, `|` or `=` and a run of digits, found
    by `re.findall(r"PMID[ |=](\d+)", content)` and written as
    `pubmed/<digits>`. */
module SnpediaPmids {
  import opened Text

  const PubmedPrefix := "pubmed/"

  /** `[ |=]` */
  predicate IsPmidSeparator(c: char) {
    c == ' ' || c == '|' || c == '='
  }

  /** The pattern matches at `p`: `PMID`, a separator, then at least one
      digit. */
  predicate PmidAt(s: string, p: nat) {
    p + 6 <= |s| && s[p..p + 4] == "PMID" && IsPmidSeparator(s[p + 4]) && IsDigit(s[p + 5])
  }

  /** The length of the run of digits from `p`: `\d+` is greedy. */
  function DigitRun(s: string, p: nat): (n: nat)
    requires p <= |s|
    ensures p + n <= |s|
    ensures forall i :: p <= i < p + n ==> IsDigit(s[i])
    ensures p + n == |s| || !IsDigit(s[p + n])
    decreases |s| - p
  {
    if p < |s| && IsDigit(s[p]) then 1 + DigitRun(s, p + 1) else 0
  }

  /** Where the match at `p` ends. */
  function MatchEnd(s: string, p: nat): (e: nat)
    requires PmidAt(s, p)
    ensures p + 6 <= e <= |s|
  {
    p + 5 + DigitRun(s, p + 5)
  }

  /** The reference written for the match at `p`. */
  function RefAt(s: string, p: nat): string
    requires PmidAt(s, p)
  {
    PubmedPrefix + s[p + 5..MatchEnd(s, p)]
  }

  /** `findall` from `p`: after a match the scan goes on where it ended,
      elsewhere one character further. */
  function Scan(s: string, p: nat): seq<string>
    requires p <= |s|
    decreases |s| - p
  {
    if p == |s| then []
    else if PmidAt(s, p) then [RefAt(s, p)] + Scan(s, MatchEnd(s, p))
    else Scan(s, p + 1)
  }

  /** `["pubmed/%s" % p for p in re.findall(pmid_re, content)]` */
  function Pmids(content: string): seq<string> {
    Scan(content, 0)
  }

  /** The reference definition: a reference for every position where the
      pattern matches, in order of position. */
  function EveryMatch(s: string, p: nat): seq<string>
    requires p <= |s|
    decreases |s| - p
  {
    if p == |s| then []
    else (if PmidAt(s, p) then [RefAt(s, p)] else []) + EveryMatch(s, p + 1)
  }

  /** No match starts inside another: its characters after the first are
      `MID`, a separator and digits, none of them a `P`. */
  lemma NoMatchInside(s: string, p: nat, q: nat)
    requires PmidAt(s, p) && p < q < MatchEnd(s, p)
    ensures !PmidAt(s, q)
  {
    var t := s[p..p + 4];
    assert s[p + 1] == t[1] && s[p + 2] == t[2] && s[p + 3] == t[3];
    if q + 4 <= |s| {
      assert s[q..q + 4][0] == s[q];
    }
  }

  /** Between a match and its end nothing else matches, so the reference
      lists nothing there. */
  lemma {:induction false} EveryMatchSkip(s: string, p: nat, q: nat)
    requires PmidAt(s, p) && p < q <= MatchEnd(s, p)
    ensures EveryMatch(s, q) == EveryMatch(s, MatchEnd(s, p))
    decreases MatchEnd(s, p) - q
  {
    if q < MatchEnd(s, p) {
      NoMatchInside(s, p, q);
      EveryMatchSkip(s, p, q + 1);
      assert EveryMatch(s, q) == [] + EveryMatch(s, q + 1);
    }
  }

  /** The scan that skips over each match finds the same references as the
      reference definition: every match of the text, in order. */
  lemma {:induction false} ScanFindsEveryMatch(s: string, p: nat)
    requires p <= |s|
    ensures Scan(s, p) == EveryMatch(s, p)
    decreases |s| - p
  {
    if p < |s| {
      if PmidAt(s, p) {
        ScanFindsEveryMatch(s, MatchEnd(s, p));
        EveryMatchSkip(s, p, p + 1);
      } else {
        ScanFindsEveryMatch(s, p + 1);
        assert EveryMatch(s, p) == [] + EveryMatch(s, p + 1);
      }
    }
  }

  /** Each reference is `pubmed/` followed by the whole run of digits after
      `PMID` and a separator. */
  lemma {:induction false} EveryMatchShape(s: string, p: nat)
    requires p <= |s|
    ensures forall r :: r in EveryMatch(s, p) ==> exists q :: p <= q < |s| && PmidAt(s, q) && r == RefAt(s, q)
    decreases |s| - p
  {
    if p < |s| {
      EveryMatchShape(s, p + 1);
    }
  }

  /** Every reference found starts with `pubmed/` and goes on with at least
      one digit and nothing but digits; each comes from a match of the text,
      and every match gives one. */
  lemma PmidsLaws(content: string)
    ensures forall r :: r in Pmids(content) ==>
      StartsWith(r, PubmedPrefix) && |r| > |PubmedPrefix| &&
      forall i :: |PubmedPrefix| <= i < |r| ==> IsDigit(r[i])
    ensures forall q :: 0 <= q < |content| && PmidAt(content, q) ==> RefAt(content, q) in Pmids(content)
  {
    ScanFindsEveryMatch(content, 0);
    EveryMatchShape(content, 0);
    forall r | r in Pmids(content) ensures StartsWith(r, PubmedPrefix) && |r| > |PubmedPrefix| &&
      forall i :: |PubmedPrefix| <= i < |r| ==> IsDigit(r[i])
    {
      var q :| 0 <= q < |content| && PmidAt(content, q) && r == RefAt(content, q);
      RefShape(content, q);
    }
    forall q | 0 <= q < |content| && PmidAt(content, q) ensures RefAt(content, q) in Pmids(content) {
      EveryMatchHas(content, 0, q);
    }
  }

  /** The reference of one match is `pubmed/` and the match's digits. */
  lemma RefShape(s: string, q: nat)
    requires PmidAt(s, q)
    ensures var r := RefAt(s, q);
      StartsWith(r, PubmedPrefix) && |r| > |PubmedPrefix| &&
      forall i :: |PubmedPrefix| <= i < |r| ==> IsDigit(r[i])
  {
    var r := RefAt(s, q);
    assert r[..|PubmedPrefix|] == PubmedPrefix;
    forall i | |PubmedPrefix| <= i < |r| ensures IsDigit(r[i]) {
      assert r[i] == s[q + 5 + i - |PubmedPrefix|];
    }
  }

  lemma {:induction false} EveryMatchHas(s: string, p: nat, q: nat)
    requires p <= q < |s| && PmidAt(s, q)
    ensures RefAt(s, q) in EveryMatch(s, p)
    decreases q - p
  {
    if p < q {
      EveryMatchHas(s, p + 1, q);
    }
  }
}
