/**
 * `search_dataset`: the lexical matcher. A document is a hit when one of its
 * designated fields contains the keyword as a whole word, ignoring case (the
 * pattern `\b<escaped keyword>\b` with `re.IGNORECASE`).
 *
 * Word characters (for `\b`) are the ASCII letters, digits and `_`; case is
 * ignored for the ASCII letters.
 */
module Lexical {
  import opened Wrappers
  import opened Text

  /** A support-solution article; its fields are read as strings with no
      `None` guard. */
  datatype Solution = Solution(id: int, kategori: string, subkategori: string, title: string, content: string)

  /** A regulation record; its text fields may be missing (`None`). */
  datatype Regulation = Regulation(id: int, judul: Option<string>, sumber: Option<string>, subjek: Option<string>)

  /** An entry of either sub-corpus. */
  datatype Document = Sol(solution: Solution) | Reg(regulation: Regulation) {
    function Id(): int {
      match this
      case Sol(s) => s.id
      case Reg(r) => r.id
    }
  }

  function SolDocs(sols: seq<Solution>): (ds: seq<Document>)
    ensures |ds| == |sols|
    ensures forall i | 0 <= i < |ds| :: ds[i] == Sol(sols[i])
  {
    seq(|sols|, i requires 0 <= i < |sols| => Sol(sols[i]))
  }

  function RegDocs(regs: seq<Regulation>): (ds: seq<Document>)
    ensures |ds| == |regs|
    ensures forall i | 0 <= i < |ds| :: ds[i] == Reg(regs[i])
  {
    seq(|regs|, i requires 0 <= i < |regs| => Reg(regs[i]))
  }

  // ---------------------------------------------------------------------
  // The whole-word, case-insensitive test

  predicate IsWordChar(c: char) {
    ('a' <= c <= 'z') || ('A' <= c <= 'Z') || ('0' <= c <= '9') || c == '_'
  }

  /** `\b` at position `p` of `t`: exactly one of the neighbours is a word character
      (a missing neighbour is not one). */
  predicate IsBoundary(t: string, p: nat)
    requires p <= |t|
  {
    (p > 0 && IsWordChar(t[p - 1])) != (p < |t| && IsWordChar(t[p]))
  }

  predicate EqualIgnoringCase(a: string, b: string) {
    |a| == |b| && forall i | 0 <= i < |a| :: ToLower(a[i]) == ToLower(b[i])
  }

  /** The pattern matches `t` starting at `p`. */
  predicate MatchAt(keyword: string, t: string, p: nat)
    requires p + |keyword| <= |t|
  {
    && EqualIgnoringCase(t[p..p + |keyword|], keyword)
    && IsBoundary(t, p)
    && IsBoundary(t, p + |keyword|)
  }

  /** The left-to-right search for a match starting at `p` or later. */
  predicate SearchFrom(t: string, keyword: string, p: nat)
    decreases |t| - p
  {
    if p + |keyword| > |t| then false
    else MatchAt(keyword, t, p) || SearchFrom(t, keyword, p + 1)
  }

  /** `re.search(r'\b' + re.escape(keyword) + r'\b', t, re.IGNORECASE)` finds a match. */
  predicate ContainsWord(t: string, keyword: string) {
    SearchFrom(t, keyword, 0)
  }

  /** The search from `p` succeeds exactly when the pattern matches at some
      position from `p` on. */
  lemma {:induction false} SearchFromFindsMatch(t: string, keyword: string, p: nat)
    ensures SearchFrom(t, keyword, p) <==>
      exists q: nat | p <= q && q + |keyword| <= |t| :: MatchAt(keyword, t, q)
    decreases |t| - p
  {
    if p + |keyword| <= |t| {
      SearchFromFindsMatch(t, keyword, p + 1);
      if SearchFrom(t, keyword, p + 1) {
        var q: nat :| p + 1 <= q && q + |keyword| <= |t| && MatchAt(keyword, t, q);
      }
      if exists q: nat | p <= q && q + |keyword| <= |t| :: MatchAt(keyword, t, q) {
        var q: nat :| p <= q && q + |keyword| <= |t| && MatchAt(keyword, t, q);
        if q != p {
          assert p + 1 <= q;
        }
      }
    }
  }

  /** `t` contains the keyword exactly when the pattern matches at some position. */
  lemma ContainsWordIff(t: string, keyword: string)
    ensures ContainsWord(t, keyword) <==> exists p: nat | p + |keyword| <= |t| :: MatchAt(keyword, t, p)
  {
    SearchFromFindsMatch(t, keyword, 0);
  }

  /** The field tests of lines 134-137 and 144-150. */
  predicate Matches(keyword: string, d: Document) {
    match d
    case Sol(s) =>
      ContainsWord(s.kategori, keyword) || ContainsWord(s.subkategori, keyword)
      || ContainsWord(s.title, keyword) || ContainsWord(s.content, keyword)
    case Reg(r) =>
      ContainsWord(OrEmpty(r.judul), keyword) || ContainsWord(OrEmpty(r.sumber), keyword)
      || ContainsWord(OrEmpty(r.subjek), keyword)
  }

  /** For a keyword that starts and ends with a word character, a match is an
      occurrence (ignoring case) whose neighbours, where present, are not word
      characters. */
  lemma WholeWordMatch(keyword: string, t: string, p: nat)
    requires keyword != [] && IsWordChar(keyword[0]) && IsWordChar(keyword[|keyword| - 1])
    requires p + |keyword| <= |t|
    ensures MatchAt(keyword, t, p) <==>
      && EqualIgnoringCase(t[p..p + |keyword|], keyword)
      && (p == 0 || !IsWordChar(t[p - 1]))
      && (p + |keyword| == |t| || !IsWordChar(t[p + |keyword|]))
  {
    var n := |keyword|;
    if EqualIgnoringCase(t[p..p + n], keyword) {
      assert ToLower(t[p]) == ToLower(keyword[0]) by { assert t[p..p + n][0] == t[p]; }
      assert ToLower(t[p + n - 1]) == ToLower(keyword[n - 1]) by { assert t[p..p + n][n - 1] == t[p + n - 1]; }
      WordCharIgnoresCase(t[p], keyword[0]);
      WordCharIgnoresCase(t[p + n - 1], keyword[n - 1]);
    }
  }

  lemma WordCharIgnoresCase(a: char, b: char)
    requires ToLower(a) == ToLower(b)
    ensures IsWordChar(a) == IsWordChar(b)
  {
  }

  /** A keyword is not found inside a longer word: "pajak" is not in "pajaknya". */
  lemma NoMatchInsideWord()
    ensures !ContainsWord("pajaknya", "pajak")
    ensures ContainsWord("Pajak daerah", "pajak")
  {
    var t, k := "pajaknya", "pajak";
    forall p: nat | p + |k| <= |t| ensures !MatchAt(k, t, p) {
      if p == 0 {
        assert !IsBoundary(t, 5);
      } else {
        assert t[p..p + 5][4] == t[p + 4];
        assert ToLower(t[p + 4]) != ToLower(k[4]);
      }
    }
    var u := "Pajak daerah";
    assert u[0..5] == "Pajak";
    assert MatchAt(k, u, 0);
  }

  // ---------------------------------------------------------------------
  // The scan

  /** The documents of `docs` that match, in corpus order. */
  function Hits(keyword: string, docs: seq<Document>): (hs: seq<Document>)
    ensures |hs| <= |docs|
  {
    if docs == [] then []
    else
      var last := docs[|docs| - 1];
      Hits(keyword, docs[..|docs| - 1]) + (if Matches(keyword, last) then [last] else [])
  }

  /** A document is a hit exactly when it is in the corpus and matches. */
  lemma {:induction false} HitsExactly(keyword: string, docs: seq<Document>, d: Document)
    ensures d in Hits(keyword, docs) <==> d in docs && Matches(keyword, d)
  {
    if docs != [] {
      var init := docs[..|docs| - 1];
      HitsExactly(keyword, init, d);
      assert docs == init + [docs[|docs| - 1]];
    }
  }

  /** Scanning two stretches of a corpus one after the other. */
  lemma {:induction false} HitsAppend(keyword: string, a: seq<Document>, b: seq<Document>)
    ensures Hits(keyword, a + b) == Hits(keyword, a) + Hits(keyword, b)
    decreases |b|
  {
    if b == [] {
      assert a + b == a;
    } else {
      var init, last := b[..|b| - 1], b[|b| - 1];
      assert (a + b)[..|a + b| - 1] == a + init;
      assert (a + b)[|a + b| - 1] == last;
      HitsAppend(keyword, a, init);
      var tail := if Matches(keyword, last) then [last] else [];
      assert Hits(keyword, a + b) == Hits(keyword, a + init) + tail;
      assert Hits(keyword, b) == Hits(keyword, init) + tail;
    }
  }

  lemma HitsSnoc(keyword: string, ds: seq<Document>, d: Document)
    ensures Hits(keyword, ds + [d]) == Hits(keyword, ds) + (if Matches(keyword, d) then [d] else [])
  {
    assert (ds + [d])[..|ds|] == ds;
  }

  /** The result of the `len(results) == max_results` cut-off on a list of hits:
      the first `n` of them when `1 <= n`, all of them otherwise. */
  function Cap(hs: seq<Document>, n: int): (r: seq<Document>)
    ensures 1 <= n ==> |r| <= n
    ensures 1 <= n < |hs| ==> |r| == n
    ensures r <= hs
    ensures n < 1 || |hs| <= n ==> r == hs
  {
    if 1 <= n < |hs| then hs[..n] else hs
  }

  /** What `search_dataset(keyword, max_results)` returns: the solution hits
      cut off at `max_results`, then the regulation hits cut off once the whole
      list reaches `max_results`. */
  function LexicalResults(keyword: string, sols: seq<Solution>, regs: seq<Regulation>, maxResults: int): seq<Document> {
    var solPart := Cap(Hits(keyword, SolDocs(sols)), maxResults);
    solPart + Cap(Hits(keyword, RegDocs(regs)), maxResults - |solPart|)
  }

  lemma CapOfFilledPrefix(a: seq<Document>, b: seq<Document>, n: int)
    requires 1 <= n && |a| == n
    ensures Cap(a + b, n) == a
  {
    assert (a + b)[..n] == a;
  }

  lemma SolDocsSplit(sols: seq<Solution>, i: nat)
    requires i <= |sols|
    ensures SolDocs(sols) == SolDocs(sols[..i]) + SolDocs(sols[i..])
  {
  }

  /** One more regulation scanned. */
  lemma RegHitsSnoc(keyword: string, regs: seq<Regulation>, j: nat)
    requires j < |regs|
    ensures Hits(keyword, RegDocs(regs[..j + 1]))
      == Hits(keyword, RegDocs(regs[..j])) + (if Matches(keyword, Reg(regs[j])) then [Reg(regs[j])] else [])
  {
    assert RegDocs(regs[..j + 1]) == RegDocs(regs[..j]) + [Reg(regs[j])];
    HitsSnoc(keyword, RegDocs(regs[..j]), Reg(regs[j]));
  }

  /** One more solution scanned. */
  lemma SolHitsSnoc(keyword: string, sols: seq<Solution>, i: nat)
    requires i < |sols|
    ensures Hits(keyword, SolDocs(sols[..i + 1]))
      == Hits(keyword, SolDocs(sols[..i])) + (if Matches(keyword, Sol(sols[i])) then [Sol(sols[i])] else [])
  {
    assert SolDocs(sols[..i + 1]) == SolDocs(sols[..i]) + [Sol(sols[i])];
    HitsSnoc(keyword, SolDocs(sols[..i]), Sol(sols[i]));
  }

  lemma RegDocsSplit(regs: seq<Regulation>, i: nat)
    requires i <= |regs|
    ensures RegDocs(regs) == RegDocs(regs[..i]) + RegDocs(regs[i..])
  {
  }

  /** The field test of the solution loop: category, subcategory, title, content. */
  method MatchSolution(keyword: string, entry: Solution) returns (hit: bool)
    ensures hit <==>
      || (exists p: nat | p + |keyword| <= |entry.kategori| :: MatchAt(keyword, entry.kategori, p))
      || (exists p: nat | p + |keyword| <= |entry.subkategori| :: MatchAt(keyword, entry.subkategori, p))
      || (exists p: nat | p + |keyword| <= |entry.title| :: MatchAt(keyword, entry.title, p))
      || (exists p: nat | p + |keyword| <= |entry.content| :: MatchAt(keyword, entry.content, p))
    ensures hit == Matches(keyword, Sol(entry))
  {
    ContainsWordIff(entry.kategori, keyword);
    ContainsWordIff(entry.subkategori, keyword);
    ContainsWordIff(entry.title, keyword);
    ContainsWordIff(entry.content, keyword);
    hit := ContainsWord(entry.kategori, keyword) || ContainsWord(entry.subkategori, keyword)
      || ContainsWord(entry.title, keyword) || ContainsWord(entry.content, keyword);
  }

  /** The field test of the regulation loop: each missing field reads as `''`. */
  method MatchRegulation(keyword: string, entry: Regulation) returns (hit: bool)
    ensures var judul, sumber, subjek := OrEmpty(entry.judul), OrEmpty(entry.sumber), OrEmpty(entry.subjek);
      hit <==>
      || (exists p: nat | p + |keyword| <= |judul| :: MatchAt(keyword, judul, p))
      || (exists p: nat | p + |keyword| <= |sumber| :: MatchAt(keyword, sumber, p))
      || (exists p: nat | p + |keyword| <= |subjek| :: MatchAt(keyword, subjek, p))
    ensures hit == Matches(keyword, Reg(entry))
  {
    var sumber := OrEmpty(entry.sumber);
    var subjek := OrEmpty(entry.subjek);
    var judul := OrEmpty(entry.judul);
    ContainsWordIff(judul, keyword);
    ContainsWordIff(sumber, keyword);
    ContainsWordIff(subjek, keyword);
    hit := ContainsWord(judul, keyword) || ContainsWord(sumber, keyword) || ContainsWord(subjek, keyword);
  }

  /** The solution scan stops after entry `i` once the list is full: the list is
      then the capped hits of the whole corpus. */
  lemma FilledSolutionScan(keyword: string, sols: seq<Solution>, i: nat, results: seq<Document>, maxResults: int)
    requires i < |sols|
    requires results == Hits(keyword, SolDocs(sols[..i + 1]))
    requires |results| == maxResults && results != []
    ensures results == Cap(Hits(keyword, SolDocs(sols)), maxResults)
  {
    var rest := Hits(keyword, SolDocs(sols[i + 1..]));
    SolDocsSplit(sols, i + 1);
    HitsAppend(keyword, SolDocs(sols[..i + 1]), SolDocs(sols[i + 1..]));
    CapOfFilledPrefix(results, rest, maxResults);
  }

  /** The regulation scan stops after entry `j` once the list is full. */
  lemma FilledRegulationScan(keyword: string, regs: seq<Regulation>, j: nat, prefix: seq<Document>,
                             results: seq<Document>, maxResults: int)
    requires j < |regs|
    requires results == prefix + Hits(keyword, RegDocs(regs[..j + 1]))
    requires |results| == maxResults && |prefix| < maxResults
    ensures results == prefix + Cap(Hits(keyword, RegDocs(regs)), maxResults - |prefix|)
  {
    var next := Hits(keyword, RegDocs(regs[..j + 1]));
    var rest := Hits(keyword, RegDocs(regs[j + 1..]));
    RegDocsSplit(regs, j + 1);
    HitsAppend(keyword, RegDocs(regs[..j + 1]), RegDocs(regs[j + 1..]));
    CapOfFilledPrefix(next, rest, maxResults - |prefix|);
  }

  /** `search_dataset`: scan the solutions, then the regulations, appending
      every hit and stopping a scan when the list holds exactly `maxResults`. */
  method SearchDataset(keyword: string, sols: seq<Solution>, regs: seq<Regulation>, maxResults: int)
    returns (results: seq<Document>)
    ensures results == LexicalResults(keyword, sols, regs, maxResults)
  {
    results := ScanSolutions(keyword, sols, maxResults);
    results := ScanRegulations(keyword, regs, results, maxResults);
  }

  /** The loop over `solutions_data`, starting from an empty list. */
  method ScanSolutions(keyword: string, sols: seq<Solution>, maxResults: int)
    returns (results: seq<Document>)
    ensures results == Cap(Hits(keyword, SolDocs(sols)), maxResults)
  {
    results := [];
    var i := 0;
    while i < |sols|
      invariant 0 <= i <= |sols|
      invariant results == Hits(keyword, SolDocs(sols[..i]))
      invariant maxResults >= 1 ==> |results| < maxResults
    {
      var entry := sols[i];
      SolHitsSnoc(keyword, sols, i);
      var hit := MatchSolution(keyword, entry);
      ghost var next := Hits(keyword, SolDocs(sols[..i + 1]));
      if hit {
        results := results + [Sol(entry)];
        assert results == next;
        if |results| == maxResults {
          FilledSolutionScan(keyword, sols, i, results, maxResults);
          break;
        }
      }
      assert results == next;
      i := i + 1;
    }
    assert i == |sols| ==> sols[..i] == sols;
  }

  /** The loop over `api_knowledge_jdih_data`, appending to the list `prefix`
      that the solution scan produced; missing fields read as `''`. */
  method ScanRegulations(keyword: string, regs: seq<Regulation>, prefix: seq<Document>, maxResults: int)
    returns (results: seq<Document>)
    ensures results == prefix + Cap(Hits(keyword, RegDocs(regs)), maxResults - |prefix|)
  {
    results := prefix;
    var j := 0;
    while j < |regs|
      invariant 0 <= j <= |regs|
      invariant results == prefix + Hits(keyword, RegDocs(regs[..j]))
      invariant |prefix| < maxResults ==> |results| < maxResults
      invariant |prefix| >= maxResults ==> |results| >= maxResults
    {
      var entry := regs[j];
      RegHitsSnoc(keyword, regs, j);
      var hit := MatchRegulation(keyword, entry);
      ghost var next := Hits(keyword, RegDocs(regs[..j + 1]));
      if hit {
        results := results + [Reg(entry)];
        assert results == prefix + next;
        if |results| == maxResults {
          FilledRegulationScan(keyword, regs, j, prefix, results, maxResults);
          break;
        }
      }
      assert results == prefix + next;
      j := j + 1;
    }
    assert j == |regs| ==> regs[..j] == regs;
  }

  // ---------------------------------------------------------------------
  // What the scan returns

  /** Every returned entry matches and comes from its sub-corpus. */
  lemma SearchSound(keyword: string, sols: seq<Solution>, regs: seq<Regulation>, maxResults: int, d: Document)
    requires d in LexicalResults(keyword, sols, regs, maxResults)
    ensures Matches(keyword, d)
    ensures d.Sol? ==> d.solution in sols
    ensures d.Reg? ==> d.regulation in regs
  {
    var solHits, regHits := Hits(keyword, SolDocs(sols)), Hits(keyword, RegDocs(regs));
    var solPart := Cap(solHits, maxResults);
    if d in solPart {
      assert d in solHits;
      HitsExactly(keyword, SolDocs(sols), d);
      var i :| 0 <= i < |sols| && SolDocs(sols)[i] == d;
    } else {
      assert d in Cap(regHits, maxResults - |solPart|);
      assert d in regHits;
      HitsExactly(keyword, RegDocs(regs), d);
      var i :| 0 <= i < |regs| && RegDocs(regs)[i] == d;
    }
  }

  /** A capped list of hits is the list of hits of a prefix of the corpus, a
      prefix that stops short of the end only once it holds `n` hits. */
  lemma {:induction false} CapIsPrefixScan(keyword: string, ds: seq<Document>, n: int) returns (a: nat)
    ensures a <= |ds|
    ensures Cap(Hits(keyword, ds), n) == Hits(keyword, ds[..a])
    ensures a < |ds| ==> |Hits(keyword, ds[..a])| == n
  {
    if n < 1 || |Hits(keyword, ds)| <= n {
      a := |ds|;
      assert ds[..a] == ds;
    } else {
      var init := ds[..|ds| - 1];
      assert ds == init + [ds[|ds| - 1]];
      HitsSnoc(keyword, init, ds[|ds| - 1]);
      var h := Hits(keyword, init);
      if |h| == n {
        a := |init|;
        assert ds[..a] == init;
        assert Hits(keyword, ds)[..n] == h;
      } else {
        a := CapIsPrefixScan(keyword, init, n);
        assert init[..a] == ds[..a];
        assert Hits(keyword, ds)[..n] == h[..n];
      }
    }
  }

  lemma SolutionScanPrefix(keyword: string, sols: seq<Solution>, n: int) returns (a: nat)
    ensures a <= |sols|
    ensures Cap(Hits(keyword, SolDocs(sols)), n) == Hits(keyword, SolDocs(sols[..a]))
    ensures a < |sols| ==> |Hits(keyword, SolDocs(sols[..a]))| == n
  {
    a := CapIsPrefixScan(keyword, SolDocs(sols), n);
    assert SolDocs(sols)[..a] == SolDocs(sols[..a]);
  }

  lemma RegulationScanPrefix(keyword: string, regs: seq<Regulation>, n: int) returns (b: nat)
    ensures b <= |regs|
    ensures Cap(Hits(keyword, RegDocs(regs)), n) == Hits(keyword, RegDocs(regs[..b]))
    ensures b < |regs| ==> |Hits(keyword, RegDocs(regs[..b]))| == n
  {
    b := CapIsPrefixScan(keyword, RegDocs(regs), n);
    assert RegDocs(regs)[..b] == RegDocs(regs[..b]);
  }

  /** The result is the hits of a prefix of the solutions followed by the hits
      of a prefix of the regulations: entries keep corpus order, and every entry
      skipped before a scan stops matches none of its fields. */
  lemma SearchScansPrefixes(keyword: string, sols: seq<Solution>, regs: seq<Regulation>, maxResults: int)
    ensures exists a: nat, b: nat | a <= |sols| && b <= |regs| ::
      && LexicalResults(keyword, sols, regs, maxResults)
           == Hits(keyword, SolDocs(sols[..a])) + Hits(keyword, RegDocs(regs[..b]))
      && (a < |sols| ==> |Hits(keyword, SolDocs(sols[..a]))| == maxResults)
      && (b < |regs| ==> |LexicalResults(keyword, sols, regs, maxResults)| == maxResults)
  {
    var solPart := Cap(Hits(keyword, SolDocs(sols)), maxResults);
    var a := SolutionScanPrefix(keyword, sols, maxResults);
    var b := RegulationScanPrefix(keyword, regs, maxResults - |solPart|);
    assert LexicalResults(keyword, sols, regs, maxResults)
      == Hits(keyword, SolDocs(sols[..a])) + Hits(keyword, RegDocs(regs[..b]));
  }

  /** Solution entries come first, and there are at most `maxResults` of them. */
  lemma SearchSolutionsFirst(keyword: string, sols: seq<Solution>, regs: seq<Regulation>, maxResults: int)
    ensures var r := LexicalResults(keyword, sols, regs, maxResults);
      forall i, j | 0 <= i < j < |r| :: r[j].Sol? ==> r[i].Sol?
    ensures var r := LexicalResults(keyword, sols, regs, maxResults);
      forall i | 0 <= i < |r| && r[i].Sol? :: maxResults < 1 || i < maxResults
  {
    var r := LexicalResults(keyword, sols, regs, maxResults);
    var solHits, regHits := Hits(keyword, SolDocs(sols)), Hits(keyword, RegDocs(regs));
    var solPart := Cap(solHits, maxResults);
    var regPart := Cap(regHits, maxResults - |solPart|);
    forall i | 0 <= i < |solPart| ensures solPart[i].Sol? {
      assert solPart[i] in solHits;
      HitsExactly(keyword, SolDocs(sols), solPart[i]);
    }
    forall i | 0 <= i < |regPart| ensures regPart[i].Reg? {
      assert regPart[i] in regHits;
      HitsExactly(keyword, RegDocs(regs), regPart[i]);
    }
  }

  /** While the solutions leave room, the whole result respects `maxResults`. */
  lemma SearchBoundedWhenRoomLeft(keyword: string, sols: seq<Solution>, regs: seq<Regulation>, maxResults: int)
    requires |Hits(keyword, SolDocs(sols))| < maxResults
    ensures |LexicalResults(keyword, sols, regs, maxResults)| <= maxResults
  {
  }

  /** `len(results) == max_results` never holds again once the solutions have
      filled the list: every matching regulation is appended after it. */
  lemma SearchOverflowsWhenSolutionsFill(keyword: string, sols: seq<Solution>, regs: seq<Regulation>, maxResults: int)
    requires 1 <= maxResults <= |Hits(keyword, SolDocs(sols))|
    ensures LexicalResults(keyword, sols, regs, maxResults)
      == Hits(keyword, SolDocs(sols))[..maxResults] + Hits(keyword, RegDocs(regs))
  {
    var solHits := Hits(keyword, SolDocs(sols));
    var solPart := Cap(solHits, maxResults);
    assert solPart == solHits[..maxResults];
    assert |solPart| == maxResults;
    assert Cap(Hits(keyword, RegDocs(regs)), 0) == Hits(keyword, RegDocs(regs));
  }

  /** A `max_results` below 1 is never reached: nothing is cut off. */
  lemma SearchUncappedBelowOne(keyword: string, sols: seq<Solution>, regs: seq<Regulation>, maxResults: int)
    requires maxResults < 1
    ensures LexicalResults(keyword, sols, regs, maxResults)
      == Hits(keyword, SolDocs(sols)) + Hits(keyword, RegDocs(regs))
  {
  }

  lemma PajakAtStart(t: string)
    requires |t| >= 5 && t[..5] == "pajak" && (|t| == 5 || t[5] == ' ')
    ensures ContainsWord(t, "pajak")
  {
    assert t[0..5] == "pajak";
    assert MatchAt("pajak", t, 0);
  }

  /** A cut-off of 1 filled by a single matching solution lets a single
      matching regulation through. */
  lemma OverflowOfSingles(keyword: string, sol: Solution, reg: Regulation)
    requires Matches(keyword, Sol(sol)) && Matches(keyword, Reg(reg))
    ensures LexicalResults(keyword, [sol], [reg], 1) == [Sol(sol), Reg(reg)]
  {
    var solHits := Hits(keyword, SolDocs([sol]));
    var regHits := Hits(keyword, RegDocs([reg]));
    assert solHits == [Sol(sol)] by {
      assert SolDocs([sol]) == [] + [Sol(sol)];
      HitsSnoc(keyword, [], Sol(sol));
    }
    assert regHits == [Reg(reg)] by {
      assert RegDocs([reg]) == [] + [Reg(reg)];
      HitsSnoc(keyword, [], Reg(reg));
    }
    assert Cap(solHits, 1) == [Sol(sol)];
    assert Cap(regHits, 0) == [Reg(reg)];
  }

  /** One matching solution fills `max_results = 1`, and the matching
      regulation is still returned: two results. */
  lemma SearchOverflowExample()
    ensures var sol := Solution(1, "pajak", "", "", "");
      var reg := Regulation(2, Some("pajak daerah"), None, None);
      LexicalResults("pajak", [sol], [reg], 1) == [Sol(sol), Reg(reg)]
  {
    var sol := Solution(1, "pajak", "", "", "");
    var reg := Regulation(2, Some("pajak daerah"), None, None);
    PajakAtStart("pajak");
    assert "pajak daerah"[..5] == "pajak";
    PajakAtStart("pajak daerah");
    OverflowOfSingles("pajak", sol, reg);
  }
}
