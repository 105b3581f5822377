/**
 * The ranking and cross-corpus selection at the end of `search`: each
 * sub-corpus is sorted by score, highest first, with Python's stable
 * `sorted(..., reverse=True)`, and the first `top_n` entries of the sub-corpus
 * with the higher top score are returned (solutions on a tie).
 *
 * Scores are given, one per document; they stand for the cosine similarity of
 * the query embedding and the document embedding.
 */
module Ranking {
  import opened Lexical

  /** `{'data': item, 'score': score}` for the entry at index `pos` of its
      sub-corpus. */
  datatype Scored<T> = Scored(pos: nat, item: T, score: int)

  function Enumerate<T>(items: seq<T>, scores: seq<int>): (r: seq<Scored<T>>)
    requires |items| == |scores|
    ensures |r| == |items|
    ensures forall i | 0 <= i < |r| :: r[i] == Scored(i, items[i], scores[i])
  {
    seq(|items|, i requires 0 <= i < |items| => Scored(i, items[i], scores[i]))
  }

  /** `a` comes before `b` in a stable sort by descending score. */
  predicate Precedes<T>(a: Scored<T>, b: Scored<T>) {
    a.score > b.score || (a.score == b.score && a.pos < b.pos)
  }

  predicate RankedOrder<T>(r: seq<Scored<T>>) {
    forall i, j | 0 <= i < j < |r| :: Precedes(r[i], r[j])
  }

  predicate PositionsIncrease<T>(s: seq<Scored<T>>) {
    forall i, j | 0 <= i < j < |s| :: s[i].pos < s[j].pos
  }

  /** Inserts `x` before the first entry whose score is not above its own. */
  function Insert<T(==)>(x: Scored<T>, r: seq<Scored<T>>): (out: seq<Scored<T>>)
    ensures multiset(out) == multiset(r) + multiset{x}
  {
    if r == [] || x.score >= r[0].score then [x] + r
    else
      assert r == [r[0]] + r[1..];
      [r[0]] + Insert(x, r[1..])
  }

  /** `sorted(s, key=lambda x: x['score'], reverse=True)`. */
  function SortByScore<T(==)>(s: seq<Scored<T>>): (r: seq<Scored<T>>)
    ensures multiset(r) == multiset(s)
  {
    if s == [] then []
    else
      assert s == [s[0]] + s[1..];
      Insert(s[0], SortByScore(s[1..]))
  }

  lemma {:induction false} InsertKeepsOrder<T>(x: Scored<T>, r: seq<Scored<T>>)
    requires RankedOrder(r)
    requires forall e | e in r :: x.pos < e.pos
    ensures RankedOrder(Insert(x, r))
  {
    if r == [] || x.score >= r[0].score {
      assert forall j | 0 <= j < |r| :: r[0].score >= r[j].score by {
        forall j | 0 < j < |r| ensures r[0].score >= r[j].score {
          assert Precedes(r[0], r[j]);
        }
      }
      forall j | 0 <= j < |r| ensures Precedes(x, r[j]) {
        assert r[j] in r;
      }
    } else {
      var tail := Insert(x, r[1..]);
      forall e | e in r[1..] ensures x.pos < e.pos { assert e in r; }
      InsertKeepsOrder(x, r[1..]);
      forall j | 0 <= j < |tail| ensures Precedes(r[0], tail[j]) {
        assert tail[j] in multiset(tail);
        if tail[j] != x {
          assert tail[j] in multiset(r[1..]);
          var k :| 0 <= k < |r[1..]| && r[1..][k] == tail[j];
          assert Precedes(r[0], r[k + 1]);
        }
      }
      var out := [r[0]] + tail;
      forall i, j | 0 <= i < j < |out| ensures Precedes(out[i], out[j]) {
        if i == 0 {
          assert Precedes(r[0], tail[j - 1]);
        } else {
          assert Precedes(tail[i - 1], tail[j - 1]);
        }
      }
    }
  }

  /** Sorting entries listed in position order gives a stable descending order. */
  lemma {:induction false} SortIsStableDescending<T>(s: seq<Scored<T>>)
    requires PositionsIncrease(s)
    ensures RankedOrder(SortByScore(s))
  {
    if s != [] {
      var rest := SortByScore(s[1..]);
      SortIsStableDescending(s[1..]);
      forall e | e in rest ensures s[0].pos < e.pos {
        assert e in multiset(s[1..]);
        var k :| 0 <= k < |s[1..]| && s[1..][k] == e;
        assert s[k + 1] == e;
      }
      InsertKeepsOrder(s[0], rest);
    }
  }

  /** The ranked order of one sub-corpus. */
  function Rank<T(==)>(items: seq<T>, scores: seq<int>): (r: seq<Scored<T>>)
    requires |items| == |scores|
    ensures multiset(r) == multiset(Enumerate(items, scores))
    ensures |r| == |items|
  {
    var e := Enumerate(items, scores);
    assert |multiset(SortByScore(e))| == |multiset(e)|;
    SortByScore(e)
  }

  function MaxScore(scores: seq<int>): (m: int)
    requires scores != []
    ensures m in scores
    ensures forall i | 0 <= i < |scores| :: scores[i] <= m
  {
    if |scores| == 1 then scores[0]
    else
      var m' := MaxScore(scores[1..]);
      assert forall i | 1 <= i < |scores| :: scores[i] == scores[1..][i - 1];
      if scores[0] >= m' then scores[0] else m'
  }

  /** A ranking lists every entry of the sub-corpus exactly once, with its own
      score, in stable descending order of score. */
  lemma RankIsStableSort<T>(items: seq<T>, scores: seq<int>)
    requires |items| == |scores|
    ensures var r := Rank(items, scores);
      && RankedOrder(r)
      && (forall e | e in r :: e.pos < |items| && e.item == items[e.pos] && e.score == scores[e.pos])
      && (forall k | 0 <= k < |items| :: Scored(k, items[k], scores[k]) in r)
  {
    var e := Enumerate(items, scores);
    var r := Rank(items, scores);
    SortIsStableDescending(e);
    forall x | x in r ensures x.pos < |items| && x.item == items[x.pos] && x.score == scores[x.pos] {
      assert x in multiset(e);
    }
    forall k | 0 <= k < |items| ensures Scored(k, items[k], scores[k]) in r {
      assert e[k] in multiset(r);
    }
  }

  /** The first entry of a ranking carries the highest score. */
  lemma RankTopIsMax<T>(items: seq<T>, scores: seq<int>)
    requires |items| == |scores| && items != []
    ensures Rank(items, scores)[0].score == MaxScore(scores)
  {
    var r := Rank(items, scores);
    RankIsStableSort(items, scores);
    var m := MaxScore(scores);
    var k :| 0 <= k < |scores| && scores[k] == m;
    assert Scored(k, items[k], scores[k]) in r;
    var j :| 0 <= j < |r| && r[j] == Scored(k, items[k], scores[k]);
    if j != 0 {
      assert Precedes(r[0], r[j]);
    }
    assert r[0] in r;
  }

  /** Python's `s[:n]`, negative `n` counting from the end. */
  function PyPrefix<T>(s: seq<T>, n: int): (r: seq<T>)
    ensures r <= s
    ensures 0 <= n ==> |r| == if n < |s| then n else |s|
    ensures n < 0 ==> |r| == if |s| + n > 0 then |s| + n else 0
  {
    var k := if n >= 0 then (if n < |s| then n else |s|) else (if |s| + n > 0 then |s| + n else 0);
    s[..k]
  }

  /** A prefix of a ranking is ranked, and each of its entries comes before
      every entry of the ranking that it leaves out. */
  lemma PrefixOfRanking<T>(r: seq<Scored<T>>, n: int)
    requires RankedOrder(r)
    ensures RankedOrder(PyPrefix(r, n))
    ensures forall e, f | e in PyPrefix(r, n) && f in r && f !in PyPrefix(r, n) :: Precedes(e, f)
  {
    var p := PyPrefix(r, n);
    forall e, f | e in p && f in r && f !in p ensures Precedes(e, f) {
      var i :| 0 <= i < |p| && p[i] == e;
      var j :| 0 <= j < |r| && r[j] == f;
      assert r[i] == e;
    }
  }

  /** The sub-corpus that `search` returns from: solutions when their top
      score is at least that of the regulations. */
  function ChosenIsSolutions(solScores: seq<int>, regScores: seq<int>): bool
    requires solScores != [] && regScores != []
  {
    MaxScore(solScores) >= MaxScore(regScores)
  }

  /** The selection at the end of `search`. */
  function Select(sols: seq<Solution>, regs: seq<Regulation>, solScores: seq<int>, regScores: seq<int>, topN: int)
    : (r: seq<Scored<Document>>)
    requires |sols| == |solScores| && |regs| == |regScores|
    requires sols != [] && regs != []
    ensures r <= Rank(SolDocs(sols), solScores) || r <= Rank(RegDocs(regs), regScores)
  {
    var solRanked := Rank(SolDocs(sols), solScores);
    var regRanked := Rank(RegDocs(regs), regScores);
    if solRanked[0].score >= regRanked[0].score then PyPrefix(solRanked, topN)
    else PyPrefix(regRanked, topN)
  }

  /** The selection comes from one sub-corpus only: solutions exactly when
      their top score is at least the regulations' top score. */
  lemma SelectUsesOneCorpus(sols: seq<Solution>, regs: seq<Regulation>, solScores: seq<int>, regScores: seq<int>, topN: int)
    requires |sols| == |solScores| && |regs| == |regScores|
    requires sols != [] && regs != []
    ensures var r := Select(sols, regs, solScores, regScores, topN);
      if ChosenIsSolutions(solScores, regScores)
      then r == PyPrefix(Rank(SolDocs(sols), solScores), topN) && forall e | e in r :: e.item.Sol?
      else r == PyPrefix(Rank(RegDocs(regs), regScores), topN) && forall e | e in r :: e.item.Reg?
    ensures var r := Select(sols, regs, solScores, regScores, topN);
      r != [] ==> (r[0].item.Sol? <==> ChosenIsSolutions(solScores, regScores))
  {
    RankTopIsMax(SolDocs(sols), solScores);
    RankTopIsMax(RegDocs(regs), regScores);
    RankIsStableSort(SolDocs(sols), solScores);
    RankIsStableSort(RegDocs(regs), regScores);
    var r := Select(sols, regs, solScores, regScores, topN);
    forall e | e in r
      ensures ChosenIsSolutions(solScores, regScores) ==> e.item.Sol?
      ensures !ChosenIsSolutions(solScores, regScores) ==> e.item.Reg?
    {
      if ChosenIsSolutions(solScores, regScores) {
        assert e in Rank(SolDocs(sols), solScores);
      } else {
        assert e in Rank(RegDocs(regs), regScores);
      }
    }
    if r != [] {
      assert r[0] in r;
    }
  }

  /** `top_n` entries, or the whole chosen sub-corpus when it is smaller. */
  lemma SelectLength(sols: seq<Solution>, regs: seq<Regulation>, solScores: seq<int>, regScores: seq<int>, topN: nat)
    requires |sols| == |solScores| && |regs| == |regScores|
    requires sols != [] && regs != []
    ensures var size := if ChosenIsSolutions(solScores, regScores) then |sols| else |regs|;
      |Select(sols, regs, solScores, regScores, topN)| == if topN < size then topN else size
  {
    SelectUsesOneCorpus(sols, regs, solScores, regScores, topN);
  }

  /** The selection is the best-ranked part of the chosen sub-corpus: scores do
      not increase, equal scores keep corpus order, every entry is a document
      of the chosen sub-corpus with its own score, and no entry left out ranks
      before one that is kept. */
  lemma SelectIsTopOfRanking(sols: seq<Solution>, regs: seq<Regulation>, solScores: seq<int>, regScores: seq<int>, topN: int)
    requires |sols| == |solScores| && |regs| == |regScores|
    requires sols != [] && regs != []
    ensures var r := Select(sols, regs, solScores, regScores, topN);
      forall i, j | 0 <= i < j < |r| ::
        r[i].score >= r[j].score && (r[i].score == r[j].score ==> r[i].pos < r[j].pos)
    ensures var r := Select(sols, regs, solScores, regScores, topN);
      var docs := if ChosenIsSolutions(solScores, regScores) then SolDocs(sols) else RegDocs(regs);
      var scores := if ChosenIsSolutions(solScores, regScores) then solScores else regScores;
      && (forall e | e in r :: e.pos < |docs| && e.item == docs[e.pos] && e.score == scores[e.pos])
      && (forall e, k | e in r && 0 <= k < |docs| && Scored(k, docs[k], scores[k]) !in r ::
            Precedes(e, Scored(k, docs[k], scores[k])))
  {
    SelectUsesOneCorpus(sols, regs, solScores, regScores, topN);
    var docs := if ChosenIsSolutions(solScores, regScores) then SolDocs(sols) else RegDocs(regs);
    var scores := if ChosenIsSolutions(solScores, regScores) then solScores else regScores;
    var ranked := Rank(docs, scores);
    RankIsStableSort(docs, scores);
    PrefixOfRanking(ranked, topN);
    var r := Select(sols, regs, solScores, regScores, topN);
    assert r == PyPrefix(ranked, topN);
    forall i, j | 0 <= i < j < |r| ensures Precedes(r[i], r[j]) {
    }
    forall e | e in r ensures e in ranked {
    }
  }
}
