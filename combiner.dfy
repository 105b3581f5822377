/**
 * `get_combined_ids`: the lexical hits' ids first, then the semantic hits' ids
 * not seen yet, each id once.
 */
module Combiner {
  import opened Lexical
  import opened Ranking

  /** The ids of `s`. */
  function Elems(s: seq<int>): set<int> {
    set x | x in s
  }

  /** The ids of `s` in order, skipping every id already in `seen` and every
      repeat: what a loop with a `seen_ids` set starting at `seen` appends. */
  function DedupFrom(s: seq<int>, seen: set<int>): seq<int> {
    if s == [] then []
    else if s[0] in seen then DedupFrom(s[1..], seen)
    else [s[0]] + DedupFrom(s[1..], seen + {s[0]})
  }

  /** The ids of `s` in order, each kept at its first occurrence. */
  function Dedup(s: seq<int>): seq<int> {
    DedupFrom(s, {})
  }

  predicate NoDuplicates(s: seq<int>) {
    forall i, j | 0 <= i < j < |s| :: s[i] != s[j]
  }

  /** Index of the first occurrence of `x` in `s`. */
  function FirstIndex(s: seq<int>, x: int): (k: nat)
    requires x in s
    ensures k < |s| && s[k] == x
    ensures forall i | 0 <= i < k :: s[i] != x
  {
    if s[0] == x then 0 else 1 + FirstIndex(s[1..], x)
  }

  /** An id is kept exactly when it is in `s` and was not seen before. */
  lemma {:induction false} DedupFromContains(s: seq<int>, seen: set<int>, x: int)
    ensures x in DedupFrom(s, seen) <==> x in s && x !in seen
  {
    if s != [] {
      var next := if s[0] in seen then seen else seen + {s[0]};
      DedupFromContains(s[1..], next, x);
      assert s == [s[0]] + s[1..];
    }
  }

  /** Every id of the input appears, and nothing else. */
  lemma DedupSameIds(s: seq<int>)
    ensures forall x :: x in Dedup(s) <==> x in s
  {
    forall x ensures x in Dedup(s) <==> x in s {
      DedupFromContains(s, {}, x);
    }
  }

  /** No id appears twice. */
  lemma {:induction false} DedupFromNoDuplicates(s: seq<int>, seen: set<int>)
    ensures NoDuplicates(DedupFrom(s, seen))
  {
    if s != [] {
      var next := if s[0] in seen then seen else seen + {s[0]};
      DedupFromNoDuplicates(s[1..], next);
      if s[0] !in seen {
        var rest := DedupFrom(s[1..], next);
        var r := [s[0]] + rest;
        forall i, j | 0 <= i < j < |r| ensures r[i] != r[j] {
          if i == 0 {
            assert r[j] == rest[j - 1];
            DedupFromContains(s[1..], next, rest[j - 1]);
          } else {
            assert r[i] == rest[i - 1] && r[j] == rest[j - 1];
          }
        }
      }
    }
  }

  lemma DedupNoDuplicates(s: seq<int>)
    ensures NoDuplicates(Dedup(s))
  {
    DedupFromNoDuplicates(s, {});
  }

  /** The first id is always kept, in front. */
  lemma DedupKeepsHead(s: seq<int>)
    requires s != []
    ensures Dedup(s) != [] && Dedup(s)[0] == s[0]
  {
  }

  /** An id other than the head of `s` first occurs one place later in `s`
      than in its tail. */
  lemma FirstIndexInTail(s: seq<int>, x: int)
    requires x in s && x != s[0]
    ensures x in s[1..] && FirstIndex(s, x) == 1 + FirstIndex(s[1..], x)
  {
    var k :| 0 <= k < |s| && s[k] == x;
    assert s[1..][k - 1] == x;
  }

  predicate InFirstOccurrenceOrder(r: seq<int>, s: seq<int>) {
    && (forall x | x in r :: x in s)
    && (forall i, j | 0 <= i < j < |r| :: FirstIndex(s, r[i]) < FirstIndex(s, r[j]))
  }

  /** An order by first occurrence in the tail of `s` is one in `s` too, for
      ids other than the head. */
  lemma OrderInTailIsOrder(r: seq<int>, s: seq<int>)
    requires s != []
    requires InFirstOccurrenceOrder(r, s[1..])
    requires forall x | x in r :: x != s[0]
    ensures InFirstOccurrenceOrder(r, s)
    ensures InFirstOccurrenceOrder([s[0]] + r, s)
  {
    forall x | x in r ensures x in s && FirstIndex(s, x) == 1 + FirstIndex(s[1..], x) {
      assert x in s[1..];
      FirstIndexInTail(s, x);
    }
    forall i, j | 0 <= i < j < |r| ensures FirstIndex(s, r[i]) < FirstIndex(s, r[j]) {
      assert r[i] in r && r[j] in r;
    }
    var t := [s[0]] + r;
    forall i, j | 0 <= i < j < |t| ensures FirstIndex(s, t[i]) < FirstIndex(s, t[j]) {
      assert t[j] == r[j - 1] && r[j - 1] in r;
      if i > 0 {
        assert t[i] == r[i - 1] && r[i - 1] in r;
      }
    }
  }

  /** Kept ids are listed in the order of their first occurrences in `s`. */
  lemma {:induction false} DedupFromFirstOccurrenceOrder(s: seq<int>, seen: set<int>)
    ensures InFirstOccurrenceOrder(DedupFrom(s, seen), s)
  {
    if s != [] {
      var next := if s[0] in seen then seen else seen + {s[0]};
      var rest := DedupFrom(s[1..], next);
      DedupFromFirstOccurrenceOrder(s[1..], next);
      forall x | x in rest ensures x != s[0] {
        DedupFromContains(s[1..], next, x);
      }
      OrderInTailIsOrder(rest, s);
    }
  }

  /** Ids are listed in the order of their first occurrences. */
  lemma DedupFirstOccurrenceOrder(s: seq<int>)
    ensures forall x | x in Dedup(s) :: x in s
    ensures forall i, j | 0 <= i < j < |Dedup(s)| :: FirstIndex(s, Dedup(s)[i]) < FirstIndex(s, Dedup(s)[j])
  {
    DedupFromFirstOccurrenceOrder(s, {});
    assert InFirstOccurrenceOrder(Dedup(s), s);
  }

  /** Deduplicating two lists one after the other: the first list's new ids,
      then the second list's ids that neither `seen` nor the first list holds. */
  lemma {:induction false} DedupFromAppend(a: seq<int>, b: seq<int>, seen: set<int>)
    ensures DedupFrom(a + b, seen) == DedupFrom(a, seen) + DedupFrom(b, seen + Elems(a))
  {
    if a == [] {
      assert a + b == b;
      assert seen + Elems(a) == seen;
    } else {
      var next := if a[0] in seen then seen else seen + {a[0]};
      assert (a + b)[0] == a[0] && (a + b)[1..] == a[1..] + b;
      DedupFromAppend(a[1..], b, next);
      assert next + Elems(a[1..]) == seen + Elems(a) by {
        assert a == [a[0]] + a[1..];
      }
    }
  }

  /** One more id at the end: it is appended exactly when it is new. */
  lemma DedupFromSnoc(s: seq<int>, seen: set<int>, x: int)
    ensures DedupFrom(s + [x], seen) == DedupFrom(s, seen) + (if x in seen || x in s then [] else [x])
  {
    DedupFromAppend(s, [x], seen);
    assert [x][1..] == [];
  }

  /** The lexical ids deduplicated, followed by the semantic ids that are
      neither lexical ids nor repeats. */
  lemma DedupAppend(a: seq<int>, b: seq<int>)
    ensures Dedup(a + b) == Dedup(a) + DedupFrom(b, Elems(a))
  {
    DedupFromAppend(a, b, {});
    assert {} + Elems(a) == Elems(a);
  }

  /** The id of a lexical hit, `entry['id']`. */
  function LexicalIds(manual: seq<Document>): (ids: seq<int>)
    ensures |ids| == |manual|
    ensures forall i | 0 <= i < |ids| :: ids[i] == manual[i].Id()
  {
    seq(|manual|, i requires 0 <= i < |manual| => manual[i].Id())
  }

  /** The id of a semantic hit, `result['data']['id']`. */
  function SemanticIds(semantic: seq<Scored<Document>>): (ids: seq<int>)
    ensures |ids| == |semantic|
    ensures forall i | 0 <= i < |ids| :: ids[i] == semantic[i].item.Id()
  {
    seq(|semantic|, i requires 0 <= i < |semantic| => semantic[i].item.Id())
  }

  lemma ElemsSnoc(s: seq<int>, x: int)
    ensures Elems(s + [x]) == Elems(s) + {x}
  {
  }

  /** The two loops of `get_combined_ids`, with the `seen_ids` set. */
  method CombineIds(manual: seq<Document>, semantic: seq<Scored<Document>>) returns (combined: seq<int>)
    ensures combined == Dedup(LexicalIds(manual) + SemanticIds(semantic))
  {
    var lexical, ranked := LexicalIds(manual), SemanticIds(semantic);
    combined := [];
    var seen: set<int> := {};
    for i := 0 to |manual|
      invariant combined == Dedup(lexical[..i])
      invariant seen == Elems(lexical[..i])
    {
      var id := manual[i].Id();
      assert lexical[..i + 1] == lexical[..i] + [id];
      DedupFromSnoc(lexical[..i], {}, id);
      ElemsSnoc(lexical[..i], id);
      if id !in seen {
        seen := seen + {id};
        combined := combined + [id];
      }
    }
    assert lexical[..|manual|] == lexical;
    combined := MergeUnseen(semantic, lexical, combined, seen);
    DedupAppend(lexical, ranked);
  }

  /** The second loop of `get_combined_ids`: appends the id of each semantic
      result that `seen_ids` does not hold yet. */
  method MergeUnseen(semantic: seq<Scored<Document>>, lexical: seq<int>, prefix: seq<int>, seen0: set<int>)
    returns (combined: seq<int>)
    requires seen0 == Elems(lexical)
    ensures combined == prefix + DedupFrom(SemanticIds(semantic), Elems(lexical))
  {
    var ranked := SemanticIds(semantic);
    combined := prefix;
    var seen := seen0;
    assert ranked[..0] == [];
    for j := 0 to |semantic|
      invariant combined == prefix + DedupFrom(ranked[..j], Elems(lexical))
      invariant seen == Elems(lexical) + Elems(ranked[..j])
    {
      var resultId := semantic[j].item.Id();
      assert ranked[..j + 1] == ranked[..j] + [resultId];
      DedupFromSnoc(ranked[..j], Elems(lexical), resultId);
      ElemsSnoc(ranked[..j], resultId);
      if resultId !in seen {
        seen := seen + {resultId};
        combined := combined + [resultId];
      }
    }
    assert ranked[..|semantic|] == ranked;
  }
}
