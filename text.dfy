/**
 * Text normalisation (`preprocess_text`) and the whitespace splitting and
 * joining that `str.split()` and `" ".join` perform.
 *
 * Characters: upper case is ASCII `A`..`Z`; punctuation is exactly Python's
 * `string.punctuation`; whitespace is the set of characters for which Python's
 * `str.isspace` holds (the set used by `re`'s `\s`, by `str.split()` and by
 * `str.strip()`).
 */
module Text {
  import opened Wrappers

  /** Python's `string.punctuation`. */
  const Punctuation: string := "!\"#$%&'()*+,-./:;<=>?@[\\]^_`{|}~"

  predicate IsUpper(c: char) { 'A' <= c <= 'Z' }

  predicate IsPunct(c: char) { c in Punctuation }

  /** The characters for which Python's `str.isspace` holds. */
  const Whitespace: set<char> := {
    ' ', '\t', '\n', '\r', '\U{0B}', '\U{0C}', '\U{1C}', '\U{1D}', '\U{1E}', '\U{1F}',
    '\U{85}', '\U{A0}', '\U{1680}', '\U{2000}', '\U{2001}', '\U{2002}', '\U{2003}',
    '\U{2004}', '\U{2005}', '\U{2006}', '\U{2007}', '\U{2008}', '\U{2009}', '\U{200A}',
    '\U{2028}', '\U{2029}', '\U{202F}', '\U{205F}', '\U{3000}'
  }

  predicate IsSpace(c: char) { c in Whitespace }

  function ToLower(c: char): (d: char)
    ensures !IsUpper(d)
    ensures !IsUpper(c) ==> d == c
    ensures IsUpper(c) ==> 'a' <= d <= 'z' && d as int - c as int == 32
  {
    if IsUpper(c) then (c as int + 32) as char else c
  }

  /** `str.lower()` on the ASCII letters. */
  function Lower(s: string): (r: string)
    ensures |r| == |s|
    ensures forall i | 0 <= i < |r| :: r[i] == ToLower(s[i])
    ensures forall c | c in r :: !IsUpper(c)
    ensures (forall c | c in s :: !IsUpper(c)) ==> r == s
  {
    seq(|s|, i requires 0 <= i < |s| => ToLower(s[i]))
  }

  /** `text.translate(str.maketrans('', '', string.punctuation))`. */
  function RemovePunct(s: string): (r: string)
    ensures |r| <= |s|
    ensures forall c :: c in r <==> c in s && !IsPunct(c)
    ensures (forall c | c in s :: !IsPunct(c)) ==> r == s
  {
    if s == [] then [] else Kept(s[0]) + RemovePunct(s[1..])
  }

  /** What `translate` leaves of one character. */
  function Kept(c: char): string {
    if IsPunct(c) then [] else [c]
  }

  /** `translate` works character by character: a punctuation character is
      deleted and any other character is kept in place. */
  lemma RemovePunctChar(c: char)
    ensures RemovePunct([c]) == if IsPunct(c) then [] else [c]
  {
  }

  /** Deleting punctuation from a concatenation deletes it from each part, so
      the surviving characters keep their order and their repeats. */
  lemma {:induction false} RemovePunctAppend(a: string, b: string)
    ensures RemovePunct(a + b) == RemovePunct(a) + RemovePunct(b)
    decreases |a|
  {
    if a == [] {
      assert a + b == b;
    } else {
      assert (a + b)[0] == a[0] && (a + b)[1..] == a[1..] + b;
      RemovePunctAppend(a[1..], b);
    }
  }

  /** Index of the first non-whitespace character of `s` (or `|s|`). */
  function LeftEnd(s: string): (a: nat)
    ensures a <= |s|
    ensures forall k | 0 <= k < a :: IsSpace(s[k])
    ensures a == |s| || !IsSpace(s[a])
  {
    if s == [] || !IsSpace(s[0]) then 0 else 1 + LeftEnd(s[1..])
  }

  /** One past the last non-whitespace character of `s` (or 0). */
  function RightEnd(s: string): (b: nat)
    ensures b <= |s|
    ensures forall k | b <= k < |s| :: IsSpace(s[k])
    ensures b == 0 || !IsSpace(s[b - 1])
  {
    if s == [] || !IsSpace(s[|s| - 1]) then |s| else RightEnd(s[..|s| - 1])
  }

  /** Every whitespace character is a plain space and no two are adjacent. */
  predicate SingleSpaced(s: string) {
    && (forall i | 0 <= i < |s| :: IsSpace(s[i]) ==> s[i] == ' ')
    && (forall i | 0 <= i < |s| - 1 :: !IsSpace(s[i]) || !IsSpace(s[i + 1]))
  }

  /** Neither the first nor the last character is whitespace. */
  predicate Trimmed(s: string) {
    s == [] || (!IsSpace(s[0]) && !IsSpace(s[|s| - 1]))
  }

  /** `re.sub(r'\s+', ' ', s)`: every maximal whitespace run becomes one space. */
  function Collapse(s: string): (r: string)
    ensures r == [] <==> s == []
    ensures r != [] ==> (IsSpace(r[0]) <==> IsSpace(s[0]))
    decreases |s|
  {
    if s == [] then []
    else if IsSpace(s[0]) then [' '] + Collapse(s[LeftEnd(s)..])
    else [s[0]] + Collapse(s[1..])
  }

  /** Collapsing keeps only plain spaces and the non-whitespace characters
      of its input. */
  lemma {:induction false} CollapseChars(s: string)
    ensures forall c | c in Collapse(s) :: c == ' ' || (c in s && !IsSpace(c))
    decreases |s|
  {
    if s == [] {
    } else if IsSpace(s[0]) {
      var rest := s[LeftEnd(s)..];
      CollapseChars(rest);
      assert forall c | c in rest :: c in s;
    } else {
      CollapseChars(s[1..]);
    }
  }

  /** Collapsing leaves no whitespace but single plain spaces. */
  lemma {:induction false} CollapseSingleSpaced(s: string)
    ensures SingleSpaced(Collapse(s))
    decreases |s|
  {
    if s == [] {
    } else {
      var rest := if IsSpace(s[0]) then s[LeftEnd(s)..] else s[1..];
      CollapseSingleSpaced(rest);
      var t := Collapse(rest);
      assert IsSpace(s[0]) ==> t == [] || !IsSpace(t[0]);
      assert Collapse(s) == [if IsSpace(s[0]) then ' ' else s[0]] + t;
    }
  }

  /** A single-spaced string is its own collapse. */
  lemma {:induction false} CollapseOfSingleSpaced(s: string)
    requires SingleSpaced(s)
    ensures Collapse(s) == s
    decreases |s|
  {
    if s == [] {
    } else {
      assert SingleSpaced(s[1..]);
      CollapseOfSingleSpaced(s[1..]);
      if IsSpace(s[0]) {
        assert 1 < |s| ==> !IsSpace(s[1]);
        assert LeftEnd(s) == 1;
      }
    }
  }

  /** Cutting the trailing whitespace off the suffix of `s` from `a` leaves a
      slice of `s` followed only by whitespace. */
  lemma TrailingCut(s: string, a: nat)
    requires a <= |s|
    ensures var n := RightEnd(s[a..]);
      && s[a..][..n] == s[a..a + n]
      && forall k | a + n <= k < |s| :: IsSpace(s[k])
  {
    var t := s[a..];
    var n := RightEnd(t);
    forall k | a + n <= k < |s| ensures IsSpace(s[k]) {
      SuffixIndex(s, a, k);
    }
  }

  lemma SuffixIndex(s: string, a: nat, k: nat)
    requires a <= k < |s|
    ensures s[a..][k - a] == s[k]
  {
  }

  /** `str.strip()`: drops leading and trailing whitespace. The result is the
      slice of `s` left once a whitespace prefix and a whitespace suffix are
      cut off; being trimmed, it is the slice that cuts off both runs whole. */
  function Strip(s: string): (r: string)
    ensures exists a, b | 0 <= a <= b <= |s| ::
      && r == s[a..b]
      && (forall k | 0 <= k < a :: IsSpace(s[k]))
      && (forall k | b <= k < |s| :: IsSpace(s[k]))
    ensures Trimmed(r)
    ensures forall c | c in r :: c in s
    ensures SingleSpaced(s) ==> SingleSpaced(r)
    ensures Trimmed(s) ==> r == s
  {
    var t := s[LeftEnd(s)..];
    TrailingCut(s, LeftEnd(s));
    t[..RightEnd(t)]
  }

  /** What `preprocess_text` promises of its output. */
  predicate Normalized(s: string) {
    && (forall c | c in s :: !IsUpper(c) && !IsPunct(c))
    && SingleSpaced(s)
    && Trimmed(s)
  }

  lemma SpaceIsNotPunct()
    ensures !IsPunct(' ')
  {
    assert forall i | 0 <= i < |Punctuation| :: Punctuation[i] != ' ';
  }

  /** Each stage of `preprocess_text` contributes one part of `Normalized`. */
  lemma PipelineIsNormalized(t: string)
    ensures Normalized(Strip(Collapse(RemovePunct(Lower(t)))))
  {
    var u := RemovePunct(Lower(t));
    var c := Collapse(u);
    var r := Strip(c);
    assert forall ch | ch in u :: !IsUpper(ch) && !IsPunct(ch) by {
      forall ch | ch in u ensures !IsUpper(ch) && !IsPunct(ch) {
        assert ch in Lower(t);
      }
    }
    assert forall ch | ch in c :: !IsUpper(ch) && !IsPunct(ch) by {
      CollapseChars(u);
      SpaceIsNotPunct();
      forall ch | ch in c ensures !IsUpper(ch) && !IsPunct(ch) {
        assert ch == ' ' || ch in u;
      }
    }
    assert SingleSpaced(c) by {
      CollapseSingleSpaced(u);
    }
    assert forall ch | ch in r :: !IsUpper(ch) && !IsPunct(ch) by {
      forall ch | ch in r ensures !IsUpper(ch) && !IsPunct(ch) {
        assert ch in c;
      }
    }
  }

  /** `preprocess_text`: `None` gives `""`; otherwise lower, strip punctuation,
      collapse whitespace runs and trim. */
  function Preprocess(text: Option<string>): (r: string)
    ensures text.None? ==> r == ""
    ensures Normalized(r)
  {
    match text
    case None => ""
    case Some(t) =>
      PipelineIsNormalized(t);
      Strip(Collapse(RemovePunct(Lower(t))))
  }

  /** A normalised string is left as it is. */
  lemma NormalizedIsFixpoint(s: string)
    requires Normalized(s)
    ensures Preprocess(Some(s)) == s
  {
    assert Lower(s) == s;
    assert RemovePunct(s) == s;
    CollapseOfSingleSpaced(s);
  }

  /** `preprocess_text` is idempotent. */
  lemma PreprocessIdempotent(text: Option<string>)
    ensures Preprocess(Some(Preprocess(text))) == Preprocess(text)
  {
    NormalizedIsFixpoint(Preprocess(text));
  }

  // ---------------------------------------------------------------------
  // `str.split()` and `" ".join(...)`

  /** A token of `str.split()`: non-empty and free of whitespace. */
  predicate IsToken(w: string) {
    w != [] && forall c | c in w :: !IsSpace(c)
  }

  /** Index of the first whitespace character of `s` (or `|s|`). */
  function WordEnd(s: string): (n: nat)
    ensures n <= |s|
    ensures forall k | 0 <= k < n :: !IsSpace(s[k])
    ensures n == |s| || IsSpace(s[n])
  {
    if s == [] || IsSpace(s[0]) then 0 else 1 + WordEnd(s[1..])
  }

  /** `s.split()`: the maximal runs of non-whitespace characters, in order. */
  function Words(s: string): (ws: seq<string>)
    ensures forall i | 0 <= i < |ws| :: IsToken(ws[i])
    decreases |s|
  {
    var t := s[LeftEnd(s)..];
    if t == [] then []
    else
      var n := WordEnd(t);
      [t[..n]] + Words(t[n..])
  }

  /** `" ".join(ws)`. */
  function Join(ws: seq<string>): string {
    if ws == [] then ""
    else if |ws| == 1 then ws[0]
    else ws[0] + " " + Join(ws[1..])
  }

  lemma JoinStartsWithFirst(ws: seq<string>)
    requires ws != [] && ws[0] != []
    ensures Join(ws) != [] && Join(ws)[0] == ws[0][0]
  {
  }

  lemma TokenEnds(w: string)
    requires IsToken(w)
    ensures LeftEnd(w) == 0 && WordEnd(w) == |w|
  {
    assert w[0] in w;
  }

  lemma WordsOfToken(w: string)
    requires IsToken(w)
    ensures Words(w) == [w]
  {
    TokenEnds(w);
    assert w[0..] == w && w[..|w|] == w && w[|w|..] == [];
  }

  /** A token followed by one space and a string that does not start with whitespace. */
  lemma WordsOfTokenSpace(w: string, j: string)
    requires IsToken(w) && j != [] && !IsSpace(j[0])
    ensures Words(w + " " + j) == [w] + Words(j)
  {
    var s := w + " " + j;
    TokenEnds(w);
    assert LeftEnd(s) == 0;
    assert s[0..] == s;
    assert WordEnd(s) == |w| by {
      assert s[|w|] == ' ';
    }
    assert s[..|w|] == w;
    var rest := s[|w|..];
    assert rest == " " + j;
    assert LeftEnd(rest) == 1;
    assert rest[1..] == j;
    assert LeftEnd(j) == 0;
    assert j[0..] == j;
  }

  /** Splitting a single-space join of tokens gives the tokens back. */
  lemma {:induction false} WordsOfJoin(ws: seq<string>)
    requires forall i | 0 <= i < |ws| :: IsToken(ws[i])
    ensures Words(Join(ws)) == ws
  {
    if ws == [] {
    } else if |ws| == 1 {
      WordsOfToken(ws[0]);
    } else {
      WordsOfJoin(ws[1..]);
      JoinStartsWithFirst(ws[1..]);
      assert IsToken(ws[1]);
      assert ws[1][0] in ws[1];
      WordsOfTokenSpace(ws[0], Join(ws[1..]));
    }
  }

  // ---------------------------------------------------------------------
  // `preprocess_text` as "the words, joined by single spaces"

  lemma LeftEndUnique(s: string, a: nat)
    requires a <= |s|
    requires forall k | 0 <= k < a :: IsSpace(s[k])
    requires a == |s| || !IsSpace(s[a])
    ensures LeftEnd(s) == a
  {
  }

  lemma WordEndUnique(s: string, n: nat)
    requires n <= |s|
    requires forall k | 0 <= k < n :: !IsSpace(s[k])
    requires n == |s| || IsSpace(s[n])
    ensures WordEnd(s) == n
  {
  }

  /** Leading whitespace does not change the split. */
  lemma WordsSkipSpaces(p: string, x: string)
    requires forall k | 0 <= k < |p| :: IsSpace(p[k])
    ensures Words(p + x) == Words(x)
  {
    var s := p + x;
    var a := LeftEnd(x);
    LeftEndUnique(s, |p| + a);
    assert s[|p| + a..] == x[a..];
  }

  /** A token followed by nothing or by whitespace is the first word. */
  lemma WordsTokenThen(w: string, z: string)
    requires IsToken(w) && (z == [] || IsSpace(z[0]))
    ensures Words(w + z) == [w] + Words(z)
  {
    var s := w + z;
    assert w[0] in w;
    LeftEndUnique(s, 0);
    assert s[0..] == s;
    forall k | 0 <= k < |w| ensures !IsSpace(s[k]) {
      assert s[k] == w[k] && w[k] in w;
    }
    WordEndUnique(s, |w|);
    assert s[..|w|] == w && s[|w|..] == z;
  }

  /** Trailing whitespace does not change the split. */
  lemma {:induction false} WordsIgnoreTrailingSpaces(x: string, y: string)
    requires forall k | 0 <= k < |y| :: IsSpace(y[k])
    ensures Words(x + y) == Words(x)
    decreases |x|
  {
    var a := LeftEnd(x);
    if a == |x| {
      LeftEndUnique(x + y, |x + y|);
      assert (x + y)[|x + y|..] == [] && x[|x|..] == [];
    } else {
      LeftEndUnique(x + y, a);
      var t := x[a..];
      assert (x + y)[a..] == t + y;
      var n := WordEnd(t);
      WordEndUnique(t + y, n);
      assert (t + y)[..n] == t[..n];
      assert (t + y)[n..] == t[n..] + y;
      WordsIgnoreTrailingSpaces(t[n..], y);
    }
  }

  lemma CollapseNonSpaceHead(s: string)
    requires s != [] && !IsSpace(s[0])
    ensures Collapse(s) == [s[0]] + Collapse(s[1..])
  {
  }

  /** Collapsing leaves a leading run of non-whitespace characters alone. */
  lemma {:induction false} CollapseAfterToken(s: string, n: nat)
    requires n <= |s|
    requires forall k | 0 <= k < n :: !IsSpace(s[k])
    ensures Collapse(s) == s[..n] + Collapse(s[n..])
  {
    if n == 0 {
      assert s[0..] == s;
    } else {
      var t := s[1..];
      assert Collapse(s) == [s[0]] + Collapse(t) by {
        assert !IsSpace(s[0]);
        CollapseNonSpaceHead(s);
      }
      assert Collapse(t) == t[..n - 1] + Collapse(s[n..]) by {
        forall k | 0 <= k < n - 1 ensures !IsSpace(t[k]) {
          assert t[k] == s[k + 1];
        }
        CollapseAfterToken(t, n - 1);
        assert t[n - 1..] == s[n..];
      }
      assert [s[0]] + t[..n - 1] == s[..n];
    }
  }

  /** Collapsing whitespace runs does not change the split. */
  lemma {:induction false} WordsOfCollapse(u: string)
    ensures Words(Collapse(u)) == Words(u)
    decreases |u|
  {
    if u == [] {
    } else if IsSpace(u[0]) {
      var a := LeftEnd(u);
      var rest := u[a..];
      assert u == u[..a] + rest;
      WordsSkipSpaces(u[..a], rest);
      WordsSkipSpaces([' '], Collapse(rest));
      WordsOfCollapse(rest);
    } else {
      var n := WordEnd(u);
      var w, rest := u[..n], u[n..];
      assert u == w + rest;
      assert IsToken(w) by {
        assert u[0] == w[0];
        forall c | c in w ensures !IsSpace(c) {
          var k :| 0 <= k < |w| && w[k] == c;
        }
      }
      CollapseAfterToken(u, n);
      WordsTokenThen(w, rest);
      WordsTokenThen(w, Collapse(rest));
      WordsOfCollapse(rest);
    }
  }

  /** Leading whitespace does not change the split. */
  lemma WordsDropLeading(v: string)
    ensures Words(v[LeftEnd(v)..]) == Words(v)
  {
    var a := LeftEnd(v);
    assert v == v[..a] + v[a..];
    assert forall k | 0 <= k < a :: IsSpace(v[..a][k]);
    WordsSkipSpaces(v[..a], v[a..]);
  }

  /** Trailing whitespace does not change the split. */
  lemma WordsDropTrailing(t: string)
    ensures Words(t[..RightEnd(t)]) == Words(t)
  {
    var b := RightEnd(t);
    assert t == t[..b] + t[b..];
    assert forall k | 0 <= k < |t| - b :: IsSpace(t[b..][k]) by {
      forall k | 0 <= k < |t| - b ensures IsSpace(t[b..][k]) {
        assert t[b..][k] == t[b + k];
      }
    }
    WordsIgnoreTrailingSpaces(t[..b], t[b..]);
  }

  /** Stripping does not change the words. */
  lemma WordsOfStrip(v: string)
    ensures Words(Strip(v)) == Words(v)
  {
    var t := v[LeftEnd(v)..];
    assert Strip(v) == t[..RightEnd(t)];
    WordsDropLeading(v);
    WordsDropTrailing(t);
  }

  /** A single-spaced, trimmed string is the join of its words. */
  lemma {:induction false} JoinOfWordsOfClean(c: string)
    requires SingleSpaced(c) && Trimmed(c)
    ensures Join(Words(c)) == c
    decreases |c|
  {
    if c != [] {
      var n := WordEnd(c);
      var w := c[..n];
      assert IsToken(w) by {
        assert c[0] == w[0];
        forall ch | ch in w ensures !IsSpace(ch) {
          var k :| 0 <= k < |w| && w[k] == ch;
        }
      }
      if n == |c| {
        assert w == c;
        WordsOfToken(c);
      } else {
        assert c[n] == ' ';
        assert n + 1 < |c|;
        var rest := c[n + 1..];
        assert c == w + " " + rest;
        assert SingleSpaced(rest) by {
          forall i | 0 <= i < |rest| ensures IsSpace(rest[i]) ==> rest[i] == ' ' {
            assert rest[i] == c[n + 1 + i];
          }
          forall i | 0 <= i < |rest| - 1 ensures !IsSpace(rest[i]) || !IsSpace(rest[i + 1]) {
            assert rest[i] == c[n + 1 + i] && rest[i + 1] == c[n + 2 + i];
          }
        }
        assert !IsSpace(rest[0]);
        assert rest[|rest| - 1] == c[|c| - 1];
        WordsOfTokenSpace(w, rest);
        JoinOfWordsOfClean(rest);
        var ws := Words(rest);
        assert ws != [] by {
          LeftEndUnique(rest, 0);
          assert rest[0..] == rest;
        }
        assert ([w] + ws)[1..] == ws;
      }
    }
  }

  /** `preprocess_text` gives the words of the lower-cased, punctuation-free
      text, joined by single spaces. */
  lemma PreprocessIsJoinOfWords(t: string)
    ensures Preprocess(Some(t)) == Join(Words(RemovePunct(Lower(t))))
  {
    var u := RemovePunct(Lower(t));
    var c := Strip(Collapse(u));
    assert Preprocess(Some(t)) == c;
    CollapseSingleSpaced(u);
    WordsOfStrip(Collapse(u));
    WordsOfCollapse(u);
    JoinOfWordsOfClean(c);
  }
}
