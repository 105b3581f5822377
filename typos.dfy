/**
 * `correct_typos`: dictionary-driven spelling correction of a query, token by
 * token, leaving purely numeric tokens alone.
 *
 * The SymSpell dictionary and its `lookup_compound` search are represented by
 * `lookup`, a function from a token to the terms of its suggestions, best
 * first (possibly none).
 */
module Typos {
  import opened Text

  predicate IsDigit(c: char) { '0' <= c <= '9' }

  /** `re.fullmatch(r'\d+', w)`. */
  predicate IsNumber(w: string) {
    w != [] && forall c | c in w :: IsDigit(c)
  }

  /** The entry `correct_typos` appends for one token. */
  function CorrectToken(lookup: string -> seq<string>, w: string): string {
    if IsNumber(w) then w
    else if lookup(w) != [] then lookup(w)[0]
    else w
  }

  /** The entries for all tokens, one per token, in order. */
  function Corrections(lookup: string -> seq<string>, ws: seq<string>): (cs: seq<string>)
    ensures |cs| == |ws|
  {
    seq(|ws|, i requires 0 <= i < |ws| => CorrectToken(lookup, ws[i]))
  }

  /** `correct_typos(text)`: returns the corrected query and the input as given. */
  method CorrectTypos(text: string, lookup: string -> seq<string>)
    returns (corrected: string, original: string)
    ensures original == text
    ensures corrected == Join(Corrections(lookup, Words(text)))
  {
    var words := Words(text);
    var correctedWords: seq<string> := [];
    for i := 0 to |words|
      invariant |correctedWords| == i
      invariant forall k | 0 <= k < i :: correctedWords[k] == CorrectToken(lookup, words[k])
    {
      var word := words[i];
      if IsNumber(word) {
        correctedWords := correctedWords + [word];
      } else {
        var suggestions := lookup(word);
        if suggestions != [] {
          correctedWords := correctedWords + [suggestions[0]];
        } else {
          correctedWords := correctedWords + [word];
        }
      }
    }
    assert correctedWords == Corrections(lookup, words);
    corrected := Join(correctedWords);
    original := text;
  }

  /** Each entry is the token itself when numeric, else the best suggestion
      when there is one, else the token unchanged. */
  lemma CorrectionCases(lookup: string -> seq<string>, ws: seq<string>, i: nat)
    requires i < |ws|
    ensures IsNumber(ws[i]) ==> Corrections(lookup, ws)[i] == ws[i]
    ensures !IsNumber(ws[i]) && lookup(ws[i]) != [] ==> Corrections(lookup, ws)[i] == lookup(ws[i])[0]
    ensures !IsNumber(ws[i]) && lookup(ws[i]) == [] ==> Corrections(lookup, ws)[i] == ws[i]
  {
  }

  /** When every suggestion used is a single word, the corrected query splits
      into exactly one entry per token of the input, in order; in particular
      numeric tokens stay where they were, whatever the dictionary holds. */
  lemma CorrectedWords(lookup: string -> seq<string>, text: string)
    requires forall w | w in Words(text) && !IsNumber(w) && lookup(w) != [] :: IsToken(lookup(w)[0])
    ensures Words(Join(Corrections(lookup, Words(text)))) == Corrections(lookup, Words(text))
    ensures forall i | 0 <= i < |Words(text)| && IsNumber(Words(text)[i]) ::
      Words(Join(Corrections(lookup, Words(text))))[i] == Words(text)[i]
  {
    var ws := Words(text);
    var cs := Corrections(lookup, ws);
    forall i | 0 <= i < |cs| ensures IsToken(cs[i]) {
      assert ws[i] in ws;
    }
    WordsOfJoin(cs);
  }

  /** With no suggestions at all (an empty dictionary), correction only
      re-spaces the query: its tokens joined by single spaces. */
  lemma NoSuggestionsKeepsTokens(lookup: string -> seq<string>, text: string)
    requires forall w | w in Words(text) :: lookup(w) == []
    ensures Join(Corrections(lookup, Words(text))) == Join(Words(text))
  {
    var ws := Words(text);
    forall i | 0 <= i < |ws| ensures Corrections(lookup, ws)[i] == ws[i] {
      assert ws[i] in ws;
    }
    assert Corrections(lookup, ws) == ws;
  }
}
