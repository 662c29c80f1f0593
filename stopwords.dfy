/** The stopword filter of include/stopword_filter.h: numbers always pass;
    other tokens pass when they are in the language's script and are not on
    its stopword list (one word per line of a text file). */
module Stopwords {
  import opened Utils
  import opened NlpUtils

  /** The script test of filter_stopwords: Latin words for en, Latin or
      Cyrillic words for ru, anything for another language. */
  predicate ScriptAllowed(t: string, langCode: string) {
    && (langCode == "en" ==> TypeOf(t) == Latin)
    && (langCode == "ru" ==> TypeOf(t) == Latin || TypeOf(t) == Cyrillic)
  }

  /** The token survives the filter. */
  predicate Kept(t: string, langCode: string, stopwords: seq<string>) {
    TypeOf(t) == Number || (ScriptAllowed(t, langCode) && t !in stopwords)
  }

  /** The surviving tokens, in their order. */
  function Filtered(tokens: seq<string>, langCode: string, stopwords: seq<string>): (r: seq<string>)
    ensures |r| <= |tokens|
  {
    if tokens == [] then []
    else
      var last := tokens[|tokens| - 1];
      Filtered(tokens[..|tokens| - 1], langCode, stopwords) + (if Kept(last, langCode, stopwords) then [last] else [])
  }

  /** A token is in the result exactly when it is in the input and is kept. */
  lemma {:induction false} FilteredMembers(tokens: seq<string>, langCode: string, stopwords: seq<string>)
    ensures forall t :: t in Filtered(tokens, langCode, stopwords) <==> t in tokens && Kept(t, langCode, stopwords)
  {
    if tokens != [] {
      var init := tokens[..|tokens| - 1];
      FilteredMembers(init, langCode, stopwords);
      assert tokens == init + [tokens[|tokens| - 1]];
    }
  }

  /** Filtering a concatenation filters each part: the filter keeps the
      order of the tokens it lets through. */
  lemma {:induction false} FilteredConcat(a: seq<string>, b: seq<string>, langCode: string, stopwords: seq<string>)
    ensures Filtered(a + b, langCode, stopwords) == Filtered(a, langCode, stopwords) + Filtered(b, langCode, stopwords)
  {
    if b == [] {
      assert a + b == a;
    } else {
      var init := b[..|b| - 1];
      FilteredConcat(a, init, langCode, stopwords);
      assert (a + b)[..|a + b| - 1] == a + init;
    }
  }

  /** Filtering twice is filtering once. */
  lemma {:induction false} FilteredIdempotent(tokens: seq<string>, langCode: string, stopwords: seq<string>)
    ensures Filtered(Filtered(tokens, langCode, stopwords), langCode, stopwords) == Filtered(tokens, langCode, stopwords)
  {
    if tokens != [] {
      var init := tokens[..|tokens| - 1];
      var last := tokens[|tokens| - 1];
      FilteredIdempotent(init, langCode, stopwords);
      var tail := if Kept(last, langCode, stopwords) then [last] else [];
      FilteredConcat(Filtered(init, langCode, stopwords), tail, langCode, stopwords);
      if tail != [] {
        assert tail[..0] == [];
      }
    }
  }

  /** When every token is kept the filter changes nothing: for a language
      with no stopwords and no script rule only that case arises. */
  lemma {:induction false} FilteredAllKept(tokens: seq<string>, langCode: string, stopwords: seq<string>)
    requires forall i :: 0 <= i < |tokens| ==> Kept(tokens[i], langCode, stopwords)
    ensures Filtered(tokens, langCode, stopwords) == tokens
  {
    if tokens != [] {
      var init := tokens[..|tokens| - 1];
      var last := tokens[|tokens| - 1];
      assert forall i :: 0 <= i < |init| ==> init[i] == tokens[i];
      FilteredAllKept(init, langCode, stopwords);
      assert Kept(last, langCode, stopwords);
      assert init + [last] == tokens;
    }
  }

  /** For a language other than en and ru with no stopword list, every
      token passes. */
  lemma OtherLanguageUnfiltered(tokens: seq<string>, langCode: string)
    requires langCode != "en" && langCode != "ru"
    ensures Filtered(tokens, langCode, []) == tokens
  {
    FilteredAllKept(tokens, langCode, []);
  }

  class StopwordFilter {
    var stopwords: map<string, seq<string>>

    /** The file contents stand for the files the constructor reads. */
    constructor (enData: string, ruData: string)
      ensures stopwords == map["en" := Lines(enData), "ru" := Lines(ruData)]
    {
      var en := ReadStopwords(enData);
      var ru := ReadStopwords(ruData);
      stopwords := map["en" := en, "ru" := ru];
    }

    /** StopwordFilter::read_stopwords on the contents of a stopword file:
        one stopword per line. */
    static method ReadStopwords(rawData: string) returns (words: seq<string>)
      ensures words == Lines(rawData)
    {
      var lines := Lines(rawData);
      words := [];
      var i := 0;
      while i < |lines|
        invariant 0 <= i <= |lines|
        invariant words == lines[..i]
      {
        assert lines[..i + 1] == lines[..i] + [lines[i]];
        words := words + [lines[i]];
        i := i + 1;
      }
      assert lines[..i] == lines;
    }

    /** StopwordFilter::filter_stopwords. */
    method FilterStopwords(tokens: seq<string>, langCode: string) returns (filteredTokens: seq<string>)
      ensures filteredTokens == Filtered(tokens, langCode, Lookup(stopwords, langCode))
    {
      ghost var sw := Lookup(stopwords, langCode);
      filteredTokens := [];
      var i := 0;
      while i < |tokens|
        invariant 0 <= i <= |tokens|
        invariant filteredTokens == Filtered(tokens[..i], langCode, sw)
      {
        var token := tokens[i];
        assert tokens[..i + 1][..i] == tokens[..i];
        var tokenType := GetTokenType(token);
        if tokenType != Number {
          if langCode == "en" {
            if tokenType != Latin {
              i := i + 1;
              continue;
            }
          } else if langCode == "ru" {
            if tokenType != Latin && tokenType != Cyrillic {
              i := i + 1;
              continue;
            }
          }
          var isStopword := Contains(Lookup(stopwords, langCode), token);
          if isStopword {
            i := i + 1;
            continue;
          }
        }
        filteredTokens := filteredTokens + [token];
        i := i + 1;
      }
      assert tokens[..i] == tokens;
    }
  }
}
