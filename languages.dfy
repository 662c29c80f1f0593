/** The language detector of include/lang_detector.h: a heading is English
    or Russian when enough of its words are in that script and, for English,
    enough of them are common function words, for Russian, no hard sign sits
    between two consonants. */
module Languages {
  import opened Utils
  import opened NlpUtils

  const EN_COMMON_WORDS: seq<string> := ["an", "and", "in", "of", "on", "the", "that", "to", "is"]
  const RU_VOWELS: seq<char> := ['а', 'о', 'э', 'и', 'у', 'ы', 'е', 'ё', 'ю', 'я']
  const RU_HARDSIGN: char := 'ъ'

  /** A C++ conversion of a double to int: truncation toward zero. */
  function Trunc(x: real): int {
    if x >= 0.0 then x.Floor else -((-x).Floor)
  }

  /** min_share of detect: the word share of all_count, truncated. */
  function MinShare(allCount: int, wordShare: real): int {
    Trunc(allCount as real * wordShare)
  }

  /** Trunc drops the fraction: it never moves away from zero and never by
      a whole unit. */
  lemma TruncTowardZero(x: real)
    ensures x >= 0.0 ==> 0 <= Trunc(x) && Trunc(x) as real <= x < Trunc(x) as real + 1.0
    ensures x < 0.0 ==> Trunc(x) <= 0 && Trunc(x) as real - 1.0 < x <= Trunc(x) as real
  {
  }

  predicate IsLatinToken(t: string) { TypeOf(t) == Latin }
  predicate IsCyrillicToken(t: string) { TypeOf(t) == Cyrillic }
  /** A token counted in all_count: anything but a number or a punctuation mark. */
  predicate IsWordToken(t: string) { TypeOf(t) != Number && TypeOf(t) != Punctuation }
  predicate IsCommonEnWord(t: string) { t in EN_COMMON_WORDS }

  /** The share test of is_language_en. With all_count zero the C++ division
      is +inf (true) for a positive count and NaN (false) for zero. */
  predicate EnShareExceeds(count: int, allCount: int, share: real) {
    if allCount == 0 then count > 0 else count as real / allCount as real > share
  }

  /** The token's first hard sign stands between two non-vowels. */
  predicate HardSignBetweenConsonants(t: string) {
    var index := FindChar(t, RU_HARDSIGN, 0);
    index != -1 && 0 < index < |t| - 1 && t[index - 1] !in RU_VOWELS && t[index + 1] !in RU_VOWELS
  }

  /** No token has its first hard sign between two consonants. */
  predicate NoHardSignBetweenConsonants(tokens: seq<string>) {
    forall i :: 0 <= i < |tokens| ==> !HardSignBetweenConsonants(tokens[i])
  }

  /** The outcome of detect, stated on counts of the token list. */
  function DetectSpec(tokens: seq<string>, wordShare: real, enCommonShare: real): string {
    var enCount := CountIf(tokens, IsLatinToken);
    var ruCount := CountIf(tokens, IsCyrillicToken);
    var allCount := CountIf(tokens, IsWordToken);
    var minShare := MinShare(allCount, wordShare);
    if enCount > minShare then
      (if EnShareExceeds(CountIf(tokens, IsCommonEnWord), allCount, enCommonShare) then "en" else "other")
    else if enCount + ruCount > minShare then
      (if NoHardSignBetweenConsonants(tokens) then "ru" else "other")
    else "other"
  }

  class LanguageDetector {
    const wordShare: real
    const enCommonShare: real

    constructor (wordShare: real, enCommonShare: real)
      ensures this.wordShare == wordShare && this.enCommonShare == enCommonShare
    {
      this.wordShare := wordShare;
      this.enCommonShare := enCommonShare;
    }

    /** LanguageDetector::detect. */
    method Detect(tokens: seq<string>) returns (langCode: string)
      ensures langCode == DetectSpec(tokens, wordShare, enCommonShare)
      ensures langCode == "en" || langCode == "ru" || langCode == "other"
    {
      langCode := "other";
      var enCount, ruCount, allCount := CountScripts(tokens);
      var minShare := MinShare(allCount, wordShare);
      if enCount > minShare {
        var isEn := IsLanguageEn(tokens, allCount);
        if isEn {
          langCode := "en";
        }
      } else if enCount + ruCount > minShare {
        var isRu := IsLanguageRu(tokens);
        if isRu {
          langCode := "ru";
        }
      }
    }

    /** The counting loop of detect. */
    static method CountScripts(tokens: seq<string>) returns (enCount: int, ruCount: int, allCount: int)
      ensures enCount == CountIf(tokens, IsLatinToken)
      ensures ruCount == CountIf(tokens, IsCyrillicToken)
      ensures allCount == CountIf(tokens, IsWordToken)
    {
      enCount, ruCount, allCount := 0, 0, 0;
      var i := 0;
      while i < |tokens|
        invariant 0 <= i <= |tokens|
        invariant enCount == CountIf(tokens[..i], IsLatinToken)
        invariant ruCount == CountIf(tokens[..i], IsCyrillicToken)
        invariant allCount == CountIf(tokens[..i], IsWordToken)
      {
        var tokenType := GetTokenType(tokens[i]);
        CountIfStep(tokens, i, IsLatinToken);
        CountIfStep(tokens, i, IsCyrillicToken);
        CountIfStep(tokens, i, IsWordToken);
        if tokenType == Latin {
          enCount := enCount + 1;
        } else if tokenType == Cyrillic {
          ruCount := ruCount + 1;
        }
        if tokenType != Number && tokenType != Punctuation {
          allCount := allCount + 1;
        }
        i := i + 1;
      }
      assert tokens[..i] == tokens;
    }

    /** LanguageDetector::is_language_en: the share of common English words. */
    method IsLanguageEn(tokens: seq<string>, allCount: int) returns (isEn: bool)
      ensures isEn <==> EnShareExceeds(CountIf(tokens, IsCommonEnWord), allCount, enCommonShare)
    {
      var enCount := 0;
      var i := 0;
      while i < |tokens|
        invariant 0 <= i <= |tokens|
        invariant enCount == CountIf(tokens[..i], IsCommonEnWord)
      {
        CountIfStep(tokens, i, IsCommonEnWord);
        var isCommon := Contains(EN_COMMON_WORDS, tokens[i]);
        if isCommon {
          enCount := enCount + 1;
        }
        i := i + 1;
      }
      assert tokens[..i] == tokens;
      if allCount == 0 {
        isEn := enCount > 0;
      } else {
        isEn := enCount as real / allCount as real > enCommonShare;
      }
    }

    /** LanguageDetector::is_language_ru: true unless some token has its
        first hard sign between two consonants. */
    method IsLanguageRu(tokens: seq<string>) returns (isNotFound: bool)
      ensures isNotFound <==> NoHardSignBetweenConsonants(tokens)
    {
      isNotFound := true;
      var i := 0;
      while i < |tokens|
        invariant 0 <= i <= |tokens|
        invariant forall j :: 0 <= j < i ==> !HardSignBetweenConsonants(tokens[j])
      {
        var token := tokens[i];
        var index := FindChar(token, RU_HARDSIGN, 0);
        if index != -1 {
          if index > 0 && index < |token| - 1 {
            var isVowelFirst := Contains(RU_VOWELS, token[index - 1]);
            var isVowelSecond := Contains(RU_VOWELS, token[index + 1]);
            if !isVowelFirst && !isVowelSecond {
              isNotFound := false;
              break;
            }
          }
        }
        i := i + 1;
      }
    }
  }

  lemma {:induction false} CountsWithinAll(tokens: seq<string>)
    ensures CountIf(tokens, IsLatinToken) + CountIf(tokens, IsCyrillicToken) <= CountIf(tokens, IsWordToken)
  {
    if tokens != [] {
      CountsWithinAll(tokens[..|tokens| - 1]);
    }
  }

  /** Every Latin or Cyrillic token is a word of the heading, so the script
      counts never exceed all_count. */
  lemma ScriptCountsBounded(tokens: seq<string>)
    ensures CountIf(tokens, IsLatinToken) + CountIf(tokens, IsCyrillicToken) <= CountIf(tokens, IsWordToken) <= |tokens|
  {
    CountsWithinAll(tokens);
  }

  /** A heading is called Russian only when it has a Cyrillic word, and,
      for a non-negative word share, English only when it has a Latin one. */
  lemma AnswerNeedsScript(tokens: seq<string>, wordShare: real, enCommonShare: real)
    ensures DetectSpec(tokens, wordShare, enCommonShare) == "ru" ==> CountIf(tokens, IsCyrillicToken) > 0
    ensures wordShare >= 0.0 && DetectSpec(tokens, wordShare, enCommonShare) == "en" ==> CountIf(tokens, IsLatinToken) > 0
  {
    var allCount := CountIf(tokens, IsWordToken);
    assert wordShare >= 0.0 ==> allCount as real * wordShare >= 0.0;
    TruncTowardZero(allCount as real * wordShare);
  }

  /** A heading without words (only numbers and punctuation) is never
      assigned a language, whatever the shares. */
  lemma NoWordsIsOther(tokens: seq<string>, wordShare: real, enCommonShare: real)
    requires forall i :: 0 <= i < |tokens| ==> !IsWordToken(tokens[i])
    ensures DetectSpec(tokens, wordShare, enCommonShare) == "other"
  {
    NoneCounted(tokens, IsWordToken);
    ScriptCountsBounded(tokens);
  }

  lemma {:induction false} NoneCounted<T>(s: seq<T>, p: T -> bool)
    requires forall i :: 0 <= i < |s| ==> !p(s[i])
    ensures CountIf(s, p) == 0
  {
    if s != [] {
      NoneCounted(s[..|s| - 1], p);
    }
  }

  /** Only a token's first hard sign is examined: in "ъсъс" the second one
      stands between two consonants, yet the token is not rejected. */
  lemma OnlyFirstHardSign()
    ensures "ъсъс"[1] !in RU_VOWELS && "ъсъс"[2] == RU_HARDSIGN && "ъсъс"[3] !in RU_VOWELS
    ensures !HardSignBetweenConsonants("ъсъс")
  {
    assert FindChar("ъсъс", RU_HARDSIGN, 0) == 0;
  }
}
