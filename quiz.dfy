/**
 * The two answer checks of the drill: the gender check of gender mode
 * and the spelling check of spelling mode, as pure predicates over the
 * typed answer and the word being asked.
 */
module Quiz {
  import opened Text
  import opened Vocab
  import Collections

  /** `checkGender`: the chosen article against the stored one, ignoring case. */
  predicate GenderCorrect(answer: string, w: WordRecord) {
    EqualsIgnoringCase(answer, w.gender)
  }

  /** `submitSpelling`: the input is trimmed and its whitespace runs become
      single spaces. A noun needs at least two space-separated tokens, the
      first equal to the article ignoring case and the second equal to the
      word exactly; any other word needs the whole input to equal it. */
  predicate SpellingCorrect(input: string, w: WordRecord) {
    var val := Normalize(input);
    if IsNoun(w) then
      var p := Split(val, ' ');
      |p| >= 2 && EqualsIgnoringCase(p[0], w.gender) && p[1] == w.word
    else
      val == w.word
  }

  /** What a noun answer must look like, as a list of typed words. */
  predicate NounAnswer(ws: seq<string>, w: WordRecord) {
    |ws| >= 2 && EqualsIgnoringCase(ws[0], w.gender) && ws[1] == w.word
  }

  /** Reference reading of the spelling check in terms of the words typed:
      only the words matter, not the whitespace around or between them. */
  lemma SpellingByWords(input: string, w: WordRecord)
    ensures SpellingCorrect(input, w) <==>
      if IsNoun(w) then NounAnswer(Words(input), w) else Join(Words(input), ' ') == w.word
  {
    NormalizedTokens(input);
    NormalizeIsJoinedWords(input);
  }

  /** Two inputs with the same words get the same verdict. */
  lemma SpellingIgnoresSpacing(a: string, b: string, w: WordRecord)
    requires Words(a) == Words(b)
    ensures SpellingCorrect(a, w) <==> SpellingCorrect(b, w)
  {
    SpellingByWords(a, w);
    SpellingByWords(b, w);
  }

  /** For a word without inner whitespace, a non-noun answer is correct
      exactly when it consists of that one word. */
  lemma SpellingOfOtherWord(input: string, w: WordRecord)
    requires !IsNoun(w) && IsWord(w.word)
    ensures SpellingCorrect(input, w) <==> Words(input) == [w.word]
  {
    SpellingByWords(input, w);
    var ws := Words(input);
    if Join(ws, ' ') == w.word {
      WordsOfJoin(ws);
      WordsOfWord(w.word);
    }
    if ws == [w.word] {
      assert Join(ws, ' ') == w.word;
    }
  }

  /** A noun whose stored word holds whitespace (a space, a tab, ...) can
      never be answered: the second typed word is free of whitespace. */
  lemma NounWithSpaceUnanswerable(input: string, w: WordRecord)
    requires IsNoun(w) && !NoWs(w.word)
    ensures !SpellingCorrect(input, w)
  {
    SpellingByWords(input, w);
    var ws := Words(input);
    if |ws| >= 2 {
      assert IsWord(ws[1]);
    }
  }

  /** The answer the result line shows: article and word for a noun,
      the word alone otherwise. */
  function CanonicalAnswer(w: WordRecord): string {
    if IsNoun(w) then w.gender + " " + w.word else w.word
  }

  /** Typing the shown answer is accepted: for a noun whose article and
      word are single words, and for any other word that is its own words
      joined by single spaces (such as "sich freuen"). */
  lemma CanonicalAccepted(w: WordRecord)
    requires IsNoun(w) ==> IsWord(w.word) && IsWord(w.gender)
    requires !IsNoun(w) ==> w.word == Join(Words(w.word), ' ')
    ensures SpellingCorrect(CanonicalAnswer(w), w)
  {
    if IsNoun(w) {
      NounCanonicalAccepted(w);
    } else {
      SpellingByWords(w.word, w);
    }
  }

  lemma NounCanonicalAccepted(w: WordRecord)
    requires IsNoun(w) && IsWord(w.word) && IsWord(w.gender)
    ensures SpellingCorrect(w.gender + " " + w.word, w)
  {
    var input := w.gender + " " + w.word;
    var ws := [w.gender, w.word];
    assert Join(ws, ' ') == input by {
      assert ws[1..] == [w.word];
    }
    WordsOfJoin(ws);
    assert NounAnswer(ws, w);
    SpellingByWords(input, w);
  }

  /** Lower-casing twice changes nothing more. */
  lemma LowerIdempotent(s: string)
    ensures Lower(Lower(s)) == Lower(s)
  {
    assert forall i :: 0 <= i < |s| ==> Lower(Lower(s))[i] == LowerChar(LowerChar(s[i]));
  }

  /** The gender check does not see the case of the answer. */
  lemma GenderIgnoresCase(answer: string, w: WordRecord)
    ensures GenderCorrect(answer, w) <==> GenderCorrect(Lower(answer), w)
  {
    LowerIdempotent(answer);
  }

  // ---------------------------------------------------------------------
  // Worked examples

  const Tisch := WordRecord("Band1-Lektion1-Tisch", "Lektion1", "n", "der", "Tisch", "table", "", "")
  const Laufen := WordRecord("Band1-Lektion1-laufen", "Lektion1", "v", "", "laufen", "run", "", "")

  /** Two words with whitespace between them. */
  lemma WordsAroundGap(a: string, z: string, b: string)
    requires IsWord(a) && IsWord(b) && z != [] && AllWs(z)
    ensures Words(a + z + b) == [a, b]
  {
    Collections.ConcatAssoc(a, z, b);
    WordsCons(a, z + b);
    WordsWsPrefix(z, b);
    WordsOfWord(b);
  }

  lemma ArticleWords()
    ensures IsWord("der") && IsWord("Der") && IsWord("das")
  {
  }

  lemma NounWords()
    ensures IsWord("Tisch") && IsWord("tisch") && IsNoun(Tisch)
  {
  }

  lemma VerbWords()
    ensures IsWord("laufen") && IsWord("Laufen") && !IsNoun(Laufen)
  {
  }

  lemma ExampleInputs()
    ensures "der" + " " + "Tisch" == "der Tisch"
    ensures "Der" + "  " + "Tisch" == "Der  Tisch"
    ensures "Der" + "  " + "tisch" == "Der  tisch"
    ensures "das" + " " + "Tisch" == "das Tisch"
  {
  }

  lemma ArticleCase()
    ensures EqualsIgnoringCase("Der", "der") && !EqualsIgnoringCase("das", "der")
  {
    EqualsIgnoringCaseLetterwise("Der", "der");
    EqualsIgnoringCaseLetterwise("das", "der");
    assert LowerChar("das"[1]) != LowerChar("der"[1]);
  }

  lemma NounExampleExact()
    ensures SpellingCorrect("der Tisch", Tisch)
  {
    ExampleInputs();
    ArticleWords();
    NounWords();
    WordsAroundGap("der", " ", "Tisch");
    SpellingByWords("der Tisch", Tisch);
  }

  lemma NounExampleSpacing()
    ensures SpellingCorrect("Der  Tisch", Tisch)
  {
    ExampleInputs();
    ArticleWords();
    NounWords();
    ArticleCase();
    WordsAroundGap("Der", "  ", "Tisch");
    SpellingByWords("Der  Tisch", Tisch);
  }

  lemma NounExampleWordCase()
    ensures !SpellingCorrect("Der  tisch", Tisch)
  {
    ExampleInputs();
    ArticleWords();
    NounWords();
    WordsAroundGap("Der", "  ", "tisch");
    SpellingByWords("Der  tisch", Tisch);
    assert "tisch"[0] != Tisch.word[0];
  }

  lemma NounExampleArticle()
    ensures !SpellingCorrect("das Tisch", Tisch)
  {
    ExampleInputs();
    ArticleWords();
    NounWords();
    ArticleCase();
    WordsAroundGap("das", " ", "Tisch");
    SpellingByWords("das Tisch", Tisch);
  }

  lemma OtherWordExamples()
    ensures SpellingCorrect("laufen", Laufen)
    ensures !SpellingCorrect("Laufen", Laufen)
  {
    VerbWords();
    WordsOfWord("laufen");
    WordsOfWord("Laufen");
    assert Words("Laufen") != [Laufen.word] by { assert "Laufen"[0] != Laufen.word[0]; }
    SpellingOfOtherWord("laufen", Laufen);
    SpellingOfOtherWord("Laufen", Laufen);
  }

  lemma GenderExamples()
    ensures GenderCorrect("der", Tisch) && GenderCorrect("DER", Tisch)
    ensures !GenderCorrect("die", Tisch)
  {
    EqualsIgnoringCaseLetterwise("DER", Tisch.gender);
    EqualsIgnoringCaseLetterwise("die", Tisch.gender);
    assert LowerChar("die"[1]) != LowerChar(Tisch.gender[1]);
  }
}
