/**
 * The text logic of `NewsSummarizer` (summarizer.py): merging the title
 * into the article, trimming the generated summary to at most three
 * sentences, and replacing any failure of the inference call by a fixed
 * message. The pretrained pipeline itself is a parameter.
 */
module Summarizer {
  import opened PyStr

  /** The pretrained model identifier (`self.model_name`). */
  const ModelName := "facebook/bart-large-cnn"

  /** The fixed decoding parameters passed to every inference call. */
  datatype GenerationConfig = GenerationConfig(
    maxLength: nat, minLength: nat, doSample: bool, lengthPenalty: real, numBeams: nat)

  const Generation := GenerationConfig(150, 50, false, 2.0, 4)

  /** What one call of the inference pipeline does: it raises, or it returns
      a list of candidate records mapping field names to text. */
  datatype Inference = Raised | Returned(candidates: seq<map<string, string>>)

  /** The pretrained summarization pipeline, seen as an opaque function. */
  type Pipeline = (string, GenerationConfig) -> Inference

  // ---------------------------------------------------------------------------
  // preprocess_text

  const TitleEndings := {'.', '!', '?'}

  /** The title as `preprocess_text` uses it: a non-empty title that does not
      already end in `.`, `!` or `?` gets one period appended. */
  function AdjustTitle(title: string): (t: string)
    ensures t == [] <==> title == []
    ensures t != [] ==> t[|t| - 1] in TitleEndings
    ensures t == title <==> (title == [] || title[|title| - 1] in TitleEndings)
    ensures t != title ==> t == title + "."
  {
    if title != [] && title[|title| - 1] !in TitleEndings then title + "." else title
  }

  /** A title worth prepending: more than two whitespace-separated words. */
  predicate IsInformative(title: string) {
    title != [] && |Words(title)| > 2
  }

  /** `preprocess_text(text, title)`: the adjusted title, a space and the
      text when the adjusted title is informative; the text alone otherwise. */
  function PreprocessText(text: string, title: string): (r: string)
    ensures r == text <==> !IsInformative(AdjustTitle(title))
    ensures r != text ==> r == AdjustTitle(title) + " " + text
  {
    var t := AdjustTitle(title);
    if IsInformative(t) then t + " " + text else text
  }

  lemma AdjustTitleIdempotent(title: string)
    ensures AdjustTitle(AdjustTitle(title)) == AdjustTitle(title)
  {
  }

  /** The question "more than two words?" is asked of the adjusted title: the
      appended period is a word of its own exactly when the title ends in
      whitespace. */
  lemma AdjustedTitleWords(title: string)
    requires title != [] && title[|title| - 1] !in TitleEndings
    ensures |Words(AdjustTitle(title))| == |Words(title)| + (if IsSpace(title[|title| - 1]) then 1 else 0)
  {
    WordsAppend(title, '.');
  }

  /** An empty title leaves the text exactly as it is. */
  lemma PreprocessEmptyTitle(text: string)
    ensures PreprocessText(text, "") == text
  {
  }

  /** A title of at most two words, counted after the period is appended,
      is dropped entirely. */
  lemma PreprocessShortTitle(text: string, title: string)
    requires |Words(AdjustTitle(title))| <= 2
    ensures PreprocessText(text, title) == text
  {
  }

  /** A longer title is prepended: the result starts with the adjusted title
      and a space, and ends with the text. */
  lemma PreprocessLongTitle(text: string, title: string)
    requires |Words(AdjustTitle(title))| > 2
    ensures var r := PreprocessText(text, title);
      && r == AdjustTitle(title) + " " + text
      && AdjustTitle(title) + " " <= r
      && r[|r| - |text|..] == text
  {
    var r := PreprocessText(text, title);
    assert r == (AdjustTitle(title) + " ") + text;
  }

  /** Two runs of non-whitespace around one whitespace character are two words. */
  lemma TwoWords(a: string, c: char, b: string)
    requires a != [] && HasNoSpace(a) && IsSpace(c) && b != [] && HasNoSpace(b)
    ensures |Words(a + [c] + b)| == 2
  {
    WordsAppendWord([], a);
    assert [] + a == a;
    WordsAppendSpace(a, c);
    WordsAppendWord(a + [c], b);
  }

  /** "a b " has two words, but "a b ." has three: the title is kept. */
  lemma PreprocessTrailingSpaceTitle(text: string)
    ensures PreprocessText(text, "a b ") == "a b ." + " " + text
  {
    assert AdjustTitle("a b ") == "a b .";
    assert |Words(AdjustTitle("a b "))| == 3 by {
      var t := AdjustTitle("a b ");
      assert t == "a" + [' '] + "b" + [' '] + ".";
      TwoWords("a", ' ', "b");
      WordsAppendSpace("a" + [' '] + "b", ' ');
      WordsAppendWord("a" + [' '] + "b" + [' '], ".");
    }
    PreprocessLongTitle(text, "a b ");
  }

  /** "Breaking News" becomes "Breaking News.", which still has two words,
      so the title is dropped and the text is returned unchanged. */
  lemma PreprocessTwoWordTitle()
    ensures PreprocessText("hello world example text", "Breaking News") == "hello world example text"
  {
    var t := AdjustTitle("Breaking News");
    assert t == "Breaking" + [' '] + "News.";
    TwoWords("Breaking", ' ', "News.");
    assert |Words(t)| == 2;
  }

  // ---------------------------------------------------------------------------
  // The post-processing in summarize

  const SentenceSep := ". "
  const MaxSentences := 3

  /** The separator occurs exactly where a period is followed by a space. */
  lemma SentenceSepAt(s: string, i: int)
    ensures OccursAt(s, SentenceSep, i) <==> 0 <= i && i + 2 <= |s| && s[i] == '.' && s[i + 1] == ' '
  {
    if OccursAt(s, SentenceSep, i) {
      assert s[i + 0] == SentenceSep[0] && s[i + 1] == SentenceSep[1];
    }
  }

  /** A string whose only period, if any, is its last character holds no
      sentence separator. */
  lemma NoSentenceSep(s: string)
    requires forall k :: 0 <= k < |s| - 1 ==> s[k] != '.'
    ensures !Contains(s, SentenceSep)
  {
    forall i | 0 <= i <= |s| ensures !OccursAt(s, SentenceSep, i) {
      SentenceSepAt(s, i);
    }
  }

  /** The generated text cut to its first three `". "`-separated pieces
      (with a period put back) when it has more, then stripped. The result
      never has more than three pieces, and with at most three pieces the
      text is only stripped: nothing is cut and no period is added. */
  function Trim(raw: string): (r: string)
    ensures IsStripped(r)
    ensures |Split(r, SentenceSep)| <= MaxSentences
    ensures |Split(raw, SentenceSep)| <= MaxSentences ==> r == Strip(raw)
  {
    TrimBound(raw);
    Strip(Truncate(raw))
  }

  /** The generated text before stripping: its first three pieces joined
      back with a period when it has more, the text itself otherwise. */
  function Truncate(raw: string): (out: string)
    ensures |Split(raw, SentenceSep)| <= MaxSentences ==> out == raw
    ensures |Split(raw, SentenceSep)| > MaxSentences ==>
      && out + " " <= raw
      && out != [] && out[|out| - 1] == '.'
      && |Split(out, SentenceSep)| == MaxSentences
  {
    var sentences := Split(raw, SentenceSep);
    if |sentences| > MaxSentences then
      var joined := Join(SentenceSep, sentences[..MaxSentences]);
      ThreeSentences(raw);
      assert (joined + ".") + " " == joined + SentenceSep;
      joined + "."
    else
      raw
  }

  lemma TrimBound(raw: string)
    ensures |Split(Strip(Truncate(raw)), SentenceSep)| <= MaxSentences
  {
    var sentences := Split(raw, SentenceSep);
    if |sentences| > MaxSentences {
      ThreeSentences(raw);
    } else {
      StripFewerPieces(raw, SentenceSep);
    }
  }

  /** When the generated text has more than three pieces, the first three
      joined back, followed by `". "`, are a prefix of the text, and the
      joined pieces with a period appended split into exactly three. */
  lemma ThreeSentences(raw: string)
    requires |Split(raw, SentenceSep)| > MaxSentences
    ensures var joined := Join(SentenceSep, Split(raw, SentenceSep)[..MaxSentences]);
      && joined + SentenceSep <= raw
      && |Split(joined + ".", SentenceSep)| == MaxSentences
      && |Split(Strip(joined + "."), SentenceSep)| == MaxSentences
  {
    var joined := Join(SentenceSep, Split(raw, SentenceSep)[..MaxSentences]);
    JoinedPiecesPrefix(raw, SentenceSep, MaxSentences);
    assert |Split(joined + ".", SentenceSep)| == MaxSentences by {
      SplitOfJoinedPieces(raw, SentenceSep, MaxSentences, ".");
    }
    StripPeriodEnded(joined + ".");
  }

  /** Stripping a text that ends in a period keeps its number of pieces. */
  lemma StripPeriodEnded(out: string)
    requires out != [] && out[|out| - 1] == '.'
    ensures |Split(Strip(out), SentenceSep)| == |Split(out, SentenceSep)|
  {
    StripLeftKeepsPieces(out, SentenceSep);
    var l := StripLeft(out);
    PeriodSurvivesStripLeft(out, l);
    assert !IsSpace(l[|l| - 1]);
  }

  lemma PeriodSurvivesStripLeft(out: string, l: string)
    requires out != [] && out[|out| - 1] == '.'
    requires |l| <= |out| && l == out[|out| - |l|..] && IsBlank(out[..|out| - |l|])
    ensures l != [] && l[|l| - 1] == '.'
  {
    assert !IsBlank(out) by {
      NotBlank(out, |out| - 1);
    }
    assert out[..|out|] == out;
  }

  /** With more than three pieces the summary is the first three joined back,
      which are a prefix of the generated text, plus a period, stripped; it
      has exactly three pieces. */
  lemma TrimCutsLong(raw: string)
    requires |Split(raw, SentenceSep)| > MaxSentences
    ensures var joined := Join(SentenceSep, Split(raw, SentenceSep)[..MaxSentences]);
      && Trim(raw) == Strip(joined + ".")
      && joined + SentenceSep <= raw
      && |Split(Trim(raw), SentenceSep)| == MaxSentences
  {
    ThreeSentences(raw);
  }

  /** Trimming a trimmed summary changes nothing. */
  lemma TrimIdempotent(raw: string)
    ensures Trim(Trim(raw)) == Trim(raw)
  {
    StrippedIsFixed(Trim(raw));
  }

  /** One step of splitting a string whose second and third characters are
      the separator. */
  lemma SplitAfterOneChar(a: char, rest: string)
    ensures Split([a, '.', ' '] + rest, SentenceSep) == [[a]] + Split(rest, SentenceSep)
  {
    var s := [a, '.', ' '] + rest;
    SentenceSepAt(s, 0);
    SentenceSepAt(s, 1);
    FindIsFirst(s, SentenceSep, 1);
    SplitStep(s, SentenceSep, 1);
    assert s[..1] == [a] && s[3..] == rest;
  }

  lemma SplitFourLetters(a: char, b: char, c: char, d: char)
    ensures Split([a, '.', ' '] + ([b, '.', ' '] + ([c, '.', ' '] + [d, '.'])), SentenceSep)
         == [[a], [b], [c], [d, '.']]
  {
    var s3 := [d, '.'];
    var s2 := [c, '.', ' '] + s3;
    var s1 := [b, '.', ' '] + s2;
    var s0 := [a, '.', ' '] + s1;
    assert Split(s2, SentenceSep) == [[c], s3] by {
      assert !Contains(s3, SentenceSep) by {
        forall i | 0 <= i <= |s3| ensures !OccursAt(s3, SentenceSep, i) {
          SentenceSepAt(s3, i);
        }
      }
      SplitWithout(s3, SentenceSep);
      SplitAfterOneChar(c, s3);
    }
    assert Split(s1, SentenceSep) == [[b], [c], s3] by {
      SplitAfterOneChar(b, s2);
    }
    assert Split(s0, SentenceSep) == [[a], [b], [c], s3] by {
      SplitAfterOneChar(a, s1);
    }
  }

  lemma JoinThreeLetters(a: char, b: char, c: char)
    ensures Join(SentenceSep, [[a], [b], [c]]) + "." == [a, '.', ' ', b, '.', ' ', c, '.']
  {
    assert [[a], [b], [c]][1..] == [[b], [c]] && [[b], [c]][1..] == [[c]];
  }

  /** A text whose first three pieces, joined back with a period, are
      already stripped is trimmed to exactly that. */
  lemma TrimToStripped(raw: string, out: string)
    requires |Split(raw, SentenceSep)| > MaxSentences
    requires Join(SentenceSep, Split(raw, SentenceSep)[..MaxSentences]) + "." == out
    requires IsStripped(out)
    ensures Trim(raw) == out
  {
    TrimCutsLong(raw);
    StrippedIsFixed(out);
  }

  /** Four one-letter sentences are cut to the first three, and the final
      period is restored. */
  lemma TrimFourSentences(a: char, b: char, c: char, d: char)
    requires !IsSpace(a)
    ensures Trim([a, '.', ' ', b, '.', ' ', c, '.', ' ', d, '.']) == [a, '.', ' ', b, '.', ' ', c, '.']
  {
    var raw := [a, '.', ' ', b, '.', ' ', c, '.', ' ', d, '.'];
    var out := [a, '.', ' ', b, '.', ' ', c, '.'];
    var parts := [[a], [b], [c], [d, '.']];
    assert Split(raw, SentenceSep) == parts by {
      assert raw == [a, '.', ' '] + ([b, '.', ' '] + ([c, '.', ' '] + [d, '.']));
      SplitFourLetters(a, b, c, d);
    }
    assert parts[..MaxSentences] == [[a], [b], [c]];
    JoinThreeLetters(a, b, c);
    assert IsStripped(out) by {
      assert !IsSpace('.');
    }
    TrimToStripped(raw, out);
  }

  /** The four-sentence example: "A. B. C. D." is trimmed to "A. B. C.". */
  lemma TrimExample()
    ensures Trim("A. B. C. D.") == "A. B. C."
  {
    assert "A. B. C. D." == ['A', '.', ' ', 'B', '.', ' ', 'C', '.', ' ', 'D', '.'];
    assert "A. B. C." == ['A', '.', ' ', 'B', '.', ' ', 'C', '.'];
    TrimFourSentences('A', 'B', 'C', 'D');
  }

  // ---------------------------------------------------------------------------
  // summarize

  const SummaryKey := "summary_text"
  const FailedSummary := "Summary generation failed."

  /** The inference output yields no summary text: the call raised, returned
      no candidate, or its first candidate has no `summary_text` field. */
  predicate GenerationFailed(out: Inference) {
    out.Raised? || |out.candidates| == 0 || SummaryKey !in out.candidates[0]
  }

  /** The fallback message is a single stripped piece. */
  lemma FailedSummaryIsOneSentence()
    ensures Split(FailedSummary, SentenceSep) == [FailedSummary]
    ensures IsStripped(FailedSummary)
  {
    assert FailedSummary[0] == 'S' && FailedSummary[|FailedSummary| - 1] == '.';
    FailedSummaryPeriodLast();
    NoSentenceSep(FailedSummary);
    SplitWithout(FailedSummary, SentenceSep);
  }

  lemma FailedSummaryPeriodLast()
    ensures forall k :: 0 <= k < |FailedSummary| - 1 ==> FailedSummary[k] != '.'
  {
    var body := "Summary" + " " + "generation" + " " + "failed";
    assert FailedSummary == body + ".";
    assert '.' !in body;
    forall k | 0 <= k < |FailedSummary| - 1 ensures FailedSummary[k] != '.' {
      assert FailedSummary[k] == body[k];
    }
  }

  /** `summarize(text, title)`: the trimmed text of the first candidate the
      pipeline returns for the preprocessed input; any failure becomes the
      fixed fallback message instead of an exception. */
  function Summarize(pipeline: Pipeline, text: string, title: string): (r: string)
    ensures var out := pipeline(PreprocessText(text, title), Generation);
      && (GenerationFailed(out) ==> r == FailedSummary)
      && (!GenerationFailed(out) ==> r == Trim(out.candidates[0][SummaryKey]))
    ensures IsStripped(r) && |Split(r, SentenceSep)| <= MaxSentences
  {
    var out := pipeline(PreprocessText(text, title), Generation);
    if GenerationFailed(out) then
      FailedSummaryIsOneSentence();
      FailedSummary
    else
      Trim(out.candidates[0][SummaryKey])
  }
}
