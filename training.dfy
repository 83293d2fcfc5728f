/** The text side of the training script: its own copy of `clean_text` and
    the `cleaned` column it fills, one normalised string per message. */
module Training {
  import opened Strings
  import Normalizer

  /** The training script's `clean_text`, written out step by step as the
      script writes it. Built with the same stemmer and stop-words, it
      normalises every message exactly as the page does. */
  function CleanText(res: Normalizer.Resources, text: string): (r: string)
    ensures r == Normalizer.CleanText(res, text)
  {
    var lowered := Lower(text);
    var kept := Normalizer.RemovePunctuation(lowered);
    var words := Normalizer.StemKept(res, Split(kept));
    Join(words)
  }

  /** `df['cleaned'] = df['message'].apply(clean_text)`: a row-wise map. */
  function CleanedColumn(res: Normalizer.Resources, messages: seq<string>): (cleaned: seq<string>)
    ensures |cleaned| == |messages|
    ensures forall i | 0 <= i < |messages| :: cleaned[i] == CleanText(res, messages[i])
  {
    if messages == [] then []
    else [CleanText(res, messages[0])] + CleanedColumn(res, messages[1..])
  }

  /** Row `i` of the cleaned column is what the page's normaliser makes of
      message `i`, and blank or punctuation-only messages become "". */
  lemma CleanedRow(res: Normalizer.Resources, messages: seq<string>, i: int)
    requires 0 <= i < |messages|
    ensures CleanedColumn(res, messages)[i] == Normalizer.CleanText(res, messages[i])
    ensures (forall c | c in messages[i] :: IsSpace(c) || Normalizer.IsPunctuation(c)) ==>
              CleanedColumn(res, messages)[i] == ""
  {
    if forall c | c in messages[i] :: IsSpace(c) || Normalizer.IsPunctuation(c) {
      Normalizer.CleanTextOfBlank(res, messages[i]);
    }
  }
}
