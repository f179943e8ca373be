/** The text-statistics routine of the word counter: the total number of
    tokens, the number of distinct tokens and the frequency table, ordered
    by count, largest first. */
module WordCount {
  import opened Chars
  import opened Tokenizer
  import opened Frequency

  /** What the routine returns: `total`, `unique` and the rows of the
      frequency table. */
  datatype WordStats = WordStats(total: nat, unique: nat, frequency: seq<Row>)

  function CountEnglishWords(text: string): (stats: WordStats)
    ensures stats.unique <= stats.total
    ensures |stats.frequency| == stats.unique
    ensures SumCounts(stats.frequency) == stats.total
    ensures SortedByCountDesc(stats.frequency)
  {
    var words := Tokenize(text);
    var table := SortByCountDesc(Counter(words));
    WordSetBound(words);
    FrequencyTable(words, table);
    WordStats(|words|, |WordSet(words)|, table)
  }

  /** The frequency table is a reordering of the counter's items: one row per
      distinct token, holding that token's number of occurrences. */
  lemma FrequencyRows(text: string)
    ensures multiset(CountEnglishWords(text).frequency) == multiset(Counter(Tokenize(text)))
    ensures NoDuplicates(WordsOf(CountEnglishWords(text).frequency))
    ensures forall w :: w in WordsOf(CountEnglishWords(text).frequency) <==> w in Tokenize(text)
    ensures forall i :: 0 <= i < |CountEnglishWords(text).frequency| ==>
              var r := CountEnglishWords(text).frequency[i];
              1 <= r.count == multiset(Tokenize(text))[r.word]
  {
    var words := Tokenize(text);
    var table := SortByCountDesc(Counter(words));
    assert CountEnglishWords(text).frequency == table;
    FrequencyTable(words, table);
  }

  /** Every word in the table is a well-formed token. */
  lemma FrequencyWordsAreTokens(text: string)
    ensures forall i :: 0 <= i < |CountEnglishWords(text).frequency| ==>
              IsToken(CountEnglishWords(text).frequency[i].word)
  {
    var words := Tokenize(text);
    var table := CountEnglishWords(text).frequency;
    FrequencyRows(text);
    TokenShape(text);
    forall i | 0 <= i < |table| ensures IsToken(table[i].word) {
      assert WordsOf(table)[i] == table[i].word;
      var k :| 0 <= k < |words| && words[k] == table[i].word;
    }
  }

  /** A text yields zero counts and an empty table exactly when it is made
      of punctuation and whitespace only (the empty text included). */
  lemma EmptyText(text: string)
    ensures CountEnglishWords(text).total == 0 <==>
              forall i :: 0 <= i < |text| ==> IsPunctuation(text[i]) || IsWhitespace(text[i])
    ensures CountEnglishWords(text).total == 0 ==>
              CountEnglishWords(text).unique == 0 && CountEnglishWords(text).frequency == []
  {
    TokenizeEmpty(text);
  }

  /** Texts that differ only in the case of ASCII letters have the same
      statistics, so `Hello` and `hello` are one word. */
  lemma CaseIsIgnored(t1: string, t2: string)
    requires |t1| == |t2|
    requires forall i :: 0 <= i < |t1| ==> ToLower(t1[i]) == ToLower(t2[i])
    ensures CountEnglishWords(t1) == CountEnglishWords(t2)
  {
    TokenizeIgnoresCase(t1, t2);
  }
}
