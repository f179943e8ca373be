/** Character classes used by the word counter: the punctuation table it
    deletes, the characters its split treats as whitespace, and the case
    folding it applies. */
module Chars {

  /** The 32 characters of Python's `string.punctuation`, in its order. */
  const Punctuation: string := "!\"#$%&'()*+,-./:;<=>?@[\\]^_`{|}~"

  /** Membership in the punctuation table, by ASCII code ranges; the lemma
      PunctuationTable shows it agrees with the table character by character. */
  predicate IsPunctuation(c: char) {
    || '!' <= c <= '/'
    || ':' <= c <= '@'
    || '[' <= c <= '`'
    || '{' <= c <= '~'
  }

  /** The characters Python's `str.split()` and `str.strip()` treat as
      whitespace when called without arguments. */
  predicate IsWhitespace(c: char) {
    || '\t' <= c <= '\r'              // tab, line feed, vertical tab, form feed, carriage return
    || '\U{1C}' <= c <= '\U{1F}'      // file, group, record and unit separators
    || c == ' '
    || c == '\U{85}'                  // next line
    || c == '\U{A0}'                  // no-break space
    || c == '\U{1680}'                // ogham space mark
    || '\U{2000}' <= c <= '\U{200A}'  // en quad .. hair space
    || c == '\U{2028}' || c == '\U{2029}'
    || c == '\U{202F}' || c == '\U{205F}' || c == '\U{3000}'
  }

  predicate IsUpper(c: char) {
    'A' <= c <= 'Z'
  }

  predicate IsLower(c: char) {
    'a' <= c <= 'z'
  }

  predicate IsDigit(c: char) {
    '0' <= c <= '9'
  }

  /** ASCII case folding: upper-case ASCII letters become their lower-case
      counterparts and every other character is left as it is. */
  function ToLower(c: char): (d: char)
    ensures !IsUpper(d)
    ensures IsUpper(c) ==> IsLower(d) && d as int - 'a' as int == c as int - 'A' as int
    ensures !IsUpper(c) ==> d == c
    ensures IsPunctuation(d) <==> IsPunctuation(c)
  {
    if IsUpper(c) then (c as int - 'A' as int + 'a' as int) as char else c
  }

  /** Case folding never turns a character into whitespace or back. */
  lemma ToLowerKeepsWhitespace(c: char)
    ensures IsWhitespace(ToLower(c)) <==> IsWhitespace(c)
  {
  }

  /** The punctuation table is exactly the printable ASCII characters other
      than letters, digits and the space. */
  lemma PunctuationIsAsciiSymbols(c: char)
    ensures IsPunctuation(c) <==> '!' <= c <= '~' && !IsUpper(c) && !IsLower(c) && !IsDigit(c)
  {
  }

  /** The table holds 32 characters in strictly increasing order, so no
      character appears twice. */
  lemma PunctuationTableSize()
    ensures |Punctuation| == 32
    ensures forall i :: 0 <= i < |Punctuation| - 1 ==> Punctuation[i] < Punctuation[i + 1]
  {
  }

  /** The range predicate agrees with the table character by character. */
  lemma PunctuationTable(c: char)
    ensures IsPunctuation(c) <==> c in Punctuation
  {
    if IsPunctuation(c) {
      var k := c as int;
      if k <= 47 {
        assert Punctuation[k - 33] == c;
      } else if k <= 64 {
        assert Punctuation[k - 43] == c;
      } else if k <= 96 {
        assert Punctuation[k - 69] == c;
      } else {
        assert Punctuation[k - 95] == c;
      }
    } else {
      forall i | 0 <= i < |Punctuation| ensures Punctuation[i] != c {
        assert IsPunctuation(Punctuation[i]);
      }
    }
  }
}
