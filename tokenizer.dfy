/** Stage one of the word counter: the text is lower-cased, stripped of
    punctuation (deleted, not replaced) and split on runs of whitespace;
    each piece is stripped and only non-empty pieces are kept. */
module Tokenizer {
  import opened Chars

  predicate NoWhitespace(s: string) {
    forall c :: c in s ==> !IsWhitespace(c)
  }

  /** What a token looks like: non-empty, no whitespace, no punctuation,
      no upper-case ASCII letter. */
  predicate IsToken(t: string) {
    && t != []
    && forall c :: c in t ==> !IsWhitespace(c) && !IsPunctuation(c) && !IsUpper(c)
  }

  // ---------------------------------------------------------------------
  // Normalisation: str.lower() and str.translate with a deletion table
  // ---------------------------------------------------------------------

  /** The text with every character case-folded. */
  function Lower(s: string): string {
    seq(|s|, i requires 0 <= i < |s| => ToLower(s[i]))
  }

  /** The text with every punctuation character deleted; nothing takes its place. */
  function DeletePunctuation(s: string): (r: string)
    ensures forall c :: c in r <==> c in s && !IsPunctuation(c)
    ensures (forall c :: c in s ==> !IsPunctuation(c)) ==> r == s
  {
    if s == [] then []
    else
      assert forall c :: c in s <==> c == s[0] || c in s[1..];
      (if IsPunctuation(s[0]) then [] else [s[0]]) + DeletePunctuation(s[1..])
  }

  /** The cleaned text, in the order the source builds it: lower-case first,
      then delete punctuation. */
  function Clean(text: string): string {
    DeletePunctuation(Lower(text))
  }

  // ---------------------------------------------------------------------
  // Splitting: str.split() and str.strip() without arguments
  // ---------------------------------------------------------------------

  /** The length of the longest prefix of `s` that holds no whitespace. */
  function WordLength(s: string): (n: nat)
    ensures n <= |s|
    ensures forall i :: 0 <= i < n ==> !IsWhitespace(s[i])
    ensures n < |s| ==> IsWhitespace(s[n])
  {
    if s == [] || IsWhitespace(s[0]) then 0 else 1 + WordLength(s[1..])
  }

  /** The maximal runs of non-whitespace characters of `s`, left to right. */
  function Split(s: string): (words: seq<string>)
    ensures forall i :: 0 <= i < |words| ==> words[i] != []
    ensures forall i, c :: 0 <= i < |words| && c in words[i] ==> c in s && !IsWhitespace(c)
    decreases |s|
  {
    if s == [] then []
    else if IsWhitespace(s[0]) then
      assert forall c :: c in s[1..] ==> c in s;
      Split(s[1..])
    else
      var n := WordLength(s);
      assert forall c :: c in s[n..] ==> c in s;
      [s[..n]] + Split(s[n..])
  }

  function StripLeft(s: string): (r: string)
    ensures r == [] || !IsWhitespace(r[0])
    ensures |r| <= |s| && r == s[|s| - |r|..]
  {
    if s != [] && IsWhitespace(s[0]) then StripLeft(s[1..]) else s
  }

  function StripRight(s: string): (r: string)
    ensures r == [] || !IsWhitespace(r[|r| - 1])
    ensures |r| <= |s| && r == s[..|r|]
  {
    if s != [] && IsWhitespace(s[|s| - 1]) then StripRight(s[..|s| - 1]) else s
  }

  /** The piece with leading and trailing whitespace removed. */
  function Strip(s: string): (r: string)
    ensures r == [] || (!IsWhitespace(r[0]) && !IsWhitespace(r[|r| - 1]))
    ensures NoWhitespace(s) ==> r == s
  {
    StripRight(StripLeft(s))
  }

  /** The list comprehension over the split pieces: strip each one and keep
      those that are non-empty after stripping. */
  function KeepStripped(pieces: seq<string>): (r: seq<string>)
    ensures forall i :: 0 <= i < |r| ==> r[i] != []
    ensures (forall i :: 0 <= i < |pieces| ==> pieces[i] != [] && NoWhitespace(pieces[i])) ==> r == pieces
  {
    if pieces == [] then []
    else
      var t := Strip(pieces[0]);
      (if t != [] then [t] else []) + KeepStripped(pieces[1..])
  }

  /** The token list of a text. */
  function Tokenize(text: string): seq<string> {
    KeepStripped(Split(Clean(text)))
  }

  // ---------------------------------------------------------------------
  // Reference operations: joining tokens and flattening them
  // ---------------------------------------------------------------------

  /** The words joined with a single space between neighbours. */
  function Join(words: seq<string>): string {
    if words == [] then []
    else if |words| == 1 then words[0]
    else words[0] + [' '] + Join(words[1..])
  }

  /** The words written one after the other with nothing in between. */
  function Concat(words: seq<string>): string {
    if words == [] then [] else words[0] + Concat(words[1..])
  }

  /** The text with every whitespace character removed. */
  function RemoveWhitespace(s: string): string {
    if s == [] then []
    else (if IsWhitespace(s[0]) then [] else [s[0]]) + RemoveWhitespace(s[1..])
  }

  // ---------------------------------------------------------------------
  // Normalisation facts
  // ---------------------------------------------------------------------

  /** The cleaned text holds no punctuation and no upper-case ASCII letter. */
  lemma CleanShape(text: string)
    ensures forall c :: c in Clean(text) ==> !IsPunctuation(c) && !IsUpper(c)
  {
    forall c | c in Clean(text) ensures !IsPunctuation(c) && !IsUpper(c) {
      CleanChars(text, c);
      var i :| 0 <= i < |text| && ToLower(text[i]) == c;
    }
  }

  /** A character survives cleaning exactly when it is the case-folding of a
      character of the text and is not punctuation. */
  lemma CleanChars(text: string, c: char)
    ensures c in Clean(text) <==> !IsPunctuation(c) && exists i :: 0 <= i < |text| && ToLower(text[i]) == c
  {
    if c in Lower(text) {
      var i :| 0 <= i < |text| && Lower(text)[i] == c;
    }
    if exists i :: 0 <= i < |text| && ToLower(text[i]) == c {
      var i :| 0 <= i < |text| && ToLower(text[i]) == c;
      assert Lower(text)[i] == c;
    }
  }

  lemma {:induction false} DeletePunctuationAppend(a: string, b: string)
    ensures DeletePunctuation(a + b) == DeletePunctuation(a) + DeletePunctuation(b)
  {
    if a == [] {
      assert a + b == b;
    } else {
      assert (a + b)[0] == a[0] && (a + b)[1..] == a[1..] + b;
      DeletePunctuationAppend(a[1..], b);
    }
  }

  lemma LowerAppend(a: string, b: string)
    ensures Lower(a + b) == Lower(a) + Lower(b)
  {
    var l, r := Lower(a + b), Lower(a) + Lower(b);
    assert |l| == |r|;
    forall i | 0 <= i < |l| ensures l[i] == r[i] {
      if i < |a| {
        assert (a + b)[i] == a[i];
      } else {
        assert (a + b)[i] == b[i - |a|];
      }
    }
  }

  /** Cleaning works character by character, so it distributes over concatenation. */
  lemma CleanAppend(a: string, b: string)
    ensures Clean(a + b) == Clean(a) + Clean(b)
  {
    LowerAppend(a, b);
    DeletePunctuationAppend(Lower(a), Lower(b));
  }

  /** Lower-casing before or after deleting punctuation gives the same text. */
  lemma {:induction false} CleanOrderIrrelevant(s: string)
    ensures Clean(s) == Lower(DeletePunctuation(s))
  {
    if s != [] {
      var head: string := if IsPunctuation(s[0]) then [] else [s[0]];
      assert s == [s[0]] + s[1..];
      CleanAppend([s[0]], s[1..]);
      assert Lower([s[0]]) == [ToLower(s[0])];
      assert Clean([s[0]]) == Lower(head);
      CleanOrderIrrelevant(s[1..]);
      LowerAppend(head, DeletePunctuation(s[1..]));
    }
  }

  // ---------------------------------------------------------------------
  // Splitting facts
  // ---------------------------------------------------------------------

  lemma {:induction false} RemoveWhitespaceAppend(a: string, b: string)
    ensures RemoveWhitespace(a + b) == RemoveWhitespace(a) + RemoveWhitespace(b)
  {
    if a == [] {
      assert a + b == b;
    } else {
      var head := if IsWhitespace(a[0]) then [] else [a[0]];
      assert (a + b)[0] == a[0] && (a + b)[1..] == a[1..] + b;
      RemoveWhitespaceAppend(a[1..], b);
      calc {
        RemoveWhitespace(a + b);
        head + RemoveWhitespace(a[1..] + b);
        head + (RemoveWhitespace(a[1..]) + RemoveWhitespace(b));
        (head + RemoveWhitespace(a[1..])) + RemoveWhitespace(b);
      }
    }
  }

  lemma {:induction false} RemoveWhitespaceOfWord(w: string)
    requires NoWhitespace(w)
    ensures RemoveWhitespace(w) == w
  {
    if w != [] {
      assert w[0] in w;
      assert forall c :: c in w[1..] ==> c in w;
      RemoveWhitespaceOfWord(w[1..]);
    }
  }

  /** Splitting loses only whitespace: the pieces, written back to back, are
      the text with its whitespace removed, in the original order. */
  lemma {:induction false} SplitKeepsText(s: string)
    ensures Concat(Split(s)) == RemoveWhitespace(s)
    decreases |s|
  {
    if s == [] {
    } else if IsWhitespace(s[0]) {
      SplitKeepsText(s[1..]);
    } else {
      var n := WordLength(s);
      var rest := Split(s[n..]);
      assert ([s[..n]] + rest)[0] == s[..n] && ([s[..n]] + rest)[1..] == rest;
      SplitKeepsText(s[n..]);
      assert s == s[..n] + s[n..];
      RemoveWhitespaceAppend(s[..n], s[n..]);
      RemoveWhitespaceOfWord(s[..n]);
    }
  }

  /** Splitting yields nothing exactly when the text is all whitespace. */
  lemma {:induction false} SplitEmpty(s: string)
    ensures Split(s) == [] <==> forall c :: c in s ==> IsWhitespace(c)
    decreases |s|
  {
    if s != [] {
      if IsWhitespace(s[0]) {
        SplitEmpty(s[1..]);
        assert forall c :: c in s ==> c == s[0] || c in s[1..];
      } else {
        assert s[0] in s;
      }
    }
  }

  /** A word followed by nothing or by whitespace is the first piece. */
  lemma SplitWordThen(w: string, rest: string)
    requires w != [] && NoWhitespace(w)
    requires rest == [] || IsWhitespace(rest[0])
    ensures Split(w + rest) == [w] + Split(rest)
  {
    var s := w + rest;
    assert forall i :: 0 <= i < |w| ==> s[i] == w[i] && w[i] in w;
    assert rest != [] ==> s[|w|] == rest[0];
    assert WordLength(s) == |w|;
    assert s[..|w|] == w && s[|w|..] == rest;
  }

  /** A word runs up to the first whitespace character, so whitespace after
      `a` ends the first word where `a`'s first word ends. */
  lemma {:induction false} WordLengthBeforeWhitespace(a: string, t: string)
    requires t == [] || IsWhitespace(t[0])
    ensures WordLength(a + t) == WordLength(a)
  {
    if a == [] {
      assert a + t == t;
    } else if !IsWhitespace(a[0]) {
      assert (a + t)[0] == a[0] && (a + t)[1..] == a[1..] + t;
      WordLengthBeforeWhitespace(a[1..], t);
    } else {
      assert (a + t)[0] == a[0];
    }
  }

  /** Every whitespace character separates words: splitting at it splits the
      two sides independently, whether it is a space, a newline or one of a
      run of whitespace characters. */
  lemma {:induction false} SplitAtWhitespace(a: string, c: char, b: string)
    requires IsWhitespace(c)
    ensures Split(a + [c] + b) == Split(a) + Split(b)
    decreases |a|
  {
    var s := a + [c] + b;
    if a == [] {
      assert s[0] == c && s[1..] == b;
    } else if IsWhitespace(a[0]) {
      assert s[0] == a[0] && s[1..] == a[1..] + [c] + b;
      SplitAtWhitespace(a[1..], c, b);
    } else {
      WordLengthBeforeWhitespace(a, [c] + b);
      assert s == a + ([c] + b);
      var n := WordLength(a);
      assert s[..n] == a[..n] && s[n..] == a[n..] + [c] + b;
      SplitAtWhitespace(a[n..], c, b);
    }
  }

  /** Splitting undoes joining with spaces, for words that are non-empty and
      hold no whitespace. */
  lemma {:induction false} SplitJoin(words: seq<string>)
    requires forall i :: 0 <= i < |words| ==> words[i] != [] && NoWhitespace(words[i])
    ensures Split(Join(words)) == words
  {
    if |words| == 1 {
      SplitWordThen(words[0], []);
      assert words[0] + [] == words[0];
    } else if |words| > 1 {
      var rest: string := [' '] + Join(words[1..]);
      assert Join(words) == words[0] + rest;
      SplitWordThen(words[0], rest);
      assert rest[1..] == Join(words[1..]);
      SplitJoin(words[1..]);
    }
  }

  // ---------------------------------------------------------------------
  // Tokenizer properties
  // ---------------------------------------------------------------------

  /** Stripping and filtering the split pieces changes nothing: the tokens are
      the split of the cleaned text. */
  lemma TokenizeIsSplit(text: string)
    ensures Tokenize(text) == Split(Clean(text))
  {
    var pieces := Split(Clean(text));
    assert forall i :: 0 <= i < |pieces| ==> NoWhitespace(pieces[i]);
  }

  /** Every token is non-empty and holds no whitespace, no punctuation and no
      upper-case ASCII letter. */
  lemma TokenShape(text: string)
    ensures forall i :: 0 <= i < |Tokenize(text)| ==> IsToken(Tokenize(text)[i])
  {
    var pieces := Split(Clean(text));
    CleanShape(text);
    PiecesAreTokens(Clean(text), pieces);
    TokenizeIsSplit(text);
    assert Tokenize(text) == pieces;
  }

  /** Non-empty pieces made of non-whitespace characters of a text without
      punctuation or upper-case letters are tokens. */
  lemma PiecesAreTokens(s: string, pieces: seq<string>)
    requires forall i :: 0 <= i < |pieces| ==> pieces[i] != []
    requires forall i, c :: 0 <= i < |pieces| && c in pieces[i] ==> c in s && !IsWhitespace(c)
    requires forall c :: c in s ==> !IsPunctuation(c) && !IsUpper(c)
    ensures forall i :: 0 <= i < |pieces| ==> IsToken(pieces[i])
  {
  }

  /** The tokens appear in text order: written back to back they are the
      cleaned text without its whitespace. */
  lemma TokensKeepOrder(text: string)
    ensures Concat(Tokenize(text)) == RemoveWhitespace(Clean(text))
  {
    TokenizeIsSplit(text);
    SplitKeepsText(Clean(text));
  }

  /** Punctuation is deleted, not turned into a separator: removing one
      punctuation character anywhere does not change the tokens. */
  lemma PunctuationIsDeleted(a: string, p: char, b: string)
    requires IsPunctuation(p)
    ensures Tokenize(a + [p] + b) == Tokenize(a + b)
  {
    assert Lower([p]) == [ToLower(p)];
    assert DeletePunctuation([ToLower(p)]) == [] + DeletePunctuation([]);
    CleanAppend(a + [p], b);
    CleanAppend(a, [p]);
    CleanAppend(a, b);
    assert Clean(a + [p]) == Clean(a);
    assert Clean(a + [p] + b) == Clean(a + b);
  }

  /** Whitespace is a separator: the tokens on either side of any whitespace
      character are the tokens of the two sides, one after the other. */
  lemma TokenizeAtWhitespace(a: string, c: char, b: string)
    requires IsWhitespace(c)
    ensures Tokenize(a + [c] + b) == Tokenize(a) + Tokenize(b)
  {
    assert Lower([c]) == [c];
    assert DeletePunctuation([c]) == [c] + DeletePunctuation([]);
    CleanAppend(a + [c], b);
    CleanAppend(a, [c]);
    assert Clean(a + [c] + b) == Clean(a) + [c] + Clean(b);
    SplitAtWhitespace(Clean(a), c, Clean(b));
    TokenizeIsSplit(a + [c] + b);
    TokenizeIsSplit(a);
    TokenizeIsSplit(b);
  }

  /** Texts that differ only in the case of ASCII letters give the same tokens. */
  lemma TokenizeIgnoresCase(t1: string, t2: string)
    requires |t1| == |t2|
    requires forall i :: 0 <= i < |t1| ==> ToLower(t1[i]) == ToLower(t2[i])
    ensures Tokenize(t1) == Tokenize(t2)
  {
    assert Lower(t1) == Lower(t2);
  }

  /** A text gives no tokens exactly when it is made of punctuation and
      whitespace only (the empty text included). */
  lemma TokenizeEmpty(text: string)
    ensures Tokenize(text) == [] <==> forall i :: 0 <= i < |text| ==> IsPunctuation(text[i]) || IsWhitespace(text[i])
  {
    TokenizeIsSplit(text);
    SplitEmpty(Clean(text));
    CleanAllWhitespace(text);
  }

  /** Cleaning leaves only whitespace exactly when the text is made of
      punctuation and whitespace. */
  lemma CleanAllWhitespace(text: string)
    ensures (forall c :: c in Clean(text) ==> IsWhitespace(c)) <==>
            forall i :: 0 <= i < |text| ==> IsPunctuation(text[i]) || IsWhitespace(text[i])
  {
    if forall i :: 0 <= i < |text| ==> IsPunctuation(text[i]) || IsWhitespace(text[i]) {
      forall c | c in Clean(text) ensures IsWhitespace(c) {
        CleanChars(text, c);
      }
    } else {
      var i :| 0 <= i < |text| && !IsPunctuation(text[i]) && !IsWhitespace(text[i]);
      CleanChars(text, ToLower(text[i]));
    }
  }

  lemma {:induction false} JoinChars(words: seq<string>, c: char)
    requires c in Join(words)
    ensures c == ' ' || exists i :: 0 <= i < |words| && c in words[i]
  {
    if |words| > 1 {
      if c in words[0] {
      } else if c != ' ' {
        assert c in Join(words[1..]);
        JoinChars(words[1..], c);
        var i :| 0 <= i < |words[1..]| && c in words[1..][i];
        assert c in words[i + 1];
      }
    }
  }

  /** Normalisation is idempotent: tokenizing the space-joined tokens of a
      text gives back the same tokens. */
  lemma TokenizeIdempotent(text: string)
    ensures Tokenize(Join(Tokenize(text))) == Tokenize(text)
  {
    var tokens := Tokenize(text);
    TokenShape(text);
    JoinedTokensAreClean(tokens);
    TokenizeIsSplit(Join(tokens));
    SplitJoin(tokens);
  }

  /** Cleaning leaves space-joined tokens as they are. */
  lemma JoinedTokensAreClean(tokens: seq<string>)
    requires forall i :: 0 <= i < |tokens| ==> IsToken(tokens[i])
    ensures Clean(Join(tokens)) == Join(tokens)
  {
    var joined := Join(tokens);
    forall c | c in joined
      ensures !IsPunctuation(c) && !IsUpper(c)
    {
      JoinChars(tokens, c);
    }
    assert Lower(joined) == joined;
  }

  /** A word with one punctuation character inside it (an apostrophe in a
      contraction such as "Let's", a full stop in "a.b") is one token: the
      word without that character, lower-cased. */
  lemma WordWithPunctuationIsOneToken(a: string, p: char, b: string)
    requires IsPunctuation(p)
    requires a + b != []
    requires forall c :: c in a + b ==> !IsWhitespace(c) && !IsPunctuation(c)
    ensures Tokenize(a + [p] + b) == [Lower(a + b)]
  {
    PunctuationIsDeleted(a, p, b);
    TokenizeWord(a + b);
  }

  /** A non-empty word without whitespace or punctuation is one token: the
      word lower-cased. */
  lemma TokenizeWord(w: string)
    requires w != []
    requires forall c :: c in w ==> !IsWhitespace(c) && !IsPunctuation(c)
    ensures Tokenize(w) == [Lower(w)]
  {
    var lw := Lower(w);
    forall c | c in lw ensures !IsWhitespace(c) && !IsPunctuation(c) {
      var i :| 0 <= i < |lw| && lw[i] == c;
      assert w[i] in w;
      ToLowerKeepsWhitespace(w[i]);
    }
    assert Clean(w) == lw;
    assert Join([lw]) == lw;
    SplitJoin([lw]);
    TokenizeIsSplit(w);
  }
}
