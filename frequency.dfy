/** Stage two and three of the word counter: a `Counter` over the tokens and
    the frequency table made from its items, ordered by count, descending.

    A Python `Counter` is a dictionary that remembers the order in which keys
    were first inserted; it is modelled as the sequence of its items, one
    `Row` per key, in that order. */
module Frequency {

  /** One (word, count) item, and one row of the frequency table. */
  datatype Row = Row(word: string, count: nat)

  /** The words of the rows, in row order. */
  function WordsOf(rows: seq<Row>): seq<string> {
    seq(|rows|, i requires 0 <= i < |rows| => rows[i].word)
  }

  /** The count column of the rows, in row order. */
  function CountsOf(rows: seq<Row>): seq<nat> {
    seq(|rows|, i requires 0 <= i < |rows| => rows[i].count)
  }

  predicate NoDuplicates<T(==)>(s: seq<T>) {
    forall i, j :: 0 <= i < j < |s| ==> s[i] != s[j]
  }

  /** The set of distinct words, as `set(words)` builds it. */
  function WordSet(words: seq<string>): set<string> {
    set w | w in words
  }

  function SumCounts(rows: seq<Row>): nat {
    if rows == [] then 0 else rows[0].count + SumCounts(rows[1..])
  }

  /** Dictionary lookup with a default of 0, as a `Counter` answers it. */
  function Lookup(rows: seq<Row>, w: string): nat {
    if rows == [] then 0
    else if rows[0].word == w then rows[0].count
    else Lookup(rows[1..], w)
  }

  // ---------------------------------------------------------------------
  // Counting: Counter(words)
  // ---------------------------------------------------------------------

  /** `counter[x] += 1`: the count of an existing key goes up by one in
      place; a new key is appended with count 1. */
  function Bump(rows: seq<Row>, x: string): (r: seq<Row>)
    ensures WordsOf(r) == if x in WordsOf(rows) then WordsOf(rows) else WordsOf(rows) + [x]
    ensures forall w :: Lookup(r, w) == Lookup(rows, w) + (if w == x then 1 else 0)
    ensures SumCounts(r) == SumCounts(rows) + 1
    ensures (forall i :: 0 <= i < |rows| ==> rows[i].count >= 1) ==> forall i :: 0 <= i < |r| ==> r[i].count >= 1
  {
    if rows == [] then
      RowsCons(Row(x, 1), []);
      [Row(x, 1)]
    else
      assert rows == [rows[0]] + rows[1..];
      RowsCons(rows[0], rows[1..]);
      if rows[0].word == x then
        RowsCons(Row(x, rows[0].count + 1), rows[1..]);
        [Row(x, rows[0].count + 1)] + rows[1..]
      else
        var rest := Bump(rows[1..], x);
        RowsCons(rows[0], rest);
        [rows[0]] + rest
  }

  /** How the columns, the lookup and the total of a table read when one
      row is put in front. */
  lemma RowsCons(a: Row, t: seq<Row>)
    ensures WordsOf([a] + t) == [a.word] + WordsOf(t)
    ensures forall w :: Lookup([a] + t, w) == if a.word == w then a.count else Lookup(t, w)
    ensures SumCounts([a] + t) == a.count + SumCounts(t)
  {
    assert ([a] + t)[1..] == t;
  }

  /** The items of `Counter(words)`. */
  function Counter(words: seq<string>): (c: seq<Row>)
    ensures NoDuplicates(WordsOf(c))
    ensures forall w :: w in WordsOf(c) <==> w in words
    ensures forall w :: Lookup(c, w) == multiset(words)[w]
    ensures forall i :: 0 <= i < |c| ==> c[i].count >= 1
    ensures SumCounts(c) == |words|
  {
    if words == [] then []
    else
      var prefix, x := words[..|words| - 1], words[|words| - 1];
      assert words == prefix + [x];
      Bump(Counter(prefix), x)
  }

  // ---------------------------------------------------------------------
  // Ordering: sort_values(by=count, ascending=False)
  // ---------------------------------------------------------------------

  /** No row has a larger count than a row before it. */
  predicate SortedByCountDesc(rows: seq<Row>) {
    forall i, j :: 0 <= i < j < |rows| ==> rows[i].count >= rows[j].count
  }

  /** Inserts `r` in front of the first row whose count is not larger. */
  function InsertByCount(r: Row, sorted: seq<Row>): (s: seq<Row>)
    requires SortedByCountDesc(sorted)
    ensures SortedByCountDesc(s)
    ensures multiset(s) == multiset(sorted) + multiset{r}
  {
    if sorted == [] || sorted[0].count <= r.count then
      SortedCons(r, sorted);
      [r] + sorted
    else
      assert sorted == [sorted[0]] + sorted[1..];
      var rest := InsertByCount(r, sorted[1..]);
      BoundedByHead(sorted, r, rest);
      SortedCons(sorted[0], rest);
      [sorted[0]] + rest
  }

  /** A row whose count is at least every count of a sorted table may be
      put in front of it. */
  lemma SortedCons(h: Row, rest: seq<Row>)
    requires SortedByCountDesc(rest)
    requires rest == [] || rest[0].count <= h.count
    ensures SortedByCountDesc([h] + rest)
  {
  }

  /** After inserting a row smaller than the head into the tail, no row of
      the new tail is larger than the head. */
  lemma BoundedByHead(sorted: seq<Row>, r: Row, rest: seq<Row>)
    requires sorted != [] && SortedByCountDesc(sorted)
    requires r.count < sorted[0].count
    requires multiset(rest) == multiset(sorted[1..]) + multiset{r}
    ensures rest == [] || rest[0].count <= sorted[0].count
  {
    if rest != [] {
      assert rest[0] in multiset(rest);
      if rest[0] != r {
        assert rest[0] in multiset(sorted[1..]);
        var k :| 0 <= k < |sorted[1..]| && sorted[1..][k] == rest[0];
        assert sorted[k + 1] == rest[0];
      }
    }
  }

  /** The rows ordered by count, largest first. */
  function SortByCountDesc(rows: seq<Row>): (s: seq<Row>)
    ensures SortedByCountDesc(s)
    ensures multiset(s) == multiset(rows)
  {
    if rows == [] then []
    else
      assert rows == [rows[0]] + rows[1..];
      InsertByCount(rows[0], SortByCountDesc(rows[1..]))
  }

  // ---------------------------------------------------------------------
  // Facts about sequences of words and rows
  // ---------------------------------------------------------------------

  /** There are never more distinct words than words: `len(set(words)) <= len(words)`. */
  lemma {:induction false} WordSetBound(words: seq<string>)
    ensures |WordSet(words)| <= |words|
  {
    if words != [] {
      var prefix := words[..|words| - 1];
      WordSetBound(prefix);
      assert WordSet(words) == WordSet(prefix) + {words[|words| - 1]};
    }
  }

  /** A sequence without repetitions has as many distinct words as entries. */
  lemma {:induction false} NoDuplicatesWordSet(words: seq<string>)
    requires NoDuplicates(words)
    ensures |WordSet(words)| == |words|
  {
    if words != [] {
      var prefix, x := words[..|words| - 1], words[|words| - 1];
      assert NoDuplicates(prefix);
      NoDuplicatesWordSet(prefix);
      assert x !in WordSet(prefix);
      assert WordSet(words) == WordSet(prefix) + {x};
    }
  }

  /** A sequence has no repetitions exactly when no element occurs twice in
      its multiset. */
  lemma {:induction false} NoDuplicatesMultiset<T>(s: seq<T>)
    ensures NoDuplicates(s) <==> forall x :: multiset(s)[x] <= 1
  {
    if s != [] {
      var t := s[1..];
      NoDuplicatesMultiset(t);
      assert s == [s[0]] + t;
      if NoDuplicates(s) {
        assert NoDuplicates(t) by {
          forall i, j | 0 <= i < j < |t| ensures t[i] != t[j] {
            assert t[i] == s[i + 1] && t[j] == s[j + 1];
          }
        }
        assert s[0] !in t by {
          forall k | 0 <= k < |t| ensures t[k] != s[0] {
            assert t[k] == s[k + 1];
          }
        }
      } else {
        var i, j :| 0 <= i < j < |s| && s[i] == s[j];
        if i == 0 {
          assert s[j] == t[j - 1];
          assert multiset(s)[s[0]] >= 2;
        } else {
          assert t[i - 1] == s[i] && t[j - 1] == s[j];
          var x :| multiset(t)[x] > 1;
          assert multiset(s)[x] > 1;
        }
      }
    }
  }

  lemma ColumnsOfAppend(a: seq<Row>, b: seq<Row>)
    ensures WordsOf(a + b) == WordsOf(a) + WordsOf(b)
    ensures CountsOf(a + b) == CountsOf(a) + CountsOf(b)
  {
  }

  /** Taking one row out of a table takes its count off the total. */
  lemma {:induction false} SumWithout(b: seq<Row>, i: nat)
    requires i < |b|
    ensures SumCounts(b) == b[i].count + SumCounts(b[..i] + b[i + 1..])
  {
    if i == 0 {
      assert b[..0] + b[1..] == b[1..];
    } else {
      var t := b[1..];
      SumWithout(t, i - 1);
      assert b[..i] + b[i + 1..] == [b[0]] + (t[..i - 1] + t[i..]);
    }
  }

  /** Taking one row out of a table takes its word and its count out of the
      columns. */
  lemma ColumnsWithout(b: seq<Row>, i: nat)
    requires i < |b|
    ensures multiset(WordsOf(b)) == multiset{b[i].word} + multiset(WordsOf(b[..i] + b[i + 1..]))
    ensures multiset(CountsOf(b)) == multiset{b[i].count} + multiset(CountsOf(b[..i] + b[i + 1..]))
  {
    var p, q := b[..i], b[i + 1..];
    assert b == p + [b[i]] + q;
    ColumnsOfAppend(p + [b[i]], q);
    ColumnsOfAppend(p, [b[i]]);
    ColumnsOfAppend(p, q);
    assert WordsOf(b) == WordsOf(p) + [b[i].word] + WordsOf(q);
    assert CountsOf(b) == CountsOf(p) + [b[i].count] + CountsOf(q);
  }

  /** The first row of a reordering sits somewhere in the other table, and
      the remaining rows on both sides are again reorderings of each other. */
  lemma MatchFirstRow(a: seq<Row>, b: seq<Row>) returns (i: nat)
    requires a != [] && multiset(a) == multiset(b)
    ensures i < |b| && b[i] == a[0]
    ensures multiset(a[1..]) == multiset(b[..i] + b[i + 1..])
  {
    assert a[0] in multiset(b);
    i :| 0 <= i < |b| && b[i] == a[0];
    assert a == [a[0]] + a[1..];
    assert b == b[..i] + [b[i]] + b[i + 1..];
    assert multiset(b) == multiset(b[..i]) + multiset{b[i]} + multiset(b[i + 1..]);
    assert multiset(b[..i] + b[i + 1..]) == multiset(b) - multiset{b[i]};
  }

  /** Reordering the rows does not change the total of the counts. */
  lemma {:induction false} PermutationKeepsSum(a: seq<Row>, b: seq<Row>)
    requires multiset(a) == multiset(b)
    ensures SumCounts(a) == SumCounts(b)
    decreases |a|
  {
    if a == [] {
      assert b == [];
    } else {
      var i := MatchFirstRow(a, b);
      PermutationKeepsSum(a[1..], b[..i] + b[i + 1..]);
      SumWithout(b, i);
    }
  }

  /** Reordering the rows does not change the multiset of words. */
  lemma {:induction false} PermutationKeepsWords(a: seq<Row>, b: seq<Row>)
    requires multiset(a) == multiset(b)
    ensures multiset(WordsOf(a)) == multiset(WordsOf(b))
    decreases |a|
  {
    if a == [] {
      assert b == [];
    } else {
      var i := MatchFirstRow(a, b);
      PermutationKeepsWords(a[1..], b[..i] + b[i + 1..]);
      ColumnsWithout(b, i);
      assert a == [a[0]] + a[1..];
      ColumnsOfAppend([a[0]], a[1..]);
    }
  }

  /** Reordering the rows does not change the multiset of counts. */
  lemma {:induction false} PermutationKeepsCounts(a: seq<Row>, b: seq<Row>)
    requires multiset(a) == multiset(b)
    ensures multiset(CountsOf(a)) == multiset(CountsOf(b))
    decreases |a|
  {
    if a == [] {
      assert b == [];
    } else {
      var i := MatchFirstRow(a, b);
      PermutationKeepsCounts(a[1..], b[..i] + b[i + 1..]);
      ColumnsWithout(b, i);
      assert a == [a[0]] + a[1..];
      ColumnsOfAppend([a[0]], a[1..]);
    }
  }

  /** In rows with distinct words, looking a row's word up finds that row. */
  lemma {:induction false} LookupFindsRow(rows: seq<Row>, i: nat)
    requires NoDuplicates(WordsOf(rows))
    requires i < |rows|
    ensures Lookup(rows, rows[i].word) == rows[i].count
  {
    if i > 0 {
      assert WordsOf(rows)[0] != WordsOf(rows)[i];
      assert WordsOf(rows[1..]) == WordsOf(rows)[1..];
      LookupFindsRow(rows[1..], i - 1);
    }
  }

  // ---------------------------------------------------------------------
  // Properties of the counter and of the frequency table
  // ---------------------------------------------------------------------

  /** The counter has one item per distinct word, and each item's count is
      the number of occurrences of its word. */
  lemma CounterItems(words: seq<string>)
    ensures |Counter(words)| == |WordSet(words)|
    ensures forall i :: 0 <= i < |Counter(words)| ==>
              Counter(words)[i].count == multiset(words)[Counter(words)[i].word]
  {
    var c := Counter(words);
    NoDuplicatesWordSet(WordsOf(c));
    assert WordSet(WordsOf(c)) == WordSet(words);
    forall i | 0 <= i < |c| ensures c[i].count == multiset(words)[c[i].word] {
      LookupFindsRow(c, i);
    }
  }

  /** Whatever order the items are put in, the table has one row per
      distinct word, each row's count is that word's number of occurrences
      (at least 1), and the counts add up to the number of words. */
  lemma FrequencyTable(words: seq<string>, table: seq<Row>)
    requires multiset(table) == multiset(Counter(words))
    ensures |table| == |WordSet(words)|
    ensures NoDuplicates(WordsOf(table))
    ensures forall w :: w in WordsOf(table) <==> w in words
    ensures forall i :: 0 <= i < |table| ==>
              1 <= table[i].count == multiset(words)[table[i].word]
    ensures SumCounts(table) == |words|
  {
    var c := Counter(words);
    CounterItems(words);
    assert |table| == |multiset(table)| == |multiset(c)| == |c|;
    PermutationKeepsSum(table, c);
    PermutationKeepsWords(table, c);
    TableWords(WordsOf(table), WordsOf(c));
    TableRows(words, table);
  }

  /** A reordering of a sequence without repetitions has none either, and
      has the same elements. */
  lemma TableWords(a: seq<string>, b: seq<string>)
    requires multiset(a) == multiset(b)
    requires NoDuplicates(b)
    ensures NoDuplicates(a)
    ensures forall w :: w in a <==> w in b
  {
    NoDuplicatesMultiset(a);
    NoDuplicatesMultiset(b);
    forall w ensures w in a <==> w in b {
      assert w in a <==> w in multiset(a);
      assert w in b <==> w in multiset(b);
    }
  }

  lemma TableRows(words: seq<string>, table: seq<Row>)
    requires multiset(table) == multiset(Counter(words))
    ensures forall i :: 0 <= i < |table| ==>
              1 <= table[i].count == multiset(words)[table[i].word]
  {
    var c := Counter(words);
    CounterItems(words);
    forall i | 0 <= i < |table| ensures 1 <= table[i].count == multiset(words)[table[i].word] {
      assert table[i] in multiset(c);
      assert table[i] in c;
      var k :| 0 <= k < |c| && c[k] == table[i];
      assert c[k].count >= 1;
    }
  }

  lemma MultisetDropFirst<T>(s: seq<T>)
    requires s != []
    ensures multiset(s[1..]) == multiset(s) - multiset{s[0]}
  {
    assert s == [s[0]] + s[1..];
  }

  /** The first row of a sorted table has its largest count, so two sorted
      tables with the same multiset of counts start with the same count. */
  lemma SortedHeads(x: seq<Row>, y: seq<Row>)
    requires x != [] && SortedByCountDesc(x) && SortedByCountDesc(y)
    requires multiset(CountsOf(x)) == multiset(CountsOf(y))
    ensures y != [] && x[0].count == y[0].count
  {
    assert CountsOf(x)[0] in multiset(CountsOf(y));
    var i :| 0 <= i < |y| && CountsOf(y)[i] == x[0].count;
    assert CountsOf(y)[0] in multiset(CountsOf(x));
    var j :| 0 <= j < |x| && CountsOf(x)[j] == y[0].count;
  }

  /** Two sorted tables with the same multiset of counts have the same count
      column. */
  lemma {:induction false} SortedCountsEqual(x: seq<Row>, y: seq<Row>)
    requires SortedByCountDesc(x) && SortedByCountDesc(y)
    requires multiset(CountsOf(x)) == multiset(CountsOf(y))
    ensures CountsOf(x) == CountsOf(y)
    decreases |x|
  {
    if x == [] {
      assert |CountsOf(y)| == |multiset(CountsOf(y))| == 0;
    } else {
      SortedHeads(x, y);
      CountsTail(x);
      CountsTail(y);
      DropEqualHeads(CountsOf(x), CountsOf(y));
      SortedCountsEqual(x[1..], y[1..]);
    }
  }

  /** The count column of a table is its first count followed by the count
      column of the rest. */
  lemma CountsTail(x: seq<Row>)
    requires x != []
    ensures CountsOf(x) == [x[0].count] + CountsOf(x[1..])
  {
  }

  /** Removing equal first elements from sequences with the same multiset
      leaves sequences with the same multiset. */
  lemma DropEqualHeads(a: seq<nat>, b: seq<nat>)
    requires a != [] && b != [] && a[0] == b[0]
    requires multiset(a) == multiset(b)
    ensures multiset(a[1..]) == multiset(b[1..])
  {
    MultisetDropFirst(a);
    MultisetDropFirst(b);
  }

  /** The sort may order rows with equal counts either way, but the count
      column of the table is the same for every such order. */
  lemma TieOrderKeepsCounts(words: seq<string>, t1: seq<Row>, t2: seq<Row>)
    requires SortedByCountDesc(t1) && multiset(t1) == multiset(Counter(words))
    requires SortedByCountDesc(t2) && multiset(t2) == multiset(Counter(words))
    ensures CountsOf(t1) == CountsOf(t2)
  {
    PermutationKeepsCounts(t1, t2);
    SortedCountsEqual(t1, t2);
  }
}
