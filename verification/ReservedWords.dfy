/** parser/lexer.c: the table of reserved words, sorted, and its index by first letter. */
module ReservedWords {
  import opened NumberText

  /** g_lexer_reserved_words; the entry zero is not a word. */
  function Spelling(i: nat): string {
    match i
    case 1 => "ACTION" case 2 => "ADD" case 3 => "ALL" case 4 => "ALTER" case 5 => "AND" case 6 => "AS"
    case 7 => "ASC" case 8 => "BY" case 9 => "CASCADE" case 10 => "CHARACTER" case 11 => "CHECK"
    case 12 => "COLUMN" case 13 => "CONSTRAINT" case 14 => "CREATE" case 15 => "CROSS" case 16 => "DATABASE"
    case 17 => "DATE" case 18 => "DECIMAL" case 19 => "DEFAULT" case 20 => "DELETE" case 21 => "DESC"
    case 22 => "DISTINCT" case 23 => "DOUBLE" case 24 => "DROP" case 25 => "EXCEPT" case 26 => "FIRST"
    case 27 => "FLOAT" case 28 => "FOREIGN" case 29 => "FROM" case 30 => "FULL" case 31 => "GROUP"
    case 32 => "HAVING" case 33 => "INNER" case 34 => "INSERT" case 35 => "INTEGER" case 36 => "INTERSECT"
    case 37 => "INTO" case 38 => "IS" case 39 => "JOIN" case 40 => "KEY" case 41 => "LAST" case 42 => "LEFT"
    case 43 => "MODIFY" case 44 => "NO" case 45 => "NOT" case 46 => "NULL" case 47 => "NULLS"
    case 48 => "NUMBER" case 49 => "ON" case 50 => "OR" case 51 => "ORDER" case 52 => "OUTER"
    case 53 => "PRECISION" case 54 => "PRIMARY" case 55 => "REFERENCES" case 56 => "RENAME"
    case 57 => "RESTRICT" case 58 => "RIGHT" case 59 => "SELECT" case 60 => "SET" case 61 => "SMALLINT"
    case 62 => "TABLE" case 63 => "TIME" case 64 => "TIMESTAMP" case 65 => "TO" case 66 => "UNION"
    case 67 => "UNIQUE" case 68 => "UPDATE" case 69 => "VALUES" case 70 => "VARCHAR" case 71 => "VARYING"
    case 72 => "WHERE" case 73 => "WITH" case 74 => "ZONE"
    case _ => ""
  }

  const LETTER_A := 65
  const TOP := 75
  const LETTERS := 26

  /** g_lexer_reserved_word_diap: where the words with a first letter begin, zero when there are none. */
  const FIRSTS: seq<nat> := [
    1, 8, 9, 16, 25, 26, 31, 32, 33, 39, 40, 41, 43, 44, 49, 53, 0, 55, 59, 62, 66, 69, 72, 0, 0, 74, TOP]

  function First(c: nat): (i: nat)
    requires c <= LETTERS
    ensures i <= TOP
  {
    FIRSTS[c]
  }

  function Codes(s: string): Text {
    seq(|s|, i requires 0 <= i < |s| => s[i] as int)
  }

  /** The word with number `i`. */
  function Word(i: nat): Text {
    Codes(Spelling(i))
  }

  /** The first letter of word `i`, counted from A. */
  function FirstLetter(i: nat): nat {
    if i < 8 then 0 else if i < 9 then 1 else if i < 16 then 2 else if i < 25 then 3 else if i < 26 then 4
    else if i < 31 then 5 else if i < 32 then 6 else if i < 33 then 7 else if i < 39 then 8 else if i < 40 then 9
    else if i < 41 then 10 else if i < 43 then 11 else if i < 44 then 12 else if i < 49 then 13
    else if i < 53 then 14 else if i < 55 then 15 else if i < 59 then 17 else if i < 62 then 18
    else if i < 66 then 19 else if i < 69 then 20 else if i < 72 then 21 else if i < 74 then 22 else 25
  }

  lemma LetterBelow25(i: nat)
    requires 0 < i < 25
    ensures |Word(i)| > 0 && Word(i)[0] == LETTER_A + FirstLetter(i)
  {
  }

  lemma LetterBelow49(i: nat)
    requires 25 <= i < 49
    ensures |Word(i)| > 0 && Word(i)[0] == LETTER_A + FirstLetter(i)
  {
  }

  lemma LetterBelow62(i: nat)
    requires 49 <= i < 62
    ensures |Word(i)| > 0 && Word(i)[0] == LETTER_A + FirstLetter(i)
  {
  }

  lemma LetterAbove(i: nat)
    requires 62 <= i < TOP
    ensures |Word(i)| > 0 && Word(i)[0] == LETTER_A + FirstLetter(i)
  {
  }

  lemma FirstLetterIs(i: nat)
    requires 0 < i < TOP
    ensures |Word(i)| > 0 && Word(i)[0] == LETTER_A + FirstLetter(i)
  {
    hide Word, FirstLetter;
    if i < 25 {
      LetterBelow25(i);
    } else if i < 49 {
      LetterBelow49(i);
    } else if i < 62 {
      LetterBelow62(i);
    } else {
      LetterAbove(i);
    }
  }

  /** The words with a letter lie from its index entry to the next entry that is not zero. */
  lemma IndexCovers(i: nat, k: nat)
    requires 0 < i < TOP && k <= LETTERS
    ensures FirstLetter(i) < LETTERS && 0 < First(FirstLetter(i)) <= i
    ensures FirstLetter(i) < k && First(k) != 0 ==> i < First(k)
  {
  }

  /** `r` is the number of the word, or zero when it is not reserved. */
  ghost predicate Numbers(word: Text, r: nat) {
    && r < TOP
    && (r > 0 ==> Word(r) == word)
    && (r == 0 ==> forall i: nat | 0 < i < TOP :: Word(i) != word)
  }

  lemma LastEntry()
    ensures First(LETTERS) == TOP
  {
  }

  /** A word that is none of those in the range of its first letter is not reserved. */
  lemma Elsewhere(word: Text, k: nat)
    requires |word| > 0 && LETTER_A <= word[0] < LETTER_A + LETTERS
    requires word[0] - LETTER_A < k <= LETTERS && First(k) != 0
    requires var start := First(word[0] - LETTER_A);
             start != 0 ==> forall i: nat | start <= i < First(k) :: Word(i) != word
    ensures Numbers(word, 0)
  {
    hide Word, First, FirstLetter;
    forall i: nat | 0 < i < TOP
      ensures Word(i) != word
    {
      FirstLetterIs(i);
      IndexCovers(i, k);
    }
  }

  lemma NoWordIsEmpty()
    ensures Numbers([], 0)
  {
    hide Word, FirstLetter;
    forall i: nat | 0 < i < TOP
      ensures Word(i) != []
    {
      FirstLetterIs(i);
    }
  }

  /** lexer_match_rword: only the words in the range of the first letter are compared. */
  method MatchWord(word: Text) returns (r: nat)
    requires |word| > 0 ==> LETTER_A <= word[0] < LETTER_A + LETTERS
    ensures Numbers(word, r)
  {
    hide Word, First, FirstLetter;
    r := 0;
    LastEntry();
    NoWordIsEmpty();
    if |word| == 0 {
      return;
    }
    var c: nat := word[0] - LETTER_A;
    var start := First(c);
    if start == 0 {
      Elsewhere(word, LETTERS);
      return;
    }
    c := c + 1;
    var end := First(c);
    while end == 0
      invariant word[0] - LETTER_A < c <= LETTERS && end == First(c)
      decreases LETTERS - c
    {
      c := c + 1;
      end := First(c);
    }
    var i := start;
    while i < end
      invariant 0 < start <= i && 0 <= r < TOP
      invariant r > 0 ==> Word(r) == word
      invariant r == 0 ==> forall j: nat | start <= j < i :: Word(j) != word
    {
      if word == Word(i) {
        r := i;
      }
      i := i + 1;
    }
    if r == 0 {
      Elsewhere(word, c);
    }
  }

  // ----- The order of the table -----

  /** The texts agree up to place `k`, where `a` ends or has the smaller code. */
  predicate SmallerAt(a: Text, b: Text, k: nat) {
    && k <= |a| && k < |b| && (forall j: nat | j < k :: a[j] == b[j])
    && (k < |a| ==> a[k] < b[k])
  }

  /** The same for `k` up to four, place by place. */
  predicate SmallerSoon(a: string, b: string, k: nat) {
    && k <= |a| && k < |b| && k <= 4
    && (k > 0 ==> a[0] == b[0]) && (k > 1 ==> a[1] == b[1]) && (k > 2 ==> a[2] == b[2]) && (k > 3 ==> a[3] == b[3])
    && (k < |a| ==> a[k] < b[k])
  }

  /** The number of letters that word `i` shares with the next word. */
  function Shared(i: nat): (k: nat) {
    match i
    case 1 => 1 case 2 => 1 case 3 => 2 case 4 => 1 case 5 => 1 case 6 => 2 case 9 => 1 case 10 => 2 case 11 => 1
    case 12 => 2 case 13 => 1 case 14 => 2 case 16 => 3 case 17 => 1 case 18 => 2 case 19 => 2 case 20 => 2
    case 21 => 1 case 22 => 1 case 23 => 1 case 26 => 1 case 27 => 1 case 28 => 1 case 29 => 1 case 33 => 2
    case 34 => 2 case 35 => 4 case 36 => 3 case 37 => 1 case 41 => 1 case 44 => 2 case 45 => 1 case 46 => 4
    case 47 => 2 case 49 => 1 case 50 => 2 case 51 => 1 case 53 => 2 case 55 => 2 case 56 => 2 case 57 => 1
    case 59 => 2 case 60 => 1 case 62 => 1 case 63 => 4 case 64 => 1 case 66 => 3 case 67 => 1 case 69 => 2
    case 70 => 3 case 72 => 1
    case _ => 0
  }

  lemma LargerBelow9(i: nat)
    requires 1 <= i < 9
    ensures SmallerSoon(Spelling(i), Spelling(i + 1), Shared(i))
  {
  }

  lemma LargerBelow17(i: nat)
    requires 9 <= i < 17
    ensures SmallerSoon(Spelling(i), Spelling(i + 1), Shared(i))
  {
  }

  lemma LargerBelow25(i: nat)
    requires 17 <= i < 25
    ensures SmallerSoon(Spelling(i), Spelling(i + 1), Shared(i))
  {
  }

  lemma LargerBelow33(i: nat)
    requires 25 <= i < 33
    ensures SmallerSoon(Spelling(i), Spelling(i + 1), Shared(i))
  {
  }

  lemma LargerBelow41(i: nat)
    requires 33 <= i < 41
    ensures SmallerSoon(Spelling(i), Spelling(i + 1), Shared(i))
  {
  }

  lemma LargerBelow49(i: nat)
    requires 41 <= i < 49
    ensures SmallerSoon(Spelling(i), Spelling(i + 1), Shared(i))
  {
  }

  lemma LargerBelow57(i: nat)
    requires 49 <= i < 57
    ensures SmallerSoon(Spelling(i), Spelling(i + 1), Shared(i))
  {
  }

  lemma LargerBelow65(i: nat)
    requires 57 <= i < 65
    ensures SmallerSoon(Spelling(i), Spelling(i + 1), Shared(i))
  {
  }

  lemma LargerBelow74(i: nat)
    requires 65 <= i < 74
    ensures SmallerSoon(Spelling(i), Spelling(i + 1), Shared(i))
  {
  }

  lemma NextIsLarger(i: nat)
    requires 0 < i < TOP - 1
    ensures SmallerAt(Word(i), Word(i + 1), Shared(i))
  {
    hide Spelling, Shared;
    if i < 9 {
      LargerBelow9(i);
    } else if i < 17 {
      LargerBelow17(i);
    } else if i < 25 {
      LargerBelow25(i);
    } else if i < 33 {
      LargerBelow33(i);
    } else if i < 41 {
      LargerBelow41(i);
    } else if i < 49 {
      LargerBelow49(i);
    } else if i < 57 {
      LargerBelow57(i);
    } else if i < 65 {
      LargerBelow65(i);
    } else {
      LargerBelow74(i);
    }
  }

  lemma SmallerChain(a: Text, b: Text, c: Text, j: nat, k: nat)
    requires SmallerAt(a, b, j) && SmallerAt(b, c, k)
    ensures SmallerAt(a, c, if j < k then j else k)
  {
  }

  /** The table is strictly sorted. */
  lemma {:induction false} TableSorted(i: nat, j: nat)
    requires 0 < i < j < TOP
    ensures exists k: nat :: SmallerAt(Word(i), Word(j), k)
  {
    hide Word, Shared, SmallerAt;
    NextIsLarger(j - 1);
    if i < j - 1 {
      TableSorted(i, j - 1);
      var k: nat :| SmallerAt(Word(i), Word(j - 1), k);
      SmallerChain(Word(i), Word(j - 1), Word(j), k, Shared(j - 1));
    }
  }

  /** Every word stands once. */
  lemma WordsDiffer(i: nat, j: nat)
    requires 0 < i < TOP && 0 < j < TOP && i != j
    ensures Word(i) != Word(j)
  {
    hide Word;
    TableSorted(if i < j then i else j, if i < j then j else i);
  }
}
