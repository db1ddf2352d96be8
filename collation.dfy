/**
 * The Sanskrit collation key the catalog sorts titles by: a fixed phonemic
 * alphabet, the table from each symbol to its position, and the key that
 * turns a (lower-cased) word into a list of positions.
 */
module Collation {
  import Lex

  // The alphabet, one row per line of its definition.
  const Vowels: seq<string> := ["a", "ā", "i", "ī", "u", "ū", "ṛ", "ṝ", "ḷ", "ḹ", "e", "ai", "o", "au"]
  const Velars: seq<string> := ["k", "kh", "g", "gh", "ṅ"]
  const Palatals: seq<string> := ["c", "ch", "j", "jh", "ñ"]
  const Retroflexes: seq<string> := ["ṭ", "ṭh", "ḍ", "ḍh", "ṇ"]
  const Dentals: seq<string> := ["t", "th", "d", "dh", "n"]
  const Labials: seq<string> := ["p", "ph", "b", "bh", "m"]
  const Semivowels: seq<string> := ["y", "r", "l", "v"]
  const Sibilants: seq<string> := ["ś", "ṣ", "s"]
  const Aspirate: seq<string> := ["h"]
  const Finals: seq<string> := ["ṃ", "ḥ"]

  /** sanskrit_alphabet */
  const SanskritAlphabet: seq<string> :=
    Vowels + Velars + Palatals + Retroflexes + Dentals + Labials + Semivowels + Sibilants + Aspirate + Finals

  ghost predicate Distinct(s: seq<string>)
  {
    forall i, j :: 0 <= i < j < |s| ==> s[i] != s[j]
  }

  /**
   * The dictionary that maps each element of s to start plus its position,
   * built left to right so that a repeated element keeps its last position:
   * `{x: start + i for i, x in enumerate(s)}`.
   */
  function Enumerate(s: seq<string>, start: nat): map<string, nat>
    decreases |s|
  {
    if s == [] then map[]
    else Enumerate(s[..|s| - 1], start)[s[|s| - 1] := start + |s| - 1]
  }

  /**
   * What the dictionary holds: exactly the elements of s, each mapped to
   * start plus the position of its last occurrence.
   */
  lemma EnumerateHolds(s: seq<string>, start: nat)
    ensures Enumerate(s, start).Keys == set x | x in s
    ensures forall x :: x in Enumerate(s, start) ==>
      var p := Enumerate(s, start)[x] - start;
      0 <= p < |s| && s[p] == x && forall k :: p < k < |s| ==> s[k] != x
  {
    EnumerateKeys(s, start);
    EnumerateValues(s, start);
  }

  lemma {:induction false} EnumerateKeys(s: seq<string>, start: nat)
    ensures Enumerate(s, start).Keys == set x | x in s
    decreases |s|
  {
    if s != [] {
      var init := s[..|s| - 1];
      EnumerateKeys(init, start);
      assert forall x :: x in init ==> x in s;
      assert forall x :: x in s ==> x in init || x == s[|s| - 1];
    }
  }

  lemma {:induction false} EnumerateValues(s: seq<string>, start: nat)
    ensures forall x :: x in Enumerate(s, start) ==>
      var p := Enumerate(s, start)[x] - start;
      0 <= p < |s| && s[p] == x && forall k :: p < k < |s| ==> s[k] != x
    decreases |s|
  {
    if s != [] {
      var init := s[..|s| - 1];
      EnumerateValues(init, start);
    }
  }

  /** Over distinct elements the dictionary inverts the list. */
  lemma EnumerateInverts(s: seq<string>, start: nat, i: nat)
    requires Distinct(s) && i < |s|
    ensures s[i] in Enumerate(s, start) && Enumerate(s, start)[s[i]] == start + i
  {
    EnumerateHolds(s, start);
    assert s[i] in s;
  }

  /** custom_order */
  const CustomOrder: map<string, nat> := Enumerate(SanskritAlphabet, 0)

  /** len(sanskrit_alphabet): the position given to a character outside the alphabet. */
  const Unlisted: nat := |SanskritAlphabet|

  /** Python's word[i:i+2]: two characters, or one at the last position. */
  function Digraph(word: string, i: nat): string
    requires i < |word|
  {
    if i + 2 <= |word| then word[i..i + 2] else word[i..]
  }

  /**
   * The key entry at position i: the position of the two characters starting
   * at i when they form a listed symbol, else that of the character at i, else
   * the position after the last symbol.
   */
  function PositionAt(word: string, i: nat): nat
    requires i < |word|
  {
    var two := Digraph(word, i);
    if two in CustomOrder then CustomOrder[two]
    else if [word[i]] in CustomOrder then CustomOrder[[word[i]]]
    else Unlisted
  }

  /**
   * custom_sort_key, after lower-casing: one alphabet position per
   * character of the word.
   */
  function SortKey(word: string): (key: seq<int>)
  {
    seq(|word|, i requires 0 <= i < |word| => PositionAt(word, i))
  }

  lemma DistinctConcat(a: seq<string>, b: seq<string>)
    requires Distinct(a) && Distinct(b) && Disjoint(a, b)
    ensures Distinct(a + b)
  {
    forall i, j | 0 <= i < j < |a + b| ensures (a + b)[i] != (a + b)[j] {
      if i < |a| && j >= |a| {
        assert (a + b)[i] in a && (a + b)[j] in b;
      }
    }
  }

  lemma RowsDistinct()
    ensures Distinct(Vowels) && Distinct(Velars) && Distinct(Palatals) && Distinct(Retroflexes)
    ensures Distinct(Dentals) && Distinct(Labials) && Distinct(Semivowels) && Distinct(Sibilants)
    ensures Distinct(Aspirate) && Distinct(Finals)
  {
  }

  ghost predicate Disjoint(a: seq<string>, b: seq<string>)
  {
    forall x :: x in b ==> x !in a
  }

  /** The row whose symbols start with c, or -1; no two rows share a first character. */
  ghost function RowOf(c: char): int
  {
    match c
    case 'a' => 0 case 'ā' => 0 case 'i' => 0 case 'ī' => 0 case 'u' => 0 case 'ū' => 0
    case 'ṛ' => 0 case 'ṝ' => 0 case 'ḷ' => 0 case 'ḹ' => 0 case 'e' => 0 case 'o' => 0
    case 'k' => 1 case 'g' => 1 case 'ṅ' => 1
    case 'c' => 2 case 'j' => 2 case 'ñ' => 2
    case 'ṭ' => 3 case 'ḍ' => 3 case 'ṇ' => 3
    case 't' => 4 case 'd' => 4 case 'n' => 4
    case 'p' => 5 case 'b' => 5 case 'm' => 5
    case 'y' => 6 case 'r' => 6 case 'l' => 6 case 'v' => 6
    case 'ś' => 7 case 'ṣ' => 7 case 's' => 7
    case 'h' => 8
    case 'ṃ' => 9 case 'ḥ' => 9
    case _ => -1
  }

  /** Every symbol of row is non-empty and starts with a character of row k. */
  ghost predicate HeadsIn(row: seq<string>, k: int)
  {
    forall i :: 0 <= i < |row| ==> |row[i]| > 0 && RowOf(row[i][0]) == k
  }

  /** Every symbol of p is non-empty and starts with a character of a row before k. */
  ghost predicate HeadsBelow(p: seq<string>, k: int)
  {
    forall i :: 0 <= i < |p| ==> |p[i]| > 0 && RowOf(p[i][0]) < k
  }

  lemma VowelRowHeads() ensures HeadsIn(Vowels, 0) {}
  lemma VelarRowHeads() ensures HeadsIn(Velars, 1) {}
  lemma PalatalRowHeads() ensures HeadsIn(Palatals, 2) {}
  lemma RetroflexRowHeads() ensures HeadsIn(Retroflexes, 3) {}
  lemma DentalRowHeads() ensures HeadsIn(Dentals, 4) {}
  lemma LabialRowHeads() ensures HeadsIn(Labials, 5) {}
  lemma SemivowelRowHeads() ensures HeadsIn(Semivowels, 6) {}
  lemma SibilantRowHeads() ensures HeadsIn(Sibilants, 7) {}
  lemma AspirateRowHeads() ensures HeadsIn(Aspirate, 8) {}
  lemma FinalRowHeads() ensures HeadsIn(Finals, 9) {}

  /**
   * Appending a row of distinct symbols that start with characters no
   * earlier symbol starts with keeps the list free of repeats.
   */
  lemma AppendRow(p: seq<string>, row: seq<string>, k: int)
    requires Distinct(p) && Distinct(row) && HeadsBelow(p, k) && HeadsIn(row, k)
    ensures Distinct(p + row) && HeadsBelow(p + row, k + 1)
  {
    forall x | x in row ensures x !in p {
      var j :| 0 <= j < |row| && row[j] == x;
      forall i | 0 <= i < |p| ensures p[i] != x {
        assert RowOf(p[i][0]) < k == RowOf(x[0]);
      }
    }
    DistinctConcat(p, row);
    var r := p + row;
    forall i | 0 <= i < |r| ensures |r[i]| > 0 && RowOf(r[i][0]) < k + 1 {
      if i >= |p| {
        assert r[i] == row[i - |p|];
      }
    }
  }

  /** No symbol of the alphabet is listed twice. */
  lemma AlphabetDistinct()
    ensures |SanskritAlphabet| == 49
    ensures Distinct(SanskritAlphabet)
  {
    RowsDistinct();
    VowelRowHeads(); VelarRowHeads(); PalatalRowHeads(); RetroflexRowHeads(); DentalRowHeads();
    LabialRowHeads(); SemivowelRowHeads(); SibilantRowHeads(); AspirateRowHeads(); FinalRowHeads();
    AppendRow(Vowels, Velars, 1);
    AppendRow(Vowels + Velars, Palatals, 2);
    AppendRow(Vowels + Velars + Palatals, Retroflexes, 3);
    AppendRow(Vowels + Velars + Palatals + Retroflexes, Dentals, 4);
    AppendRow(Vowels + Velars + Palatals + Retroflexes + Dentals, Labials, 5);
    AppendRow(Vowels + Velars + Palatals + Retroflexes + Dentals + Labials, Semivowels, 6);
    AppendRow(Vowels + Velars + Palatals + Retroflexes + Dentals + Labials + Semivowels, Sibilants, 7);
    AppendRow(Vowels + Velars + Palatals + Retroflexes + Dentals + Labials + Semivowels + Sibilants,
      Aspirate, 8);
    AppendRow(Vowels + Velars + Palatals + Retroflexes + Dentals + Labials + Semivowels + Sibilants + Aspirate,
      Finals, 9);
  }

  /** custom_order inverts sanskrit_alphabet: 49 distinct symbols, each mapped to its position. */
  lemma CustomOrderInverts()
    ensures |SanskritAlphabet| == 49 && Distinct(SanskritAlphabet)
    ensures CustomOrder.Keys == set x | x in SanskritAlphabet
    ensures forall i :: 0 <= i < |SanskritAlphabet| ==> CustomOrder[SanskritAlphabet[i]] == i
    ensures forall x :: x in CustomOrder ==> CustomOrder[x] < 49 && SanskritAlphabet[CustomOrder[x]] == x
  {
    AlphabetDistinct();
    EnumerateHolds(SanskritAlphabet, 0);
    forall i | 0 <= i < |SanskritAlphabet|
      ensures CustomOrder[SanskritAlphabet[i]] == i
    {
      EnumerateInverts(SanskritAlphabet, 0, i);
    }
  }

  /** The position of a listed symbol, one symbol at a time. */
  lemma PositionOf(i: nat)
    requires i < |SanskritAlphabet|
    ensures SanskritAlphabet[i] in CustomOrder && CustomOrder[SanskritAlphabet[i]] == i
  {
    CustomOrderInverts();
  }

  /**
   * One entry per character; the entry at i names the digraph starting at
   * i when that is listed, otherwise the character at i when that is
   * listed, otherwise it is len(sanskrit_alphabet) = 49.
   */
  lemma SortKeyEntries(word: string)
    ensures |SanskritAlphabet| == 49 && |SortKey(word)| == |word|
    ensures forall i :: 0 <= i < |word| ==> 0 <= SortKey(word)[i] <= 49
    ensures forall i :: 0 <= i < |word| && Digraph(word, i) in SanskritAlphabet ==>
      SortKey(word)[i] < 49 && SanskritAlphabet[SortKey(word)[i]] == Digraph(word, i)
    ensures forall i :: 0 <= i < |word| && Digraph(word, i) !in SanskritAlphabet && [word[i]] in SanskritAlphabet ==>
      SortKey(word)[i] < 49 && SanskritAlphabet[SortKey(word)[i]] == [word[i]]
    ensures forall i :: 0 <= i < |word| ==>
      (SortKey(word)[i] == 49 <==> Digraph(word, i) !in SanskritAlphabet && [word[i]] !in SanskritAlphabet)
  {
    CustomOrderInverts();
  }

  /** The two-character symbols of the alphabet. */
  ghost const TwoCharSymbols: seq<string> := ["ai", "au", "kh", "gh", "ch", "jh", "ṭh", "ḍh", "th", "dh", "ph", "bh"]

  lemma SymbolLengths()
    ensures forall x :: x in SanskritAlphabet ==> |x| == 1 || x in TwoCharSymbols
  {
  }

  /** A two-character string that is not one of the digraphs is not in the alphabet. */
  lemma NotADigraph(x: string)
    requires |x| == 2 && x !in TwoCharSymbols
    ensures x !in SanskritAlphabet
  {
    SymbolLengths();
  }

  /**
   * A digraph wins at its own position, but the next position is still
   * keyed on its own: "kha" is kh = 15, then h = 46, then a = 0.
   */
  lemma KhaExample()
    ensures SortKey("kha") == [15, 46, 0]
  {
    KhaPositions();
    var key := SortKey("kha");
    assert key[0] == 15 && key[1] == 46 && key[2] == 0;
  }

  lemma KhaPositions()
    ensures PositionAt("kha", 0) == 15 && PositionAt("kha", 1) == 46 && PositionAt("kha", 2) == 0
  {
    assert Digraph("kha", 0) == "kh" && Digraph("kha", 1) == "ha" && Digraph("kha", 2) == "a";
    assert SanskritAlphabet[15] == "kh" && SanskritAlphabet[46] == "h" && SanskritAlphabet[0] == "a";
    PositionOf(15);
    PositionOf(46);
    PositionOf(0);
    NotADigraph("ha");
    CustomOrderInverts();
  }

  lemma FirstPositions()
    ensures PositionAt("aditya", 0) == 0 && PositionAt("ānanda", 0) == 1
    ensures PositionAt("kanda", 0) == 14 && PositionAt("khanda", 0) == 15
  {
    assert Digraph("aditya", 0) == "ad" && Digraph("ānanda", 0) == "ān";
    assert Digraph("kanda", 0) == "ka" && Digraph("khanda", 0) == "kh";
    assert SanskritAlphabet[0] == "a" && SanskritAlphabet[1] == "ā";
    assert SanskritAlphabet[14] == "k" && SanskritAlphabet[15] == "kh";
    PositionOf(0);
    PositionOf(1);
    PositionOf(14);
    PositionOf(15);
    NotADigraph("ad");
    NotADigraph("ān");
    NotADigraph("ka");
    CustomOrderInverts();
  }

  /**
   * Titles order by the phonemic table, not by code point: "aditya" before
   * "ānanda" before "khanda", and bare "k" before the digraph "kh".
   */
  lemma TitleOrderExamples()
    ensures Lex.LexLess(SortKey("aditya"), SortKey("ānanda"))
    ensures Lex.LexLess(SortKey("ānanda"), SortKey("khanda"))
    ensures Lex.LexLess(SortKey("kanda"), SortKey("khanda"))
  {
    FirstPositions();
    var a, aa, ka, kha := SortKey("aditya"), SortKey("ānanda"), SortKey("kanda"), SortKey("khanda");
    assert a[0] == 0 && aa[0] == 1 && ka[0] == 14 && kha[0] == 15;
  }

  /** The digraph "ai" is one symbol, listed after "e": a title starting "e" sorts first. */
  lemma EBeforeAi()
    ensures SortKey("e") == [10] && SortKey("ai") == [11, 2]
    ensures Lex.LexLess(SortKey("e"), SortKey("ai"))
  {
    assert Digraph("e", 0) == "e" && Digraph("ai", 0) == "ai" && Digraph("ai", 1) == "i";
    assert SanskritAlphabet[10] == "e" && SanskritAlphabet[11] == "ai" && SanskritAlphabet[2] == "i";
    PositionOf(10);
    PositionOf(11);
    PositionOf(2);
    var e, ai := SortKey("e"), SortKey("ai");
    assert e[0] == 10 && ai[0] == 11 && ai[1] == 2;
  }
}
