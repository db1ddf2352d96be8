/**
 * The collation key the catalog page computes in the browser: a weight
 * table with 1-based weights over the same alphabet, and a key that
 * replaces every UTF-16 code unit but a line terminator by its weight
 * written with three digits.
 */
module BrowserKey {
  import opened Lex
  import Collation

  // The order list of the page, one row per line of its definition.
  const Padding: seq<string> := [""]
  const VowelRow: seq<string> := ["a", "ā", "i", "ī", "u", "ū", "ṛ", "ṝ", "ḷ", "ḹ", "e", "ai", "o", "au"]
  const VelarRow: seq<string> := ["k", "kh", "g", "gh", "ṅ"]
  const PalatalRow: seq<string> := ["c", "ch", "j", "jh", "ñ"]
  const RetroflexRow: seq<string> := ["ṭ", "ṭh", "ḍ", "ḍh", "ṇ"]
  const DentalRow: seq<string> := ["t", "th", "d", "dh", "n"]
  const LabialRow: seq<string> := ["p", "ph", "b", "bh", "m"]
  const SemivowelRow: seq<string> := ["y", "r", "l", "v"]
  const SibilantAspirateRow: seq<string> := ["ś", "ṣ", "s", "h"]
  const FinalRow: seq<string> := ["ṃ", "ḥ"]

  const SaOrder: seq<string> :=
    Padding + VowelRow + VelarRow + PalatalRow + RetroflexRow + DentalRow + LabialRow + SemivowelRow
      + SibilantAspirateRow + FinalRow

  /** The page's list is the catalog's alphabet with one empty entry in front. */
  lemma SaOrderIsPaddedAlphabet()
    ensures SaOrder == [""] + Collation.SanskritAlphabet
  {
    assert SibilantAspirateRow == Collation.Sibilants + Collation.Aspirate;
  }

  /**
   * The loop that fills the weight table: starting from an empty object, it
   * gives each entry of the order its 1-based position.
   */
  method BuildWeightTable(order: seq<string>) returns (w: map<string, nat>)
    ensures w == Collation.Enumerate(order, 1)
  {
    w := map[];
    for i := 0 to |order|
      invariant w == Collation.Enumerate(order[..i], 1)
    {
      assert order[..i + 1][..i] == order[..i];
      w := w[order[i] := i + 1];
    }
    assert order[..|order|] == order;
  }

  /** saWeight */
  const SaWeight: map<string, nat> := Collation.Enumerate(SaOrder, 1)

  lemma SaOrderDistinct()
    ensures |SaOrder| == 50 && Collation.Distinct(SaOrder)
  {
    SaOrderIsPaddedAlphabet();
    PaddedAlphabetDistinct();
  }

  lemma NoEmptySymbol()
    ensures "" !in Collation.SanskritAlphabet
  {
    assert "" !in Collation.Vowels && "" !in Collation.Velars && "" !in Collation.Palatals;
    assert "" !in Collation.Retroflexes && "" !in Collation.Dentals && "" !in Collation.Labials;
    assert "" !in Collation.Semivowels && "" !in Collation.Sibilants && "" !in Collation.Aspirate;
    assert "" !in Collation.Finals;
  }

  lemma PaddedAlphabetDistinct()
    ensures |[""] + Collation.SanskritAlphabet| == 50 && Collation.Distinct([""] + Collation.SanskritAlphabet)
  {
    Collation.AlphabetDistinct();
    NoEmptySymbol();
    assert Collation.Disjoint([""], Collation.SanskritAlphabet);
    Collation.DistinctConcat([""], Collation.SanskritAlphabet);
  }

  /**
   * The table gives order[i] the weight i + 1 and holds nothing else, so
   * every weight lies between 1 and 50 and none is 0.
   */
  lemma SaWeightTable()
    ensures SaWeight.Keys == set x | x in SaOrder
    ensures forall i :: 0 <= i < |SaOrder| ==> SaWeight[SaOrder[i]] == i + 1
    ensures forall x :: x in SaWeight ==> 1 <= SaWeight[x] <= 50
  {
    SaOrderDistinct();
    Collation.EnumerateHolds(SaOrder, 1);
    forall i | 0 <= i < |SaOrder| ensures SaWeight[SaOrder[i]] == i + 1 {
      Collation.EnumerateInverts(SaOrder, 1, i);
    }
  }

  /** Only the first entry, the empty string, has weight 1. */
  lemma NonEmptyKeyWeights(order: seq<string>, key: string)
    requires |order| > 0 && order[0] == "" && key != "" && key in Collation.Enumerate(order, 1)
    ensures 2 <= Collation.Enumerate(order, 1)[key] <= |order|
  {
    Collation.EnumerateHolds(order, 1);
  }

  /** The two tables agree: the page's weight is the catalog's position plus 2. */
  lemma TablesAgree()
    ensures forall x :: x in Collation.SanskritAlphabet ==>
      x in SaWeight && x in Collation.CustomOrder && SaWeight[x] == Collation.CustomOrder[x] + 2
  {
    SaOrderIsPaddedAlphabet();
    PaddedAlphabetDistinct();
    Collation.AlphabetDistinct();
    PaddedShift(Collation.SanskritAlphabet);
  }

  /** Numbering [""] + alpha from 1 gives each letter its position in alpha plus 2. */
  lemma PaddedShift(alpha: seq<string>)
    requires Collation.Distinct([""] + alpha) && Collation.Distinct(alpha)
    ensures forall x :: x in alpha ==>
      x in Collation.Enumerate([""] + alpha, 1) && x in Collation.Enumerate(alpha, 0) &&
      Collation.Enumerate([""] + alpha, 1)[x] == Collation.Enumerate(alpha, 0)[x] + 2
  {
    forall x | x in alpha
      ensures x in Collation.Enumerate([""] + alpha, 1) && x in Collation.Enumerate(alpha, 0) &&
        Collation.Enumerate([""] + alpha, 1)[x] == Collation.Enumerate(alpha, 0)[x] + 2
    {
      var i :| 0 <= i < |alpha| && alpha[i] == x;
      assert ([""] + alpha)[i + 1] == x;
      Collation.EnumerateInverts([""] + alpha, 1, i + 1);
      Collation.EnumerateInverts(alpha, 0, i);
    }
  }

  /** `saWeight[ch] || 999`: the weight when it is present and not 0, else 999. */
  function WeightOr999(w: map<string, nat>, key: string): (r: nat)
    ensures key in w && w[key] != 0 ==> r == w[key]
    ensures key !in w || w[key] == 0 ==> r == 999
  {
    if key in w && w[key] != 0 then w[key] else 999
  }

  /** The lookup is only ever a fallback for a key missing from saWeight. */
  lemma FallbackOnlyWhenMissing(key: string)
    ensures WeightOr999(SaWeight, key) == (if key in SaWeight then SaWeight[key] else 999)
  {
    SaWeightTable();
  }

  function Digit(d: nat): char
    requires d < 10
  {
    ('0' as int + d) as char
  }

  /** String(n): the decimal digits of n, without leading zeros. */
  function DecimalString(n: nat): (s: string)
    ensures |s| >= 1
    decreases n
  {
    if n < 10 then [Digit(n)] else DecimalString(n / 10) + [Digit(n % 10)]
  }

  /** s.padStart(width, fill) for a one-character fill. */
  function PadStart(s: string, width: nat, fill: char): (r: string)
    ensures |r| == if |s| >= width then |s| else width
    decreases width - |s|
  {
    if |s| >= width then s else PadStart([fill] + s, width, fill)
  }

  /** String(n).padStart(3, '0') */
  function Pad3(n: nat): string
  {
    PadStart(DecimalString(n), 3, '0')
  }

  /** For n below 1000 the padded string is exactly the three decimal digits of n. */
  lemma Pad3Digits(n: nat)
    requires n < 1000
    ensures Pad3(n) == [Digit(n / 100), Digit(n / 10 % 10), Digit(n % 10)]
  {
    assert Digit(0) == '0';
    if n < 10 {
      var d := Digit(n);
      assert DecimalString(n) == [d];
      assert ['0'] + [d] == ['0', d];
      assert ['0'] + ['0', d] == ['0', '0', d];
      assert PadStart([d], 3, '0') == PadStart(['0', '0', d], 3, '0');
    } else if n < 100 {
      var d1, d0 := Digit(n / 10), Digit(n % 10);
      assert DecimalString(n / 10) == [d1];
      assert DecimalString(n) == [d1, d0];
      assert ['0'] + [d1, d0] == ['0', d1, d0];
      assert PadStart([d1, d0], 3, '0') == PadStart(['0', d1, d0], 3, '0');
    } else {
      assert DecimalString(n / 100) == [Digit(n / 100)];
      assert n / 10 / 10 == n / 100;
      assert DecimalString(n / 10) == [Digit(n / 100), Digit(n / 10 % 10)];
      assert DecimalString(n) == [Digit(n / 100), Digit(n / 10 % 10), Digit(n % 10)];
    }
  }

  /** The number a string of decimal digits denotes. */
  function DigitsValue(s: string): int
    decreases |s|
  {
    if s == [] then 0 else DigitsValue(s[..|s| - 1]) * 10 + (s[|s| - 1] as int - '0' as int)
  }

  /** Reading the three digits back gives n. */
  lemma Pad3RoundTrip(n: nat)
    requires n < 1000
    ensures |Pad3(n)| == 3 && DigitsValue(Pad3(n)) == n
  {
    Pad3Digits(n);
    DecimalDigits(n);
    ThreeDigitsValue(n / 100, n / 10 % 10, n % 10);
  }

  lemma ThreeDigitsValue(a: nat, b: nat, c: nat)
    requires a < 10 && b < 10 && c < 10
    ensures DigitsValue([Digit(a), Digit(b), Digit(c)]) == 100 * a + 10 * b + c
  {
    var s := [Digit(a), Digit(b), Digit(c)];
    assert s[..2] == [Digit(a), Digit(b)];
    assert s[..2][..1] == [Digit(a)];
    assert [Digit(a)][..0] == [];
    assert DigitsValue([Digit(a)]) == a;
    assert DigitsValue(s[..2]) == 10 * a + b;
  }

  /** Character codes; for the characters saKey emits these are the UTF-16 code units a browser compares. */
  function Codes(s: string): (r: seq<int>)
    ensures |r| == |s| && forall i :: 0 <= i < |s| ==> r[i] == s[i] as int
  {
    seq(|s|, i requires 0 <= i < |s| => s[i] as int)
  }

  lemma CodesConcat(a: string, b: string)
    ensures Codes(a + b) == Codes(a) + Codes(b)
  {
  }

  lemma Pad3Codes(n: nat)
    requires n < 1000
    ensures Codes(Pad3(n)) == [48 + n / 100, 48 + n / 10 % 10, 48 + n % 10]
  {
    Pad3Digits(n);
  }

  /** Three digit codes compare lexicographically as the number they spell. */
  lemma DigitCodesOrder(a2: int, a1: int, a0: int, b2: int, b1: int, b0: int)
    requires 0 <= a2 < 10 && 0 <= a1 < 10 && 0 <= a0 < 10
    requires 0 <= b2 < 10 && 0 <= b1 < 10 && 0 <= b0 < 10
    ensures LexLess([48 + a2, 48 + a1, 48 + a0], [48 + b2, 48 + b1, 48 + b0]) <==>
      100 * a2 + 10 * a1 + a0 < 100 * b2 + 10 * b1 + b0
  {
    assert [48 + a2, 48 + a1, 48 + a0] == [48 + a2] + ([48 + a1] + [48 + a0]);
    assert [48 + b2, 48 + b1, 48 + b0] == [48 + b2] + ([48 + b1] + [48 + b0]);
    LexLessCons(48 + a2, 48 + b2, [48 + a1] + [48 + a0], [48 + b1] + [48 + b0]);
    LexLessCons(48 + a1, 48 + b1, [48 + a0], [48 + b0]);
    assert [48 + a0] == [48 + a0] + [] && [48 + b0] == [48 + b0] + [];
    LexLessCons(48 + a0, 48 + b0, [], []);
  }

  lemma DecimalDigits(n: nat)
    requires n < 1000
    ensures n == 100 * (n / 100) + 10 * (n / 10 % 10) + n % 10
    ensures n / 100 < 10
  {
  }

  /** Three-digit codes compare as the numbers they write. */
  lemma Pad3Order(x: nat, y: nat)
    requires x < 1000 && y < 1000
    ensures LexLess(Codes(Pad3(x)), Codes(Pad3(y))) <==> x < y
    ensures Codes(Pad3(x)) == Codes(Pad3(y)) <==> x == y
  {
    Pad3Codes(x);
    Pad3Codes(y);
    DecimalDigits(x);
    DecimalDigits(y);
    DigitCodesOrder(x / 100, x / 10 % 10, x % 10, y / 100, y / 10 % 10, y % 10);
  }

  /** The three-digit codes of a list of weights, concatenated. */
  function Blocks(ws: seq<nat>): string
  {
    if ws == [] then "" else Pad3(ws[0]) + Blocks(ws[1..])
  }

  ghost predicate Below1000(ws: seq<nat>)
  {
    forall i :: 0 <= i < |ws| ==> ws[i] < 1000
  }

  lemma {:induction false} BlocksLength(ws: seq<nat>)
    requires Below1000(ws)
    ensures |Blocks(ws)| == 3 * |ws|
    decreases |ws|
  {
    if ws != [] {
      Pad3RoundTrip(ws[0]);
      BlocksLength(ws[1..]);
    }
  }

  lemma {:induction false} BlocksConcat(a: seq<nat>, b: seq<nat>)
    ensures Blocks(a + b) == Blocks(a) + Blocks(b)
    decreases |a|
  {
    if a != [] {
      assert (a + b)[1..] == a[1..] + b;
      BlocksConcat(a[1..], b);
    } else {
      assert a + b == b;
    }
  }

  /**
   * Fixed width makes string comparison of the codes agree with comparing
   * the weights position by position.
   */
  lemma {:induction false} BlocksOrder(ws: seq<nat>, vs: seq<nat>)
    requires Below1000(ws) && Below1000(vs)
    ensures LexLess(Codes(Blocks(ws)), Codes(Blocks(vs))) <==> LexLess(ws, vs)
    decreases |ws|
  {
    if ws == [] || vs == [] {
      BlocksLength(ws);
      BlocksLength(vs);
      LexLessEmpty(Codes(Blocks(vs)));
      LexLessEmpty(Codes(Blocks(ws)));
      LexLessEmpty(vs);
      LexLessEmpty(ws);
    } else {
      var p, q := Codes(Pad3(ws[0])), Codes(Pad3(vs[0]));
      var a, b := Codes(Blocks(ws[1..])), Codes(Blocks(vs[1..]));
      CodesConcat(Pad3(ws[0]), Blocks(ws[1..]));
      CodesConcat(Pad3(vs[0]), Blocks(vs[1..]));
      Pad3RoundTrip(ws[0]);
      Pad3RoundTrip(vs[0]);
      LexLessBlocks(p, q, a, b);
      Pad3Order(ws[0], vs[0]);
      BlocksOrder(ws[1..], vs[1..]);
      assert ws == [ws[0]] + ws[1..] && vs == [vs[0]] + vs[1..];
      LexLessCons(ws[0], vs[0], ws[1..], vs[1..]);
    }
  }

  /** The characters the regular expression `.` does not match. */
  predicate IsLineTerminator(c: char)
  {
    c == '\n' || c == '\r' || c as int == 0x2028 || c as int == 0x2029
  }

  predicate NoLineTerminators(s: string)
  {
    forall i :: 0 <= i < |s| ==> !IsLineTerminator(s[i])
  }

  /** A character outside the Basic Multilingual Plane is two UTF-16 code units. */
  predicate Astral(c: char)
  {
    c as int >= 0x10000
  }

  /** The number of UTF-16 code units of s. */
  function Utf16Length(s: string): nat
  {
    if s == [] then 0 else (if Astral(s[0]) then 2 else 1) + Utf16Length(s[1..])
  }

  /**
   * What one character becomes under the table w: a line terminator stays;
   * each of the two lone surrogates of an astral character is missing from
   * the table; any other character is looked up as a one-character string.
   */
  function Piece(w: map<string, nat>, c: char): string
  {
    if IsLineTerminator(c) then [c]
    else if Astral(c) then Pad3(999) + Pad3(999)
    else Pad3(WeightOr999(w, [c]))
  }

  /**
   * The global replacement in saKey: every character the regular expression
   * `.` matches becomes its weight (or 999) as three digits.
   */
  function SaReplace(w: map<string, nat>, s: string): string
  {
    if s == [] then "" else Piece(w, s[0]) + SaReplace(w, s[1..])
  }

  /** Every one-character key of w has a weight between 2 and 50, as in saWeight. */
  ghost predicate CharWeights(w: map<string, nat>)
  {
    forall k :: k in w && |k| == 1 ==> 2 <= w[k] <= 50
  }

  lemma SaWeightCharWeights()
    ensures CharWeights(SaWeight)
  {
    assert |SaOrder| == 50 && SaOrder[0] == "";
    forall k | k in SaWeight && |k| == 1 ensures 2 <= SaWeight[k] <= 50 {
      NonEmptyKeyWeights(SaOrder, k);
    }
  }

  /**
   * saKey.  `fold` is `s => s.toLowerCase().normalize('NFC')`, which the
   * browser supplies.
   */
  function SaKey(fold: string -> string, s: string): (r: string)
    ensures NoLineTerminators(fold(s)) ==> |r| == 3 * Utf16Length(fold(s))
  {
    if NoLineTerminators(fold(s)) then
      SaWeightCharWeights();
      SaKeyLength(SaWeight, fold(s));
      SaReplace(SaWeight, fold(s))
    else SaReplace(SaWeight, fold(s))
  }

  /** The weight of every UTF-16 code unit a line-terminator-free string consists of. */
  function UnitWeights(w: map<string, nat>, s: string): seq<nat>
  {
    if s == [] then []
    else (if Astral(s[0]) then [999, 999] else [WeightOr999(w, [s[0]])]) + UnitWeights(w, s[1..])
  }

  /** One weight per code unit, each between 2 and 50 or the fallback 999. */
  lemma {:induction false} UnitWeightsRange(w: map<string, nat>, s: string)
    requires CharWeights(w)
    ensures |UnitWeights(w, s)| == Utf16Length(s)
    ensures forall i :: 0 <= i < |UnitWeights(w, s)| ==>
      2 <= UnitWeights(w, s)[i] <= 50 || UnitWeights(w, s)[i] == 999
    decreases |s|
  {
    if s != [] {
      UnitWeightsRange(w, s[1..]);
      assert |[s[0]]| == 1;
    }
  }

  lemma Below1000Weights(w: map<string, nat>, s: string)
    requires CharWeights(w)
    ensures Below1000(UnitWeights(w, s))
  {
    UnitWeightsRange(w, s);
  }

  /** Away from line terminators the key is the three-digit codes of the unit weights. */
  lemma {:induction false} SaReplaceBlocks(w: map<string, nat>, s: string)
    requires NoLineTerminators(s)
    ensures SaReplace(w, s) == Blocks(UnitWeights(w, s))
    decreases |s|
  {
    if s != [] {
      assert NoLineTerminators(s[1..]) by {
        assert forall i :: 0 <= i < |s[1..]| ==> s[1..][i] == s[i + 1];
      }
      SaReplaceBlocks(w, s[1..]);
      var head := if Astral(s[0]) then [999, 999] else [WeightOr999(w, [s[0]])];
      BlocksConcat(head, UnitWeights(w, s[1..]));
      if Astral(s[0]) {
        assert Blocks([999, 999]) == Pad3(999) + Pad3(999) by {
          assert [999, 999][1..] == [999];
          assert Blocks([999]) == Pad3(999) + Blocks([]);
        }
      } else {
        assert Blocks(head) == Pad3(head[0]) + Blocks([]);
      }
    }
  }

  /** Three characters per UTF-16 code unit when there is no line terminator. */
  lemma SaKeyLength(w: map<string, nat>, s: string)
    requires CharWeights(w) && NoLineTerminators(s)
    ensures |SaReplace(w, s)| == 3 * Utf16Length(s)
  {
    SaReplaceBlocks(w, s);
    UnitWeightsRange(w, s);
    BlocksLength(UnitWeights(w, s));
  }

  /** Replacement works character by character, so it distributes over concatenation. */
  lemma {:induction false} SaReplaceConcat(w: map<string, nat>, a: string, b: string)
    ensures SaReplace(w, a + b) == SaReplace(w, a) + SaReplace(w, b)
    decreases |a|
  {
    if a != [] {
      assert (a + b)[0] == a[0] && (a + b)[1..] == a[1..] + b;
      SaReplaceConcat(w, a[1..], b);
    } else {
      assert a + b == b;
    }
  }

  /** A line terminator is kept where it is, and the rest is keyed on its own. */
  lemma TerminatorKept(w: map<string, nat>, a: string, c: char, b: string)
    requires IsLineTerminator(c)
    ensures SaReplace(w, a + [c] + b) == SaReplace(w, a) + [c] + SaReplace(w, b)
  {
    SaReplaceConcat(w, a + [c], b);
    SaReplaceConcat(w, a, [c]);
    TerminatorPiece(w, c);
  }

  lemma TerminatorPiece(w: map<string, nat>, c: char)
    requires IsLineTerminator(c)
    ensures SaReplace(w, [c]) == [c]
  {
    assert [c][0] == c && [c][1..] == [];
  }

  /**
   * Comparing two keys as strings orders the strings by their unit
   * weights position by position.
   */
  lemma SaKeyOrder(s: string, t: string)
    requires NoLineTerminators(s) && NoLineTerminators(t)
    ensures LexLess(Codes(SaReplace(SaWeight, s)), Codes(SaReplace(SaWeight, t))) <==>
      LexLess(UnitWeights(SaWeight, s), UnitWeights(SaWeight, t))
  {
    SaWeightCharWeights();
    WeightsOrder(SaWeight, s, t);
  }

  lemma WeightsOrder(w: map<string, nat>, s: string, t: string)
    requires CharWeights(w) && NoLineTerminators(s) && NoLineTerminators(t)
    ensures LexLess(Codes(SaReplace(w, s)), Codes(SaReplace(w, t))) <==>
      LexLess(UnitWeights(w, s), UnitWeights(w, t))
  {
    SaReplaceBlocks(w, s);
    SaReplaceBlocks(w, t);
    Below1000Weights(w, s);
    Below1000Weights(w, t);
    BlocksOrder(UnitWeights(w, s), UnitWeights(w, t));
  }

  /** A string starting with a listed letter sorts before one starting with an unlisted character. */
  lemma ListedBeforeUnlisted(c: char, s: string, d: char, t: string)
    requires [c] in SaWeight && !Astral(c) && ([d] !in SaWeight || Astral(d))
    requires NoLineTerminators([c] + s) && NoLineTerminators([d] + t)
    ensures LexLess(Codes(SaReplace(SaWeight, [c] + s)), Codes(SaReplace(SaWeight, [d] + t)))
  {
    SaWeightCharWeights();
    WeightsOrder(SaWeight, [c] + s, [d] + t);
    ListedFirst(SaWeight, c, s, d, t);
  }

  /** A listed first character weighs at most 50, an unlisted one 999. */
  lemma ListedFirst(w: map<string, nat>, c: char, s: string, d: char, t: string)
    requires CharWeights(w)
    requires [c] in w && !Astral(c) && ([d] !in w || Astral(d))
    ensures LexLess(UnitWeights(w, [c] + s), UnitWeights(w, [d] + t))
  {
    UnitWeightsCons(w, c, s);
    UnitWeightsCons(w, d, t);
    assert |[c]| == 1;
    var rest := if Astral(d) then [999] + UnitWeights(w, t) else UnitWeights(w, t);
    assert UnitWeights(w, [d] + t) == [999] + rest;
    LexLessCons(w[[c]], 999, UnitWeights(w, s), rest);
  }

  lemma UnitWeightsCons(w: map<string, nat>, c: char, s: string)
    ensures UnitWeights(w, [c] + s) ==
      (if Astral(c) then [999, 999] else [WeightOr999(w, [c])]) + UnitWeights(w, s)
  {
    assert ([c] + s)[0] == c && ([c] + s)[1..] == s;
  }

  lemma WeightAt(i: nat)
    requires i < |SaOrder|
    ensures SaOrder[i] in SaWeight && WeightOr999(SaWeight, SaOrder[i]) == i + 1
  {
    SaWeightTable();
  }

  /** The key of a two-character string from the weights of its characters. */
  lemma TwoCharKey(w: map<string, nat>, x: char, y: char, u: nat, v: nat)
    requires !IsLineTerminator(x) && !Astral(x) && !IsLineTerminator(y) && !Astral(y)
    requires WeightOr999(w, [x]) == u && WeightOr999(w, [y]) == v
    ensures SaReplace(w, [x, y]) == Pad3(u) + Pad3(v)
  {
    assert [x, y][0] == x && [x, y][1..] == [y];
    assert SaReplace(w, [y]) == Piece(w, y) + SaReplace(w, []);
  }

  /**
   * Replacement goes one code unit at a time, so a digraph is never looked
   * up: "kh" is the code of k followed by the code of h.
   */
  lemma KhExample()
    ensures SaReplace(SaWeight, "kh") == "016048"
  {
    assert SaOrder[15] == "k" && SaOrder[47] == "h";
    WeightAt(15);
    WeightAt(47);
    Pad3Digits(16);
    Pad3Digits(48);
    TwoCharKey(SaWeight, 'k', 'h', 16, 48);
  }

  /** "āi" is the code of ā followed by the code of i. */
  lemma LongAIExample()
    ensures SaReplace(SaWeight, "āi") == "003004"
  {
    assert SaOrder[2] == "ā" && SaOrder[3] == "i";
    WeightAt(2);
    WeightAt(3);
    Pad3Digits(3);
    Pad3Digits(4);
    TwoCharKey(SaWeight, 'ā', 'i', 3, 4);
  }

  /**
   * The page keys "ai" one code unit at a time, as a (2) then i (4), so it
   * sorts before e (12): the opposite of the catalog order.
   */
  lemma BrowserPutsAiBeforeE()
    ensures UnitWeights(SaWeight, "ai") == [2, 4] && UnitWeights(SaWeight, "e") == [12]
    ensures LexLess(Codes(SaReplace(SaWeight, "ai")), Codes(SaReplace(SaWeight, "e")))
  {
    assert SaOrder[1] == "a" && SaOrder[3] == "i" && SaOrder[11] == "e";
    WeightAt(1);
    WeightAt(3);
    WeightAt(11);
    UnitWeightsCons(SaWeight, 'a', "i");
    UnitWeightsCons(SaWeight, 'i', "");
    UnitWeightsCons(SaWeight, 'e', "");
    assert "ai" == ['a'] + "i" && "i" == ['i'] + "" && "e" == ['e'] + "";
    SaKeyOrder("ai", "e");
    LexLessCons(2, 12, [4], []);
  }

  /** The catalog and the page disagree on "ai" against "e". */
  lemma OrdersDisagree()
    ensures LexLess(Collation.SortKey("e"), Collation.SortKey("ai"))
    ensures LexLess(Codes(SaKey(s => s, "ai")), Codes(SaKey(s => s, "e")))
  {
    Collation.EBeforeAi();
    BrowserPutsAiBeforeE();
  }
}
