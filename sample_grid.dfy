/**
 * Column labels and cell location strings of the rack grid
 * (test_tube_tracker/js/sampleGrid.js). Columns are labelled A, B, ..., Z, AA, AB, ...:
 * the label of index n is the bijective base-26 numeral of n + 1 written with A..Z.
 */
module SampleGrid {
  import opened Text

  predicate IsLetter(c: char) {
    'A' <= c <= 'Z'
  }

  /** `String.fromCharCode(65 + d)`. */
  function Letter(d: nat): (c: char)
    requires d < 26
    ensures IsLetter(c)
  {
    ('A' as int + d) as char
  }

  function LetterIndex(c: char): (d: nat)
    requires IsLetter(c)
    ensures d < 26 && Letter(d) == c
  {
    c as int - 'A' as int
  }

  predicate IsLabel(s: string) {
    s != [] && forall i :: 0 <= i < |s| ==> IsLetter(s[i])
  }

  /** The label `getColLabel(index)` builds: never empty and made of A..Z only. */
  function ColLabel(index: nat): (lab: string)
    ensures IsLabel(lab)
    ensures lab[|lab| - 1] == Letter(index % 26)
    decreases index
  {
    if index < 26 then [Letter(index)] else ColLabel(index / 26 - 1) + [Letter(index % 26)]
  }

  /** `getColLabel`: a do-while loop that prepends one letter per base-26 digit. */
  method GetColLabel(index: nat) returns (lab: string)
    ensures lab == ColLabel(index)
  {
    lab := "";
    var num: int := index;
    while true
      invariant 0 <= num
      invariant ColLabel(num) + lab == ColLabel(index)
      decreases num
    {
      var remainder := num % 26;
      lab := [Letter(remainder)] + lab;
      num := num / 26 - 1;
      if num < 0 {
        break;
      }
    }
  }

  /** Indices 0..25 are labelled with the single letter 'A' + index. */
  lemma SingleLetterLabels(index: nat)
    requires index < 26
    ensures ColLabel(index) == [('A' as int + index) as char]
  {
  }

  /** After Z the labels continue with two letters, and after ZZ with three. */
  lemma LabelExamples()
    ensures ColLabel(0) == "A" && ColLabel(25) == "Z"
    ensures ColLabel(26) == "AA" && ColLabel(27) == "AB"
    ensures ColLabel(701) == "ZZ" && ColLabel(702) == "AAA"
  {
    assert ColLabel(26) == ColLabel(0) + "A";
    assert ColLabel(27) == ColLabel(0) + "B";
    assert ColLabel(701) == ColLabel(25) + "Z";
    assert ColLabel(702) == ColLabel(26) + "A";
  }

  /** The index a label denotes, reading it as a bijective base-26 numeral minus one. */
  function LabelIndex(lab: string): nat
    requires IsLabel(lab)
    decreases |lab|
  {
    var d := LetterIndex(lab[|lab| - 1]);
    if |lab| == 1 then d else (LabelIndex(lab[..|lab| - 1]) + 1) * 26 + d
  }

  lemma {:induction false} LabelIndexOfColLabel(index: nat)
    ensures LabelIndex(ColLabel(index)) == index
    decreases index
  {
    if index >= 26 {
      var lab := ColLabel(index);
      assert lab[..|lab| - 1] == ColLabel(index / 26 - 1);
      LabelIndexOfColLabel(index / 26 - 1);
    }
  }

  lemma {:induction false} ColLabelOfLabelIndex(lab: string)
    requires IsLabel(lab)
    ensures ColLabel(LabelIndex(lab)) == lab
    decreases |lab|
  {
    var d := LetterIndex(lab[|lab| - 1]);
    if |lab| > 1 {
      var prefix := lab[..|lab| - 1];
      ColLabelOfLabelIndex(prefix);
      var n := (LabelIndex(prefix) + 1) * 26 + d;
      assert n / 26 - 1 == LabelIndex(prefix);
      assert n % 26 == d;
      assert lab == prefix + [lab[|lab| - 1]];
    }
  }

  /** Distinct columns get distinct labels. */
  lemma ColLabelInjective(a: nat, b: nat)
    requires ColLabel(a) == ColLabel(b)
    ensures a == b
  {
    LabelIndexOfColLabel(a);
    LabelIndexOfColLabel(b);
  }

  /** Every non-empty A..Z string labels exactly one column. */
  lemma EveryLabelIsUsed(lab: string)
    requires IsLabel(lab)
    ensures exists index: nat :: ColLabel(index) == lab
  {
    ColLabelOfLabelIndex(lab);
  }

  /** Lexicographic order on strings of equal length, compared from the first character. */
  predicate LexLess(x: string, y: string)
    requires |x| == |y|
    decreases |x|
  {
    |x| > 0 &&
    (LexLess(x[..|x| - 1], y[..|y| - 1]) || (x[..|x| - 1] == y[..|y| - 1] && x[|x| - 1] < y[|y| - 1]))
  }

  /** The order of the sequence A, ..., Z, AA, AB, ...: shorter labels first, then lexicographic. */
  predicate LabelBefore(x: string, y: string) {
    |x| < |y| || (|x| == |y| && LexLess(x, y))
  }

  /** Labels follow the A, ..., Z, AA, AB, ... sequence: a smaller index gets an earlier label. */
  lemma {:induction false} ColLabelOrdered(a: nat, b: nat)
    requires a < b
    ensures LabelBefore(ColLabel(a), ColLabel(b))
    decreases b
  {
    var x, y := ColLabel(a), ColLabel(b);
    if b < 26 {
      assert x[..0] == y[..0];
    } else if a >= 26 {
      var pa, pb := a / 26 - 1, b / 26 - 1;
      assert x[..|x| - 1] == ColLabel(pa);
      assert y[..|y| - 1] == ColLabel(pb);
      if pa < pb {
        ColLabelOrdered(pa, pb);
      } else {
        assert a % 26 < b % 26;
      }
    }
  }

  /** The `data-location` of the cell at 0-based (row, col): its column label, then row + 1. */
  function LocationString(row: nat, col: nat): string {
    ColLabel(col) + NatToString(row + 1)
  }

  /** In a label followed by digits, the letters are exactly the label's positions. */
  lemma LettersThenDigits(lab: string, digits: string)
    requires IsLabel(lab)
    requires forall i :: 0 <= i < |digits| ==> '0' <= digits[i] <= '9'
    ensures forall i :: 0 <= i < |lab + digits| ==> (IsLetter((lab + digits)[i]) <==> i < |lab|)
  {
  }

  /** Different cells have different location strings. */
  lemma LocationStringInjective(r1: nat, c1: nat, r2: nat, c2: nat)
    requires LocationString(r1, c1) == LocationString(r2, c2)
    ensures r1 == r2 && c1 == c2
  {
    var l1, l2 := ColLabel(c1), ColLabel(c2);
    var d1, d2 := NatToString(r1 + 1), NatToString(r2 + 1);
    var s := LocationString(r1, c1);
    LettersThenDigits(l1, d1);
    LettersThenDigits(l2, d2);
    assert s == l1 + d1 == l2 + d2;
    assert !IsLetter(s[|l1|]) && !IsLetter(s[|l2|]);
    assert |l1| == |l2|;
    assert l1 == s[..|l1|] == l2;
    assert d1 == s[|l1|..] == d2;
    ColLabelInjective(c1, c2);
    NatToStringInjective(r1 + 1, r2 + 1);
  }
}
