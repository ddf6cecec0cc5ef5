/** Spreadsheet column labels (`_col_to_index`): a label is a bijective base-26
    numeral with A = 1 … Z = 26, read case-insensitively. */
module Columns {

  predicate IsLetter(c: char) {
    'A' <= c <= 'Z' || 'a' <= c <= 'z'
  }

  /** Labels `_col_to_index` decodes meaningfully: ASCII letters only. */
  predicate ValidLabel(s: string) {
    forall i :: 0 <= i < |s| ==> IsLetter(s[i])
  }

  /** `str.upper()` on one ASCII letter. */
  function UpperChar(c: char): (u: char)
    requires IsLetter(c)
    ensures 'A' <= u <= 'Z'
  {
    if 'a' <= c <= 'z' then (c as int - 'a' as int + 'A' as int) as char else c
  }

  function Upper(s: string): (u: string)
    requires ValidLabel(s)
    ensures |u| == |s| && ValidLabel(u)
    ensures forall i :: 0 <= i < |s| ==> u[i] == UpperChar(s[i])
  {
    if s == [] then [] else Upper(s[..|s| - 1]) + [UpperChar(s[|s| - 1])]
  }

  /** Digit value of one letter: A (or a) = 1 … Z (or z) = 26. */
  function LetterValue(c: char): (d: int)
    requires IsLetter(c)
    ensures 1 <= d <= 26
  {
    UpperChar(c) as int - 'A' as int + 1
  }

  /** The number a label denotes, most significant letter first. */
  function LabelValue(s: string): (r: nat)
    requires ValidLabel(s)
  {
    if s == [] then 0 else LabelValue(s[..|s| - 1]) * 26 + LetterValue(s[|s| - 1])
  }

  /** `_col_to_index`: upper-case the label, accumulate `index * 26 + digit` over
      its letters and return the total minus one (the 0-based column offset). */
  method ColToIndex(col: string) returns (index: int)
    requires ValidLabel(col)
    ensures index == LabelValue(col) - 1
    ensures col != [] ==> index >= 0
    ensures col == [] ==> index == -1
  {
    var upper := Upper(col);
    var acc := 0;
    var i := 0;
    while i < |upper|
      invariant 0 <= i <= |upper|
      invariant acc == LabelValue(col[..i])
    {
      assert col[..i + 1][..i] == col[..i];
      acc := acc * 26 + (upper[i] as int - 'A' as int + 1);
      i := i + 1;
    }
    assert col[..i] == col;
    LabelValuePositive(col);
    index := acc - 1;
  }

  lemma LabelValuePositive(s: string)
    requires ValidLabel(s)
    ensures s != [] ==> LabelValue(s) >= 1
  {
  }

  /** Function form of `_col_to_index`, for use in specifications. */
  function ColumnIndex(s: string): (i: int)
    requires ValidLabel(s)
    ensures s != [] ==> i >= 0
  {
    LabelValuePositive(s);
    LabelValue(s) - 1
  }

  /** The label of the `n`-th positive value in bijective base 26 ("" for 0). */
  function Encode(v: nat): (s: string)
    ensures ValidLabel(s)
    ensures forall i :: 0 <= i < |s| ==> 'A' <= s[i] <= 'Z'
    ensures v > 0 <==> s != []
    decreases v
  {
    if v == 0 then []
    else Encode((v - 1) / 26) + [('A' as int + (v - 1) % 26) as char]
  }

  /** The upper-case label of the 0-based column `n`. */
  function ColumnLabel(n: nat): (s: string)
    ensures s != [] && ValidLabel(s)
  {
    Encode(n + 1)
  }

  /** Decoding undoes encoding: `ColumnLabel(n)` names column `n`. */
  lemma {:induction false} DecodeEncode(v: nat)
    ensures LabelValue(Encode(v)) == v
    decreases v
  {
    if v > 0 {
      var e := Encode((v - 1) / 26);
      var s := Encode(v);
      DecodeEncode((v - 1) / 26);
      assert s[..|s| - 1] == e;
    }
  }

  /** Encoding undoes decoding, up to case: labels and values are in bijection. */
  lemma {:induction false} EncodeDecode(s: string)
    requires ValidLabel(s)
    ensures Encode(LabelValue(s)) == Upper(s)
  {
    if s != [] {
      var init := s[..|s| - 1];
      EncodeDecode(init);
      var v := LabelValue(s);
      var d := LetterValue(s[|s| - 1]);
      assert v - 1 == LabelValue(init) * 26 + (d - 1);
      assert (v - 1) / 26 == LabelValue(init);
      assert (v - 1) % 26 == d - 1;
    }
  }

  /** `ColumnLabel(n)` names column `n`. */
  lemma ColumnIndexOfLabel(n: nat)
    ensures ColumnIndex(ColumnLabel(n)) == n
  {
    DecodeEncode(n + 1);
  }

  /** The label is read case-insensitively. */
  lemma {:induction false} LabelValueUpper(s: string)
    requires ValidLabel(s)
    ensures LabelValue(Upper(s)) == LabelValue(s)
  {
    if s != [] {
      var u := Upper(s);
      assert u[..|u| - 1] == Upper(s[..|s| - 1]);
      LabelValueUpper(s[..|s| - 1]);
    }
  }

  /** The examples the encoding is built around. */
  lemma ColumnIndexExamples()
    ensures ColumnIndex("A") == 0 && ColumnIndex("Z") == 25
    ensures ColumnIndex("AA") == 26 && ColumnIndex("ab") == 27
  {
    assert "AA"[..1] == "A";
    assert "ab"[..1] == "a";
  }
}
