// Spreadsheet column labels: column 0 is "A", 25 is "Z", 26 is "AA", ...
// The label is the column index written in bijective base 26 with the
// digits 'A'..'Z'. The grid header and the filter's column picker both show
// these labels; the two copies of the label routine in the repository are
// identical, so the model defines it once.
module ColumnLabel {

  predicate IsUpper(c: char) {
    'A' <= c <= 'Z'
  }

  /** The digit `d` of a bijective base-26 numeral: 'A' + d. */
  function Letter(d: int): (c: char)
    requires 0 <= d < 26
    ensures IsUpper(c)
  {
    (65 + d) as char
  }

  /** The label of column `index`. A negative index has the empty label. */
  function Label(index: int): (name: string)
    decreases index + 1
    ensures index < 0 <==> name == ""
    ensures forall k :: 0 <= k < |name| ==> IsUpper(name[k])
  {
    if index < 0 then "" else Label(index / 26 - 1) + [Letter(index % 26)]
  }

  /** Reads a label back as a column index; the empty label reads as -1. */
  function Decode(name: string): int
    decreases |name|
  {
    if name == [] then -1
    else (Decode(name[..|name| - 1]) + 1) * 26 + (name[|name| - 1] as int - 65)
  }

  /** The label routine: prepend the letter of `index % 26`, then move on to
      `floor(index / 26) - 1`, until the index drops below zero. */
  method GetColumnLabel(index: int) returns (name: string)
    ensures name == Label(index)
  {
    name := "";
    var i := index;
    while i >= 0
      invariant Label(i) + name == Label(index)
      decreases i + 1
    {
      name := [Letter(i % 26)] + name;
      i := i / 26 - 1;
    }
  }

  /** Decoding a label gives back the column index. */
  lemma {:induction false} DecodeLabel(index: int)
    requires index >= -1
    ensures Decode(Label(index)) == index
  {
    if index >= 0 {
      var q := index / 26 - 1;
      DecodeLabel(q);
      var s := Label(index);
      assert s[..|s| - 1] == Label(q);
      assert s[|s| - 1] == Letter(index % 26);
    }
  }

  /** Every word over 'A'..'Z' is the label of exactly the column it decodes to. */
  lemma {:induction false} LabelDecode(s: string)
    requires forall k :: 0 <= k < |s| ==> IsUpper(s[k])
    ensures Decode(s) >= -1
    ensures Label(Decode(s)) == s
  {
    if s != [] {
      var t := s[..|s| - 1];
      LabelDecode(t);
      var d := s[|s| - 1] as int - 65;
      var n := Decode(s);
      assert n == (Decode(t) + 1) * 26 + d;
      assert n / 26 - 1 == Decode(t) && n % 26 == d;
      assert Letter(d) == s[|s| - 1];
      assert s == t + [s[|s| - 1]];
    }
  }

  /** Distinct columns have distinct labels. */
  lemma LabelInjective(i: int, j: int)
    requires i >= 0 && j >= 0
    requires Label(i) == Label(j)
    ensures i == j
  {
    DecodeLabel(i);
    DecodeLabel(j);
  }

  /** The header row of a grid with `columns` columns shows pairwise distinct labels. */
  lemma HeaderLabelsDistinct(columns: nat)
    ensures forall i, j :: 0 <= i < j < columns ==> Label(i) != Label(j)
  {
    forall i, j | 0 <= i < j < columns
      ensures Label(i) != Label(j)
    {
      if Label(i) == Label(j) {
        LabelInjective(i, j);
      }
    }
  }

  /** The labels the header shows for its first columns. */
  lemma LabelExamples()
    ensures Label(0) == "A" && Label(25) == "Z"
    ensures Label(26) == "AA" && Label(51) == "AZ" && Label(52) == "BA"
    ensures Label(701) == "ZZ" && Label(702) == "AAA"
  {
    assert Label(-1) == "";
    assert Label(0) == "A";
    assert Label(1) == "B";
    assert Label(25) == "Z";
    assert Label(26) == Label(0) + "A";
    assert Label(51) == Label(0) + "Z";
    assert Label(52) == Label(1) + "A";
    assert Label(701) == Label(25) + "Z";
    assert Label(702) == Label(26) + "A";
  }
}
