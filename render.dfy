/**
 * The player-visible projection of the board: each square's text and the
 * per-column widths used to line the text grid up.
 */
module Render {
  import opened Grid

  /** The character of decimal digit d. */
  function Digit(d: nat): char
    requires d < 10
  {
    "0123456789"[d]
  }

  /** The value of a digit character, or -1 for any other character. */
  function DigitValue(ch: char): int
  {
    if '0' <= ch <= '9' then ch as int - '0' as int else -1
  }

  /** k written in decimal, as Python's str() writes a non-negative int. */
  function Decimal(k: nat): (s: string)
    decreases k
  {
    if k < 10 then [Digit(k)] else Decimal(k / 10) + [Digit(k % 10)]
  }

  /** Reads a string of digits back as a number. */
  function DecimalValue(s: string): int
    decreases |s|
  {
    if s == [] then 0 else DecimalValue(s[..|s| - 1]) * 10 + DigitValue(s[|s| - 1])
  }

  /** The text of one square, as Python's str() of "*", None or an int. */
  function CellText(x: Cell): string
  {
    match x
    case Mine => "*"
    case Unset => "None"
    case Count(k) => Decimal(k)
  }

  /** What the player sees at a square: its text once dug, a blank before. */
  function VisibleText(x: Cell, isDug: bool): string
  {
    if isDug then CellText(x) else " "
  }

  /** Reading back the decimal text of a count gives the count. */
  lemma {:induction false} DecimalRoundTrip(k: nat)
    ensures DecimalValue(Decimal(k)) == k
    decreases k
  {
    if k >= 10 {
      DecimalRoundTrip(k / 10);
      var s := Decimal(k);
      assert s[..|s| - 1] == Decimal(k / 10);
    }
  }

  /** Decimal text is non-empty, all digits, one character for a count
      below ten, and without leading zeros, as str() writes it. */
  lemma {:induction false} DecimalShape(k: nat)
    ensures |Decimal(k)| >= 1
    ensures forall i :: 0 <= i < |Decimal(k)| ==> '0' <= Decimal(k)[i] <= '9'
    ensures k < 10 <==> |Decimal(k)| == 1
    ensures Decimal(k)[0] == '0' <==> k == 0
    ensures |Decimal(k)| > 1 ==> Decimal(k)[0] != '0'
    decreases k
  {
    if k >= 10 {
      DecimalShape(k / 10);
      assert Decimal(k)[0] == Decimal(k / 10)[0];
    }
  }

  /** A square's visible text is the blank exactly when it is undug, and a
      dug count reads back as that count: the player sees every dug square
      and only those. */
  lemma VisibleTextFaithful(x: Cell, isDug: bool)
    ensures VisibleText(x, isDug) == " " <==> !isDug
    ensures isDug && x.Count? ==> DecimalValue(VisibleText(x, isDug)) == x.n
    ensures isDug && x == Mine ==> VisibleText(x, isDug) == "*"
  {
    if x.Count? {
      DecimalShape(x.n);
      DecimalRoundTrip(x.n);
      if isDug {
        assert '0' <= VisibleText(x, isDug)[0] <= '9';
      }
    }
  }

  /** On a labelled board (every count at most eight) every visible square
      is one character wide. */
  lemma VisibleTextOneWide(x: Cell, isDug: bool)
    requires x == Mine || (x.Count? && x.n <= 8)
    ensures |VisibleText(x, isDug)| == 1
  {
    if x.Count? {
      DecimalShape(x.n);
    }
  }

  /** Per-column widths of the visible grid: each is the length of the
      longest text in its column. */
  method ColumnWidths(visible: seq<seq<string>>, n: nat) returns (widths: seq<nat>)
    requires |visible| == n && forall r :: 0 <= r < n ==> |visible[r]| == n
    ensures |widths| == n
    ensures forall idx, r :: 0 <= idx < n && 0 <= r < n ==> |visible[r][idx]| <= widths[idx]
    ensures forall idx :: 0 <= idx < n ==> exists r :: 0 <= r < n && |visible[r][idx]| == widths[idx]
    ensures (forall r, c :: 0 <= r < n && 0 <= c < n ==> |visible[r][c]| >= 1) ==>
              forall idx :: 0 <= idx < n ==> widths[idx] >= 1
  {
    widths := [];
    for idx := 0 to n
      invariant |widths| == idx
      invariant forall i, r :: 0 <= i < idx && 0 <= r < n ==> |visible[r][i]| <= widths[i]
      invariant forall i :: 0 <= i < idx ==> exists r :: 0 <= r < n && |visible[r][i]| == widths[i]
    {
      // max(columns, key=len): the first longest text of the column
      var longest := 0;
      var width := |visible[0][idx]|;
      for r := 1 to n
        invariant 0 <= longest < r && width == |visible[longest][idx]|
        invariant forall k :: 0 <= k < r ==> |visible[k][idx]| <= width
      {
        if |visible[r][idx]| > width {
          longest, width := r, |visible[r][idx]|;
        }
      }
      widths := widths + [width];
    }
  }
}
