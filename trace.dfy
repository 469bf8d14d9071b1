/**
 * The decision trace: one record per log call of the searches, and the text line each
 * record is written as.  A minimax line reads "<node> <depth> <value>"; an alpha-beta line
 * adds "<alpha> <beta>" and, on a cutoff, " CUT-OFF".  The node is "root" at depth 1 and
 * otherwise the column letter followed by the 1-based row of the move that led there.
 */
module Trace {
  import opened Constants

  /** The arguments of one log call. */
  datatype Record =
    | MinimaxLine(depth: int, value: int, x: int, y: int)
    | AlphaBetaLine(depth: int, value: int, alpha: int, beta: int, x: int, y: int, cut: bool)

  /** The trace after a log call: unchanged while logging is stopped. */
  function Log(stopLog: bool, trace: seq<Record>, r: Record): (t: seq<Record>)
    ensures stopLog ==> t == trace
    ensures !stopLog ==> t == trace + [r]
  {
    if stopLog then trace else trace + [r]
  }

  // ----- Numbers -----

  function DigitChar(d: int): (c: char)
    requires 0 <= d < 10
    ensures '0' <= c <= '9'
  {
    ('0' as int + d) as char
  }

  /** Decimal digits of `n`, most significant first, without leading zeros. */
  function NatToString(n: nat): (s: string)
    decreases n
  {
    if n < 10 then [DigitChar(n)] else NatToString(n / 10) + [DigitChar(n % 10)]
  }

  /** A decimal integer, with a leading '-' when negative. */
  function IntToString(i: int): string {
    if i < 0 then "-" + NatToString(-i) else NatToString(i)
  }

  predicate IsDigits(s: string) {
    forall k :: 0 <= k < |s| ==> '0' <= s[k] <= '9'
  }

  /** The value of a string of decimal digits. */
  function ParseDigits(s: string): nat
    requires IsDigits(s)
  {
    if |s| == 0 then 0 else 10 * ParseDigits(s[..|s| - 1]) + (s[|s| - 1] as int - '0' as int)
  }

  /** NatToString writes a non-empty run of digits that reads back as `n`. */
  lemma {:induction false} NatToStringRoundTrip(n: nat)
    ensures |NatToString(n)| >= 1 && IsDigits(NatToString(n))
    ensures ParseDigits(NatToString(n)) == n
    decreases n
  {
    var s := NatToString(n);
    if n >= 10 {
      NatToStringRoundTrip(n / 10);
      var prefix := NatToString(n / 10);
      assert s[..|s| - 1] == prefix;
      assert s[|s| - 1] == DigitChar(n % 10);
    }
  }

  /** A value as logged: the sentinels by name, any other value with one decimal place. */
  function ValueText(v: int): string {
    if v == INF then "Infinity"
    else if v == -INF then "-Infinity"
    else IntToString(v) + ".0"
  }

  lemma NumberTextLast(v: int)
    ensures |IntToString(v) + ".0"| >= 2 && (IntToString(v) + ".0")[|IntToString(v) + ".0"| - 1] == '0'
  {
  }

  /** The log writes "Infinity" and "-Infinity" exactly for the two sentinels. */
  lemma ValueTextSentinels(v: int)
    ensures ValueText(v) == "Infinity" <==> v == INF
    ensures ValueText(v) == "-Infinity" <==> v == -INF
  {
    if v != INF && v != -INF {
      NumberTextLast(v);
      assert ValueText(v)[|ValueText(v)| - 1] == '0';
    }
  }

  /** The result of reading a logged value back. */
  datatype Reading = ReadAs(value: int) | Unreadable

  /** Reads a logged value: a sentinel by name, otherwise an optional '-', digits and ".0". */
  function ReadValue(t: string): Reading {
    if t == "Infinity" then ReadAs(INF)
    else if t == "-Infinity" then ReadAs(-INF)
    else if |t| < 3 || t[|t| - 2..] != ".0" then Unreadable
    else
      var number := t[..|t| - 2];
      if number[0] == '-' then
        if |number| >= 2 && IsDigits(number[1..]) then ReadAs(-(ParseDigits(number[1..]) as int)) else Unreadable
      else if IsDigits(number) then ReadAs(ParseDigits(number))
      else Unreadable
  }

  /** Every value the log writes reads back as itself. */
  lemma ValueTextRoundTrip(v: int)
    ensures ReadValue(ValueText(v)) == ReadAs(v)
  {
    if v != INF && v != -INF {
      var t := ValueText(v);
      NumberTextLast(v);
      assert t != "Infinity" && t != "-Infinity" by {
        assert t[|t| - 1] == '0';
      }
      assert t[..|t| - 2] == IntToString(v);
      if v < 0 {
        NatToStringRoundTrip(-v);
        assert IntToString(v)[1..] == NatToString(-v);
      } else {
        NatToStringRoundTrip(v);
      }
    }
  }

  // ----- Node labels -----

  /** Column letter of the move: 'a' for column 0 up to 'h' for column 7. */
  function ColumnLetter(y: int): (c: char)
    requires 0 <= y < BOARD_SIZE
    ensures 'a' <= c <= 'h'
  {
    ('a' as int + y) as char
  }

  /** The node field: "root" at depth 1, otherwise column letter then 1-based row. */
  function NodeLabel(depth: int, x: int, y: int): string
    requires depth == 1 || InBounds(x, y)
  {
    if depth == 1 then "root" else [ColumnLetter(y)] + NatToString(x + 1)
  }

  /** The cell a non-root label names. */
  function LabelCell(s: string): (int, int)
    requires |s| >= 2 && 'a' <= s[0] <= 'h' && IsDigits(s[1..])
  {
    (ParseDigits(s[1..]) - 1, s[0] as int - 'a' as int)
  }

  /** The label is "root" exactly at depth 1, and a non-root label reads back as its cell. */
  lemma NodeLabelRoundTrip(depth: int, x: int, y: int)
    requires depth == 1 || InBounds(x, y)
    ensures NodeLabel(depth, x, y) == "root" <==> depth == 1
    ensures depth != 1 ==> var s := NodeLabel(depth, x, y);
      |s| >= 2 && 'a' <= s[0] <= 'h' && IsDigits(s[1..]) && LabelCell(s) == (x, y)
  {
    if depth != 1 {
      NatToStringRoundTrip(x + 1);
      var s := NodeLabel(depth, x, y);
      assert s[1..] == NatToString(x + 1);
      assert s[0] != 'r';
    }
  }

  // ----- Lines -----

  /** The text line of one record. */
  function Line(r: Record): string
    requires r.depth == 1 || InBounds(r.x, r.y)
  {
    match r
    case MinimaxLine(depth, value, x, y) =>
      NodeLabel(depth, x, y) + " " + IntToString(depth) + " " + ValueText(value)
    case AlphaBetaLine(depth, value, alpha, beta, x, y, cut) =>
      NodeLabel(depth, x, y) + " " + IntToString(depth) + " " + ValueText(value) + " " +
      ValueText(alpha) + " " + ValueText(beta) + (if cut then " CUT-OFF" else "")
  }

  lemma ValueTextLast(v: int)
    ensures |ValueText(v)| >= 1
    ensures ValueText(v)[|ValueText(v)| - 1] in {'0', 'y'}
  {
    if v != INF && v != -INF {
      NumberTextLast(v);
    }
  }

  /** An alpha-beta line ends with " CUT-OFF" exactly when the record marks a cutoff. */
  lemma CutOffMarker(r: Record)
    requires r.AlphaBetaLine? && (r.depth == 1 || InBounds(r.x, r.y))
    ensures var l := Line(r);
      (|l| >= 8 && l[|l| - 8..] == " CUT-OFF") <==> r.cut
  {
    var l := Line(r);
    if !r.cut {
      ValueTextLast(r.beta);
      assert l[|l| - 1] == ValueText(r.beta)[|ValueText(r.beta)| - 1];
    }
  }
}
