/**
 * The label of each button in the move list (my-app/src/index.js:83):
 * "Go to game start" for entry 0, "Go to move (x, y) #move" for every later
 * entry, with the numbers written in decimal as a template literal writes
 * them. The labels are read back by a parser, which shows that a label
 * determines the entry it names.
 */
module MoveList {
  import opened Options
  import opened History

  predicate IsDigit(c: char) {
    '0' <= c <= '9'
  }

  predicate AllDigits(s: string) {
    forall i :: 0 <= i < |s| ==> IsDigit(s[i])
  }

  /** The decimal digit for d. */
  function Digit(d: nat): (c: char)
    requires d < 10
    ensures IsDigit(c) && c as int - '0' as int == d
  {
    ('0' as int + d) as char
  }

  /** n in decimal, with no leading zero: `${n}` for a non-negative integer. */
  function NatToString(n: nat): (s: string)
    ensures 1 <= |s| && AllDigits(s)
    ensures s[0] == '0' ==> n == 0
    decreases n
  {
    if n < 10 then [Digit(n)] else NatToString(n / 10) + [Digit(n % 10)]
  }

  /** The number a string of decimal digits denotes. */
  function DigitsValue(s: string): nat
    requires AllDigits(s)
  {
    if |s| == 0 then 0
    else DigitsValue(s[..|s| - 1]) * 10 + (s[|s| - 1] as int - '0' as int)
  }

  /** Reading the decimal text of n gives n back. */
  lemma {:induction false} NatToStringRoundTrip(n: nat)
    ensures DigitsValue(NatToString(n)) == n
    decreases n
  {
    if n >= 10 {
      NatToStringRoundTrip(n / 10);
      var s := NatToString(n);
      assert s[..|s| - 1] == NatToString(n / 10);
    }
  }

  /** The length of the leading run of digits of s. */
  function DigitRun(s: string): (k: nat)
    ensures k <= |s| && AllDigits(s[..k])
    ensures k < |s| ==> !IsDigit(s[k])
  {
    if |s| == 0 || !IsDigit(s[0]) then 0
    else
      var k := DigitRun(s[1..]);
      assert s[..k + 1] == [s[0]] + s[1..][..k];
      k + 1
  }

  /** A run of digits followed by a non-digit is the leading run. */
  lemma {:induction false} DigitRunOf(ds: string, rest: string)
    requires AllDigits(ds) && (rest == [] || !IsDigit(rest[0]))
    ensures DigitRun(ds + rest) == |ds|
  {
    if |ds| > 0 {
      assert (ds + rest)[0] == ds[0];
      assert (ds + rest)[1..] == ds[1..] + rest;
      DigitRunOf(ds[1..], rest);
    } else {
      assert ds + rest == rest;
    }
  }

  const StartLabel := "Go to game start"
  const MovePrefix := "Go to move ("

  /** `${v}` of a stored coordinate: its digits, or "null" for the start entry's point. */
  function CoordText(p: Point, first: bool): string {
    match p
    case Start => "null"
    case At(x, y) => NatToString(if first then x else y)
  }

  /** The label of the move-list entry for `move`, whose stored point is p. */
  function Description(move: nat, p: Point): string {
    if move == 0 then StartLabel
    else MovePrefix + (CoordText(p, true) + (", " + (CoordText(p, false) + (") #" + NatToString(move)))))
  }

  /** What a label names: the start, or the move to (x, y) at step `move`. */
  datatype Label = GameStart | Move(x: nat, y: nat, move: nat)

  /** Reads a label back; None for text that is not a label. */
  function ParseLabel(d: string): Option<Label> {
    if d == StartLabel then Some(GameStart)
    else if |d| < |MovePrefix| || d[..|MovePrefix|] != MovePrefix then None
    else ParseX(d[|MovePrefix|..])
  }

  /** Reads "x, y) #move" after the prefix. */
  function ParseX(t: string): Option<Label> {
    var k := DigitRun(t);
    var rest := t[k..];
    if k == 0 || |rest| < 2 || rest[..2] != ", " then None
    else ParseY(DigitsValue(t[..k]), rest[2..])
  }

  /** Reads "y) #move" after x. */
  function ParseY(x: nat, t: string): Option<Label> {
    var k := DigitRun(t);
    var rest := t[k..];
    if k == 0 || |rest| < 3 || rest[..3] != ") #" then None
    else ParseMove(x, DigitsValue(t[..k]), rest[3..])
  }

  /** Reads the step number, which must end the text. */
  function ParseMove(x: nat, y: nat, t: string): Option<Label> {
    var k := DigitRun(t);
    if k == 0 || k != |t| then None
    else Some(Move(x, y, DigitsValue(t[..k])))
  }

  /** A non-empty digit run that ends the text reads back as its value. */
  lemma ParseMoveOf(x: nat, y: nat, ms: string)
    requires AllDigits(ms) && |ms| > 0
    ensures ParseMove(x, y, ms) == Some(Move(x, y, DigitsValue(ms)))
  {
    assert ms + [] == ms;
    DigitRunOf(ms, []);
    assert ms[..|ms|] == ms;
  }

  /** The y step reads its digits up to ") #" and hands the rest on. */
  lemma ParseYOf(x: nat, ys: string, t: string)
    requires AllDigits(ys) && |ys| > 0
    ensures ParseY(x, ys + (") #" + t)) == ParseMove(x, DigitsValue(ys), t)
  {
    var r := ") #" + t;
    DigitRunOf(ys, r);
    assert (ys + r)[..|ys|] == ys && (ys + r)[|ys|..] == r;
    assert r[..3] == ") #" && r[3..] == t;
  }

  /** The x step reads its digits up to ", " and hands the rest on. */
  lemma ParseXOf(xs: string, t: string)
    requires AllDigits(xs) && |xs| > 0
    ensures ParseX(xs + (", " + t)) == ParseY(DigitsValue(xs), t)
  {
    var r := ", " + t;
    DigitRunOf(xs, r);
    assert (xs + r)[..|xs|] == xs && (xs + r)[|xs|..] == r;
    assert r[..2] == ", " && r[2..] == t;
  }

  /** A move label built from three runs of digits reads back as their values. */
  lemma ParseMoveLabel(xs: string, ys: string, ms: string)
    requires AllDigits(xs) && AllDigits(ys) && AllDigits(ms)
    requires |xs| > 0 && |ys| > 0 && |ms| > 0
    ensures ParseLabel(MovePrefix + (xs + (", " + (ys + (") #" + ms))))) ==
      Some(Move(DigitsValue(xs), DigitsValue(ys), DigitsValue(ms)))
  {
    var t := xs + (", " + (ys + (") #" + ms)));
    var d := MovePrefix + t;
    assert d != StartLabel by {
      assert d[6] == 'm' != StartLabel[6];
    }
    assert d[..|MovePrefix|] == MovePrefix && d[|MovePrefix|..] == t;
    ParseXOf(xs, ys + (") #" + ms));
    ParseYOf(DigitsValue(xs), ys, ms);
    ParseMoveOf(DigitsValue(xs), DigitsValue(ys), ms);
  }

  /**
   * The label of entry 0 reads back as the start; the label of a later entry
   * with point (x, y) reads back as that point and that step number.
   */
  lemma DescriptionRoundTrip(move: nat, p: Point)
    requires move > 0 ==> p.At?
    ensures ParseLabel(Description(move, p)) ==
      if move == 0 then Some(GameStart) else Some(Move(p.x, p.y, move))
  {
    if move > 0 {
      ParseMoveLabel(NatToString(p.x), NatToString(p.y), NatToString(move));
      NatToStringRoundTrip(p.x);
      NatToStringRoundTrip(p.y);
      NatToStringRoundTrip(move);
    }
  }

  /** Different entries of a move list get different labels. */
  lemma DescriptionInjective(m1: nat, p1: Point, m2: nat, p2: Point)
    requires m1 > 0 ==> p1.At?
    requires m2 > 0 ==> p2.At?
    requires Description(m1, p1) == Description(m2, p2)
    ensures m1 == m2 && (m1 > 0 ==> p1 == p2)
  {
    DescriptionRoundTrip(m1, p1);
    DescriptionRoundTrip(m2, p2);
  }

  /**
   * In a consistent history each entry's label names that entry: entry 0
   * reads back as the start, entry m > 0 as its own point and m, and so no
   * two entries share a label.
   */
  lemma HistoryLabels(h: seq<Snap>, n: nat, m1: nat, m2: nat)
    requires Consistent(h, n) && m1 < |h| && m2 < |h|
    ensures m1 > 0 <==> h[m1].point.At?
    ensures ParseLabel(Description(m1, h[m1].point)) ==
      if m1 == 0 then Some(GameStart) else Some(Move(h[m1].point.x, h[m1].point.y, m1))
    ensures m1 != m2 ==> Description(m1, h[m1].point) != Description(m2, h[m2].point)
  {
    if m1 > 0 {
      assert StepOk(h, m1 - 1, n);
    }
    if m2 > 0 {
      assert StepOk(h, m2 - 1, n);
    }
    DescriptionRoundTrip(m1, h[m1].point);
    DescriptionRoundTrip(m2, h[m2].point);
  }
}
