/** A wall as a value: an anchor (row, col) and an orientation, compared
    field by field, hashed through the tuple of its fields and printed as
    "row col orientation". */
module Walls {
  import opened Options

  datatype Orientation = Horizontal | Vertical

  datatype Wall = Wall(row: int, col: int, orientation: Orientation)

  /** A right-hand operand of `==` in the program: a Wall, or the plain
      (row, col, orientation) tuple that some callers build instead. */
  datatype Operand = WallOperand(wall: Wall) | TupleOperand(row: int, col: int, orientation: Orientation)

  /** Wall equality: true only against another Wall with the same row,
      column and orientation, and false against anything else. */
  predicate Equals(w: Wall, other: Operand) {
    match other
    case WallOperand(u) => w.row == u.row && w.col == u.col && w.orientation == u.orientation
    case TupleOperand(_, _, _) => false
  }

  /** The value whose hash is the wall's hash: the tuple of its fields. */
  function HashKey(w: Wall): (int, int, Orientation) {
    (w.row, w.col, w.orientation)
  }

  /** Python's `x in s` for a set of walls: some member compares equal to x. */
  predicate InWallSet(s: set<Wall>, x: Operand) {
    exists w :: w in s && Equals(w, x)
  }

  lemma EqualsIsStructural(w: Wall, u: Wall)
    ensures Equals(w, WallOperand(u)) <==> w == u
  {}

  lemma EqualWallsHashEqually(w: Wall, u: Wall)
    requires Equals(w, WallOperand(u))
    ensures HashKey(w) == HashKey(u)
  {}

  /** A tuple is never found in a set of walls, whatever the set holds. */
  lemma TupleNeverInWallSet(s: set<Wall>, row: int, col: int, o: Orientation)
    ensures !InWallSet(s, TupleOperand(row, col, o))
  {}

  // ---------------------------------------------------------------------
  // Decimal text, as Python's str() writes an int.

  function DigitChar(d: int): char
    requires 0 <= d < 10
  {
    "0123456789"[d]
  }

  function DigitValue(c: char): int {
    if '0' <= c <= '9' then c as int - '0' as int else -1
  }

  predicate IsDigit(c: char) {
    '0' <= c <= '9'
  }

  function NatToString(n: nat): (s: string)
    ensures |s| > 0
    ensures forall i :: 0 <= i < |s| ==> IsDigit(s[i])
    decreases n
  {
    if n < 10 then [DigitChar(n)] else NatToString(n / 10) + [DigitChar(n % 10)]
  }

  function IntToString(n: int): (s: string)
    ensures |s| > 0 && ' ' !in s
  {
    var t := if n < 0 then "-" + NatToString(-n) else NatToString(n);
    assert forall i :: 0 <= i < |t| ==> t[i] != ' ';
    t
  }

  /** The value of a non-empty string of digits. */
  function DigitsValue(s: string): int
    requires |s| > 0
  {
    if |s| == 1 then DigitValue(s[0])
    else DigitsValue(s[..|s| - 1]) * 10 + DigitValue(s[|s| - 1])
  }

  function ParseInt(s: string): Option<int> {
    if |s| > 1 && s[0] == '-' && forall i :: 1 <= i < |s| ==> IsDigit(s[i]) then Some(-DigitsValue(s[1..]))
    else if |s| > 0 && forall i :: 0 <= i < |s| ==> IsDigit(s[i]) then Some(DigitsValue(s))
    else None
  }

  lemma {:induction false} NatToStringRoundTrip(n: nat)
    ensures DigitsValue(NatToString(n)) == n
    decreases n
  {
    if n >= 10 {
      var s := NatToString(n);
      assert s[..|s| - 1] == NatToString(n / 10);
      NatToStringRoundTrip(n / 10);
    }
  }

  lemma IntToStringRoundTrip(n: int)
    ensures ParseInt(IntToString(n)) == Some(n)
  {
    var s := IntToString(n);
    if n < 0 {
      var t := NatToString(-n);
      assert s == "-" + t && s[1..] == t;
      assert forall i :: 1 <= i < |s| ==> IsDigit(s[i]) by {
        forall i | 1 <= i < |s| ensures IsDigit(s[i]) { assert s[i] == t[i - 1]; }
      }
      NatToStringRoundTrip(-n);
    } else {
      assert s == NatToString(n) && IsDigit(s[0]);
      NatToStringRoundTrip(n);
    }
  }

  // ---------------------------------------------------------------------
  // The printed form.

  function OrientationName(o: Orientation): string {
    match o
    case Horizontal => "horizontal"
    case Vertical => "vertical"
  }

  /** str(wall): row, column and orientation separated by single spaces. */
  function Repr(w: Wall): string {
    IntToString(w.row) + " " + IntToString(w.col) + " " + OrientationName(w.orientation)
  }

  function IndexOf(s: string, c: char): Option<nat> {
    if |s| == 0 then None
    else if s[0] == c then Some(0)
    else match IndexOf(s[1..], c)
         case None => None
         case Some(i) => Some(i + 1)
  }

  function ParseOrientation(s: string): Option<Orientation> {
    if s == "horizontal" then Some(Horizontal)
    else if s == "vertical" then Some(Vertical)
    else None
  }

  /** Reads back the printed form of a wall. */
  function ParseRepr(s: string): Option<Wall> {
    match IndexOf(s, ' ')
    case None => None
    case Some(i) =>
      if i >= |s| then None
      else
        var rest := s[i + 1..];
        match IndexOf(rest, ' ')
        case None => None
        case Some(j) =>
          if j >= |rest| then None
          else
            match (ParseInt(s[..i]), ParseInt(rest[..j]), ParseOrientation(rest[j + 1..]))
            case (Some(r), Some(c), Some(o)) => Some(Wall(r, c, o))
            case _ => None
  }

  lemma {:induction false} IndexOfAfterPrefix(a: string, c: char, b: string)
    requires c !in a
    ensures IndexOf(a + [c] + b, c) == Some(|a|)
  {
    if |a| > 0 {
      assert (a + [c] + b)[1..] == a[1..] + [c] + b;
      IndexOfAfterPrefix(a[1..], c, b);
    }
  }

  /** The printed form determines the wall: parsing it gives the wall back. */
  lemma ReprRoundTrip(w: Wall)
    ensures ParseRepr(Repr(w)) == Some(w)
  {
    var a, b, o := IntToString(w.row), IntToString(w.col), OrientationName(w.orientation);
    var s := Repr(w);
    assert s == a + [' '] + (b + " " + o);
    IndexOfAfterPrefix(a, ' ', b + " " + o);
    var rest := s[|a| + 1..];
    assert rest == b + [' '] + o;
    IndexOfAfterPrefix(b, ' ', o);
    assert s[..|a|] == a;
    assert rest[..|b|] == b && rest[|b| + 1..] == o;
    IntToStringRoundTrip(w.row);
    IntToStringRoundTrip(w.col);
  }

  lemma ReprInjective(w: Wall, u: Wall)
    requires Repr(w) == Repr(u)
    ensures w == u
  {
    ReprRoundTrip(w);
    ReprRoundTrip(u);
  }
}
