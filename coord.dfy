/** Cell coordinates as the board writes them: each cell's click handler
 *  carries the string `${y}-${x}` (row, then column), and the flip reads it
 *  back by splitting it at each dash, converting every piece with JavaScript's
 *  `Number`, and taking the first two results.
 */
module Coord {

  datatype Option<T> = None | Some(value: T)

  predicate IsDigit(ch: char) {
    '0' <= ch <= '9'
  }

  predicate AllDigits(s: string) {
    forall i :: 0 <= i < |s| ==> IsDigit(s[i])
  }

  function DigitValue(ch: char): nat
    requires IsDigit(ch)
  {
    (ch as int) - ('0' as int)
  }

  function DigitChar(d: nat): (ch: char)
    requires d < 10
    ensures IsDigit(ch) && DigitValue(ch) == d
    ensures ch == '0' <==> d == 0
  {
    (('0' as int) + d) as char
  }

  /** The decimal text a template literal gives a non-negative integer
   *  below 2^53 (the range a JavaScript number holds exactly): at least one
   *  digit, no sign and no leading zero. */
  function NatToString(n: nat): (s: string)
    ensures |s| > 0 && AllDigits(s)
    ensures s[0] == '0' <==> n == 0
    ensures s[0] == '0' ==> |s| == 1
  {
    if n < 10 then [DigitChar(n)] else NatToString(n / 10) + [DigitChar(n % 10)]
  }

  /** The value of a string of decimal digits, most significant digit first;
   *  the empty string has value 0. */
  function DigitsValue(s: string): nat
    requires AllDigits(s)
  {
    if s == [] then 0 else 10 * DigitsValue(s[..|s| - 1]) + DigitValue(s[|s| - 1])
  }

  /** JavaScript's `Number` on a piece of a coordinate. A string of decimal
   *  digits gives its value (exactly, as JavaScript does for values below
   *  2^53), and the empty string gives 0, as in JavaScript. `None` stands
   *  for NaN. */
  function Number(s: string): (r: Option<nat>)
    ensures r.Some? <==> AllDigits(s)
    ensures s == [] ==> r == Some(0)
  {
    if AllDigits(s) then Some(DigitsValue(s)) else None
  }

  /** `String.prototype.split` with a one-character separator: the pieces
   *  between the separators, in order, empty pieces included. */
  function Split(s: string, sep: char): (parts: seq<string>)
    ensures |parts| >= 1
    ensures forall i :: 0 <= i < |parts| ==> sep !in parts[i]
    ensures sep !in s ==> parts == [s]
  {
    if s == [] then [[]]
    else
      var rest := Split(s[1..], sep);
      assert sep !in s ==> sep !in s[1..] && s == [s[0]] + s[1..];
      if s[0] == sep then [[]] + rest
      else [[s[0]] + rest[0]] + rest[1..]
  }

  /** The pieces glued back together with the separator between them. */
  function Join(parts: seq<string>, sep: char): string
  {
    if |parts| == 0 then []
    else if |parts| == 1 then parts[0]
    else parts[0] + [sep] + Join(parts[1..], sep)
  }

  /** The string a cell's click handler carries: `${y}-${x}`. It splits at
   *  its one dash into exactly the row's and the column's decimal text. */
  function Encode(y: nat, x: nat): (coord: string)
    ensures Split(coord, '-') == [NatToString(y), NatToString(x)]
  {
    DigitsHaveNoDash(NatToString(y));
    DigitsHaveNoDash(NatToString(x));
    SplitPair(NatToString(y), NatToString(x), '-');
    NatToString(y) + "-" + NatToString(x)
  }

  /** The coordinate a click handler's string stands for: split at dashes,
   *  each piece converted to a number. The first two pieces are the row and
   *  the column; further pieces are ignored. A missing second
   *  piece (`undefined`) or a piece that is not a number (NaN) gives `None`. */
  function Decode(coord: string): (r: Option<(nat, nat)>)
    ensures '-' !in coord ==> r.None?
  {
    var parts := Split(coord, '-');
    if |parts| < 2 then None
    else
      match (Number(parts[0]), Number(parts[1]))
      case (Some(y), Some(x)) => Some((y, x))
      case _ => None
  }

  /** Reading back the decimal text of `n` gives `n`. */
  lemma {:induction false} NumberOfNatToString(n: nat)
    ensures Number(NatToString(n)) == Some(n)
  {
    var s := NatToString(n);
    if n >= 10 {
      var p := NatToString(n / 10);
      NumberOfNatToString(n / 10);
      assert s[..|s| - 1] == p;
      assert DigitsValue(s) == 10 * DigitsValue(p) + n % 10;
    }
  }

  /** Gluing the pieces of a split back together gives the original string. */
  lemma {:induction false} JoinSplit(s: string, sep: char)
    ensures Join(Split(s, sep), sep) == s
  {
    if s != [] {
      var rest := Split(s[1..], sep);
      JoinSplit(s[1..], sep);
      if s[0] == sep {
        assert Join([[]] + rest, sep) == [sep] + Join(rest, sep);
      } else if |rest| == 1 {
        assert Join(Split(s, sep), sep) == [s[0]] + rest[0];
      } else {
        var parts := Split(s, sep);
        assert parts[1..] == rest[1..];
        assert Join(parts, sep) == [s[0]] + (rest[0] + [sep] + Join(rest[1..], sep));
      }
    }
  }

  /** Two separator-free strings joined by one separator split into exactly those two. */
  lemma {:induction false} SplitPair(a: string, b: string, sep: char)
    requires sep !in a && sep !in b
    ensures Split(a + [sep] + b, sep) == [a, b]
  {
    var s := a + [sep] + b;
    if a == [] {
      assert s[1..] == b;
    } else {
      assert s[1..] == a[1..] + [sep] + b;
      assert sep !in a[1..] by {
        forall i | 0 <= i < |a[1..]| ensures a[1..][i] != sep {
          assert a[1..][i] == a[i + 1];
        }
      }
      SplitPair(a[1..], b, sep);
      assert [a[0]] + a[1..] == a;
    }
  }

  /** Decimal text never contains the dash that separates row and column. */
  lemma DigitsHaveNoDash(s: string)
    requires AllDigits(s)
    ensures '-' !in s
  {
  }

  /** What the reading back does with strings the board never produces: a
   *  trailing dash leaves an empty column piece, which `Number` reads as 0;
   *  pieces after the second are ignored; a string without a dash has no
   *  column and decodes to nothing. */
  lemma DecodeEdgeCases()
    ensures Decode("3-") == Some((3, 0))
    ensures Decode("1-2-3") == Some((1, 2))
    ensures Decode("5") == None
  {
  }

  /** Decoding the coordinate of cell (y, x) gives back (y, x). */
  lemma DecodeEncode(y: nat, x: nat)
    ensures Decode(Encode(y, x)) == Some((y, x))
  {
    NumberOfNatToString(y);
    NumberOfNatToString(x);
  }

  /** Distinct cells get distinct coordinate strings, so the strings serve as
   *  unique keys for the cells of a row. */
  lemma EncodeInjective(y1: nat, x1: nat, y2: nat, x2: nat)
    ensures Encode(y1, x1) == Encode(y2, x2) <==> y1 == y2 && x1 == x2
  {
    DecodeEncode(y1, x1);
    DecodeEncode(y2, x2);
  }
}
