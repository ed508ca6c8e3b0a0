/**
 * The storage-key codec of a row: `%06d` zero padding, the
 * `sheet:%06d:%06d` cell key and the `sheet:%06d` row prefix, together with
 * `strings.Split` on ':' and the decimal reading that invert them.
 */
module Keys {
  import opened Wrappers
  import Lex

  predicate IsDigit(c: char) {
    '0' <= c <= '9'
  }

  predicate AllDigits(s: string) {
    forall i | 0 <= i < |s| :: IsDigit(s[i])
  }

  function DigitValue(c: char): nat
    requires IsDigit(c)
  {
    c as int - '0' as int
  }

  function DigitChar(d: nat): (c: char)
    requires d < 10
    ensures IsDigit(c) && DigitValue(c) == d
  {
    ('0' as int + d) as char
  }

  function Pow10(k: nat): (p: nat)
    ensures p >= 1
  {
    if k == 0 then 1 else 10 * Pow10(k - 1)
  }

  /** The number a digit string denotes; leading zeros contribute nothing. */
  ghost function Value(s: string): nat
    requires AllDigits(s)
  {
    if |s| == 0 then 0 else DigitValue(s[0]) * Pow10(|s| - 1) + Value(s[1..])
  }

  lemma MulMono(a: nat, b: nat, p: nat)
    requires a <= b
    ensures a * p <= b * p
  {
    assert b * p == a * p + (b - a) * p;
  }

  /** Leading digit decides: d1 < d2 puts the whole block of d1 below that of d2. */
  lemma DigitBlock(d1: nat, d2: nat, p: nat, r1: nat, r2: nat)
    requires d1 < d2 && r1 < p
    ensures d1 * p + r1 < d2 * p + r2
  {
    MulMono(d1 + 1, d2, p);
    assert (d1 + 1) * p == d1 * p + p;
  }

  /** A string of k digits denotes a number below 10^k. */
  lemma {:induction false} ValueBound(s: string)
    requires AllDigits(s)
    ensures Value(s) < Pow10(|s|)
  {
    if |s| > 0 {
      ValueBound(s[1..]);
      DigitBlock(DigitValue(s[0]), 10, Pow10(|s| - 1), Value(s[1..]), 0);
    }
  }

  /** Appending a digit multiplies by ten and adds it. */
  lemma {:induction false} ValueSnoc(s: string, c: char)
    requires AllDigits(s) && IsDigit(c)
    ensures AllDigits(s + [c]) && Value(s + [c]) == 10 * Value(s) + DigitValue(c)
  {
    var t := s + [c];
    if |s| > 0 {
      assert t[0] == s[0] && t[1..] == s[1..] + [c];
      ValueSnoc(s[1..], c);
      var d, p := DigitValue(s[0]), Pow10(|s| - 1);
      assert Value(t) == d * Pow10(|s|) + Value(s[1..] + [c]);
      assert Pow10(|s|) == 10 * p;
      Times10(d, p);
    } else {
      assert t == [c];
    }
  }

  lemma Times10(d: nat, p: nat)
    ensures d * (10 * p) == 10 * (d * p)
  {
  }

  /** Decimal digits of `n` without leading zeros, as `fmt` writes them. */
  function Decimal(n: nat): (s: string)
    ensures 1 <= |s| && AllDigits(s)
    ensures Value(s) == n
    decreases n
  {
    if n < 10 then
      assert Value([DigitChar(n)]) == DigitValue(DigitChar(n));
      [DigitChar(n)]
    else
      ValueSnoc(Decimal(n / 10), DigitChar(n % 10));
      Decimal(n / 10) + [DigitChar(n % 10)]
  }

  lemma {:induction false} DecimalWidth(n: nat, k: nat)
    requires 1 <= k && n < Pow10(k)
    ensures |Decimal(n)| <= k
    decreases n
  {
    if n >= 10 {
      assert Pow10(1) == 10;
      assert k != 1;
      assert n / 10 < Pow10(k - 1);
      DecimalWidth(n / 10, k - 1);
    }
  }

  function Zeros(k: nat): (s: string)
    ensures |s| == k && forall i | 0 <= i < k :: s[i] == '0'
  {
    seq(k, _ => '0')
  }

  lemma {:induction false} ValueZeros(k: nat, s: string)
    requires AllDigits(s)
    ensures AllDigits(Zeros(k) + s) && Value(Zeros(k) + s) == Value(s)
  {
    if k > 0 {
      assert (Zeros(k) + s)[1..] == Zeros(k - 1) + s;
      ValueZeros(k - 1, s);
    } else {
      assert Zeros(k) + s == s;
    }
  }

  lemma ValueZeroPad(s: string, width: nat)
    requires AllDigits(s)
    ensures AllDigits(ZeroPad(s, width)) && Value(ZeroPad(s, width)) == Value(s)
  {
    if |s| < width {
      ValueZeros(width - |s|, s);
    }
  }

  /** Left-pads with '0' up to `width`; a longer string is left as it is. */
  function ZeroPad(s: string, width: nat): (r: string)
    ensures |r| == if |s| >= width then |s| else width
  {
    if |s| >= width then s else Zeros(width - |s|) + s
  }

  /** Reads back an optionally negative decimal numeral; the inverse of `Pad6`. */
  ghost function ParseInt(s: string): Option<int> {
    if |s| >= 2 && s[0] == '-' && AllDigits(s[1..]) then Some(-(Value(s[1..]) as int))
    else if |s| >= 1 && AllDigits(s) then Some(Value(s))
    else None
  }

  /**
   * `fmt.Sprintf("%06d", n)`: at least six characters, zero-padded; for a
   * negative number the sign counts towards the width ("-00042").
   */
  function Pad6(n: int): (s: string)
    ensures ':' !in s
    ensures n < 0 ==> |s| >= 2 && s[0] == '-' && AllDigits(s[1..]) && Value(s[1..]) == -n
    ensures n >= 0 ==> |s| >= 6 && AllDigits(s) && Value(s) == n
    ensures 0 <= n < 1000000 ==> |s| == 6
  {
    if n < 0 then
      var digits := Decimal(-n);
      var padded := ZeroPad(digits, 5);
      ValueZeroPad(digits, 5);
      assert ("-" + padded)[1..] == padded;
      "-" + padded
    else
      var digits := Decimal(n);
      ValueZeroPad(digits, 6);
      if n < 1000000 then
        DecimalWidth(n, 6);
        ZeroPad(digits, 6)
      else
        ZeroPad(digits, 6)
  }

  /** `Pad6` and `ParseInt` round-trip every integer. */
  lemma Pad6Parses(n: int)
    ensures ParseInt(Pad6(n)) == Some(n)
  {
    var s := Pad6(n);
    if n < 0 {
      assert |s| >= 2 && s[0] == '-';
    }
  }

  /** Zero-padded fields below 10^6 sort as their numbers do. */
  lemma {:induction false} DigitsOrder(s: string, t: string)
    requires AllDigits(s) && AllDigits(t) && |s| == |t|
    ensures Lex.Less(s, t) <==> Value(s) < Value(t)
  {
    if |s| > 0 {
      var p := Pow10(|s| - 1);
      var ds, dt := DigitValue(s[0]), DigitValue(t[0]);
      var vs, vt := Value(s[1..]), Value(t[1..]);
      assert Value(s) == ds * p + vs;
      assert Value(t) == dt * p + vt;
      ValueBound(s[1..]);
      ValueBound(t[1..]);
      if s[0] == t[0] {
        DigitsOrder(s[1..], t[1..]);
      } else if s[0] < t[0] {
        DigitBlock(ds, dt, p, vs, vt);
      } else {
        DigitBlock(dt, ds, p, vt, vs);
      }
    }
  }

  lemma PadOrder(a: int, b: int)
    requires 0 <= a < 1000000 && 0 <= b < 1000000
    ensures Lex.Less(Pad6(a), Pad6(b)) <==> a < b
  {
    DigitsOrder(Pad6(a), Pad6(b));
  }

  /** Row prefix `sheet:%06d`: the key fragment shared by every cell of one row. */
  function RowPrefix(sheet: string, row: int): string {
    sheet + ":" + Pad6(row)
  }

  datatype Coords = Coords(sheet: string, row: int, col: int)

  /**
   * Cell key `sheet:%06d:%06d`. It extends the row prefix and reads back to
   * exactly the coordinates it was built from.
   */
  function CellKey(sheet: string, row: int, col: int): string {
    RowPrefix(sheet, row) + ":" + Pad6(col)
  }

  /** A cell key reads back to exactly the coordinates it was built from. */
  lemma CellKeyParses(sheet: string, row: int, col: int)
    ensures ParseCellKey(CellKey(sheet, row, col)) == Some(Coords(sheet, row, col))
  {
    var parts := Split(CellKey(sheet, row, col));
    SplitCellKey(sheet, row, col);
    assert parts[|parts| - 2] == Pad6(row) && parts[|parts| - 1] == Pad6(col);
    assert parts[..|parts| - 2] == Split(sheet);
    JoinSplit(sheet);
    Pad6Parses(row);
    Pad6Parses(col);
  }

  /** The fields of a cell key: those of the sheet name, then the two padded numbers. */
  lemma SplitCellKey(sheet: string, row: int, col: int)
    ensures Split(CellKey(sheet, row, col)) == Split(sheet) + [Pad6(row), Pad6(col)]
  {
    var r, c := Pad6(row), Pad6(col);
    var prefix := sheet + ":" + r;
    assert CellKey(sheet, row, col) == prefix + ":" + c;
    SplitField(sheet, r);
    SplitField(prefix, c);
    SnocSnoc(Split(sheet), r, c);
  }

  lemma ConsSnoc<T>(x: T, s: seq<T>, y: T)
    ensures [x] + (s + [y]) == ([x] + s) + [y]
  {
  }

  lemma SnocSnoc<T>(s: seq<T>, x: T, y: T)
    ensures (s + [x]) + [y] == s + [x, y]
  {
  }

  /** Distinct coordinates never share a key, even when the sheet name contains ':'. */
  lemma CellKeyInjective(a: Coords, b: Coords)
    ensures CellKey(a.sheet, a.row, a.col) == CellKey(b.sheet, b.row, b.col) <==> a == b
  {
    CellKeyParses(a.sheet, a.row, a.col);
    CellKeyParses(b.sheet, b.row, b.col);
  }

  /** Within one row, key order is column order for columns below 10^6. */
  lemma CellKeyOrder(sheet: string, row: int, a: int, b: int)
    requires 0 <= a < 1000000 && 0 <= b < 1000000
    ensures Lex.Less(CellKey(sheet, row, a), CellKey(sheet, row, b)) <==> a < b
  {
    Lex.CommonPrefix(RowPrefix(sheet, row) + ":", Pad6(a), Pad6(b));
    PadOrder(a, b);
  }

  /** Position of the first `c` in `s`. */
  function IndexOf(s: string, c: char): (i: nat)
    requires c in s
    ensures i < |s| && s[i] == c
    ensures forall k | 0 <= k < i :: s[k] != c
  {
    if s[0] == c then 0
    else
      1 + IndexOf(s[1..], c)
  }

  /** `strings.Split(s, ":")`: the ':'-free fields of `s`, in order; at least one. */
  function Split(s: string): (parts: seq<string>)
    ensures |parts| >= 1
    ensures forall i | 0 <= i < |parts| :: ':' !in parts[i]
    ensures |parts| == 1 <==> ':' !in s
    decreases |s|
  {
    if ':' in s then
      var i := IndexOf(s, ':');
      [s[..i]] + Split(s[i + 1..])
    else
      [s]
  }

  /** `strings.Join(parts, ":")`. */
  function Join(parts: seq<string>): string
    requires |parts| >= 1
  {
    if |parts| == 1 then parts[0] else parts[0] + ":" + Join(parts[1..])
  }

  /** Joining the fields of a split gives back the string: no character is lost. */
  lemma {:induction false} JoinSplit(s: string)
    ensures Join(Split(s)) == s
    decreases |s|
  {
    if ':' in s {
      var i := IndexOf(s, ':');
      var head, rest := s[..i], s[i + 1..];
      assert s == head + ":" + rest;
      SplitCons(head, rest);
      JoinSplit(rest);
      var parts := Split(s);
      assert parts[0] == head && parts[1..] == Split(rest);
      assert Join(parts) == head + ":" + Join(Split(rest));
    }
  }

  /** The first field of a split is a prefix of the string. */
  lemma SplitHeadPrefix(s: string)
    ensures Split(s)[0] <= s
  {
  }

  /** The first two fields of a string with a ':': the text before its first ':' and the first field after it. */
  lemma FirstFields(s: string)
    requires ':' in s
    ensures |Split(s)| >= 2
    ensures s == Split(s)[0] + ":" + s[IndexOf(s, ':') + 1..]
    ensures Split(s)[1] == Split(s[IndexOf(s, ':') + 1..])[0]
  {
    Around(s, IndexOf(s, ':'));
  }

  lemma Around<T>(s: seq<T>, i: nat)
    requires i < |s|
    ensures s == s[..i] + [s[i]] + s[i + 1..]
  {
  }

  /** The first two fields of a string with a ':', joined again, are a prefix of it. */
  lemma FirstTwoFieldsPrefix(s: string)
    requires ':' in s
    ensures |Split(s)| >= 2
    ensures Split(s)[0] + ":" + Split(s)[1] <= s
  {
    FirstFields(s);
    var rest := s[IndexOf(s, ':') + 1..];
    SplitHeadPrefix(rest);
    PrefixAppend(Split(s)[0] + ":", Split(s)[1], rest);
  }

  /** The first two fields of a string with a ':', joined again, split into exactly those two fields. */
  lemma FirstTwoFieldsSplit(s: string)
    requires ':' in s
    ensures |Split(s)| >= 2
    ensures Split(Split(s)[0] + ":" + Split(s)[1]) == Split(s)[..2]
  {
    FirstFields(s);
    var parts := Split(s);
    SplitCons(parts[0], parts[1]);
    assert Split(parts[1]) == [parts[1]];
  }

  lemma PrefixAppend<T>(a: seq<T>, b: seq<T>, c: seq<T>)
    requires b <= c
    ensures a + b <= a + c
  {
  }

  /** Appending a ':'-free field appends one part to the split. */
  lemma {:induction false} SplitField(a: string, b: string)
    requires ':' !in b
    ensures Split(a + ":" + b) == Split(a) + [b]
    decreases |a|
  {
    if ':' in a {
      var j := IndexOf(a, ':');
      var head, rest := a[..j], a[j + 1..];
      assert a == head + ":" + rest;
      assert a + ":" + b == head + ":" + (rest + ":" + b);
      SplitCons(head, rest);
      SplitCons(head, rest + ":" + b);
      SplitField(rest, b);
      ConsSnoc(head, Split(rest), b);
    } else {
      SplitCons(a, b);
      assert Split(b) == [b];
    }
  }

  /** A ':'-free field followed by ':' splits off as the first part. */
  lemma SplitCons(head: string, tail: string)
    requires ':' !in head
    ensures Split(head + ":" + tail) == [head] + Split(tail)
  {
    var s := head + ":" + tail;
    var j := |head|;
    assert s[j] == ':';
    assert forall k | 0 <= k < j :: s[k] == head[k];
    IndexOfFirst(s, ':', j);
    assert s[..j] == head;
    assert s[j + 1..] == tail;
  }

  /** The first position holding `c` is the one `IndexOf` finds. */
  lemma IndexOfFirst(s: string, c: char, j: nat)
    requires j < |s| && s[j] == c && forall k | 0 <= k < j :: s[k] != c
    ensures IndexOf(s, c) == j
  {
  }

  /** Reads a cell key back into its coordinates, splitting off the last two fields. */
  ghost function ParseCellKey(key: string): Option<Coords> {
    var parts := Split(key);
    if |parts| < 3 then None
    else
      match (ParseInt(parts[|parts| - 2]), ParseInt(parts[|parts| - 1]))
      case (Some(row), Some(col)) => Some(Coords(Join(parts[..|parts| - 2]), row, col))
      case _ => None
  }
}
