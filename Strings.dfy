/**
 * The parts of Python's `str` and `list` that the converter relies on:
 * `strip`/`lstrip`/`rstrip` with and without a character set, `split('\n')`,
 * `'sep'.join`, `splitlines`, `list.remove`, and `str(int)` / `int(str)` for
 * decimal text.  Strings are `seq<char>`; nothing here normalises Unicode.
 */
module Strings {
  import opened Wrappers

  /** The characters for which Python's `str.isspace()` holds; `str.strip()`
      with no argument and the regular-expression class `\s` use this set. */
  const Whitespace: set<char> := {
    ' ', '\t', '\n', '\r', '\U{b}', '\U{c}', '\U{1c}', '\U{1d}', '\U{1e}', '\U{1f}',
    '\U{85}', '\U{a0}', '\U{1680}', '\U{2000}', '\U{2001}', '\U{2002}', '\U{2003}',
    '\U{2004}', '\U{2005}', '\U{2006}', '\U{2007}', '\U{2008}', '\U{2009}', '\U{200a}',
    '\U{2028}', '\U{2029}', '\U{202f}', '\U{205f}', '\U{3000}'
  }

  /** The line boundaries recognised by `str.splitlines()` ("\r\n" counts as one). */
  const LineBoundaries: set<char> := {
    '\n', '\r', '\U{b}', '\U{c}', '\U{1c}', '\U{1d}', '\U{1e}', '\U{85}', '\U{2028}', '\U{2029}'
  }

  /** `s.lstrip(cs)`: drop the leading characters that belong to `cs`. */
  function LStrip(s: string, cs: set<char>): (r: string)
    ensures |r| <= |s| && r == s[|s| - |r|..]
    ensures forall i :: 0 <= i < |s| - |r| ==> s[i] in cs
    ensures r == [] || r[0] !in cs
  {
    if |s| > 0 && s[0] in cs then LStrip(s[1..], cs) else s
  }

  /** `s.rstrip(cs)`: drop the trailing characters that belong to `cs`. */
  function RStrip(s: string, cs: set<char>): (r: string)
    ensures |r| <= |s| && r == s[..|r|]
    ensures forall i :: |r| <= i < |s| ==> s[i] in cs
    ensures r == [] || r[|r| - 1] !in cs
  {
    if |s| > 0 && s[|s| - 1] in cs then RStrip(s[..|s| - 1], cs) else s
  }

  /** `s.strip(cs)`. */
  function StripChars(s: string, cs: set<char>): string {
    RStrip(LStrip(s, cs), cs)
  }

  /** `s.strip()`. */
  function Strip(s: string): string {
    StripChars(s, Whitespace)
  }

  /** A string whose first and last characters lie outside `cs` is its own strip. */
  lemma StripCharsNoop(s: string, cs: set<char>)
    requires s == [] || (s[0] !in cs && s[|s| - 1] !in cs)
    ensures StripChars(s, cs) == s
  {
  }

  /** `s.split(c)`: the pieces between occurrences of `c`; always at least one piece. */
  function Split(s: string, c: char): (r: seq<string>)
    ensures |r| >= 1
    ensures forall i :: 0 <= i < |r| ==> c !in r[i]
  {
    if s == [] then [[]]
    else
      var rest := Split(s[1..], c);
      assert s[0] != c ==> forall i :: 1 <= i < |rest| ==> SplitStep(s[0], c, rest)[i] == rest[i];
      SplitStep(s[0], c, rest)
  }

  /** One character in front of pieces `rest`: a separator starts a new first
      piece, any other character joins the first piece. */
  function SplitStep(h: char, c: char, rest: seq<string>): seq<string>
    requires |rest| >= 1
  {
    if h == c then [[]] + rest else [[h] + rest[0]] + rest[1..]
  }

  /** `sep.join(parts)`. */
  function Join(parts: seq<string>, sep: string): string {
    if |parts| == 0 then ""
    else if |parts| == 1 then parts[0]
    else parts[0] + sep + Join(parts[1..], sep)
  }

  /** A string free of `c` is a single piece. */
  lemma {:induction false} SplitNoSeparator(a: string, c: char)
    requires c !in a
    ensures Split(a, c) == [a]
  {
    if a != [] {
      SplitNoSeparator(a[1..], c);
      assert [a[0]] + a[1..] == a;
    }
  }

  /** Splitting at a separator splits the pieces: `(a + c + b).split(c) == a.split(c) + b.split(c)`. */
  lemma {:induction false} SplitAppend(a: string, b: string, c: char)
    ensures Split(a + [c] + b, c) == Split(a, c) + Split(b, c)
    decreases |a|
  {
    if a == [] {
      assert a + [c] + b == [c] + b && ([c] + b)[1..] == b;
    } else {
      SplitAppend(a[1..], b, c);
      SplitConsAppend(a[0], a[1..], b, c);
      assert [a[0]] + a[1..] == a;
      assert [a[0]] + a[1..] + [c] + b == a + [c] + b;
    }
  }

  /** The inductive step of `SplitAppend`: one more character in front. */
  lemma SplitConsAppend(h: char, t: string, b: string, c: char)
    requires Split(t + [c] + b, c) == Split(t, c) + Split(b, c)
    ensures Split([h] + t + [c] + b, c) == Split([h] + t, c) + Split(b, c)
  {
    assert [h] + t + [c] + b == [h] + (t + [c] + b);
    SplitCons(h, t + [c] + b, c);
    SplitCons(h, t, c);
    StepAppend(h, c, Split(t, c), Split(b, c));
  }

  lemma SplitCons(h: char, t: string, c: char)
    ensures Split([h] + t, c) == SplitStep(h, c, Split(t, c))
  {
    var u := [h] + t;
    assert u[0] == h && u[1..] == t;
  }

  /** A step in front of `p + q` only touches `p`. */
  lemma StepAppend(h: char, c: char, p: seq<string>, q: seq<string>)
    requires |p| >= 1
    ensures SplitStep(h, c, p + q) == SplitStep(h, c, p) + q
  {
    if h == c {
      assert [[]] + (p + q) == ([[]] + p) + q;
    } else {
      assert (p + q)[0] == p[0] && (p + q)[1..] == p[1..] + q;
      assert [[h] + p[0]] + (p[1..] + q) == ([[h] + p[0]] + p[1..]) + q;
    }
  }

  /** A first piece free of `c`, then `c`: the piece comes off the front of the split. */
  lemma SplitFront(a: string, b: string, c: char)
    requires c !in a
    ensures Split(a + [c] + b, c) == [a] + Split(b, c)
    ensures Split(a, c) == [a]
  {
    SplitNoSeparator(a, c);
    SplitAppend(a, b, c);
  }

  /** Joining the pieces of a split with the separator gives the string back. */
  lemma {:induction false} JoinSplit(s: string, c: char)
    ensures Join(Split(s, c), [c]) == s
    decreases |s|
  {
    if s != [] {
      var rest := Split(s[1..], c);
      JoinSplit(s[1..], c);
      if s[0] == c {
        assert ([[]] + rest)[1..] == rest;
      } else {
        JoinFrontChar(s[0], rest, [c]);
      }
      assert [s[0]] + s[1..] == s;
    }
  }

  /** Putting a character in front of the first part puts it in front of the join. */
  lemma JoinFrontChar(h: char, parts: seq<string>, sep: string)
    requires |parts| >= 1
    ensures Join([[h] + parts[0]] + parts[1..], sep) == [h] + Join(parts, sep)
  {
    var t := [[h] + parts[0]] + parts[1..];
    if |parts| > 1 {
      assert t[1..] == parts[1..];
    }
  }

  /** Splitting the join of pieces free of the separator gives the pieces back. */
  lemma {:induction false} SplitJoin(parts: seq<string>, c: char)
    requires |parts| >= 1 && forall i :: 0 <= i < |parts| ==> c !in parts[i]
    ensures Split(Join(parts, [c]), c) == parts
    decreases |parts|
  {
    if |parts| == 1 {
      SplitFront(parts[0], [], c);
    } else {
      SplitJoin(parts[1..], c);
      SplitFront(parts[0], Join(parts[1..], [c]), c);
      assert parts == [parts[0]] + parts[1..];
    }
  }

  /** What `strip()` leaves: nothing, or text that begins and ends outside the whitespace. */
  lemma StripMeaning(s: string)
    ensures var r := Strip(s);
      && (r == [] || (r[0] !in Whitespace && r[|r| - 1] !in Whitespace))
      && Strip(r) == r
  {
    var l := LStrip(s, Whitespace);
    var r := RStrip(l, Whitespace);
    if r != [] {
      assert r[0] == l[0];
    }
    StripCharsNoop(r, Whitespace);
  }

  /** A stretch of `s` between two separators (or the ends) is one of its pieces. */
  lemma PieceInSplit(s: string, j: nat, piece: string, c: char)
    requires j + |piece| <= |s| && s[j..j + |piece|] == piece && c !in piece
    requires j == 0 || s[j - 1] == c
    requires j + |piece| == |s| || s[j + |piece|] == c
    ensures piece in Split(s, c)
  {
    var tail := s[j..];
    assert piece <= tail by {
      assert forall x :: 0 <= x < |piece| ==> tail[x] == s[j..j + |piece|][x];
    }
    assert |piece| == |tail| || tail[|piece|] == c;
    FirstPiece(tail, piece, c);
    if j > 0 {
      SplitAt(s, j - 1, c);
      assert Split(s, c)[|Split(s[..j - 1], c)|] == piece;
    } else {
      assert s == tail;
    }
  }

  /** A prefix free of `c` that ends at `c` or at the end is the first piece. */
  lemma {:induction false} FirstPiece(s: string, piece: string, c: char)
    requires piece <= s && c !in piece
    requires |piece| == |s| || s[|piece|] == c
    ensures Split(s, c)[0] == piece
  {
    if piece != [] {
      FirstPiece(s[1..], piece[1..], c);
      assert [piece[0]] + piece[1..] == piece;
    }
  }

  /** Splitting at the separator in position `i`. */
  lemma SplitAt(s: string, i: nat, c: char)
    requires i < |s| && s[i] == c
    ensures Split(s, c) == Split(s[..i], c) + Split(s[i + 1..], c)
  {
    assert s == s[..i] + [c] + s[i + 1..];
    SplitAppend(s[..i], s[i + 1..], c);
  }

  /** A slice of a slice is a slice of the whole. */
  lemma SliceOfSlice(s: string, a: nat, b: nat, i: nat, k: nat)
    requires a <= b <= |s| && i <= k <= b - a
    ensures s[a..b][i..k] == s[a + i..a + k]
  {
    assert forall x :: 0 <= x < k - i ==> s[a..b][i..k][x] == s[a + i + x];
  }

  /** `s.splitlines()`: the lines of `s`, without their boundaries and without
      an empty line after a final boundary. */
  function SplitLines(s: string): seq<string> {
    if s == "" then []
    else if s[0] in LineBoundaries then
      var rest := if s[0] == '\r' && |s| > 1 && s[1] == '\n' then s[2..] else s[1..];
      [""] + SplitLines(rest)
    else
      var rest := SplitLines(s[1..]);
      if rest == [] then [[s[0]]] else [[s[0]] + rest[0]] + rest[1..]
  }

  /** A non-empty prefix free of line boundaries begins the first line. */
  lemma {:induction false} SplitLinesFirst(p: string, s: string)
    requires p != [] && p <= s
    requires forall i :: 0 <= i < |p| ==> p[i] !in LineBoundaries
    ensures SplitLines(s) != [] && p <= SplitLines(s)[0]
  {
    if |p| > 1 {
      SplitLinesFirst(p[1..], s[1..]);
    }
  }

  /** Python `list.index`: the position of the first occurrence. */
  function IndexOf(xs: seq<string>, x: string): (i: nat)
    requires x in xs
    ensures i < |xs| && xs[i] == x && x !in xs[..i]
  {
    if xs[0] == x then 0 else 1 + IndexOf(xs[1..], x)
  }

  /** Python `list.remove`: drop the first occurrence of `x`, keep the order of the rest. */
  function RemoveFirst(xs: seq<string>, x: string): (r: seq<string>)
    requires x in xs
    ensures |r| == |xs| - 1
    ensures multiset(r) + multiset{x} == multiset(xs)
    ensures forall y :: y != x ==> (y in r <==> y in xs)
    ensures forall k :: 0 <= k < |xs| && xs[k] == x && x !in xs[..k] ==> r == xs[..k] + xs[k + 1..]
  {
    var i := IndexOf(xs, x);
    assert xs == xs[..i] + [x] + xs[i + 1..];
    xs[..i] + xs[i + 1..]
  }

  // ---- decimal text: Python `str(n)` and `int(s)` ----

  predicate IsDigit(c: char) {
    '0' <= c <= '9'
  }

  predicate AllDigits(s: string) {
    forall i :: 0 <= i < |s| ==> IsDigit(s[i])
  }

  function DigitChar(d: nat): (c: char)
    requires d < 10
    ensures IsDigit(c) && c as int - '0' as int == d
  {
    (d + '0' as int) as char
  }

  /** `str(n)` for a natural number. */
  function ShowNat(n: nat): (r: string)
    ensures r != [] && AllDigits(r)
  {
    if n < 10 then [DigitChar(n)] else ShowNat(n / 10) + [DigitChar(n % 10)]
  }

  /** `str(n)` for any integer. */
  function ShowInt(n: int): string {
    if n < 0 then "-" + ShowNat(-n) else ShowNat(n)
  }

  /** The value of a run of decimal digits. */
  function DigitsValue(s: string): nat
    requires AllDigits(s)
  {
    if s == "" then 0 else DigitsValue(s[..|s| - 1]) * 10 + (s[|s| - 1] as int - '0' as int)
  }

  /** Python `int(s)` on decimal text: surrounding whitespace, an optional sign,
      then one or more ASCII digits; anything else is a `ValueError` (here `None`). */
  function ParseInt(s: string): Option<int> {
    ParseSigned(Strip(s))
  }

  /** An optional sign followed by one or more ASCII digits. */
  function ParseSigned(t: string): Option<int> {
    var digits := if |t| > 0 && (t[0] == '-' || t[0] == '+') then t[1..] else t;
    if digits != "" && AllDigits(digits) then
      var v: int := DigitsValue(digits);
      Some(if t[0] == '-' then -v else v)
    else None
  }

  lemma {:induction false} ShowNatValue(n: nat)
    ensures DigitsValue(ShowNat(n)) == n
  {
    if n >= 10 {
      ShowNatValue(n / 10);
      var s := ShowNat(n / 10) + [DigitChar(n % 10)];
      assert s[..|s| - 1] == ShowNat(n / 10);
    }
  }

  /** Decimal text with at most a leading minus sign has no surrounding whitespace. */
  lemma StripSignedDigits(sign: string, d: string)
    requires sign == "" || sign == "-"
    requires d != "" && AllDigits(d)
    ensures Strip(sign + d) == sign + d
  {
    var s := sign + d;
    assert s[|s| - 1] == d[|d| - 1];
    assert s[0] == if sign == "" then d[0] else '-';
    StripCharsNoop(s, Whitespace);
  }

  /** Reading back an optional minus sign and digits. */
  lemma ParseSignedDigits(negative: bool, d: string)
    requires d != "" && AllDigits(d)
    ensures ParseSigned(if negative then "-" + d else d) == Some(if negative then -(DigitsValue(d) as int) else DigitsValue(d) as int)
  {
    if negative {
      var t := "-" + d;
      assert t[0] == '-' && t[1..] == d;
    } else {
      assert IsDigit(d[0]);
    }
  }

  /** `int(str(n)) == n`: the decimal text the writer produces reads back as the same number. */
  lemma ParseShowInt(n: int)
    ensures ParseInt(ShowInt(n)) == Some(n)
  {
    var m: nat := if n < 0 then -n else n;
    var d := ShowNat(m);
    ShowNatValue(m);
    StripSignedDigits(if n < 0 then "-" else "", d);
    ParseSignedDigits(n < 0, d);
  }
}
