/**
 * The JavaScript string and number primitives that the extension's parsing
 * code is built from: `indexOf`, `substring`, `split`, `join`, `padStart`,
 * `parseInt` and number-to-string conversion.  A JavaScript string is modelled
 * as a `string` whose characters stand for UTF-16 code units.
 */
module Js {
  import opened Wrappers

  /** A JavaScript number as it reaches the editor objects: an integer, NaN, or
      `undefined` (what destructuring yields for a missing array element). */
  datatype Num = Undefined | NaN | Int(value: int)

  /** `xs[i]` in JavaScript: `undefined` (None) outside the array. */
  function Item(xs: seq<string>, i: nat): (r: Option<string>)
    ensures r.Some? <==> i < |xs|
    ensures r.Some? ==> r.value == xs[i]
  {
    if i < |xs| then Some(xs[i]) else None
  }

  /** JavaScript truthiness of a string that may be `undefined`. */
  predicate Truthy(s: Option<string>)
  {
    s.Some? && s.value != ""
  }

  /** The text a template literal inserts for a string that may be `undefined`. */
  function ToStr(s: Option<string>): string
  {
    if s.Some? then s.value else "undefined"
  }

  // ---------------------------------------------------------------------------
  // Searching and cutting

  /** `t` occurs in `s` starting at index `k`. */
  predicate OccursAt(s: string, t: string, k: int)
  {
    0 <= k && k + |t| <= |s| && s[k..k + |t|] == t
  }

  /** `s.indexOf(t, from)` once `from` is clamped into the string: the first
      occurrence of `t` at or after `from`, or -1 when there is none. */
  function IndexOf(s: string, t: string, from: nat): (r: int)
    requires from <= |s|
    ensures r == -1 || (from <= r && OccursAt(s, t, r))
    decreases |s| - from
  {
    if |s| - from < |t| then -1
    else if s[from..from + |t|] == t then from
    else IndexOf(s, t, from + 1)
  }

  /** Clamps a position into `[0, len]`, as `indexOf` and `substring` do. */
  function Clamp(x: int, len: nat): (r: nat)
    ensures r <= len
    ensures 0 <= x <= len ==> r == x
  {
    if x < 0 then 0 else if x > len then len else x
  }

  /** `s.indexOf(t, from)` for any integer `from`. */
  function JsIndexOf(s: string, t: string, from: int): (r: int)
    ensures r == -1 || (Clamp(from, |s|) <= r && OccursAt(s, t, r))
  {
    IndexOf(s, t, Clamp(from, |s|))
  }

  /** `s.substring(a, b)`: both ends clamped, swapped when `a > b`. */
  function Substring(s: string, a: int, b: int): (r: string)
    ensures 0 <= a <= b <= |s| ==> r == s[a..b]
    ensures 0 <= b <= a <= |s| ==> r == s[b..a]
  {
    var a', b' := Clamp(a, |s|), Clamp(b, |s|);
    if a' <= b' then s[a'..b'] else s[b'..a']
  }

  lemma OccursInPrefix(s: string, u: string, t: string, k: int)
    requires k + |t| <= |s|
    ensures OccursAt(s + u, t, k) <==> OccursAt(s, t, k)
  {
    if 0 <= k {
      assert (s + u)[k..k + |t|] == s[k..k + |t|];
    }
  }

  /** `IndexOf` finds the first occurrence: there is none before its
      result, and none at all when it gives -1. */
  lemma {:induction false} IndexOfFirst(s: string, t: string, from: nat)
    requires from <= |s|
    ensures var r := IndexOf(s, t, from);
      forall k | from <= k && (r == -1 || k < r) :: !OccursAt(s, t, k)
    decreases |s| - from
  {
    if |s| - from >= |t| && s[from..from + |t|] != t {
      IndexOfFirst(s, t, from + 1);
    }
  }

  /** The first occurrence at or after `from` is the one `IndexOf` finds. */
  lemma {:induction false} IndexOfIsFirst(s: string, t: string, from: nat, k: int)
    requires from <= k && from <= |s|
    requires OccursAt(s, t, k)
    requires forall j | from <= j < k :: !OccursAt(s, t, j)
    ensures IndexOf(s, t, from) == k
    decreases k - from
  {
    if from < k {
      assert !OccursAt(s, t, from);
      IndexOfIsFirst(s, t, from + 1, k);
    }
  }

  /** `IndexOf` searched from `from` finds, shifted by `from`, what it finds in
      the suffix that starts there. */
  lemma {:induction false} IndexOfSuffix(s: string, t: string, from: nat)
    requires from <= |s|
    ensures var r := IndexOf(s[from..], t, 0);
            IndexOf(s, t, from) == if r == -1 then -1 else r + from
  {
    var r := IndexOf(s[from..], t, 0);
    IndexOfFirst(s[from..], t, 0);
    forall k | 0 <= k
      ensures OccursAt(s[from..], t, k) <==> OccursAt(s, t, k + from)
    {
      if k + |t| <= |s| - from {
        assert s[from..][k..k + |t|] == s[k + from..k + from + |t|];
      }
    }
    if r != -1 {
      forall j | from <= j < r + from ensures !OccursAt(s, t, j) {
        assert !OccursAt(s[from..], t, j - from);
      }
      IndexOfIsFirst(s, t, from, r + from);
    } else {
      forall k | from <= k ensures !OccursAt(s, t, k) {
        assert !OccursAt(s[from..], t, k - from);
      }
    }
  }

  // ---------------------------------------------------------------------------
  // split and join

  /** `s.split(sep)` for a non-empty string separator: cut at every occurrence,
      scanning left to right without overlaps.  Always at least one piece. */
  function Split(s: string, sep: string): (r: seq<string>)
    requires sep != []
    ensures |r| >= 1
    decreases |s|
  {
    var k := IndexOf(s, sep, 0);
    if k == -1 then [s] else [s[..k]] + Split(s[k + |sep|..], sep)
  }

  /** `parts.join(sep)`; the empty array joins to the empty string. */
  function Join(parts: seq<string>, sep: string): string
  {
    if parts == [] then []
    else if |parts| == 1 then parts[0]
    else parts[0] + sep + Join(parts[1..], sep)
  }

  lemma JoinCons(p: string, rest: seq<string>, sep: string)
    requires rest != []
    ensures Join([p] + rest, sep) == p + sep + Join(rest, sep)
  {
    assert ([p] + rest)[1..] == rest;
  }

  lemma {:induction false} JoinAppend(xs: seq<string>, ys: seq<string>, sep: string)
    requires xs != [] && ys != []
    ensures Join(xs + ys, sep) == Join(xs, sep) + sep + Join(ys, sep)
    decreases |xs|
  {
    if |xs| == 1 {
      JoinCons(xs[0], ys, sep);
      assert xs + ys == [xs[0]] + ys;
    } else {
      JoinAppend(xs[1..], ys, sep);
      assert xs + ys == [xs[0]] + (xs[1..] + ys);
      JoinCons(xs[0], xs[1..] + ys, sep);
      JoinCons(xs[0], xs[1..], sep);
      assert xs == [xs[0]] + xs[1..];
    }
  }

  /** A string is the text before an occurrence, the occurrence, and the
      text after it. */
  lemma CutAround(s: string, t: string, k: int)
    requires OccursAt(s, t, k)
    ensures s == s[..k] + t + s[k + |t|..]
  {
    assert s == s[..k] + s[k..k + |t|] + s[k + |t|..];
  }

  /** Splitting and joining back on the same separator gives back the string. */
  lemma {:induction false} JoinSplit(s: string, sep: string)
    requires sep != []
    ensures Join(Split(s, sep), sep) == s
    decreases |s|
  {
    var k := IndexOf(s, sep, 0);
    if k != -1 {
      var rest := s[k + |sep|..];
      assert Split(s, sep) == [s[..k]] + Split(rest, sep);
      JoinSplit(rest, sep);
      JoinCons(s[..k], Split(rest, sep), sep);
      CutAround(s, sep, k);
    }
  }

  /** The text before the first occurrence holds no occurrence. */
  lemma IndexOfBeforeFirst(s: string, t: string, k: int)
    requires t != [] && k == IndexOf(s, t, 0) && k != -1
    ensures IndexOf(s[..k], t, 0) == -1
  {
    var head := s[..k];
    IndexOfFirst(s, t, 0);
    var q := IndexOf(head, t, 0);
    if q != -1 {
      assert head + s[k..] == s;
      OccursInPrefix(head, s[k..], t, q);
      assert false;
    }
  }

  /** Every piece of a split but the last is free of the separator. */
  lemma {:induction false} SplitPiecesFree(s: string, sep: string)
    requires sep != []
    ensures forall i | 0 <= i < |Split(s, sep)| - 1 :: IndexOf(Split(s, sep)[i], sep, 0) == -1
    decreases |s|
  {
    var k := IndexOf(s, sep, 0);
    if k != -1 {
      var rest := s[k + |sep|..];
      var pieces := Split(s, sep);
      assert pieces == [s[..k]] + Split(rest, sep);
      SplitPiecesFree(rest, sep);
      IndexOfBeforeFirst(s, sep, k);
      forall i | 0 <= i < |pieces| - 1 ensures IndexOf(pieces[i], sep, 0) == -1 {
        if i > 0 {
          assert pieces[i] == Split(rest, sep)[i - 1];
        }
      }
    }
  }

  /** `p` splits off cleanly before a following separator: the first
      occurrence of `sep` in `p + sep` is the appended one.  This is stronger
      than "`p` does not contain `sep`": with `sep == "##"`, `p == "a#"` fails. */
  predicate Separable(p: string, sep: string)
  {
    IndexOf(p + sep, sep, 0) == |p|
  }

  lemma SeparableFree(p: string, sep: string)
    requires sep != [] && Separable(p, sep)
    ensures IndexOf(p, sep, 0) == -1
  {
    var q := IndexOf(p, sep, 0);
    if q != -1 {
      IndexOfFirst(p + sep, sep, 0);
      OccursInPrefix(p, sep, sep, q);
    }
  }

  /** A character that is in no piece and not in the separator is not in
      the joined string. */
  lemma {:induction false} JoinAvoids(parts: seq<string>, sep: string, c: char)
    requires forall i, j | 0 <= i < |parts| && 0 <= j < |parts[i]| :: parts[i][j] != c
    requires forall j | 0 <= j < |sep| :: sep[j] != c
    ensures forall j | 0 <= j < |Join(parts, sep)| :: Join(parts, sep)[j] != c
    decreases |parts|
  {
    if |parts| > 1 {
      JoinAvoids(parts[1..], sep, c);
      var p, rest := parts[0], Join(parts[1..], sep);
      forall j | 0 <= j < |p + sep + rest| ensures (p + sep + rest)[j] != c {
        if j < |p| {
          assert (p + sep + rest)[j] == p[j];
        } else if j < |p| + |sep| {
          assert (p + sep + rest)[j] == sep[j - |p|];
        } else {
          assert (p + sep + rest)[j] == rest[j - |p| - |sep|];
        }
      }
    }
  }

  /** With a one-character separator, a piece is separable exactly when it
      does not contain that character. */
  lemma SeparableChar(p: string, c: char)
    ensures Separable(p, [c]) <==> forall i | 0 <= i < |p| :: p[i] != c
  {
    var s := p + [c];
    IndexOfFirst(s, [c], 0);
    assert OccursAt(s, [c], |p|);
    if forall i | 0 <= i < |p| :: p[i] != c {
      forall k | 0 <= k < |p| ensures !OccursAt(s, [c], k) {
        assert s[k] == p[k];
      }
      IndexOfIsFirst(s, [c], 0, |p|);
    } else {
      var i :| 0 <= i < |p| && p[i] == c;
      assert s[i] == p[i];
      assert s[i..i + 1] == [c];
      assert OccursAt(s, [c], i);
    }
  }

  /** A separable piece followed by the separator is cut off as the first
      piece, whatever follows. */
  lemma SplitCons(p: string, rest: string, sep: string)
    requires sep != [] && Separable(p, sep)
    ensures Split(p + sep + rest, sep) == [p] + Split(rest, sep)
  {
    var j := p + sep + rest;
    assert j == (p + sep) + rest;
    IndexOfFirst(p + sep, sep, 0);
    forall i | 0 <= i <= |p| ensures OccursAt(j, sep, i) <==> OccursAt(p + sep, sep, i) {
      OccursInPrefix(p + sep, rest, sep, i);
    }
    IndexOfIsFirst(j, sep, 0, |p|);
    assert j[..|p|] == p;
    assert j[|p| + |sep|..] == rest;
  }

  /** Joining pieces and splitting again gives back the pieces when every
      piece but the last separates cleanly from a following separator and the
      last holds no separator at all (nothing follows it). */
  lemma {:induction false} SplitJoin(parts: seq<string>, sep: string)
    requires sep != [] && parts != []
    requires forall i | 0 <= i < |parts| - 1 :: Separable(parts[i], sep)
    requires IndexOf(parts[|parts| - 1], sep, 0) == -1
    ensures Split(Join(parts, sep), sep) == parts
    decreases |parts|
  {
    var p := parts[0];
    if |parts| == 1 {
      assert Join(parts, sep) == p;
      assert Split(p, sep) == [p];
    } else {
      assert Separable(p, sep);
      var tail := parts[1..];
      var rest := Join(tail, sep);
      assert Join(parts, sep) == p + sep + rest;
      SplitCons(p, rest, sep);
      forall i | 0 <= i < |tail| - 1 ensures Separable(tail[i], sep) {
        assert tail[i] == parts[i + 1];
      }
      assert tail[|tail| - 1] == parts[|parts| - 1];
      SplitJoin(tail, sep);
      assert parts == [p] + tail;
    }
  }

  /** Two pieces free of a one-character separator, joined by it, split
      back into exactly those two pieces. */
  lemma SplitPair(x: string, y: string, c: char)
    requires forall i | 0 <= i < |x| :: x[i] != c
    requires forall i | 0 <= i < |y| :: y[i] != c
    ensures Split(x + [c] + y, [c]) == [x, y]
  {
    SeparableChar(x, c);
    SeparableChar(y, c);
    SeparableFree(y, [c]);
    SplitJoin([x, y], [c]);
    assert [x, y][1..] == [y];
  }

  /** `xs.filter(s => s)`: drops the empty strings, keeps the order. */
  function FilterNonEmpty(xs: seq<string>): (r: seq<string>)
    ensures |r| <= |xs|
    ensures forall i | 0 <= i < |r| :: r[i] != ""
    ensures (forall i | 0 <= i < |xs| :: xs[i] != "") ==> r == xs
  {
    if xs == [] then []
    else (if xs[0] == "" then [] else [xs[0]]) + FilterNonEmpty(xs[1..])
  }

  /** A trailing empty string is dropped like any other. */
  lemma {:induction false} FilterNonEmptyDropsLast(xs: seq<string>)
    ensures FilterNonEmpty(xs + [""]) == FilterNonEmpty(xs)
  {
    if xs != [] {
      assert (xs + [""])[1..] == xs[1..] + [""];
      FilterNonEmptyDropsLast(xs[1..]);
    }
  }

  /** `s.padStart(width, c)` for a one-character pad string. */
  function PadStart(s: string, width: nat, c: char): (r: string)
    ensures |r| == if |s| >= width then |s| else width
    ensures r[|r| - |s|..] == s
    ensures forall i | 0 <= i < |r| - |s| :: r[i] == c
  {
    if |s| >= width then s else seq(width - |s|, _ => c) + s
  }

  // ---------------------------------------------------------------------------
  // Numbers

  /** The characters `parseInt` skips first: ECMAScript's WhiteSpace and
      LineTerminator code points. */
  predicate IsWhiteSpace(c: char)
  {
    c == '\t' || c == '\n' || c == '\U{B}' || c == '\U{C}' || c == '\r' || c == ' '
    || c == '\U{A0}' || c == '\U{1680}' || ('\U{2000}' <= c <= '\U{200A}')
    || c == '\U{2028}' || c == '\U{2029}' || c == '\U{202F}' || c == '\U{205F}'
    || c == '\U{3000}' || c == '\U{FEFF}'
  }

  function TrimStart(s: string): (r: string)
    ensures |r| <= |s| && r == s[|s| - |r|..]
    ensures r == [] || !IsWhiteSpace(r[0])
    ensures s != [] && !IsWhiteSpace(s[0]) ==> r == s
  {
    if s != [] && IsWhiteSpace(s[0]) then TrimStart(s[1..]) else s
  }

  /** The value of a digit character in radix up to 36, or 36 for a non-digit. */
  function DigitValue(c: char): (d: nat)
    ensures d <= 36
  {
    if '0' <= c <= '9' then c as int - '0' as int
    else if 'a' <= c <= 'z' then c as int - 'a' as int + 10
    else if 'A' <= c <= 'Z' then c as int - 'A' as int + 10
    else 36
  }

  predicate IsDigit(c: char, radix: nat)
  {
    DigitValue(c) < radix
  }

  /** The length of the longest prefix of `s` made of radix digits. */
  function DigitRun(s: string, radix: nat): (n: nat)
    ensures n <= |s|
    ensures forall i | 0 <= i < n :: IsDigit(s[i], radix)
    ensures n < |s| ==> !IsDigit(s[n], radix)
  {
    if s != [] && IsDigit(s[0], radix) then 1 + DigitRun(s[1..], radix) else 0
  }

  /** The value of a string of radix digits, most significant first. */
  function DigitsValue(s: string, radix: nat): nat
  {
    if s == [] then 0 else DigitsValue(s[..|s| - 1], radix) * radix + DigitValue(s[|s| - 1])
  }

  /** `parseInt(s)` with no radix argument: skip white space, read an optional
      sign, then the magnitude; NaN when there are no digits. */
  function ParseInt(s: string): (r: Num)
    ensures r != Undefined
  {
    var t := TrimStart(s);
    var negative := t != [] && t[0] == '-';
    var u := if t != [] && (t[0] == '-' || t[0] == '+') then t[1..] else t;
    match ParseMagnitude(u)
    case Int(m) => Int(if negative then -m else m)
    case _ => NaN
  }

  /** The unsigned part of `parseInt`: a `0x`/`0X` prefix selects radix 16,
      then the longest run of digits is read; NaN when that run is empty. */
  function ParseMagnitude(u: string): (r: Num)
    ensures r.NaN? || (r.Int? && r.value >= 0)
  {
    var hex := |u| >= 2 && u[0] == '0' && (u[1] == 'x' || u[1] == 'X');
    var radix := if hex then 16 else 10;
    var v := if hex then u[2..] else u;
    var n := DigitRun(v, radix);
    if n == 0 then NaN else Int(DigitsValue(v[..n], radix))
  }

  /** `parseInt` of an array element: `parseInt(undefined)` is NaN. */
  function ParseIntOpt(s: Option<string>): (r: Num)
    ensures s.None? ==> r == NaN
    ensures s.Some? ==> r == ParseInt(s.value)
  {
    if s.Some? then ParseInt(s.value) else NaN
  }

  function DigitChar(d: nat): (c: char)
    requires d < 10
    ensures IsDigit(c, 10) && DigitValue(c) == d
  {
    ('0' as int + d) as char
  }

  /** The decimal digits of `n`, as `${n}` prints a non-negative integer. */
  function NatToString(n: nat): (s: string)
    ensures s != []
    ensures forall i | 0 <= i < |s| :: IsDigit(s[i], 10)
    ensures n > 0 ==> s[0] != '0'
    ensures n == 0 ==> s == "0"
  {
    if n < 10 then [DigitChar(n)] else NatToString(n / 10) + [DigitChar(n % 10)]
  }

  /** `${n}` for an integer `n` (no exponent form: the model's integers are exact). */
  function IntToString(n: int): string
  {
    if n < 0 then "-" + NatToString(-n) else NatToString(n)
  }

  /** `${n}` is made of decimal digits and, for a negative `n`, a leading minus. */
  lemma IntToStringChars(n: int)
    ensures forall i | 0 <= i < |IntToString(n)| :: IntToString(n)[i] == '-' || IsDigit(IntToString(n)[i], 10)
  {
  }

  lemma {:induction false} DigitsValueOfNatToString(n: nat)
    ensures DigitsValue(NatToString(n), 10) == n
  {
    if n >= 10 {
      DigitsValueOfNatToString(n / 10);
      var s := NatToString(n);
      assert s[..|s| - 1] == NatToString(n / 10);
    }
  }

  /** What may follow a number in a string without changing what `parseInt`
      reads: nothing, or a character that is not a decimal digit and not the
      `x` of a hexadecimal prefix. */
  predicate EndsNumber(rest: string)
  {
    rest == [] || (!IsDigit(rest[0], 10) && rest[0] != 'x' && rest[0] != 'X')
  }

  lemma {:induction false} DigitRunOfDigits(d: string, rest: string)
    requires forall i | 0 <= i < |d| :: IsDigit(d[i], 10)
    requires EndsNumber(rest)
    ensures DigitRun(d + rest, 10) == |d|
    decreases |d|
  {
    if d != [] {
      DigitRunOfDigits(d[1..], rest);
      assert (d + rest)[1..] == d[1..] + rest;
    }
  }

  lemma MagnitudeOfNatToString(m: nat, rest: string)
    requires EndsNumber(rest)
    ensures ParseMagnitude(NatToString(m) + rest) == Int(m)
  {
    var d := NatToString(m);
    var u := d + rest;
    assert !(|u| >= 2 && u[0] == '0' && (u[1] == 'x' || u[1] == 'X')) by {
      if m == 0 && |u| >= 2 {
        assert u[1] == rest[0];
      }
    }
    DigitRunOfDigits(d, rest);
    assert u[..|d|] == d;
    DigitsValueOfNatToString(m);
  }

  /** `parseInt` of a string that starts with a decimal digit is its
      magnitude. */
  lemma ParseIntUnsigned(u: string, m: nat)
    requires u != [] && IsDigit(u[0], 10)
    requires ParseMagnitude(u) == Int(m)
    ensures ParseInt(u) == Int(m)
  {
    assert !IsWhiteSpace(u[0]) && u[0] != '-' && u[0] != '+';
    assert TrimStart(u) == u;
  }

  /** `parseInt` of a minus sign followed by a magnitude is its negation. */
  lemma ParseIntNegative(u: string, m: nat)
    requires ParseMagnitude(u) == Int(m)
    ensures ParseInt(['-'] + u) == Int(-(m as int))
  {
    var s := ['-'] + u;
    assert s[0] == '-';
    var t := TrimStart(s);
    assert t == s;
    assert t[1..] == u;
  }

  /** `parseInt` reads back the integer that `${n}` printed, whatever text
      follows it as long as that text does not continue the number. */
  lemma ParseIntToString(n: int, rest: string)
    requires EndsNumber(rest)
    ensures ParseInt(IntToString(n) + rest) == Int(n)
  {
    var m := if n < 0 then -n else n;
    var d := NatToString(m);
    var u := d + rest;
    MagnitudeOfNatToString(m, rest);
    if n < 0 {
      assert IntToString(n) + rest == ['-'] + u;
      ParseIntNegative(u, m);
    } else {
      assert IntToString(n) + rest == u;
      assert u[0] == d[0];
      ParseIntUnsigned(u, m);
    }
  }

  /** `parseInt(`${n}`)` is `n`. */
  lemma ParseIntOfIntToString(n: int)
    ensures ParseInt(IntToString(n)) == Int(n)
  {
    ParseIntToString(n, "");
    assert IntToString(n) + "" == IntToString(n);
  }
}
