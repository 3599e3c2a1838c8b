/** The Python `str` and `int` operations the scripts rely on, restricted to
    ASCII: whitespace and digits are the ASCII ones, `int(s)` reads an optional
    sign and decimal digits between whitespace. */
module PyText {
  import opened Wrappers

  // ---------------------------------------------------------------------
  // Character classes

  /** `c.isspace()` on ASCII: tab, newline, vertical tab, form feed, carriage
      return, the four information separators 0x1C-0x1F, and the space. */
  predicate IsSpace(c: char) {
    ('\t' <= c <= '\r') || ('\U{1C}' <= c <= '\U{1F}') || c == ' '
  }

  /** The whitespace `int()` skips around a numeral: C's `isspace` (tab,
      newline, vertical tab, form feed, carriage return and the space),
      without the information separators that `str.isspace` also counts. */
  predicate IsIntSpace(c: char) {
    ('\t' <= c <= '\r') || c == ' '
  }

  predicate IsDigit(c: char) {
    '0' <= c <= '9'
  }

  /** The regex class `[a-zA-Z0-9]`. */
  predicate IsAsciiAlnum(c: char) {
    ('a' <= c <= 'z') || ('A' <= c <= 'Z') || IsDigit(c)
  }

  /** `s.isdigit()`: non-empty and made of digits only. */
  predicate IsDigits(s: string) {
    |s| > 0 && forall i :: 0 <= i < |s| ==> IsDigit(s[i])
  }

  // ---------------------------------------------------------------------
  // strip()

  /** A string with no whitespace at either end. */
  predicate Stripped(s: string) {
    s == [] || (!IsSpace(s[0]) && !IsSpace(s[|s| - 1]))
  }

  /** The first position at or after `i` that is not whitespace. */
  function SpaceEnd(s: string, i: nat): (n: nat)
    requires i <= |s|
    ensures i <= n <= |s|
    ensures forall k :: i <= k < n ==> IsSpace(s[k])
    ensures n == |s| || !IsSpace(s[n])
    decreases |s| - i
  {
    if i < |s| && IsSpace(s[i]) then SpaceEnd(s, i + 1) else i
  }

  /** The position just after the last character before `j` that is not
      whitespace. */
  function SpaceStart(s: string, j: nat): (n: nat)
    requires j <= |s|
    ensures n <= j
    ensures forall k :: n <= k < j ==> IsSpace(s[k])
    ensures n == 0 || !IsSpace(s[n - 1])
  {
    if j > 0 && IsSpace(s[j - 1]) then SpaceStart(s, j - 1) else j
  }

  /** `s[..i]` and `s[j..]` are whitespace. */
  predicate SpaceOutside(s: string, i: int, j: int) {
    && 0 <= i <= j <= |s|
    && (forall k :: 0 <= k < i ==> IsSpace(s[k]))
    && (forall k :: j <= k < |s| ==> IsSpace(s[k]))
  }

  /** `s.strip()`: the text between the leading and the trailing whitespace. */
  function Strip(s: string): (r: string)
    ensures Stripped(r)
    ensures Stripped(s) ==> r == s
    ensures r == [] <==> forall i :: 0 <= i < |s| ==> IsSpace(s[i])
    ensures forall c :: c in r ==> c in s
  {
    var i := SpaceEnd(s, 0);
    if i == |s| then [] else s[i..SpaceStart(s, |s|)]
  }

  /** The scan from the left stops at the first character that is not
      whitespace. */
  lemma {:induction false} SpaceEndIs(s: string, i: nat, m: nat)
    requires i <= m <= |s|
    requires forall k :: i <= k < m ==> IsSpace(s[k])
    requires m == |s| || !IsSpace(s[m])
    ensures SpaceEnd(s, i) == m
    decreases m - i
  {
    if i < m {
      SpaceEndIs(s, i + 1, m);
    }
  }

  /** The scan from the right stops after the last character that is not
      whitespace. */
  lemma {:induction false} SpaceStartIs(s: string, j: nat, m: nat)
    requires m <= j <= |s|
    requires forall k :: m <= k < j ==> IsSpace(s[k])
    requires m == 0 || !IsSpace(s[m - 1])
    ensures SpaceStart(s, j) == m
    decreases j - m
  {
    if m < j {
      SpaceStartIs(s, j - 1, m);
    }
  }

  /** Leading whitespace before a text that does not start with whitespace
      is exactly the run the scan from the left passes over. */
  lemma SpaceEndAt(w: string, x: string)
    requires forall k :: 0 <= k < |w| ==> IsSpace(w[k])
    requires x == [] || !IsSpace(x[0])
    ensures SpaceEnd(w + x, 0) == |w|
  {
    var s := w + x;
    assert forall k :: 0 <= k < |w| ==> s[k] == w[k];
    assert x != [] ==> s[|w|] == x[0];
    SpaceEndIs(s, 0, |w|);
  }

  /** Trailing whitespace after a text that does not end with whitespace is
      exactly the run the scan from the right passes over. */
  lemma SpaceStartAt(x: string, v: string)
    requires forall k :: 0 <= k < |v| ==> IsSpace(v[k])
    requires x == [] || !IsSpace(x[|x| - 1])
    ensures SpaceStart(x + v, |x + v|) == |x|
  {
    var s := x + v;
    assert forall k :: |x| <= k < |s| ==> s[k] == v[k - |x|];
    assert x != [] ==> s[|x| - 1] == x[|x| - 1];
    SpaceStartIs(s, |s|, |x|);
  }

  /** A stripped text between whitespace is what `strip` returns. */
  lemma StripUnique(w: string, m: string, v: string)
    requires forall k :: 0 <= k < |w| ==> IsSpace(w[k])
    requires forall k :: 0 <= k < |v| ==> IsSpace(v[k])
    requires Stripped(m)
    ensures Strip(w + m + v) == m
  {
    if m == [] {
      assert w + m + v == w + v;
      assert forall k :: 0 <= k < |w + v| ==> IsSpace((w + v)[k]);
    } else {
      assert w + m + v == w + (m + v);
      SpaceEndAt(w, m + v);
      assert w + m + v == (w + m) + v;
      SpaceStartAt(w + m, v);
      assert (w + m + v)[|w|..|w| + |m|] == m;
    }
  }

  lemma ConcatAssoc(x: string, y: string, z: string)
    ensures (x + y) + z == x + (y + z)
  {
  }

  lemma SliceThree(p: string, i: int, j: int)
    requires 0 <= i <= j <= |p|
    ensures p == p[..i] + p[i..j] + p[j..]
  {
    assert p[i..] == p[i..j] + p[j..];
    assert p == p[..i] + p[i..];
    ConcatAssoc(p[..i], p[i..j], p[j..]);
  }

  lemma AllSpaceSlice(s: string, i: int, j: int)
    requires 0 <= i <= j <= |s|
    requires forall k :: i <= k < j ==> IsSpace(s[k])
    ensures forall k :: 0 <= k < |s[i..j]| ==> IsSpace(s[i..j][k])
  {
  }

  /** `strip` keeps a middle slice and drops only whitespace around it. */
  lemma StripSlice(p: string)
    ensures exists i, j :: SpaceOutside(p, i, j) && Strip(p) == p[i..j]
  {
    var i := SpaceEnd(p, 0);
    var j := if i == |p| then |p| else SpaceStart(p, |p|);
    assert SpaceOutside(p, i, j) && Strip(p) == p[i..j];
  }

  /** A text is its stripped middle between two runs of whitespace. */
  lemma StripParts(s: string) returns (a: string, b: string)
    ensures s == a + Strip(s) + b
    ensures forall k :: 0 <= k < |a| ==> IsSpace(a[k])
    ensures forall k :: 0 <= k < |b| ==> IsSpace(b[k])
  {
    StripSlice(s);
    var i, j :| SpaceOutside(s, i, j) && Strip(s) == s[i..j];
    a, b := s[..i], s[j..];
    SliceThree(s, i, j);
    AllSpaceSlice(s, 0, i);
    AllSpaceSlice(s, j, |s|);
  }

  /** Whitespace on both sides does not change what `strip` returns. */
  lemma StripPadBoth(x: string, t: string, y: string)
    requires forall k :: 0 <= k < |x| ==> IsSpace(x[k])
    requires forall k :: 0 <= k < |y| ==> IsSpace(y[k])
    ensures Strip(x + t + y) == Strip(t)
  {
    ConcatAssoc(x, t, y);
    StripPadding(y, t);
    StripPadding(x, t + y);
  }

  lemma AllSpaceConcat(x: string, y: string)
    requires forall k :: 0 <= k < |x| ==> IsSpace(x[k])
    requires forall k :: 0 <= k < |y| ==> IsSpace(y[k])
    ensures forall k :: 0 <= k < |x + y| ==> IsSpace((x + y)[k])
  {
  }

  /** Whitespace added at either end does not change what `strip` returns. */
  lemma StripPadding(w: string, p: string)
    requires forall k :: 0 <= k < |w| ==> IsSpace(w[k])
    ensures Strip(w + p) == Strip(p)
    ensures Strip(p + w) == Strip(p)
  {
    var a, b := StripParts(p);
    var m := Strip(p);
    assert w + p == (w + a) + m + b by {
      ConcatAssoc(w, a + m, b);
      ConcatAssoc(w, a, m);
    }
    AllSpaceConcat(w, a);
    StripUnique(w + a, m, b);
    assert p + w == a + m + (b + w) by {
      ConcatAssoc(a + m, b, w);
    }
    AllSpaceConcat(b, w);
    StripUnique(a, m, b + w);
  }

  // ---------------------------------------------------------------------
  // count(), split() and join() with a one-character separator

  /** `s.count(c)`. */
  function Count(s: string, c: char): nat {
    if s == [] then 0 else (if s[0] == c then 1 else 0) + Count(s[1..], c)
  }

  lemma {:induction false} CountConcat(a: string, b: string, c: char)
    ensures Count(a + b, c) == Count(a, c) + Count(b, c)
  {
    if a == [] {
      assert a + b == b;
    } else {
      assert (a + b)[1..] == a[1..] + b;
      CountConcat(a[1..], b, c);
    }
  }

  lemma {:induction false} CountZero(s: string, c: char)
    ensures Count(s, c) == 0 <==> c !in s
  {
    if s != [] {
      CountZero(s[1..], c);
      assert s == [s[0]] + s[1..];
    }
  }

  /** `s.index(c)`: the first position of `c`. */
  function FirstIndex(s: string, c: char): (i: nat)
    requires c in s
    ensures i < |s| && s[i] == c && c !in s[..i]
  {
    if s[0] == c then 0
    else
      assert c in s[1..] by { assert s == [s[0]] + s[1..]; }
      var j := FirstIndex(s[1..], c);
      assert s[..j + 1] == [s[0]] + s[1..][..j];
      j + 1
  }

  lemma FirstIndexUnique(s: string, c: char, n: nat)
    requires n < |s| && s[n] == c && c !in s[..n]
    ensures FirstIndex(s, c) == n
  {
  }

  /** `s.split(sep)` for a one-character `sep`: the pieces between the
      occurrences of `sep`, left to right. */
  function Split(s: string, sep: char): (parts: seq<string>)
    ensures |parts| >= 1
    ensures forall k :: 0 <= k < |parts| ==> sep !in parts[k]
    decreases |s|
  {
    if sep !in s then [s]
    else
      var i := FirstIndex(s, sep);
      [s[..i]] + Split(s[i + 1..], sep)
  }

  /** `sep.join(parts)`. */
  function Join(parts: seq<string>, sep: string): string {
    if |parts| == 0 then ""
    else if |parts| == 1 then parts[0]
    else parts[0] + sep + Join(parts[1..], sep)
  }

  /** Splitting yields one piece more than there are separators. */
  lemma {:induction false} SplitCount(s: string, sep: char)
    ensures |Split(s, sep)| == Count(s, sep) + 1
    decreases |s|
  {
    CountZero(s, sep);
    if sep in s {
      var i := FirstIndex(s, sep);
      SplitCount(s[i + 1..], sep);
      assert s == s[..i] + ([sep] + s[i + 1..]);
      CountConcat(s[..i], [sep] + s[i + 1..], sep);
      CountConcat([sep], s[i + 1..], sep);
      CountZero(s[..i], sep);
      assert Count([sep], sep) == 1 by { assert [sep][1..] == []; }
    }
  }

  /** Up to the first separator, then the pieces of the rest. */
  lemma SplitCons(a: string, sep: char, b: string)
    requires sep !in a
    ensures Split(a + [sep] + b, sep) == [a] + Split(b, sep)
  {
    var s := a + [sep] + b;
    assert s[|a|] == sep && s[..|a|] == a;
    FirstIndexUnique(s, sep, |a|);
    assert s[|a| + 1..] == b;
  }

  /** Text without the separator in front of a string joins its first piece. */
  lemma SplitPrepend(w: string, t: string, sep: char)
    requires sep !in w
    ensures var q := Split(t, sep); Split(w + t, sep) == [w + q[0]] + q[1..]
  {
    if sep in t {
      var i := FirstIndex(t, sep);
      var a, b := t[..i], t[i + 1..];
      assert t == a + [sep] + b;
      assert w + t == (w + a) + [sep] + b;
      SplitCons(a, sep, b);
      SplitCons(w + a, sep, b);
    } else {
      assert sep !in w + t;
    }
  }

  /** Dropping the last element of a non-empty list with a head in front. */
  lemma ButLastCons<T>(x: T, q: seq<T>)
    requires |q| >= 1
    ensures ([x] + q)[..|q|] == [x] + q[..|q| - 1]
    ensures ([x] + q)[|q|] == q[|q| - 1]
  {
  }

  /** Text without the separator after a string joins its last piece. */
  lemma {:induction false} SplitAppend(t: string, v: string, sep: char)
    requires sep !in v
    ensures var q := Split(t, sep); Split(t + v, sep) == q[..|q| - 1] + [q[|q| - 1] + v]
    decreases |t|
  {
    if sep in t {
      var i := FirstIndex(t, sep);
      var a, b := t[..i], t[i + 1..];
      assert t == a + [sep] + b;
      assert t + v == a + [sep] + (b + v);
      SplitCons(a, sep, b);
      SplitCons(a, sep, b + v);
      SplitAppend(b, v, sep);
      ButLastCons(a, Split(b, sep));
    } else {
      assert sep !in t + v;
    }
  }

  /** With exactly one separator the two pieces are the text before it and the
      text after it. */
  lemma SplitAtOnlySeparator(s: string, sep: char)
    requires Count(s, sep) == 1
    ensures sep in s
    ensures Split(s, sep) == [s[..FirstIndex(s, sep)], s[FirstIndex(s, sep) + 1..]]
  {
    CountZero(s, sep);
    var i := FirstIndex(s, sep);
    var a, b := s[..i], s[i + 1..];
    assert s == (a + [sep]) + b;
    CountConcat(a + [sep], b, sep);
    CountConcat(a, [sep], sep);
    CountZero(a, sep);
    assert Count([sep], sep) == 1 by { assert [sep][1..] == []; }
    CountZero(b, sep);
    SplitCons(a, sep, b);
  }

  /** Splitting `a + m + b`, with no separator in `a` or `b`, yields the pieces
      of `m` with `a` glued to the first one and `b` to the last one. */
  lemma SplitPadded(a: string, m: string, b: string, sep: char)
    requires sep !in a && sep !in b
    ensures |Split(a + m + b, sep)| == |Split(m, sep)|
    ensures forall k :: 0 <= k < |Split(m, sep)| ==>
      Split(a + m + b, sep)[k] ==
        (if k == 0 then a else "") + Split(m, sep)[k] + (if k == |Split(m, sep)| - 1 then b else "")
  {
    var q := Split(m, sep);
    assert Split(a + m + b, sep) == Glued(a, q, b) by {
      SplitAppend(m, b, sep);
      SplitPrepend(a, m + b, sep);
      ConcatAssoc(a, m, b);
    }
    GluedAt(a, q, b);
  }

  /** The pieces `q` with `a` glued to the front of the first one and `b` to
      the back of the last one. */
  function Glued(a: string, q: seq<string>, b: string): seq<string>
    requires |q| >= 1
  {
    var qb := q[..|q| - 1] + [q[|q| - 1] + b];
    [a + qb[0]] + qb[1..]
  }

  lemma GluedAt(a: string, q: seq<string>, b: string)
    requires |q| >= 1
    ensures |Glued(a, q, b)| == |q|
    ensures forall k :: 0 <= k < |q| ==>
      Glued(a, q, b)[k] == (if k == 0 then a else "") + q[k] + (if k == |q| - 1 then b else "")
  {
    var w := Glued(a, q, b);
    forall k | 0 <= k < |q|
      ensures w[k] == (if k == 0 then a else "") + q[k] + (if k == |q| - 1 then b else "")
    {
      if k == 0 && k == |q| - 1 {
        assert w[k] == a + (q[k] + b);
        ConcatAssoc(a, q[k], b);
      } else if k == 0 {
        assert w[k] == a + q[k];
        assert a + q[k] + "" == a + q[k];
      } else if k == |q| - 1 {
        assert w[k] == q[k] + b;
        assert "" + q[k] == q[k];
      } else {
        assert w[k] == q[k];
        assert "" + q[k] + "" == q[k];
      }
    }
  }

  /** Stripping a text before splitting it on a character that is not
      whitespace leaves every stripped piece as it was. */
  lemma SplitStripped(s: string, sep: char)
    requires !IsSpace(sep)
    ensures |Split(s, sep)| == |Split(Strip(s), sep)|
    ensures forall k :: 0 <= k < |Split(s, sep)| ==> Strip(Split(s, sep)[k]) == Strip(Split(Strip(s), sep)[k])
  {
    var a, b := StripParts(s);
    assert sep !in a && sep !in b;
    SplitPadded(a, Strip(s), b, sep);
    var q := Split(Strip(s), sep);
    forall k | 0 <= k < |q| ensures Strip(Split(s, sep)[k]) == Strip(q[k]) {
      StripPadBoth(if k == 0 then a else "", q[k], if k == |q| - 1 then b else "");
    }
  }

  /** Joining the pieces with the separator gives back the string. */
  lemma {:induction false} JoinSplit(s: string, sep: char)
    ensures Join(Split(s, sep), [sep]) == s
    decreases |s|
  {
    if sep in s {
      var i := FirstIndex(s, sep);
      var rest := Split(s[i + 1..], sep);
      JoinSplit(s[i + 1..], sep);
      var parts := [s[..i]] + rest;
      assert Split(s, sep) == parts;
      assert |parts| > 1 && parts[0] == s[..i] && parts[1..] == rest;
      assert Join(parts, [sep]) == s[..i] + [sep] + Join(rest, [sep]);
      assert s == s[..i] + [sep] + s[i + 1..];
    }
  }

  /** Splitting a join of separator-free pieces gives back the pieces. */
  lemma {:induction false} SplitJoin(parts: seq<string>, sep: char)
    requires |parts| >= 1
    requires forall k :: 0 <= k < |parts| ==> sep !in parts[k]
    ensures Split(Join(parts, [sep]), sep) == parts
  {
    if |parts| > 1 {
      var tail := Join(parts[1..], [sep]);
      SplitJoin(parts[1..], sep);
      assert Join(parts, [sep]) == parts[0] + [sep] + tail;
      SplitCons(parts[0], sep, tail);
      assert parts == [parts[0]] + parts[1..];
    }
  }

  /** A join of non-empty pieces starts with the first piece's first
      character and ends with the last piece's last character. */
  lemma {:induction false} JoinEnds(parts: seq<string>, sep: string)
    requires |parts| >= 1
    requires forall k :: 0 <= k < |parts| ==> parts[k] != ""
    ensures Join(parts, sep) != ""
    ensures Join(parts, sep)[0] == parts[0][0]
    ensures Join(parts, sep)[|Join(parts, sep)| - 1] == parts[|parts| - 1][|parts[|parts| - 1]| - 1]
  {
    if |parts| > 1 {
      JoinEnds(parts[1..], sep);
    }
  }

  // ---------------------------------------------------------------------
  // s[:n]

  /** `s[:n]` for a non-negative `n`: the first `n` characters, or all of them. */
  function Take(s: string, n: nat): (r: string)
    ensures |r| == (if |s| < n then |s| else n)
    ensures r == s[..|r|]
  {
    if |s| <= n then s else s[..n]
  }

  // ---------------------------------------------------------------------
  // str(n) and int(s)

  function DigitChar(d: int): char
    requires 0 <= d < 10
  {
    ('0' as int + d) as char
  }

  function DigitValue(c: char): nat
    requires IsDigit(c)
  {
    c as int - '0' as int
  }

  /** The decimal digits of a natural number, without leading zeros. */
  function NatText(n: nat): (s: string)
    ensures IsDigits(s)
    decreases n
  {
    if n < 10 then [DigitChar(n)] else NatText(n / 10) + [DigitChar(n % 10)]
  }

  /** `str(n)` for an `int`. */
  function DecimalText(n: int): (s: string)
    ensures s != []
  {
    if n < 0 then "-" + NatText(-n) else NatText(n)
  }

  /** The number a string of decimal digits denotes, leading zeros allowed. */
  function DigitsValue(s: string): nat
    requires forall i :: 0 <= i < |s| ==> IsDigit(s[i])
  {
    if s == [] then 0 else 10 * DigitsValue(s[..|s| - 1]) + DigitValue(s[|s| - 1])
  }

  /** `int(s)` for a `str`: surrounding whitespace, an optional sign and at
      least one decimal digit; `None` where Python raises `ValueError`. */
  function ParseInt(s: string): Option<int> {
    if OnlyIntSpace(s) then ParseSigned(Strip(s)) else None
  }

  /** Every whitespace character of `s` is one `int()` skips. A numeral has
      no whitespace in it, so `int()` strips exactly what `strip` does when
      this holds, and fails when it does not: an information separator at
      either end is not skipped, and one inside breaks the numeral. */
  predicate OnlyIntSpace(s: string) {
    forall i :: 0 <= i < |s| && IsSpace(s[i]) ==> IsIntSpace(s[i])
  }

  /** An optional sign and at least one decimal digit, and nothing else. */
  function ParseSigned(t: string): Option<int> {
    if |t| > 0 && (t[0] == '+' || t[0] == '-') then
      if IsDigits(t[1..]) then
        var v: int := DigitsValue(t[1..]);
        Some(if t[0] == '-' then -v else v)
      else None
    else if IsDigits(t) then Some(DigitsValue(t))
    else None
  }

  /** Digits, with or without a sign in front, are read as their value. */
  lemma ParseIntDigits(s: string)
    requires IsDigits(s)
    ensures ParseInt(s) == Some(DigitsValue(s))
    ensures ParseInt("+" + s) == Some(DigitsValue(s))
    ensures ParseInt("-" + s) == Some(-(DigitsValue(s) as int))
  {
    assert ParseInt(s) == Some(DigitsValue(s)) by {
      assert OnlyIntSpace(s);
      assert Strip(s) == s;
    }
    SignedDigits(s, '+');
    SignedDigits(s, '-');
  }

  lemma SignedDigits(s: string, sign: char)
    requires IsDigits(s) && (sign == '+' || sign == '-')
    ensures ParseInt([sign] + s) == Some(if sign == '-' then -(DigitsValue(s) as int) else DigitsValue(s))
  {
    var t := [sign] + s;
    assert t[1..] == s;
    assert OnlyIntSpace(t) by {
      forall i | 0 <= i < |t| ensures !IsSpace(t[i]) {
        if i > 0 { assert t[i] == s[i - 1]; }
      }
    }
    assert ParseSigned(t) == Some(if sign == '-' then -(DigitsValue(s) as int) else DigitsValue(s));
    assert Stripped(t) by {
      assert t[|t| - 1] == s[|s| - 1];
    }
    assert Strip(t) == t;
  }

  /** `int` ignores the whitespace it skips around its argument. */
  lemma ParseIntPadded(w: string, s: string, v: string)
    requires forall k :: 0 <= k < |w| ==> IsIntSpace(w[k])
    requires forall k :: 0 <= k < |v| ==> IsIntSpace(v[k])
    ensures ParseInt(w + s + v) == ParseInt(s)
  {
    StripPadBoth(w, s, v);
    var p := w + s + v;
    assert OnlyIntSpace(p) <==> OnlyIntSpace(s) by {
      assert forall k :: 0 <= k < |s| ==> s[k] == p[|w| + k];
      assert forall k :: 0 <= k < |p| ==>
        p[k] == (if k < |w| then w[k] else if k < |w| + |s| then s[k - |w|] else v[k - |w| - |s|]);
    }
  }

  /** An information separator (0x1C-0x1F) is whitespace to `strip` but not
      to `int`: "\U{1C}5" strips to "5", yet `int` raises on it, while it
      reads " 5" as 5. */
  lemma ParseIntSeparatorSpace()
    ensures Strip("\U{1C}5") == "5"
    ensures ParseInt("\U{1C}5") == None
    ensures ParseInt(" 5") == Some(5)
  {
    var s := "\U{1C}5";
    assert s[0] == '\U{1C}' && s[1] == '5';
    assert !OnlyIntSpace(s);
    SpaceEndIs(s, 0, 1);
    SpaceStartIs(s, 2, 2);
    assert s[1..2] == "5";
    ParseIntSpace5();
  }

  lemma ParseIntSpace5()
    ensures ParseInt(" 5") == Some(5)
  {
    assert " 5" == " " + "5" + "";
    ParseIntPadded(" ", "5", "");
    assert DigitsValue("5") == 5;
    ParseIntDigits("5");
  }

  /** A character that is neither a digit, whitespace `int` skips nor a sign
      makes `int` raise. */
  lemma ParseIntForeignChar(s: string, i: int)
    requires 0 <= i < |s|
    requires !IsDigit(s[i]) && !IsIntSpace(s[i]) && s[i] != '+' && s[i] != '-'
    ensures ParseInt(s) == None
  {
    if !OnlyIntSpace(s) {
      return;
    }
    assert !IsSpace(s[i]);
    StripSlice(s);
    var a, b :| SpaceOutside(s, a, b) && Strip(s) == s[a..b];
    var t := Strip(s);
    assert a <= i < b;
    assert t[i - a] == s[i];
    if |t| > 0 && (t[0] == '+' || t[0] == '-') {
      assert t[1..][i - a - 1] == s[i];
    }
  }

  lemma {:induction false} NatTextValue(n: nat)
    ensures DigitsValue(NatText(n)) == n
    decreases n
  {
    if n >= 10 {
      NatTextValue(n / 10);
      var s := NatText(n);
      assert s[..|s| - 1] == NatText(n / 10);
    }
  }

  /** `int(str(n)) == n`. */
  lemma ParseIntDecimalText(n: int)
    ensures ParseInt(DecimalText(n)) == Some(n)
  {
    var d := NatText(if n < 0 then -n else n);
    NatTextValue(if n < 0 then -n else n);
    ParseIntDigits(d);
  }

  function Pow10(k: nat): nat {
    if k == 0 then 1 else 10 * Pow10(k - 1)
  }

  lemma {:induction false} Pow10Monotone(a: nat, b: nat)
    requires a <= b
    ensures Pow10(a) <= Pow10(b)
    decreases b
  {
    if a < b {
      Pow10Monotone(a, b - 1);
    }
  }

  /** A number with `k` digits lies in `[10^(k-1), 10^k)` (or is 0). */
  lemma {:induction false} NatTextBounds(n: nat)
    ensures n < Pow10(|NatText(n)|)
    ensures |NatText(n)| > 1 ==> Pow10(|NatText(n)| - 1) <= n
    decreases n
  {
    if n >= 10 {
      NatTextBounds(n / 10);
    }
  }

  /** `str(n)` has exactly `k + 1` digits iff `10^k <= n < 10^(k+1)`, for a
      positive `k`. */
  lemma NatTextLength(n: nat, k: nat)
    requires k >= 1
    ensures |NatText(n)| == k + 1 <==> Pow10(k) <= n < Pow10(k + 1)
  {
    NatTextBounds(n);
    var len := |NatText(n)|;
    if Pow10(k) <= n < Pow10(k + 1) {
      if len < k + 1 {
        Pow10Monotone(len, k);
      } else if len > k + 1 {
        Pow10Monotone(k + 1, len - 1);
      }
    }
  }

  /** The value of a digit string stays below `10^|s|`. */
  lemma {:induction false} DigitsValueBound(s: string)
    requires forall i :: 0 <= i < |s| ==> IsDigit(s[i])
    ensures DigitsValue(s) < Pow10(|s|)
  {
    if s != [] {
      DigitsValueBound(s[..|s| - 1]);
    }
  }

  /** A leading zero does not change the value of a digit string. */
  lemma {:induction false} LeadingZeroValue(s: string)
    requires |s| >= 1 && s[0] == '0'
    requires forall i :: 0 <= i < |s| ==> IsDigit(s[i])
    ensures DigitsValue(s) == DigitsValue(s[1..])
  {
    if |s| > 1 {
      LeadingZeroValue(s[..|s| - 1]);
      assert s[1..][..|s| - 2] == s[..|s| - 1][1..];
    } else {
      assert s[1..] == [];
    }
  }

  /** The text of a four-digit number is its four digits. */
  lemma FourDigitText(n: nat)
    requires 1000 <= n <= 9999
    ensures NatText(n) == [DigitChar(n / 1000), DigitChar(n / 100 % 10), DigitChar(n / 10 % 10), DigitChar(n % 10)]
  {
    assert n / 10 / 10 == n / 100;
    assert n / 100 / 10 == n / 1000;
    assert NatText(n / 100) == [DigitChar(n / 1000), DigitChar(n / 100 % 10)];
    assert NatText(n / 10) == NatText(n / 100) + [DigitChar(n / 10 % 10)];
  }
}
