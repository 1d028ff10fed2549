/** The parts of `java.lang.String` and `java.lang.Integer` that the bug
    tracker relies on, over `seq<char>`.  Case mapping is ASCII only. */
module Strings {
  import opened Outcomes

  // ---------------------------------------------------------------------
  // Case mapping (`toUpperCase`, `toLowerCase`, `equalsIgnoreCase`)
  // ---------------------------------------------------------------------

  function UpperChar(c: char): char {
    if 'a' <= c <= 'z' then (c as int - 32) as char else c
  }

  function LowerChar(c: char): char {
    if 'A' <= c <= 'Z' then (c as int + 32) as char else c
  }

  function ToUpper(s: string): string {
    seq(|s|, i requires 0 <= i < |s| => UpperChar(s[i]))
  }

  function ToLower(s: string): string {
    seq(|s|, i requires 0 <= i < |s| => LowerChar(s[i]))
  }

  /** `String.equalsIgnoreCase`: same length, and each pair of characters is
      equal, equal after upper-casing, or equal after lower-casing. */
  predicate CharEqualsIgnoreCase(c: char, d: char) {
    c == d || UpperChar(c) == UpperChar(d) || LowerChar(c) == LowerChar(d)
  }

  predicate EqualsIgnoreCase(a: string, b: string) {
    |a| == |b| && forall i :: 0 <= i < |a| ==> CharEqualsIgnoreCase(a[i], b[i])
  }

  /** Keys folded with `toLowerCase` coincide exactly when the original
      strings are equal ignoring case. */
  lemma LowerEqualIffEqualsIgnoreCase(a: string, b: string)
    ensures ToLower(a) == ToLower(b) <==> EqualsIgnoreCase(a, b)
  {
    if ToLower(a) == ToLower(b) {
      forall i | 0 <= i < |a| ensures CharEqualsIgnoreCase(a[i], b[i]) {
        assert ToLower(a)[i] == ToLower(b)[i];
      }
    }
    if EqualsIgnoreCase(a, b) {
      forall i | 0 <= i < |a| ensures ToLower(a)[i] == ToLower(b)[i] {
        assert CharEqualsIgnoreCase(a[i], b[i]);
      }
    }
  }

  /** A string without lower-case letters is unchanged by `toUpperCase`. */
  lemma ToUpperOfUpper(s: string)
    requires forall i :: 0 <= i < |s| ==> !('a' <= s[i] <= 'z')
    ensures ToUpper(s) == s
  {
  }

  // ---------------------------------------------------------------------
  // `String.trim`: strip every leading and trailing character <= ' '
  // ---------------------------------------------------------------------

  predicate IsSpace(c: char) {
    c <= ' '
  }

  function TrimStart(s: string): string
    decreases |s|
  {
    if s != [] && IsSpace(s[0]) then TrimStart(s[1..]) else s
  }

  function TrimEnd(s: string): string
    decreases |s|
  {
    if s != [] && IsSpace(s[|s| - 1]) then TrimEnd(s[..|s| - 1]) else s
  }

  function Trim(s: string): string {
    TrimEnd(TrimStart(s))
  }

  /** A string that `trim` leaves as it is. */
  predicate IsTrimmed(s: string) {
    s == [] || (!IsSpace(s[0]) && !IsSpace(s[|s| - 1]))
  }

  lemma TrimOfTrimmed(s: string)
    requires IsTrimmed(s)
    ensures Trim(s) == s
  {
  }

  /** The result of `trim` is a substring with no space at either end; it is
      empty exactly when every character is a space. */
  lemma {:induction false} TrimStartShape(s: string)
    ensures IsSuffix(TrimStart(s), s)
    ensures TrimStart(s) == [] <==> forall i :: 0 <= i < |s| ==> IsSpace(s[i])
    ensures TrimStart(s) != [] ==> !IsSpace(TrimStart(s)[0])
    decreases |s|
  {
    if s != [] && IsSpace(s[0]) {
      TrimStartShape(s[1..]);
      assert forall i :: 1 <= i < |s| ==> s[i] == s[1..][i - 1];
    }
  }

  lemma {:induction false} TrimEndShape(s: string)
    ensures IsPrefix(TrimEnd(s), s)
    ensures TrimEnd(s) == [] <==> forall i :: 0 <= i < |s| ==> IsSpace(s[i])
    ensures TrimEnd(s) != [] ==> !IsSpace(TrimEnd(s)[|TrimEnd(s)| - 1])
    decreases |s|
  {
    if s != [] && IsSpace(s[|s| - 1]) {
      TrimEndShape(s[..|s| - 1]);
    }
  }

  /** A string that starts with a non-space character keeps it under `trim`. */
  lemma TrimKeepsFirst(s: string)
    requires s != [] && !IsSpace(s[0])
    ensures Trim(s) != [] && Trim(s)[0] == s[0]
  {
    TrimEndShape(s);
  }

  /** Trailing spaces, such as a final line feed, do not change `trim`. */
  lemma {:induction false} TrimDropsTrailingSpace(s: string, c: char)
    requires IsSpace(c)
    ensures Trim(s + [c]) == Trim(s)
  {
    var t := TrimStart(s);
    TrimStartShape(s);
    if t == [] {
      TrimStartAllSpace(s + [c]);
    } else {
      TrimStartAppend(s, [c]);
      assert TrimStart(s + [c]) == t + [c];
      assert (t + [c])[..|t + [c]| - 1] == t;
    }
  }

  lemma {:induction false} TrimStartAllSpace(s: string)
    requires forall i :: 0 <= i < |s| ==> IsSpace(s[i])
    ensures TrimStart(s) == []
    decreases |s|
  {
    if s != [] {
      TrimStartAllSpace(s[1..]);
    }
  }

  lemma {:induction false} TrimStartAppend(s: string, u: string)
    requires TrimStart(s) != []
    ensures TrimStart(s + u) == TrimStart(s) + u
    decreases |s|
  {
    if s != [] && IsSpace(s[0]) {
      assert (s + u)[1..] == s[1..] + u;
      TrimStartAppend(s[1..], u);
    }
  }

  /** Leading spaces do not change `trim`. */
  lemma {:induction false} TrimStartSpaces(w: string, u: string)
    requires forall i :: 0 <= i < |w| ==> IsSpace(w[i])
    ensures TrimStart(w + u) == TrimStart(u)
    decreases |w|
  {
    if w != [] {
      assert (w + u)[0] == w[0];
      assert (w + u)[1..] == w[1..] + u;
      TrimStartSpaces(w[1..], u);
    } else {
      assert w + u == u;
    }
  }

  /** Trailing spaces do not change `trim`. */
  lemma {:induction false} TrimEndSpaces(s: string, v: string)
    requires forall i :: 0 <= i < |v| ==> IsSpace(v[i])
    ensures Trim(s + v) == Trim(s)
    decreases |v|
  {
    if v != [] {
      var init := v[..|v| - 1];
      assert s + v == (s + init) + [v[|v| - 1]];
      TrimDropsTrailingSpace(s + init, v[|v| - 1]);
      TrimEndSpaces(s, init);
    } else {
      assert s + v == s;
    }
  }

  predicate IsPrefix(p: string, s: string) {
    |p| <= |s| && s[..|p|] == p
  }

  predicate IsSuffix(p: string, s: string) {
    |p| <= |s| && s[|s| - |p|..] == p
  }

  // ---------------------------------------------------------------------
  // `String.contains`
  // ---------------------------------------------------------------------

  /** `hay.contains(needle)`: the needle starts at some position of the hay. */
  function Contains(hay: string, needle: string): bool
    decreases |hay|
  {
    IsPrefix(needle, hay) || (hay != [] && Contains(hay[1..], needle))
  }

  /** A needle longer than the hay is never contained in it. */
  lemma {:induction false} ContainsNeedsRoom(hay: string, needle: string)
    requires |needle| > |hay|
    ensures !Contains(hay, needle)
    decreases |hay|
  {
    if hay != [] {
      ContainsNeedsRoom(hay[1..], needle);
    }
  }

  // ---------------------------------------------------------------------
  // Splitting and joining on one delimiter character
  // ---------------------------------------------------------------------

  /** The first position of a character from `stops`, or `|s|` when none occurs. */
  function IndexOfAny(s: string, stops: set<char>): (k: nat)
    ensures k <= |s|
    ensures k < |s| ==> s[k] in stops
    ensures forall j :: 0 <= j < k ==> s[j] !in stops
    decreases |s|
  {
    if s == [] then 0
    else if s[0] in stops then 0
    else 1 + IndexOfAny(s[1..], stops)
  }

  lemma {:induction false} IndexOfAnyAfter(a: string, b: string, stops: set<char>)
    requires forall j :: 0 <= j < |a| ==> a[j] !in stops
    ensures IndexOfAny(a + b, stops) == |a| + IndexOfAny(b, stops)
    decreases |a|
  {
    if a != [] {
      assert (a + b)[1..] == a[1..] + b;
      IndexOfAnyAfter(a[1..], b, stops);
    } else {
      assert a + b == b;
    }
  }

  /** `s.split(d, -1)`: every piece between delimiters, trailing empty pieces
      included, so there is always one piece more than delimiters. */
  function SplitAll(s: string, d: char): (parts: seq<string>)
    ensures |parts| >= 1
    decreases |s|
  {
    var k := IndexOfAny(s, {d});
    if k == |s| then [s] else [s[..k]] + SplitAll(s[k + 1..], d)
  }

  /** The first delimiter, at `k`, splits off the piece in front of it. */
  lemma SplitAllAt(s: string, d: char, k: nat)
    requires k < |s| && s[k] == d && forall j :: 0 <= j < k ==> s[j] != d
    ensures SplitAll(s, d) == [s[..k]] + SplitAll(s[k + 1..], d)
  {
    var i := IndexOfAny(s, {d});
    assert i == k;
  }

  /** Without the delimiter, the string is its only piece. */
  lemma SplitAllOfFree(s: string, d: char)
    requires Free(s, d)
    ensures SplitAll(s, d) == [s]
  {
    var i := IndexOfAny(s, {d});
    assert i == |s|;
  }

  /** `String.join(d, parts)`. */
  function Join(parts: seq<string>, d: char): string {
    if parts == [] then ""
    else if |parts| == 1 then parts[0]
    else parts[0] + [d] + Join(parts[1..], d)
  }

  predicate Free(s: string, c: char) {
    forall j :: 0 <= j < |s| ==> s[j] != c
  }

  /** Splitting undoes joining when no part contains the delimiter. */
  lemma {:induction false} SplitJoin(parts: seq<string>, d: char)
    requires |parts| >= 1
    requires forall i :: 0 <= i < |parts| ==> Free(parts[i], d)
    ensures SplitAll(Join(parts, d), d) == parts
  {
    if |parts| == 1 {
      IndexOfAnyAfter(parts[0], "", {d});
      assert parts[0] + "" == parts[0];
    } else {
      var rest := Join(parts[1..], d);
      var s := parts[0] + [d] + rest;
      IndexOfAnyAfter(parts[0], [d] + rest, {d});
      assert s == parts[0] + ([d] + rest);
      assert IndexOfAny(s, {d}) == |parts[0]|;
      assert s[..|parts[0]|] == parts[0];
      assert s[|parts[0]| + 1..] == rest;
      SplitJoin(parts[1..], d);
    }
  }

  /** Around a delimiter, the piece counts of its two sides add up. */
  lemma SplitAllAround(a: string, b: string, d: char)
    ensures |SplitAll(a + [d] + b, d)| == |SplitAll(a, d)| + |SplitAll(b, d)|
  {
    SplitAllCount(a + [d] + b, d);
    SplitAllCount(a, d);
    SplitAllCount(b, d);
  }

  /** There is one piece more than there are delimiters. */
  lemma {:induction false} SplitAllCount(s: string, d: char)
    ensures |SplitAll(s, d)| == multiset(s)[d] + 1
    decreases |s|
  {
    var k := IndexOfAny(s, {d});
    var p := s[..k];
    assert Free(p, d) by {
      forall j | 0 <= j < |p| ensures p[j] != d {
        assert p[j] == s[j] && s[j] !in {d};
      }
    }
    FreeCount(p, d);
    if k == |s| {
      assert p == s;
    } else {
      assert s == p + [s[k]] + s[k + 1..];
      SplitAllCount(s[k + 1..], d);
    }
  }

  /** A string free of `d` holds no `d`. */
  lemma FreeCount(s: string, d: char)
    requires Free(s, d)
    ensures multiset(s)[d] == 0
  {
    assert d !in s;
  }


  /** A string holding the delimiter splits into at least two pieces. */
  lemma SplitAllOfDelimited(s: string, d: char)
    requires !Free(s, d)
    ensures |SplitAll(s, d)| >= 2
  {
  }

  /** Joined parts split into at least as many pieces as there were parts,
      and into more as soon as one part holds the delimiter. */
  lemma {:induction false} SplitJoinCount(parts: seq<string>, d: char)
    requires |parts| >= 1
    ensures |SplitAll(Join(parts, d), d)| >= |parts|
    ensures (exists i :: 0 <= i < |parts| && !Free(parts[i], d)) ==>
              |SplitAll(Join(parts, d), d)| > |parts|
  {
    if |parts| == 1 {
      if !Free(parts[0], d) {
        SplitAllOfDelimited(parts[0], d);
      }
    } else {
      SplitAllAround(parts[0], Join(parts[1..], d), d);
      SplitJoinCount(parts[1..], d);
      if !Free(parts[0], d) {
        SplitAllOfDelimited(parts[0], d);
      }
      if exists i :: 0 <= i < |parts| && !Free(parts[i], d) {
        var i :| 0 <= i < |parts| && !Free(parts[i], d);
        if i > 0 {
          assert parts[1..][i - 1] == parts[i];
        }
      }
    }
  }

  /** Removes the empty strings at the end, as `split` with limit 0 does. */
  function DropTrailingEmpty(parts: seq<string>): (r: seq<string>)
    ensures IsPrefixSeq(r, parts)
    ensures r == [] || r[|r| - 1] != ""
    ensures forall i :: |r| <= i < |parts| ==> parts[i] == ""
  {
    if parts != [] && parts[|parts| - 1] == "" then DropTrailingEmpty(parts[..|parts| - 1])
    else parts
  }

  predicate IsPrefixSeq(p: seq<string>, s: seq<string>) {
    |p| <= |s| && s[..|p|] == p
  }

  /** `s.split(regex(d))` with Java's limit 0: a string without the delimiter
      is returned whole; otherwise the pieces with trailing empties dropped. */
  function JavaSplit(s: string, d: char): seq<string> {
    if Free(s, d) then [s] else DropTrailingEmpty(SplitAll(s, d))
  }

  // ---------------------------------------------------------------------
  // Decimal integers (`Integer.parseInt` and `%d`)
  // ---------------------------------------------------------------------

  const INT_MIN: int := -0x8000_0000
  const INT_MAX: int := 0x7fff_ffff

  predicate InIntRange(n: int) {
    INT_MIN <= n <= INT_MAX
  }

  /** The 32-bit `int` that Java arithmetic leaves for the exact value `n`:
      the one in range that differs from `n` by a multiple of 2^32. */
  function IntWrap(n: int): (r: int)
    ensures InIntRange(r)
    ensures (n - r) % 0x1_0000_0000 == 0
    ensures InIntRange(n) ==> r == n
    ensures n == INT_MAX + 1 ==> r == INT_MIN
  {
    (n - INT_MIN) % 0x1_0000_0000 + INT_MIN
  }

  predicate IsDigit(c: char) {
    '0' <= c <= '9'
  }

  predicate AllDigits(s: string) {
    forall i :: 0 <= i < |s| ==> IsDigit(s[i])
  }

  function DigitValue(c: char): nat
    requires IsDigit(c)
  {
    c as int - '0' as int
  }

  function DigitChar(n: nat): (c: char)
    requires n < 10
    ensures IsDigit(c) && DigitValue(c) == n
  {
    ('0' as int + n) as char
  }

  function DigitsValue(s: string): nat
    requires AllDigits(s)
  {
    if s == [] then 0 else DigitsValue(s[..|s| - 1]) * 10 + DigitValue(s[|s| - 1])
  }

  /** `Integer.parseInt`: an optional sign and at least one decimal digit,
      within the range of a 32-bit `int`; anything else fails. */
  function ParseInt(s: string): Option<int> {
    var signed := |s| >= 1 && (s[0] == '-' || s[0] == '+');
    var digits := if signed then s[1..] else s;
    if digits == [] || !AllDigits(digits) then None
    else
      var v: int := if signed && s[0] == '-' then -(DigitsValue(digits) as int) else DigitsValue(digits);
      if InIntRange(v) then Some(v) else None
  }

  /** The decimal digits of `n`, most significant first (`%d` of a non-negative value). */
  function NatToString(n: nat): string
  {
    if n < 10 then [DigitChar(n)] else NatToString(n / 10) + [DigitChar(n % 10)]
  }

  /** `String.format("%d", n)`. */
  function IntToString(n: int): string {
    if n < 0 then "-" + NatToString(-n) else NatToString(n)
  }

  lemma {:induction false} NatToStringDigits(n: nat)
    ensures |NatToString(n)| >= 1
    ensures AllDigits(NatToString(n))
    ensures DigitsValue(NatToString(n)) == n
  {
    if n >= 10 {
      NatToStringDigits(n / 10);
      var s := NatToString(n);
      assert s[..|s| - 1] == NatToString(n / 10);
    }
  }

  /** Parsing undoes formatting for every 32-bit integer. */
  lemma ParseIntToString(n: int)
    requires InIntRange(n)
    ensures ParseInt(IntToString(n)) == Some(n)
  {
    var s := IntToString(n);
    if n < 0 {
      var m: nat := -n;
      NatToStringDigits(m);
      assert s == "-" + NatToString(m);
      assert s[0] == '-';
      assert s[1..] == NatToString(m);
    } else {
      NatToStringDigits(n);
      assert s == NatToString(n);
      assert IsDigit(s[0]);
    }
  }

  /** A formatted integer holds only digits and a minus sign. */
  lemma IntToStringChars(n: int)
    ensures forall i :: 0 <= i < |IntToString(n)| ==>
              IsDigit(IntToString(n)[i]) || IntToString(n)[i] == '-'
    ensures IntToString(n) != [] && IsDigit(IntToString(n)[|IntToString(n)| - 1])
    ensures IsDigit(IntToString(n)[0]) || IntToString(n)[0] == '-'
  {
    if n < 0 {
      NatToStringDigits(-n);
    } else {
      NatToStringDigits(n);
    }
  }
}
