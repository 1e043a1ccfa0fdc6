/** JavaScript-level primitives the widgets rely on: absent values, the
    `parseFloat(x) || d` default, whitespace trimming, lower-casing, substring
    search, and the default order used by `Array.prototype.sort()` on strings. */
module JsText {

  datatype Option<+T> = None | Some(value: T)

  /** `parseFloat(s) || d`: a failed parse (NaN) and a parsed zero both fall
      back to the default, because both are falsy in JavaScript. */
  function OrDefault(parsed: Option<real>, d: real): (r: real)
    ensures parsed.Some? && parsed.value != 0.0 ==> r == parsed.value
    ensures parsed.None? || parsed.value == 0.0 ==> r == d
  {
    if parsed.Some? && parsed.value != 0.0 then parsed.value else d
  }

  /** The characters `String.prototype.trim` removes: the white space of
      ECMAScript (tab, vertical tab, form feed, space, no-break space, the
      byte-order mark and the other space separators of Unicode category Zs)
      and its line terminators (line feed, carriage return, U+2028, U+2029). */
  predicate IsSpace(c: char) {
    c == ' ' || c == '\t' || c == '\n' || c == '\r' ||
    c == '\U{B}' || c == '\U{C}' || c == '\U{A0}' || c == '\U{FEFF}' ||
    c == '\U{1680}' || ('\U{2000}' <= c <= '\U{200A}') || c == '\U{2028}' || c == '\U{2029}' ||
    c == '\U{202F}' || c == '\U{205F}' || c == '\U{3000}'
  }

  /** True of a string whose `trim()` is empty, i.e. a falsy `s.trim()`. */
  predicate IsBlank(s: string) {
    forall i :: 0 <= i < |s| ==> IsSpace(s[i])
  }

  function TrimStart(s: string): (r: string)
    ensures |r| <= |s| && r == s[|s| - |r|..]
    ensures r == [] || !IsSpace(r[0])
    ensures forall i :: 0 <= i < |s| - |r| ==> IsSpace(s[i])
  {
    if s != [] && IsSpace(s[0]) then TrimStart(s[1..]) else s
  }

  function TrimEnd(s: string): (r: string)
    ensures |r| <= |s| && r == s[..|r|]
    ensures r == [] || !IsSpace(r[|r| - 1])
    ensures forall i :: |r| <= i < |s| ==> IsSpace(s[i])
  {
    if s != [] && IsSpace(s[|s| - 1]) then TrimEnd(s[..|s| - 1]) else s
  }

  /** `s.trim()`: a contiguous slice of `s` that neither starts nor ends with
      white space, and is empty exactly when `s` is blank. */
  function Trim(s: string): (r: string)
    ensures |r| <= |s|
    ensures r == [] || (!IsSpace(r[0]) && !IsSpace(r[|r| - 1]))
    ensures r == [] <==> IsBlank(s)
    ensures exists a :: 0 <= a <= |s| - |r| && r == s[a..a + |r|] && IsBlank(s[..a]) && IsBlank(s[a + |r|..])
  {
    TrimIsSlice(s, TrimStart(s), TrimEnd(TrimStart(s)));
    TrimEnd(TrimStart(s))
  }

  /** `s.trim()` is `s` with a blank prefix and a blank suffix cut off:
      `TrimStart` cuts the prefix and `TrimEnd` the suffix of what is left. */
  lemma TrimIsSlice(s: string, t: string, r: string)
    requires |t| <= |s| && t == s[|s| - |t|..] && (t == [] || !IsSpace(t[0]))
    requires forall k :: 0 <= k < |s| - |t| ==> IsSpace(s[k])
    requires |r| <= |t| && r == t[..|r|] && (r == [] || !IsSpace(r[|r| - 1]))
    requires forall k :: |r| <= k < |t| ==> IsSpace(t[k])
    ensures exists a :: 0 <= a <= |s| - |r| && r == s[a..a + |r|] && IsBlank(s[..a]) && IsBlank(s[a + |r|..])
    ensures r == [] || (!IsSpace(r[0]) && !IsSpace(r[|r| - 1]))
    ensures r == [] <==> IsBlank(s)
  {
    TrimEmptyIffBlank(s, t, r);
    assert r == [] || r[0] == t[0];
    var a := |s| - |t|;
    assert r == s[a..a + |r|];
    assert IsBlank(s[a + |r|..]) by {
      forall i | a + |r| <= i < |s|
        ensures IsSpace(s[i])
      {
        assert s[i] == t[i - a];
      }
    }
    assert IsBlank(s[..a]) by {
      forall i | 0 <= i < a
        ensures IsSpace(s[..a][i])
      {
        assert s[..a][i] == s[i];
      }
    }
  }

  /** `s.trim()` is empty exactly when `s` is blank: the blank prefix that
      `TrimStart` removes and the blank rest that `TrimEnd` then removes make
      up all of `s`. */
  lemma TrimEmptyIffBlank(s: string, t: string, r: string)
    requires |t| <= |s| && t == s[|s| - |t|..] && (t == [] || !IsSpace(t[0]))
    requires forall k :: 0 <= k < |s| - |t| ==> IsSpace(s[k])
    requires |r| <= |t| && r == t[..|r|]
    requires forall k :: |r| <= k < |t| ==> IsSpace(t[k])
    ensures r == [] <==> IsBlank(s)
  {
    var i := |s| - |t|;
    if r == [] {
      BlankSuffix(t, 0);
      assert t[0..] == s[i..];
      BlankJoin(s, i);
    } else {
      assert s[i] == t[0];
    }
  }

  lemma BlankSuffix(t: string, n: nat)
    requires n <= |t|
    requires forall k :: n <= k < |t| ==> IsSpace(t[k])
    ensures IsBlank(t[n..])
  {
    forall k | 0 <= k < |t| - n ensures IsSpace(t[n..][k]) {
      assert t[n..][k] == t[n + k];
    }
  }

  lemma BlankJoin(s: string, i: nat)
    requires i <= |s|
    requires forall k :: 0 <= k < i ==> IsSpace(s[k])
    requires IsBlank(s[i..])
    ensures IsBlank(s)
  {
    forall k | 0 <= k < |s| ensures IsSpace(s[k]) {
      if k >= i {
        assert s[k] == s[i..][k - i];
      }
    }
  }

  lemma {:induction false} TrimIdempotent(s: string)
    ensures Trim(Trim(s)) == Trim(s)
  {
    var t := Trim(s);
    if t != [] {
      assert TrimStart(t) == t;
      assert TrimEnd(t) == t;
    }
  }

  /** ASCII upper case to lower case; every other character is kept. */
  function LowerChar(c: char): (r: char)
    ensures 'A' <= c <= 'Z' ==> r as int == c as int + 32
    ensures !('A' <= c <= 'Z') ==> r == c
  {
    if 'A' <= c <= 'Z' then (c as int + 32) as char else c
  }

  /** `s.toLowerCase()`, character by character. */
  function ToLower(s: string): (r: string)
    ensures |r| == |s|
    ensures forall i :: 0 <= i < |s| ==> r[i] == LowerChar(s[i])
  {
    seq(|s|, i requires 0 <= i < |s| => LowerChar(s[i]))
  }

  lemma ToLowerIdempotent(s: string)
    ensures ToLower(ToLower(s)) == ToLower(s)
  {
  }

  predicate StartsWith(s: string, prefix: string) {
    |prefix| <= |s| && s[..|prefix|] == prefix
  }

  /** `s.includes(q)`: `q` occurs in `s` at some offset. */
  predicate Includes(s: string, q: string) {
    exists k | 0 <= k <= |s| - |q| :: OccursAt(s, q, k)
  }

  predicate OccursAt(s: string, q: string, k: int) {
    0 <= k <= |s| - |q| && s[k..k + |q|] == q
  }

  lemma IncludesEmpty(s: string)
    ensures Includes(s, "")
  {
    assert OccursAt(s, "", 0);
  }

  lemma IncludesSelf(s: string)
    ensures Includes(s, s)
  {
    assert OccursAt(s, s, 0);
  }

  /** `s.replace(/[...]/g, '')` for a character class: every character of
      `cs` is dropped, every other character kept in order. */
  function RemoveChars(s: string, cs: set<char>): string {
    if s == [] then []
    else if s[0] in cs then RemoveChars(s[1..], cs)
    else [s[0]] + RemoveChars(s[1..], cs)
  }

  /** No character of `cs` is left, and every other character keeps its
      number of occurrences. */
  lemma {:induction false} RemoveCharsSpec(s: string, cs: set<char>)
    ensures |RemoveChars(s, cs)| <= |s|
    ensures forall i :: 0 <= i < |RemoveChars(s, cs)| ==> RemoveChars(s, cs)[i] !in cs
    ensures forall c :: c !in cs ==> multiset(RemoveChars(s, cs))[c] == multiset(s)[c]
  {
    if s != [] {
      RemoveCharsSpec(s[1..], cs);
      assert s == [s[0]] + s[1..];
    }
  }

  /** `r` is `s` with some characters left out, the rest in their order. */
  predicate Subsequence(r: string, s: string) {
    r == [] || (s != [] && ((r[0] == s[0] && Subsequence(r[1..], s[1..])) || Subsequence(r, s[1..])))
  }

  /** The characters `replace` keeps stay in their order. */
  lemma {:induction false} RemoveCharsKeepsOrder(s: string, cs: set<char>)
    ensures Subsequence(RemoveChars(s, cs), s)
  {
    if s != [] {
      RemoveCharsKeepsOrder(s[1..], cs);
      if s[0] !in cs {
        assert RemoveChars(s, cs)[1..] == RemoveChars(s[1..], cs);
      }
    }
  }

  lemma {:induction false} RemoveCharsKeepsClean(s: string, cs: set<char>)
    requires forall i :: 0 <= i < |s| ==> s[i] !in cs
    ensures RemoveChars(s, cs) == s
  {
    if s != [] {
      RemoveCharsKeepsClean(s[1..], cs);
    }
  }

  // ---------------------------------------------------------------------
  // The default order of Array.prototype.sort() on strings: lexicographic
  // by UTF-16 code unit. A character outside the Basic Multilingual Plane
  // is a surrogate pair, whose leading unit lies below U+E000 and so sorts
  // before the BMP characters from U+E000 up.

  /** The UTF-16 code units of one character: the character itself inside
      the Basic Multilingual Plane, a high and a low surrogate above it. */
  function Units(c: char): (u: seq<int>)
    ensures 1 <= |u| <= 2 && (|u| == 1 <==> (c as int) < 0x1_0000)
    ensures |u| == 1 ==> u[0] == c as int && !(0xD800 <= u[0] < 0xE000)
    ensures |u| == 2 ==> 0xD800 <= u[0] < 0xDC00 && 0xDC00 <= u[1] < 0xE000
    ensures |u| == 2 ==> c as int == 0x1_0000 + (u[0] - 0xD800) * 0x400 + (u[1] - 0xDC00)
  {
    if (c as int) < 0x1_0000 then [c as int]
    else
      var v := c as int - 0x1_0000;
      [0xD800 + v / 0x400, 0xDC00 + v % 0x400]
  }

  /** The UTF-16 encoding of a string, one code unit per element. */
  function Utf16(s: string): (u: seq<int>)
    ensures |s| <= |u| && (u == [] <==> s == [])
  {
    if s == [] then [] else Units(s[0]) + Utf16(s[1..])
  }

  /** Two strings with the same UTF-16 encoding are the same string: the
      leading unit says whether a character takes one unit or two. */
  lemma {:induction false} Utf16Injective(a: string, b: string)
    requires Utf16(a) == Utf16(b)
    ensures a == b
  {
    if a != [] && b != [] {
      var ua, ub := Units(a[0]), Units(b[0]);
      assert Utf16(a) == ua + Utf16(a[1..]) && Utf16(b) == ub + Utf16(b[1..]);
      assert ua[0] == Utf16(a)[0] == ub[0];
      assert |ua| == |ub|;
      assert ua == Utf16(a)[..|ua|] == ub;
      assert a[0] == b[0];
      assert Utf16(a[1..]) == Utf16(a)[|ua|..] == Utf16(b[1..]);
      Utf16Injective(a[1..], b[1..]);
      assert a == [a[0]] + a[1..] && b == [b[0]] + b[1..];
    }
  }

  /** Lexicographic order on code-unit sequences. */
  predicate UnitsLe(a: seq<int>, b: seq<int>) {
    a == [] || (b != [] && (a[0] < b[0] || (a[0] == b[0] && UnitsLe(a[1..], b[1..]))))
  }

  /** Where a character's code units place it: the characters below U+D800
      first, then those above the Basic Multilingual Plane (led by a
      surrogate from U+D800 up), then U+E000 to U+FFFF. */
  function SortKey(c: char): int {
    if (c as int) < 0xD800 then c as int
    else if (c as int) >= 0x1_0000 then c as int - 0x1_0000 + 0xD800
    else c as int + 0x10_0000
  }

  /** `a` comes no later than `b` under the default `sort()` order, decided
      at the first character where they differ. */
  predicate StrLe(a: string, b: string) {
    a == [] || (b != [] && (SortKey(a[0]) < SortKey(b[0]) || (a[0] == b[0] && StrLe(a[1..], b[1..]))))
  }

  /** A shared prefix of code units does not change their order. */
  lemma {:induction false} UnitsLeAfterPrefix(u: seq<int>, x: seq<int>, y: seq<int>)
    ensures UnitsLe(u + x, u + y) <==> UnitsLe(x, y)
  {
    if u == [] {
      assert u + x == x && u + y == y;
    } else {
      assert (u + x)[1..] == u[1..] + x && (u + y)[1..] == u[1..] + y;
      UnitsLeAfterPrefix(u[1..], x, y);
    }
  }

  /** The code units of two different characters are ordered as their keys,
      whatever follows them. */
  lemma UnitsOrderedByKey(c: char, d: char, x: seq<int>, y: seq<int>)
    requires c != d
    ensures UnitsLe(Units(c) + x, Units(d) + y) <==> SortKey(c) < SortKey(d)
  {
    var uc, ud := Units(c), Units(d);
    assert (uc + x)[0] == uc[0] && (ud + y)[0] == ud[0];
    if |uc| == 2 && |ud| == 2 && uc[0] == ud[0] {
      assert (uc + x)[1..][0] == uc[1] && (ud + y)[1..][0] == ud[1];
    }
  }

  /** The default order is the lexicographic order of the UTF-16 code units. */
  lemma {:induction false} StrLeIsUtf16Order(a: string, b: string)
    ensures StrLe(a, b) <==> UnitsLe(Utf16(a), Utf16(b))
  {
    if a != [] && b != [] {
      assert Utf16(a) == Units(a[0]) + Utf16(a[1..]) && Utf16(b) == Units(b[0]) + Utf16(b[1..]);
      if a[0] == b[0] {
        StrLeIsUtf16Order(a[1..], b[1..]);
        UnitsLeAfterPrefix(Units(a[0]), Utf16(a[1..]), Utf16(b[1..]));
      } else {
        UnitsOrderedByKey(a[0], b[0], Utf16(a[1..]), Utf16(b[1..]));
      }
    }
  }

  lemma {:induction false} StrLeTotal(a: string, b: string)
    ensures StrLe(a, b) || StrLe(b, a)
  {
    if a != [] && b != [] && a[0] == b[0] {
      StrLeTotal(a[1..], b[1..]);
    }
  }

  lemma {:induction false} StrLeAntisymmetric(a: string, b: string)
    requires StrLe(a, b) && StrLe(b, a)
    ensures a == b
  {
    if a != [] && b != [] {
      StrLeAntisymmetric(a[1..], b[1..]);
      assert a == [a[0]] + a[1..] && b == [b[0]] + b[1..];
    }
  }

  lemma {:induction false} StrLeTransitive(a: string, b: string, c: string)
    requires StrLe(a, b) && StrLe(b, c)
    ensures StrLe(a, c)
  {
    if a != [] && b != [] && c != [] && a[0] == b[0] == c[0] {
      StrLeTransitive(a[1..], b[1..], c[1..]);
    }
  }

  /** A character above the Basic Multilingual Plane sorts before one from
      U+E000 up: "\U{1F600}" (code units D83D DE00) comes before "\U{FF01}". */
  lemma SupplementarySortsBeforeHighBmp()
    ensures StrLe("\U{1F600}", "\U{FF01}") && !StrLe("\U{FF01}", "\U{1F600}")
    ensures Utf16("\U{1F600}") == [0xD83D, 0xDE00] && Utf16("\U{FF01}") == [0xFF01]
  {
    assert Utf16("\U{1F600}") == Units('\U{1F600}') + Utf16([]);
    assert Utf16("\U{FF01}") == Units('\U{FF01}') + Utf16([]);
  }

  lemma StrLeReflexive(a: string)
    ensures StrLe(a, a)
  {
  }

  predicate Sorted(s: seq<string>) {
    forall i, j :: 0 <= i < j < |s| ==> StrLe(s[i], s[j])
  }

  predicate StrictlySorted(s: seq<string>) {
    forall i, j :: 0 <= i < j < |s| ==> StrLe(s[i], s[j]) && s[i] != s[j]
  }

  function Insert(x: string, s: seq<string>): (r: seq<string>)
    requires Sorted(s)
    ensures Sorted(r)
    ensures multiset(r) == multiset(s) + multiset{x}
  {
    if s == [] then [x]
    else if StrLe(x, s[0]) then
      LeHeadLeAll(x, s);
      [x] + s
    else
      StrLeTotal(x, s[0]);
      var t := Insert(x, s[1..]);
      assert s == [s[0]] + s[1..];
      HeadLeAll(s[0], x, s[1..], t);
      [s[0]] + t
  }

  /** A string no later than the head of a sorted list is no later than any
      of its elements. */
  lemma LeHeadLeAll(x: string, s: seq<string>)
    requires Sorted(s) && s != [] && StrLe(x, s[0])
    ensures forall j :: 0 <= j < |s| ==> StrLe(x, s[j])
  {
    forall j | 0 <= j < |s| ensures StrLe(x, s[j]) {
      StrLeReflexive(s[0]);
      StrLeTransitive(x, s[0], s[j]);
    }
  }

  /** A string no later than `x` and than every element of `s` is no later
      than any element of a list holding `s` and `x`. */
  lemma HeadLeAll(h: string, x: string, s: seq<string>, t: seq<string>)
    requires StrLe(h, x) && (forall j :: 0 <= j < |s| ==> StrLe(h, s[j]))
    requires multiset(t) == multiset(s) + multiset{x}
    ensures forall j :: 0 <= j < |t| ==> StrLe(h, t[j])
  {
    forall j | 0 <= j < |t| ensures StrLe(h, t[j]) {
      assert t[j] in multiset(s) + multiset{x};
      if t[j] != x {
        assert t[j] in s;
      }
    }
  }

  /** The strings of `xs`, in the default sort order (an insertion sort, which
      yields the one ordering the order admits). */
  function SortStrings(xs: seq<string>): (r: seq<string>)
    ensures Sorted(r)
    ensures multiset(r) == multiset(xs)
  {
    if xs == [] then []
    else
      assert xs == xs[..|xs| - 1] + [xs[|xs| - 1]];
      Insert(xs[|xs| - 1], SortStrings(xs[..|xs| - 1]))
  }

  predicate Distinct(s: seq<string>) {
    forall i, j :: 0 <= i < j < |s| ==> s[i] != s[j]
  }

  /** `[...new Set(xs)]`: each value once, at its first occurrence. */
  function Dedup(xs: seq<string>): (r: seq<string>)
    ensures Distinct(r)
    ensures forall v :: v in r <==> v in xs
  {
    if xs == [] then []
    else
      var rest := Dedup(xs[..|xs| - 1]);
      if xs[|xs| - 1] in rest then rest else rest + [xs[|xs| - 1]]
  }

  /** `[...new Set(xs)].sort()`: the distinct values of `xs` in strictly
      increasing order. */
  function SortedDistinct(xs: seq<string>): (r: seq<string>)
    ensures StrictlySorted(r)
    ensures forall v :: v in r <==> v in xs
  {
    var d := Dedup(xs);
    var r := SortStrings(d);
    assert forall v :: v in r <==> v in multiset(r);
    assert forall v :: v in d <==> v in multiset(d);
    PermutationKeepsDistinct(d, r);
    r
  }

  /** A single value is its own set of distinct sorted values. */
  lemma SortedDistinctSingleton(x: string)
    ensures SortedDistinct([x]) == [x]
  {
    assert [x][..0] == [];
    assert Dedup([x]) == [x];
    assert SortStrings([x]) == [x];
  }

  lemma PermutationKeepsDistinct(d: seq<string>, r: seq<string>)
    requires Distinct(d) && multiset(r) == multiset(d)
    ensures Distinct(r)
  {
    forall i, j | 0 <= i < j < |r| ensures r[i] != r[j] {
      if r[i] == r[j] {
        assert multiset(r)[r[i]] >= 2 by {
          assert r == r[..i] + [r[i]] + r[i + 1..j] + [r[j]] + r[j + 1..];
        }
        DistinctCount(d, r[i]);
      }
    }
  }

  lemma {:induction false} DistinctCount(d: seq<string>, v: string)
    requires Distinct(d)
    ensures multiset(d)[v] <= 1
  {
    if d != [] {
      var last := d[|d| - 1];
      assert d == d[..|d| - 1] + [last];
      DistinctCount(d[..|d| - 1], v);
      assert last !in d[..|d| - 1];
    }
  }

  /** Two strictly sorted sequences with the same elements are equal: the
      sorted option list of a filter is determined by its set of values. */
  lemma {:induction false} StrictlySortedUnique(a: seq<string>, b: seq<string>)
    requires StrictlySorted(a) && StrictlySorted(b)
    requires forall v :: v in a <==> v in b
    ensures a == b
  {
    assert a != [] ==> a[0] in b;
    assert b != [] ==> b[0] in a;
    if a != [] && b != [] {
      assert a[0] == b[0] by {
        assert b[0] in a && a[0] in b;
        if a[0] != b[0] {
          var i :| 0 <= i < |a| && a[i] == b[0];
          var j :| 0 <= j < |b| && b[j] == a[0];
          assert i > 0 && j > 0;
          assert StrLe(a[0], a[i]) && StrLe(b[0], b[j]);
          StrLeAntisymmetric(a[0], b[0]);
        }
      }
      forall v ensures v in a[1..] <==> v in b[1..] {
        if v in a[1..] {
          var i :| 1 <= i < |a| && a[i] == v;
          assert v != a[0] && v in b;
          var j :| 0 <= j < |b| && b[j] == v;
          assert j > 0 && b[1..][j - 1] == v;
        }
        if v in b[1..] {
          var j :| 1 <= j < |b| && b[j] == v;
          assert v != b[0] && v in a;
          var i :| 0 <= i < |a| && a[i] == v;
          assert i > 0 && a[1..][i - 1] == v;
        }
      }
      StrictlySortedUnique(a[1..], b[1..]);
      assert a == [a[0]] + a[1..] && b == [b[0]] + b[1..];
    }
  }
}
