/** String and sequence operations of the JavaScript runtime that the modelled
    code relies on: trim, toLowerCase, split/join, indexOf, replace (first
    occurrence), startsWith/endsWith, includes, and the decimal rendering of
    integers performed by template literals. */
module Text {

  datatype Option<T> = None | Some(value: T)

  newtype byte = x: int | 0 <= x < 256

  type Bytes = seq<byte>

  // ---------------------------------------------------------------------------
  // Whitespace and trim
  // ---------------------------------------------------------------------------

  /** The code points String.prototype.trim removes: WhiteSpace and LineTerminator. */
  predicate IsJsSpace(c: char)
  {
    || c == '\t' || c == '\n' || c == '\U{B}' || c == '\U{C}' || c == '\r' || c == ' '
    || c == '\U{A0}' || c == '\U{1680}' || ('\U{2000}' <= c <= '\U{200A}')
    || c == '\U{2028}' || c == '\U{2029}' || c == '\U{202F}' || c == '\U{205F}'
    || c == '\U{3000}' || c == '\U{FEFF}'
  }

  predicate AllSpace(s: string)
  {
    forall i :: 0 <= i < |s| ==> IsJsSpace(s[i])
  }

  /** True when trimming leaves s as it is: s is empty or has no space at either end. */
  predicate IsTrimmed(s: string)
  {
    s == [] || (!IsJsSpace(s[0]) && !IsJsSpace(s[|s| - 1]))
  }

  /** The length of the run of spaces at the start of s. */
  function LeadingSpace(s: string): (n: nat)
    ensures n <= |s|
    ensures forall i :: 0 <= i < n ==> IsJsSpace(s[i])
    ensures n < |s| ==> !IsJsSpace(s[n])
  {
    if |s| > 0 && IsJsSpace(s[0]) then
      var n := LeadingSpace(s[1..]);
      assert forall i :: 1 <= i < n + 1 ==> s[i] == s[1..][i - 1];
      n + 1
    else 0
  }

  /** The length of the run of spaces at the end of s. */
  function TrailingSpace(s: string): (n: nat)
    ensures n <= |s|
    ensures forall i :: |s| - n <= i < |s| ==> IsJsSpace(s[i])
    ensures n < |s| ==> !IsJsSpace(s[|s| - n - 1])
  {
    if |s| > 0 && IsJsSpace(s[|s| - 1]) then
      var n := TrailingSpace(s[..|s| - 1]);
      assert forall i :: |s| - 1 - n <= i < |s| - 1 ==> s[i] == s[..|s| - 1][i];
      n + 1
    else 0
  }

  /** String.prototype.trim: s without its leading and trailing runs of spaces. */
  function Trim(s: string): (r: string)
    ensures IsTrimmed(r)
    ensures exists i :: 0 <= i <= |s| - |r| && r == s[i..i + |r|] && AllSpace(s[..i]) && AllSpace(s[i + |r|..])
  {
    var i := LeadingSpace(s);
    var a := s[i..];
    var j := TrailingSpace(a);
    var r := a[..|a| - j];
    assert r == s[i..i + |r|];
    var head, tail := s[..i], s[i + |r|..];
    assert AllSpace(head) by {
      forall k | 0 <= k < |head| ensures IsJsSpace(head[k]) {
        assert head[k] == s[k];
      }
    }
    assert AllSpace(tail) by {
      forall k | 0 <= k < |tail| ensures IsJsSpace(tail[k]) {
        assert tail[k] == a[|a| - j + k];
      }
    }
    assert r != [] ==> r[0] == s[i] && r[|r| - 1] == a[|a| - j - 1];
    r
  }

  lemma TrimmedIsFixed(s: string)
    requires IsTrimmed(s)
    ensures Trim(s) == s
  {
  }

  /** Trimming strips exactly the padding around a trimmed, non-empty core. */
  lemma TrimPadded(a: string, t: string, b: string)
    requires AllSpace(a) && AllSpace(b) && IsTrimmed(t) && t != []
    ensures Trim(a + t + b) == t
  {
    var s := a + t + b;
    var n := LeadingSpace(s);
    assert s[|a|] == t[0];
    assert n == |a|;
    var rest := s[n..];
    assert rest == t + b;
    var m := TrailingSpace(rest);
    assert rest[|t| - 1] == t[|t| - 1];
    assert m == |b|;
    assert rest[..|rest| - m] == t;
  }

  /** Trimming takes a piece of s, so it adds no character s did not have. */
  lemma TrimKeepsNone(s: string, seps: set<char>)
    requires NoneIn(s, seps)
    ensures NoneIn(Trim(s), seps)
  {
    var r := Trim(s);
    var i :| 0 <= i <= |s| - |r| && r == s[i..i + |r|] && AllSpace(s[..i]) && AllSpace(s[i + |r|..]);
    forall k | 0 <= k < |r| ensures r[k] !in seps {
      assert r[k] == s[i + k];
    }
  }

  lemma {:induction false} TrimOfAllSpace(s: string)
    requires AllSpace(s)
    ensures Trim(s) == []
  {
    if |s| > 0 {
      TrimOfAllSpace(s[1..]);
    }
  }

  // ---------------------------------------------------------------------------
  // Case mapping (ASCII)
  // ---------------------------------------------------------------------------

  function LowerChar(c: char): char
  {
    if 'A' <= c <= 'Z' then (c as int + 32) as char else c
  }

  /** String.prototype.toLowerCase on the ASCII range. */
  function ToLower(s: string): (r: string)
    ensures |r| == |s|
  {
    seq(|s|, i requires 0 <= i < |s| => LowerChar(s[i]))
  }

  predicate IsLower(s: string)
  {
    forall i :: 0 <= i < |s| ==> !('A' <= s[i] <= 'Z')
  }

  lemma ToLowerIsLower(s: string)
    ensures IsLower(ToLower(s))
    ensures forall i :: 0 <= i < |s| && !('A' <= s[i] <= 'Z') ==> ToLower(s)[i] == s[i]
  {
  }

  lemma ToLowerOfLower(s: string)
    requires IsLower(s)
    ensures ToLower(s) == s
  {
  }

  // ---------------------------------------------------------------------------
  // Searching
  // ---------------------------------------------------------------------------

  predicate StartsWith<T(==)>(s: seq<T>, p: seq<T>)
  {
    |p| <= |s| && s[..|p|] == p
  }

  predicate EndsWith<T(==)>(s: seq<T>, p: seq<T>)
  {
    |p| <= |s| && s[|s| - |p|..] == p
  }

  predicate MatchesAt<T(==)>(s: seq<T>, pat: seq<T>, k: int)
  {
    0 <= k && k + |pat| <= |s| && s[k..k + |pat|] == pat
  }

  /** Buffer.prototype.indexOf / String.prototype.indexOf for a non-negative
      start: the first index at or after `from` where `pat` occurs, or -1. */
  function IndexOf<T(==)>(s: seq<T>, pat: seq<T>, from: nat): (r: int)
    ensures r == -1 || (from <= r && MatchesAt(s, pat, r))
    ensures forall k :: from <= k && (r == -1 || k < r) ==> !MatchesAt(s, pat, k)
    decreases |s| - from
  {
    if from + |pat| > |s| then -1
    else if s[from..from + |pat|] == pat then from
    else IndexOf(s, pat, from + 1)
  }

  /** IndexOf finds a given occurrence when no earlier one exists at or after `from`. */
  lemma IndexOfIs<T>(s: seq<T>, pat: seq<T>, from: nat, k: nat)
    requires from <= k && MatchesAt(s, pat, k)
    requires forall j :: from <= j < k ==> !MatchesAt(s, pat, j)
    ensures IndexOf(s, pat, from) == k
  {
  }

  /** A match found in a sequence lies wholly inside any middle piece that contains it. */
  lemma MatchesInside<T>(p: seq<T>, x: seq<T>, q: seq<T>, pat: seq<T>, k: nat)
    requires k + |pat| <= |x|
    ensures MatchesAt(p + x + q, pat, |p| + k) <==> MatchesAt(x, pat, k)
  {
    assert (p + x + q)[|p| + k..|p| + k + |pat|] == x[k..k + |pat|];
  }

  /** One position that differs from the pattern rules out a match there. */
  lemma Mismatch<T>(s: seq<T>, pat: seq<T>, k: nat, i: nat)
    requires k <= i < k + |pat| && i < |s| && s[i] != pat[i - k]
    ensures !MatchesAt(s, pat, k)
  {
  }

  /** String.prototype.includes. */
  predicate Includes<T(==)>(s: seq<T>, pat: seq<T>)
  {
    IndexOf(s, pat, 0) != -1
  }

  lemma IncludesAt<T>(s: seq<T>, pat: seq<T>, k: int)
    requires MatchesAt(s, pat, k)
    ensures Includes(s, pat)
  {
  }

  lemma IncludesWitness<T>(s: seq<T>, pat: seq<T>)
    requires Includes(s, pat)
    ensures MatchesAt(s, pat, IndexOf(s, pat, 0))
  {
  }

  /** String.prototype.replace with a string pattern: only the first occurrence is replaced. */
  function ReplaceFirst(s: string, pat: string, rep: string): (r: string)
  {
    var i := IndexOf(s, pat, 0);
    if i == -1 then s else s[..i] + rep + s[i + |pat|..]
  }

  function Count<T(==)>(s: seq<T>, x: T): (n: nat)
    ensures n <= |s|
  {
    if s == [] then 0 else (if s[0] == x then 1 else 0) + Count(s[1..], x)
  }

  lemma {:induction false} CountAppend<T>(a: seq<T>, b: seq<T>, x: T)
    ensures Count(a + b, x) == Count(a, x) + Count(b, x)
  {
    if a == [] {
      assert a + b == b;
    } else {
      assert (a + b)[1..] == a[1..] + b;
      CountAppend(a[1..], b, x);
    }
  }

  lemma {:induction false} CountZero<T>(s: seq<T>, x: T)
    requires x !in s
    ensures Count(s, x) == 0
  {
    if s != [] {
      CountZero(s[1..], x);
    }
  }

  /** Replacing the first "c" by nothing removes exactly one occurrence of c when there is one,
      and leaves every other character in place. */
  lemma ReplaceFirstCharRemovesOne(s: string, c: char)
    ensures var r := ReplaceFirst(s, [c], "");
      && (c in s ==> Count(r, c) == Count(s, c) - 1 && |r| == |s| - 1)
      && (c !in s ==> r == s)
  {
    var i := IndexOf(s, [c], 0);
    if i == -1 {
      if c in s {
        var k :| 0 <= k < |s| && s[k] == c;
        assert MatchesAt(s, [c], k);
      }
    } else {
      assert ReplaceFirst(s, [c], "") == s[..i] + s[i + 1..];
      assert s == (s[..i] + [c]) + s[i + 1..];
      CountAppend(s[..i] + [c], s[i + 1..], c);
      CountAppend(s[..i], [c], c);
      CountAppend(s[..i], s[i + 1..], c);
      assert Count([c], c) == 1;
    }
  }

  /** JavaScript truthiness of an optional string: present and non-empty. */
  predicate Truthy(s: Option<string>)
  {
    s.Some? && s.value != ""
  }

  /** A template-literal rendering of an optional string: undefined becomes "undefined". */
  function Render(s: Option<string>): string
  {
    if s.Some? then s.value else "undefined"
  }

  /** The position of the first element equal to x (Array.prototype.indexOf), or -1. */
  function Position<T(==)>(xs: seq<T>, x: T): (r: int)
    ensures -1 <= r < |xs|
    ensures r == -1 <==> x !in xs
    ensures r >= 0 ==> xs[r] == x && x !in xs[..r]
  {
    if xs == [] then -1
    else if xs[0] == x then 0
    else
      var r := Position(xs[1..], x);
      assert r >= 0 ==> xs[..r + 1] == [xs[0]] + xs[1..][..r];
      if r == -1 then -1 else r + 1
  }

  /** Array.prototype.filter. */
  function Filter<T(!new)>(xs: seq<T>, keep: T -> bool): (r: seq<T>)
    ensures |r| <= |xs|
    ensures forall x :: x in r <==> x in xs && keep(x)
    ensures multiset(r) <= multiset(xs)
  {
    if xs == [] then []
    else
      var rest := Filter(xs[1..], keep);
      assert xs == [xs[0]] + xs[1..];
      if keep(xs[0]) then [xs[0]] + rest else rest
  }

  // ---------------------------------------------------------------------------
  // split and join
  // ---------------------------------------------------------------------------

  predicate NoneIn(s: string, seps: set<char>)
  {
    forall i :: 0 <= i < |s| ==> s[i] !in seps
  }

  /** String.prototype.split on any one of the characters in `seps` (a character
      class such as /[\n,]/); like JavaScript, it always yields at least one piece. */
  function Split(s: string, seps: set<char>): (r: seq<string>)
    ensures |r| >= 1
    ensures forall k :: 0 <= k < |r| ==> NoneIn(r[k], seps)
  {
    if s == [] then [""]
    else
      var rest := Split(s[1..], seps);
      if s[0] in seps then [""] + rest
      else [[s[0]] + rest[0]] + rest[1..]
  }

  /** Array.prototype.join. */
  function Join(xs: seq<string>, sep: string): string
  {
    if |xs| == 0 then ""
    else if |xs| == 1 then xs[0]
    else xs[0] + sep + Join(xs[1..], sep)
  }

  /** Split yields more than one piece exactly when some separator occurs. */
  lemma {:induction false} SplitLength(s: string, seps: set<char>)
    ensures |Split(s, seps)| > 1 <==> !NoneIn(s, seps)
    decreases |s|
  {
    if s != [] {
      SplitLength(s[1..], seps);
      if !NoneIn(s[1..], seps) {
        var k :| 0 <= k < |s[1..]| && s[1..][k] in seps;
        assert s[k + 1] in seps;
      }
      if !NoneIn(s, seps) && s[0] !in seps {
        var k :| 0 <= k < |s| && s[k] in seps;
        assert s[1..][k - 1] in seps;
      }
    }
  }

  lemma {:induction false} SplitPrefix(p: string, s: string, seps: set<char>)
    requires NoneIn(p, seps)
    ensures Split(p + s, seps) == [p + Split(s, seps)[0]] + Split(s, seps)[1..]
  {
    if p != [] {
      assert (p + s)[1..] == p[1..] + s;
      SplitPrefix(p[1..], s, seps);
      assert [p[0]] + (p[1..] + Split(s, seps)[0]) == p + Split(s, seps)[0];
    } else {
      assert p + s == s;
      var r := Split(s, seps);
      assert p + r[0] == r[0];
      assert r == [r[0]] + r[1..];
    }
  }

  lemma SplitWithoutSeparator(s: string, seps: set<char>)
    requires NoneIn(s, seps)
    ensures Split(s, seps) == [s]
  {
    SplitPrefix(s, "", seps);
    assert s + "" == s;
  }

  lemma SplitAtSeparator(p: string, c: char, s: string, seps: set<char>)
    requires NoneIn(p, seps) && c in seps
    ensures Split(p + [c] + s, seps) == [p] + Split(s, seps)
  {
    assert p + [c] + s == p + ([c] + s);
    assert ([c] + s)[1..] == s;
    assert Split([c] + s, seps) == [""] + Split(s, seps);
    SplitPrefix(p, [c] + s, seps);
    assert p + "" == p;
  }

  /** Joining pieces free of separators with `[c] + pad` and splitting again at c gives the
      pieces back, all but the first carrying `pad` in front. */
  lemma {:induction false} SplitJoin(xs: seq<string>, c: char, pad: string, seps: set<char>)
    requires |xs| >= 1 && c in seps && NoneIn(pad, seps)
    requires forall k :: 0 <= k < |xs| ==> NoneIn(xs[k], seps)
    ensures var r := Split(Join(xs, [c] + pad), seps);
      && |r| == |xs| && r[0] == xs[0]
      && forall k :: 1 <= k < |xs| ==> r[k] == pad + xs[k]
  {
    if |xs| == 1 {
      SplitPrefix(xs[0], "", seps);
      assert xs[0] + "" == xs[0];
    } else {
      var tail := Join(xs[1..], [c] + pad);
      assert Join(xs, [c] + pad) == xs[0] + [c] + (pad + tail);
      SplitAtSeparator(xs[0], c, pad + tail, seps);
      SplitJoin(xs[1..], c, pad, seps);
      SplitPrefix(pad, tail, seps);
      var t := Split(tail, seps);
      var r := Split(Join(xs, [c] + pad), seps);
      assert r == [xs[0]] + ([pad + t[0]] + t[1..]);
      forall k | 1 <= k < |xs| ensures r[k] == pad + xs[k] {
        if k > 1 {
          assert r[k] == t[k - 1] == pad + xs[1..][k - 1];
        }
      }
    }
  }

  // ---------------------------------------------------------------------------
  // Decimal rendering of integers (Number.prototype.toString for integers)
  // ---------------------------------------------------------------------------

  function Digit(d: nat): char
    requires d < 10
  {
    ('0' as int + d) as char
  }

  predicate IsDigit(c: char)
  {
    '0' <= c <= '9'
  }

  predicate AllDigits(s: string)
  {
    forall i :: 0 <= i < |s| ==> IsDigit(s[i])
  }

  /** The decimal digits of n, with no leading zero. */
  function NatToDecimal(n: nat): (r: string)
    ensures |r| >= 1 && AllDigits(r)
    ensures r[0] == '0' ==> n == 0 && r == "0"
  {
    if n < 10 then [Digit(n)] else NatToDecimal(n / 10) + [Digit(n % 10)]
  }

  /** A template literal `${n}` for an integer n. */
  function IntToDecimal(n: int): string
  {
    if n < 0 then "-" + NatToDecimal(-n) else NatToDecimal(n)
  }

  /** Reads a string of decimal digits back as a number (the inverse of NatToDecimal). */
  function ParseDecimal(s: string): nat
    requires AllDigits(s)
  {
    if s == [] then 0 else 10 * ParseDecimal(s[..|s| - 1]) + (s[|s| - 1] as int - '0' as int)
  }

  lemma {:induction false} DecimalRoundTrip(n: nat)
    ensures ParseDecimal(NatToDecimal(n)) == n
  {
    if n >= 10 {
      var r := NatToDecimal(n);
      DecimalRoundTrip(n / 10);
      assert r[..|r| - 1] == NatToDecimal(n / 10);
    }
  }

  /** Distinct numbers render differently, so a timestamp suffix keeps names apart. */
  lemma DecimalInjective(m: nat, n: nat)
    requires NatToDecimal(m) == NatToDecimal(n)
    ensures m == n
  {
    DecimalRoundTrip(m);
    DecimalRoundTrip(n);
  }
}
