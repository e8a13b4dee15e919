/** The Python string operations both engines rely on, over `string` = `seq<char>`:
    `str.isspace`, `str.lower` (ASCII letters only), `str.strip`, `str.split()`, `str.join`,
    `str.replace`, `str.rfind`, the `in` substring test, `str.endswith`, `str(n)` and slicing `s[:n]`. */
module Text {

  function Min(a: int, b: int): int { if a <= b then a else b }

  /** Appending is associative; stated for any element type so that sequences of strings are not
      compared character by character. */
  lemma AppendAssoc<T>(a: seq<T>, b: seq<T>, c: seq<T>)
    ensures a + (b + c) == (a + b) + c
  {
  }

  lemma HeadTail<T>(s: seq<T>)
    requires s != []
    ensures [s[0]] + s[1..] == s
  {
  }

  lemma TakeSnoc<T>(s: seq<T>, j: nat)
    requires j < |s|
    ensures s[..j + 1] == s[..j] + [s[j]]
    ensures s[..j + 1][..j] == s[..j]
  {
  }

  lemma NotInDrop<T>(x: T, s: seq<T>, a: nat, b: nat)
    requires a <= b <= |s| && x !in s[a..]
    ensures x !in s[b..]
  {
    assert s[b..] == s[a..][b - a..];
  }

  lemma SliceParts<T>(t: seq<T>, a: nat, b: nat)
    requires a <= b <= |t|
    ensures t[..a] + t[a..b] + t[b..] == t
  {
  }

  /** The characters Python's `str.isspace` accepts (and `strip`/`split` remove). */
  predicate IsSpace(c: char) {
    var n := c as int;
    n == 0x20 || 0x09 <= n <= 0x0D || 0x1C <= n <= 0x1F || n == 0x85 || n == 0xA0 || n == 0x1680
    || 0x2000 <= n <= 0x200A || n == 0x2028 || n == 0x2029 || n == 0x202F || n == 0x205F || n == 0x3000
  }

  predicate AllSpace(s: string) {
    forall i :: 0 <= i < |s| ==> IsSpace(s[i])
  }

  /** `str.lower` on one character, for the ASCII letters. */
  function LowerChar(c: char): (l: char)
    ensures 'A' <= c <= 'Z' ==> l as int == c as int + 32
    ensures !('A' <= c <= 'Z') ==> l == c
  {
    if 'A' <= c <= 'Z' then (c as int + 32) as char else c
  }

  function Lower(s: string): (l: string)
    ensures |l| == |s|
    ensures forall i :: 0 <= i < |s| ==> l[i] == LowerChar(s[i])
  {
    seq(|s|, i requires 0 <= i < |s| => LowerChar(s[i]))
  }

  // ---------- prefixes, suffixes and the `in` test ----------

  predicate IsPrefix(p: string, s: string) {
    |p| <= |s| && s[..|p|] == p
  }

  /** `s.endswith(suffix)` */
  predicate EndsWith(s: string, suffix: string) {
    |suffix| <= |s| && s[|s| - |suffix|..] == suffix
  }

  /** Python's `w in s` for strings: `w` occurs in `s` as a contiguous run. */
  function IsSubstring(w: string, s: string): (found: bool)
    ensures found ==> |w| <= |s|
    decreases |s|
  {
    IsPrefix(w, s) || (s != [] && IsSubstring(w, s[1..]))
  }

  lemma {:induction false} SubstringAppend(w: string, s: string, q: string)
    requires IsSubstring(w, s)
    ensures IsSubstring(w, s + q)
    decreases |s|
  {
    if IsPrefix(w, s) {
      assert (s + q)[..|w|] == s[..|w|];
    } else {
      SubstringAppend(w, s[1..], q);
      assert (s + q)[1..] == s[1..] + q;
    }
  }

  lemma {:induction false} SubstringPrepend(w: string, p: string, s: string)
    requires IsSubstring(w, s)
    ensures IsSubstring(w, p + s)
    decreases |p|
  {
    if p == [] {
      assert p + s == s;
    } else {
      SubstringPrepend(w, p[1..], s);
      assert (p + s)[1..] == p[1..] + s;
    }
  }

  /** Whatever is written around `w`, `w` is still in the result. */
  lemma SubstringWithin(w: string, a: string, b: string)
    ensures IsSubstring(w, a + w + b)
  {
    assert IsPrefix(w, w + b);
    SubstringPrepend(w, a, w + b);
    assert a + (w + b) == a + w + b;
  }

  /** A word that is found occurs at some position of `s`. */
  lemma {:induction false} SubstringAt(w: string, s: string) returns (i: nat)
    requires IsSubstring(w, s)
    ensures i + |w| <= |s| && s[i..i + |w|] == w
    decreases |s|
  {
    if IsPrefix(w, s) {
      i := 0;
    } else {
      var j := SubstringAt(w, s[1..]);
      assert s[1..][j..j + |w|] == s[j + 1..j + 1 + |w|];
      i := j + 1;
    }
  }

  /** The slice of `s` at any position is found in `s`; with `SubstringAt`, `w in s` holds
      exactly when `w` is the slice of `s` at some position. */
  lemma SubstringOfSlice(w: string, s: string, i: nat)
    requires i + |w| <= |s| && s[i..i + |w|] == w
    ensures IsSubstring(w, s)
  {
    SubstringWithin(w, s[..i], s[i + |w|..]);
    assert s[..i] + w + s[i + |w|..] == s;
  }

  /** Every occurrence inside `s` is also an occurrence inside `p + s + q`. */
  lemma SubstringInside(w: string, p: string, s: string, q: string)
    requires IsSubstring(w, s)
    ensures IsSubstring(w, p + s + q)
  {
    SubstringAppend(w, s, q);
    SubstringPrepend(w, p, s + q);
    assert p + (s + q) == p + s + q;
  }

  // ---------- rfind ----------

  /** `s.rfind(c)`: the index of the last `c` in `s`, or -1 when there is none. */
  function RFind(s: string, c: char): (r: int)
    ensures -1 <= r < |s|
    decreases |s|
  {
    if s == [] then -1
    else if s[|s| - 1] == c then |s| - 1
    else RFind(s[..|s| - 1], c)
  }

  /** -1 exactly when `c` does not occur; otherwise an occurrence of `c` after which `c` does not
      occur again. */
  lemma {:induction false} RFindFacts(s: string, c: char)
    ensures RFind(s, c) == -1 <==> c !in s
    ensures RFind(s, c) >= 0 ==> s[RFind(s, c)] == c && c !in s[RFind(s, c) + 1..]
    decreases |s|
  {
    if s != [] && s[|s| - 1] != c {
      RFindFacts(s[..|s| - 1], c);
      assert s == s[..|s| - 1] + [s[|s| - 1]];
      var r := RFind(s, c);
      if r >= 0 {
        assert s[r + 1..] == s[..|s| - 1][r + 1..] + [s[|s| - 1]];
      }
    }
  }

  /** `rfind` finds the occurrence of `c` that no later character repeats. */
  lemma {:induction false} RFindAt(s: string, c: char, i: nat)
    requires i < |s| && s[i] == c
    requires forall j :: i < j < |s| ==> s[j] != c
    ensures RFind(s, c) == i
    decreases |s|
  {
    if i < |s| - 1 {
      RFindAt(s[..|s| - 1], c, i);
    }
  }

  lemma {:induction false} RFindNone(s: string, c: char)
    requires forall j :: 0 <= j < |s| ==> s[j] != c
    ensures RFind(s, c) == -1
    decreases |s|
  {
    if s != [] {
      RFindNone(s[..|s| - 1], c);
    }
  }

  /** The last `c` of `a + b` is in `b` when `b` holds one, and is `a`'s last `c` otherwise. */
  lemma {:induction false} RFindAppend(a: string, b: string, c: char)
    ensures RFind(a + b, c) == if c in b then |a| + RFind(b, c) else RFind(a, c)
    decreases |b|
  {
    if b == [] {
      assert a + b == a;
    } else {
      var b' := b[..|b| - 1];
      assert (a + b)[..|a + b| - 1] == a + b';
      assert b == b' + [b[|b| - 1]];
      RFindAppend(a, b', c);
    }
  }

  // ---------- strip ----------

  function LStrip(s: string): string
    decreases |s|
  {
    if s != [] && IsSpace(s[0]) then LStrip(s[1..]) else s
  }

  function RStrip(s: string): string
    decreases |s|
  {
    if s != [] && IsSpace(s[|s| - 1]) then RStrip(s[..|s| - 1]) else s
  }

  /** `s.lstrip()` drops exactly a whitespace prefix and stops at a non-whitespace character. */
  lemma {:induction false} LStripFacts(s: string)
    ensures var r := LStrip(s);
      |r| <= |s| && r == s[|s| - |r|..] && (r == [] || !IsSpace(r[0])) && AllSpace(s[..|s| - |r|])
    decreases |s|
  {
    if s != [] && IsSpace(s[0]) {
      LStripFacts(s[1..]);
      var r := LStrip(s);
      assert s[..|s| - |r|] == [s[0]] + s[1..][..|s| - 1 - |r|];
    }
  }

  /** `s.rstrip()` drops exactly a whitespace suffix and stops at a non-whitespace character. */
  lemma {:induction false} RStripFacts(s: string)
    ensures var r := RStrip(s);
      |r| <= |s| && r == s[..|r|] && (r == [] || !IsSpace(r[|r| - 1])) && AllSpace(s[|r|..])
    decreases |s|
  {
    if s != [] && IsSpace(s[|s| - 1]) {
      RStripFacts(s[..|s| - 1]);
      var r := RStrip(s);
      assert s[|r|..] == s[..|s| - 1][|r|..] + [s[|s| - 1]];
    }
  }

  /** `s.strip()`: the run of `s` between its leading and its trailing whitespace. */
  function Strip(s: string): string
  {
    LStrip(RStrip(s))
  }

  /** The stripped text is no longer than the text, begins and ends with non-whitespace, and is
      empty exactly when the text is all whitespace. */
  lemma StripFacts(s: string)
    ensures |Strip(s)| <= |s|
    ensures Strip(s) == [] || (!IsSpace(Strip(s)[0]) && !IsSpace(Strip(s)[|Strip(s)| - 1]))
    ensures Strip(s) == [] <==> AllSpace(s)
  {
    var t := RStrip(s);
    var r := LStrip(t);
    RStripFacts(s);
    LStripFacts(t);
    if r == [] {
      assert t[..|t|] == t;
      AllSpaceConcat(t, s[|t|..]);
      assert s == t + s[|t|..];
    } else {
      assert r[0] == t[|t| - |r|];
      assert r[|r| - 1] == t[|t| - 1];
    }
  }

  lemma AllSpaceConcat(a: string, b: string)
    requires AllSpace(a) && AllSpace(b)
    ensures AllSpace(a + b)
  {
    forall i | 0 <= i < |a + b| ensures IsSpace((a + b)[i]) {
      if i >= |a| { assert (a + b)[i] == b[i - |a|]; }
    }
  }

  lemma {:induction false} RStripFramed(p: string, b: string)
    requires p == [] || !IsSpace(p[|p| - 1])
    requires AllSpace(b)
    ensures RStrip(p + b) == p
    decreases |b|
  {
    if b == [] {
      assert p + b == p;
    } else {
      var s := p + b;
      assert s[|s| - 1] == b[|b| - 1];
      assert s[..|s| - 1] == p + b[..|b| - 1];
      RStripFramed(p, b[..|b| - 1]);
    }
  }

  lemma {:induction false} LStripFramed(a: string, q: string)
    requires AllSpace(a)
    requires q == [] || !IsSpace(q[0])
    ensures LStrip(a + q) == q
    decreases |a|
  {
    if a == [] {
      assert a + q == q;
    } else {
      assert (a + q)[1..] == a[1..] + q;
      LStripFramed(a[1..], q);
    }
  }

  /** Stripping removes exactly the whitespace framing a run whose ends are not whitespace;
      in particular `Strip` is idempotent. */
  lemma StripFramed(a: string, x: string, b: string)
    requires AllSpace(a) && AllSpace(b)
    requires x == [] || (!IsSpace(x[0]) && !IsSpace(x[|x| - 1]))
    ensures Strip(a + x + b) == x
  {
    if x == [] {
      assert a + x + b == [] + (a + b);
      RStripFramed([], a + b);
    } else {
      assert a + x + b == (a + x) + b;
      assert (a + x)[|a + x| - 1] == x[|x| - 1];
      RStripFramed(a + x, b);
      LStripFramed(a, x);
    }
  }

  /** `Strip(w)` is a run of `w`: what it drops lies before and after it. */
  lemma StripParts(w: string) returns (a: string, b: string)
    ensures w == a + Strip(w) + b
  {
    var r := RStrip(w);
    var l := LStrip(r);
    RStripFacts(w);
    LStripFacts(r);
    a, b := r[..|r| - |l|], w[|r|..];
    assert r == a + l;
    assert w == r + b;
  }

  lemma SubstringOfPart(w: string, p: string, q: string, a: string, l: string, b: string)
    requires w == a + l + b
    ensures IsSubstring(l, p + w + q)
  {
    SubstringWithin(l, p + a, b + q);
    assert p + a + l + (b + q) == p + w + q;
  }

  /** The stripped text is found wherever the text is. */
  lemma StripInside(w: string, p: string, q: string)
    ensures IsSubstring(Strip(w), p + w + q)
  {
    var a, b := StripParts(w);
    SubstringOfPart(w, p, q, a, Strip(w), b);
  }

  /** A stripped slice of a text is found in that text. */
  lemma StripOfSlice(t: string, a: nat, b: nat)
    requires a <= b <= |t|
    ensures IsSubstring(Strip(t[a..b]), t)
  {
    StripInside(t[a..b], t[..a], t[b..]);
    SliceParts(t, a, b);
  }

  lemma StripIdempotent(s: string)
    ensures Strip(Strip(s)) == Strip(s)
  {
    var r := Strip(s);
    StripFacts(s);
    StripFramed([], r, []);
    assert [] + r + [] == r;
  }

  // ---------- split ----------

  /** Length of the run of non-whitespace characters that starts `s`. */
  function WordLength(s: string): (n: nat)
    ensures n <= |s|
    ensures forall i :: 0 <= i < n ==> !IsSpace(s[i])
    ensures n < |s| ==> IsSpace(s[n])
    decreases |s|
  {
    if s == [] || IsSpace(s[0]) then 0 else 1 + WordLength(s[1..])
  }

  predicate IsWord(w: string) {
    w != [] && forall i :: 0 <= i < |w| ==> !IsSpace(w[i])
  }

  /** `s.split()`: the maximal runs of non-whitespace characters, in order. */
  function Words(s: string): (ws: seq<string>)
    ensures forall i :: 0 <= i < |ws| ==> IsWord(ws[i])
    decreases |s|
  {
    if s == [] then []
    else if IsSpace(s[0]) then Words(s[1..])
    else
      var n := WordLength(s);
      [s[..n]] + Words(s[n..])
  }

  /** `split()` gives no word exactly when the string is all whitespace. */
  lemma {:induction false} WordsEmptyIff(s: string)
    ensures Words(s) == [] <==> AllSpace(s)
    decreases |s|
  {
    if s != [] {
      WordsEmptyIff(s[1..]);
      assert forall i :: 1 <= i < |s| ==> s[i] == s[1..][i - 1];
    }
  }

  /** Leading whitespace is skipped. */
  lemma {:induction false} WordsAfterBlank(a: string, x: string)
    requires AllSpace(a)
    ensures Words(a + x) == Words(x)
    decreases |a|
  {
    if a == [] {
      assert a + x == x;
    } else {
      assert (a + x)[1..] == a[1..] + x;
      WordsAfterBlank(a[1..], x);
    }
  }

  /** After any whitespace, a word followed by nothing or by whitespace is the first word, and
      the rest is split on its own. With `WordsEmptyIff` this determines `split()`: every string
      is blank, or a blank run, a word, and a rest that is empty or starts with whitespace. */
  lemma WordsOfLeadingWord(a: string, w: string, r: string)
    requires AllSpace(a) && IsWord(w)
    requires r == [] || IsSpace(r[0])
    ensures Words(a + w + r) == [w] + Words(r)
  {
    WordsAfterBlank(a, w + r);
    WordsOfWord(w, r);
    assert a + (w + r) == a + w + r;
  }

  // ---------- join ----------

  /** `sep.join(xs)` */
  function Join(sep: string, xs: seq<string>): string
    decreases |xs|
  {
    if |xs| == 0 then ""
    else if |xs| == 1 then xs[0]
    else xs[0] + sep + Join(sep, xs[1..])
  }

  /** Splitting words joined by single spaces gives the words back. */
  lemma {:induction false} WordsOfJoin(ws: seq<string>)
    requires forall i :: 0 <= i < |ws| ==> IsWord(ws[i])
    ensures Words(Join(" ", ws)) == ws
    decreases |ws|
  {
    if |ws| == 1 {
      WordsOfWord(ws[0], "");
      assert ws[0] + "" == ws[0];
    } else if |ws| > 1 {
      var w, rest := ws[0], Join(" ", ws[1..]);
      assert forall i :: 0 <= i < |ws[1..]| ==> IsWord(ws[1..][i]) by {
        forall i | 0 <= i < |ws[1..]| ensures IsWord(ws[1..][i]) { assert ws[1..][i] == ws[i + 1]; }
      }
      WordsOfJoin(ws[1..]);
      WordsOfWord(w, " " + rest);
      AppendAssoc(w, " ", rest);
      WordsAfterSpace(rest);
      HeadTail(ws);
    }
  }

  lemma WordsAfterSpace(rest: string)
    ensures Words(" " + rest) == Words(rest)
  {
    assert (" " + rest)[1..] == rest;
  }

  /** A word followed by nothing or by whitespace is split off whole. */
  lemma {:induction false} WordsOfWord(w: string, rest: string)
    requires IsWord(w)
    requires rest == [] || IsSpace(rest[0])
    ensures Words(w + rest) == [w] + Words(rest)
  {
    var s := w + rest;
    WordLengthOfWord(w, rest);
    assert s[..|w|] == w && s[|w|..] == rest;
  }

  lemma {:induction false} WordLengthOfWord(w: string, rest: string)
    requires forall i :: 0 <= i < |w| ==> !IsSpace(w[i])
    requires rest == [] || IsSpace(rest[0])
    ensures WordLength(w + rest) == |w|
    decreases |w|
  {
    if w == [] {
      assert w + rest == rest;
    } else {
      assert (w + rest)[1..] == w[1..] + rest;
      WordLengthOfWord(w[1..], rest);
    }
  }

  /** Each element of a join is found in it. */
  lemma {:induction false} JoinContains(sep: string, xs: seq<string>, i: nat)
    requires i < |xs|
    ensures IsSubstring(xs[i], Join(sep, xs))
    decreases |xs|
  {
    if |xs| == 1 {
      SubstringWithin(xs[0], "", "");
      assert "" + xs[0] + "" == xs[0];
    } else if i == 0 {
      SubstringWithin(xs[0], "", sep + Join(sep, xs[1..]));
      assert "" + xs[0] + (sep + Join(sep, xs[1..])) == xs[0] + sep + Join(sep, xs[1..]);
    } else {
      JoinContains(sep, xs[1..], i - 1);
      SubstringInside(xs[i], xs[0] + sep, Join(sep, xs[1..]), "");
      assert xs[0] + sep + Join(sep, xs[1..]) + "" == xs[0] + sep + Join(sep, xs[1..]);
    }
  }

  // ---------- replace ----------

  /** `s.replace(pat, sub)` for a non-empty `pat`: occurrences are replaced from left to right,
      without overlap. */
  function Replace(s: string, pat: string, sub: string): (r: string)
    requires pat != []
    ensures |sub| <= |pat| ==> |r| <= |s|
    ensures forall c :: c in r ==> c in s || c in sub
    ensures |pat| == 1 && pat[0] !in sub ==> pat[0] !in r
    decreases |s|
  {
    if IsPrefix(pat, s) then
      var r := Replace(s[|pat|..], pat, sub);
      assert forall c :: c in s[|pat|..] ==> c in s;
      sub + r
    else if s == [] then []
    else
      var r := Replace(s[1..], pat, sub);
      assert forall c :: c in s[1..] ==> c in s;
      [s[0]] + r
  }

  /** Nothing to replace leaves the string as it was. */
  lemma {:induction false} ReplaceAbsent(s: string, pat: string, sub: string)
    requires pat != []
    requires !IsSubstring(pat, s)
    ensures Replace(s, pat, sub) == s
    decreases |s|
  {
    if s != [] {
      ReplaceAbsent(s[1..], pat, sub);
      assert s == [s[0]] + s[1..];
    }
  }

  /** Replacing one character by another maps the string position by position. */
  lemma {:induction false} ReplaceChar(s: string, c: char, d: char)
    ensures |Replace(s, [c], [d])| == |s|
    ensures forall i :: 0 <= i < |s| ==> Replace(s, [c], [d])[i] == if s[i] == c then d else s[i]
    decreases |s|
  {
    if s != [] {
      ReplaceChar(s[1..], c, d);
    }
  }

  // ---------- take, str(n) ----------

  /** `s[:n]` for `n >= 0` */
  function Take(s: string, n: nat): (r: string)
    ensures |r| == Min(n, |s|) && IsPrefix(r, s)
  {
    if |s| <= n then s else s[..n]
  }

  function Digit(d: nat): char
    requires d < 10
  {
    "0123456789"[d]
  }

  predicate IsDigit(c: char) { '0' <= c <= '9' }

  /** `str(n)` for a natural number: its decimal digits, with no leading zero. */
  function Decimal(n: nat): (s: string)
    ensures s != [] && forall i :: 0 <= i < |s| ==> IsDigit(s[i])
    ensures |s| > 1 ==> s[0] != '0'
    decreases n
  {
    if n < 10 then [Digit(n)] else Decimal(n / 10) + [Digit(n % 10)]
  }

  /** `int(s)` for a string of decimal digits. */
  function ParseDecimal(s: string): nat
    requires forall i :: 0 <= i < |s| ==> IsDigit(s[i])
    decreases |s|
  {
    if s == [] then 0
    else
      assert IsDigit(s[|s| - 1]);
      ParseDecimal(s[..|s| - 1]) * 10 + (s[|s| - 1] as int - '0' as int)
  }

  /** The citation numbers read back to the numbers written. */
  lemma {:induction false} DecimalRoundTrip(n: nat)
    ensures ParseDecimal(Decimal(n)) == n
    decreases n
  {
    var s := Decimal(n);
    if n >= 10 {
      DecimalRoundTrip(n / 10);
      assert s[..|s| - 1] == Decimal(n / 10);
    }
  }
}
