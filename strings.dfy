/** The parts of Python's `str` and list behaviour that the chunkers rely on:
    the whitespace class shared by `re`'s `\s`, `str.split()` and `str.strip()`,
    `str.split()` with no separator, `" ".join`, `lstrip`/`rstrip`, slicing with
    Python's clamping and negative indices, and `str()` of an integer. */
module PyStrings {

  /** Python's whitespace table (`str.isspace`, which `\s` in a `str` pattern
      and the separator-less `split`/`strip` also use), as inclusive ranges of
      code points, the plain space first. */
  function SpaceRange(k: nat): (int, int) {
    if k == 0 then (0x20, 0x20) else if k == 1 then (0x09, 0x0D) else if k == 2 then (0x1C, 0x1F)
    else if k == 3 then (0x85, 0x85) else if k == 4 then (0xA0, 0xA0) else if k == 5 then (0x1680, 0x1680)
    else if k == 6 then (0x2000, 0x200A) else if k == 7 then (0x2028, 0x2029)
    else if k == 8 then (0x202F, 0x202F) else if k == 9 then (0x205F, 0x205F) else (0x3000, 0x3000)
  }

  const SpaceRangeCount := 11

  /** Code point `n` lies in one of the ranges numbered `k` and up. */
  predicate InSpaceRanges(n: int, k: nat)
    decreases SpaceRangeCount - k
  {
    k < SpaceRangeCount && ((SpaceRange(k).0 <= n <= SpaceRange(k).1) || InSpaceRanges(n, k + 1))
  }

  predicate IsSpace(c: char) {
    InSpaceRanges(c as int, 0)
  }

  /** `s` is not empty and its last character is `c`. */
  predicate EndsWithChar(s: string, c: char) {
    s != [] && s[|s| - 1] == c
  }

  lemma EndsWithCons(c: char, t: string, last: char)
    requires EndsWithChar(t, last) || (t == [] && c == last)
    ensures EndsWithChar([c] + t, last)
  {
    if t != [] {
      assert ([c] + t)[|t|] == t[|t| - 1];
    }
  }

  /** What `str.split()` yields: non-empty runs of non-whitespace characters. */
  predicate IsWord(w: string) {
    |w| > 0 && forall i :: 0 <= i < |w| ==> !IsSpace(w[i])
  }

  predicate AllWords(ws: seq<string>) {
    forall k :: 0 <= k < |ws| ==> IsWord(ws[k])
  }

  lemma AllWordsAppend(a: seq<string>, b: seq<string>)
    requires AllWords(a) && AllWords(b)
    ensures AllWords(a + b)
  {
    assert forall k :: 0 <= k < |a + b| ==> (a + b)[k] == if k < |a| then a[k] else b[k - |a|];
  }

  /** The characters of `s` that are not whitespace, in order. */
  function NonSpace(s: string): (r: string)
    ensures |r| <= |s|
  {
    if s == [] then []
    else (if IsSpace(s[0]) then [] else [s[0]]) + NonSpace(s[1..])
  }

  lemma {:induction false} NonSpaceAppend(a: string, b: string)
    ensures NonSpace(a + b) == NonSpace(a) + NonSpace(b)
  {
    if a == [] {
      assert a + b == b;
    } else {
      var head: string := if IsSpace(a[0]) then [] else [a[0]];
      assert (a + b)[0] == a[0] && (a + b)[1..] == a[1..] + b;
      assert NonSpace(a + b) == head + NonSpace(a[1..] + b);
      NonSpaceAppend(a[1..], b);
      assert NonSpace(a) == head + NonSpace(a[1..]);
    }
  }

  lemma {:induction false} NonSpaceEmpty(s: string)
    ensures NonSpace(s) == [] <==> forall i :: 0 <= i < |s| ==> IsSpace(s[i])
  {
    if s != [] {
      NonSpaceEmpty(s[1..]);
      if !IsSpace(s[0]) {
        assert NonSpace(s)[0] == s[0];
      } else {
        assert forall i :: 1 <= i < |s| ==> s[i] == s[1..][i - 1];
      }
    }
  }

  /** `s.lstrip()`: drop the leading whitespace. */
  function TrimStart(s: string): (r: string)
    ensures |r| <= |s| && r == s[|s| - |r|..]
    ensures r == [] || !IsSpace(r[0])
  {
    if s != [] && IsSpace(s[0]) then
      var r := TrimStart(s[1..]);
      assert s[1..][|s| - 1 - |r|..] == s[|s| - |r|..];
      r
    else s
  }

  /** One whitespace character before a non-whitespace one: `lstrip` drops just it. */
  lemma TrimStartOne(s: string)
    requires |s| >= 2 && IsSpace(s[0]) && !IsSpace(s[1])
    ensures TrimStart(s) == s[1..]
  {
    assert s[1..][0] == s[1];
    assert TrimStart(s[1..]) == s[1..];
  }

  /** `lstrip` removes whitespace only. */
  lemma TrimStartDropsSpace(s: string)
    ensures forall i :: 0 <= i < |s| - |TrimStart(s)| ==> IsSpace(s[i])
    ensures NonSpace(TrimStart(s)) == NonSpace(s)
  {
    TrimStartPrefixIsSpace(s);
    TrimStartKeepsNonSpace(s);
  }

  lemma {:induction false} TrimStartPrefixIsSpace(s: string)
    ensures forall i :: 0 <= i < |s| - |TrimStart(s)| ==> IsSpace(s[i])
  {
    if s != [] && IsSpace(s[0]) {
      var t := s[1..];
      TrimStartPrefixIsSpace(t);
      assert TrimStart(s) == TrimStart(t);
      forall i | 1 <= i < |s| - |TrimStart(s)|
        ensures IsSpace(s[i])
      {
        assert s[i] == t[i - 1];
      }
    }
  }

  lemma {:induction false} TrimStartKeepsNonSpace(s: string)
    ensures NonSpace(TrimStart(s)) == NonSpace(s)
  {
    if s != [] && IsSpace(s[0]) {
      var t := s[1..];
      TrimStartKeepsNonSpace(t);
      assert TrimStart(s) == TrimStart(t);
      assert NonSpace(s) == [] + NonSpace(t);
    }
  }

  /** `lstrip` stops at the first non-whitespace character, so what follows
      a text ending in one is kept as it is. */
  lemma {:induction false} TrimStartAppend(a: string, x: string)
    requires a != [] && !IsSpace(a[|a| - 1])
    ensures TrimStart(a + x) == TrimStart(a) + x
  {
    assert (a + x)[0] == a[0];
    if IsSpace(a[0]) {
      assert (a + x)[1..] == a[1..] + x;
      TrimStartAppend(a[1..], x);
    }
  }

  /** `lstrip` of a whitespace run followed by a word start leaves just what follows. */
  lemma {:induction false} TrimStartSpaceRun(w: string, b: string)
    requires forall i :: 0 <= i < |w| ==> IsSpace(w[i])
    requires b == [] || !IsSpace(b[0])
    ensures TrimStart(w + b) == b
  {
    if w == [] {
      assert w + b == b;
    } else {
      assert (w + b)[0] == w[0];
      assert (w + b)[1..] == w[1..] + b;
      TrimStartSpaceRun(w[1..], b);
    }
  }

  /** `s.rstrip()`: drop the trailing whitespace. */
  function TrimEnd(s: string): (r: string)
    ensures |r| <= |s| && r == s[..|r|]
    ensures r == [] || !IsSpace(r[|r| - 1])
  {
    if s != [] && IsSpace(s[|s| - 1]) then
      var r := TrimEnd(s[..|s| - 1]);
      assert s[..|s| - 1][..|r|] == s[..|r|];
      r
    else s
  }

  /** Dropping a trailing whitespace character drops nothing `NonSpace` keeps. */
  lemma NonSpaceDropLast(s: string)
    requires s != [] && IsSpace(s[|s| - 1])
    ensures NonSpace(s[..|s| - 1]) == NonSpace(s)
  {
    var t := s[..|s| - 1];
    assert s == t + [s[|s| - 1]];
    NonSpaceAppend(t, [s[|s| - 1]]);
    assert NonSpace([s[|s| - 1]]) == [];
  }

  /** `rstrip` removes whitespace only. */
  lemma {:induction false} TrimEndDropsSpace(s: string)
    ensures forall i :: |TrimEnd(s)| <= i < |s| ==> IsSpace(s[i])
    ensures NonSpace(TrimEnd(s)) == NonSpace(s)
  {
    if s != [] && IsSpace(s[|s| - 1]) {
      var t := s[..|s| - 1];
      TrimEndDropsSpace(t);
      NonSpaceDropLast(s);
      assert forall i :: 0 <= i < |t| ==> t[i] == s[i];
    }
  }

  /** `rstrip` stops at the last non-whitespace character, so what precedes a
      text starting with one is kept as it is. */
  lemma {:induction false} TrimEndPrepend(x: string, b: string)
    requires b != [] && !IsSpace(b[0])
    ensures TrimEnd(x + b) == x + TrimEnd(b)
  {
    var s := x + b;
    assert s[|s| - 1] == b[|b| - 1];
    if IsSpace(b[|b| - 1]) {
      var b' := b[..|b| - 1];
      assert s[..|s| - 1] == x + b';
      assert b'[0] == b[0];
      TrimEndPrepend(x, b');
    }
  }

  /** `s.strip()`. */
  function Strip(s: string): string {
    TrimEnd(TrimStart(s))
  }

  /** `lstrip` keeps the last character when it is not whitespace. */
  lemma {:induction false} TrimStartKeepsLast(x: string)
    requires x != [] && !IsSpace(x[|x| - 1])
    ensures TrimStart(x) != [] && TrimStart(x)[|TrimStart(x)| - 1] == x[|x| - 1]
  {
    if IsSpace(x[0]) {
      var u := x[1..];
      assert u[|u| - 1] == x[|x| - 1];
      TrimStartKeepsLast(u);
    }
  }

  /** A text ending in a non-whitespace character has nothing for `rstrip` to
      remove once `lstrip` is done. */
  lemma StripOfWordEnd(x: string)
    requires x != [] && !IsSpace(x[|x| - 1])
    ensures Strip(x) == TrimStart(x)
    ensures Strip(x) != [] && Strip(x)[|Strip(x)| - 1] == x[|x| - 1]
  {
    TrimStartKeepsLast(x);
    var left := TrimStart(x);
    assert TrimEnd(left) == left;
  }

  /** A single space between two texts that end and start with a word
      survives `strip()`, which trims only the outer ends. */
  lemma StripAroundSpace(x: string, y: string)
    requires x != [] && !IsSpace(x[|x| - 1])
    requires y != [] && !IsSpace(y[0])
    ensures Strip(x + " " + y) == Strip(x) + " " + Strip(y)
  {
    StripOfWordEnd(x);
    var left := TrimStart(x);
    assert TrimStart(y) == y;
    assert TrimStart(x + " " + y) == (left + " ") + y by {
      assert x + " " + y == x + (" " + y);
      TrimStartAppend(x, " " + y);
      ConcatAssoc(left, " ", y);
    }
    TrimEndPrepend(left + " ", y);
  }

  /** Number of leading non-whitespace characters of `s`. */
  function WordLength(s: string): (n: nat)
    ensures n <= |s|
    ensures forall i :: 0 <= i < n ==> !IsSpace(s[i])
    ensures n < |s| ==> IsSpace(s[n])
  {
    if s == [] || IsSpace(s[0]) then 0 else 1 + WordLength(s[1..])
  }

  /** `s.split()`: the maximal runs of non-whitespace characters. */
  function Words(s: string): (ws: seq<string>)
    ensures AllWords(ws)
    decreases |s|
  {
    if s == [] then []
    else if IsSpace(s[0]) then Words(s[1..])
    else
      var n := WordLength(s);
      [s[..n]] + Words(s[n..])
  }

  /** `" ".join(xs)`. */
  function Join(xs: seq<string>): string {
    if |xs| == 0 then []
    else if |xs| == 1 then xs[0]
    else xs[0] + " " + Join(xs[1..])
  }

  lemma ConsSlices<T>(c: T, x: seq<T>, n: nat)
    requires n <= |x|
    ensures ([c] + x)[..1 + n] == [c] + x[..n]
    ensures ([c] + x)[1 + n..] == x[n..]
  {
  }

  lemma AppendDrop<T>(a: seq<T>, x: seq<T>, k: nat)
    requires k <= |a|
    ensures (a + x)[k..] == a[k..] + x
  {
  }

  lemma ConcatAssoc<T>(a: seq<T>, b: seq<T>, c: seq<T>)
    ensures a + (b + c) == (a + b) + c
  {
  }

  /** Concatenation of a list of lists, in order. */
  function Flatten<T>(xss: seq<seq<T>>): seq<T> {
    if xss == [] then [] else xss[0] + Flatten(xss[1..])
  }

  lemma {:induction false} FlattenAppend<T>(a: seq<seq<T>>, b: seq<seq<T>>)
    ensures Flatten(a + b) == Flatten(a) + Flatten(b)
  {
    if a == [] {
      assert a + b == b;
    } else {
      assert (a + b)[1..] == a[1..] + b;
      FlattenAppend(a[1..], b);
    }
  }

  lemma {:induction false} WordLengthOfWord(w: string, t: string)
    requires IsWord(w)
    requires t == [] || IsSpace(t[0])
    ensures WordLength(w + t) == |w|
  {
    if |w| > 1 {
      assert (w + t)[1..] == w[1..] + t;
      WordLengthOfWord(w[1..], t);
    } else {
      assert (w + t)[1..] == t;
    }
  }

  lemma {:induction false} WordLengthPrefix(a: string, t: string)
    requires t == [] || IsSpace(t[0])
    ensures WordLength(a + t) == WordLength(a)
  {
    if a != [] && !IsSpace(a[0]) {
      assert (a + t)[1..] == a[1..] + t;
      WordLengthPrefix(a[1..], t);
    }
  }

  /** A single space is a word boundary: splitting `a + " " + b` splits `a` and `b` apart. */
  lemma {:induction false} WordsAroundSpace(a: string, b: string)
    ensures Words(a + " " + b) == Words(a) + Words(b)
    decreases |a|
  {
    var s := a + " " + b;
    if a == [] {
      assert s[1..] == b;
    } else if IsSpace(a[0]) {
      assert s[1..] == a[1..] + " " + b;
      WordsAroundSpace(a[1..], b);
    } else {
      var n := WordLength(a);
      WordLengthPrefix(a, " " + b);
      assert s == a + (" " + b);
      assert s[..n] == a[..n];
      assert s[n..] == a[n..] + " " + b;
      WordsAroundSpace(a[n..], b);
    }
  }

  /** Leading whitespace separates nothing: `lstrip` keeps the words. */
  lemma {:induction false} WordsTrimStart(s: string)
    ensures Words(TrimStart(s)) == Words(s)
  {
    if s != [] && IsSpace(s[0]) {
      WordsTrimStart(s[1..]);
    }
  }

  lemma WordLengthCons(c: char, x: string)
    requires !IsSpace(c)
    ensures WordLength([c] + x) == 1 + WordLength(x)
  {
    assert ([c] + x)[0] == c && ([c] + x)[1..] == x;
  }

  /** The first word of `[c] + x`, for a non-whitespace `c`, is `c` followed by
      the leading non-whitespace characters of `x`. */
  lemma WordsConsStep(c: char, x: string)
    requires !IsSpace(c)
    ensures WordLength(x) <= |x|
    ensures Words([c] + x) == [[c] + x[..WordLength(x)]] + Words(x[WordLength(x)..])
  {
    var s := [c] + x;
    var n := WordLength(x);
    WordLengthCons(c, x);
    ConsSlices(c, x, n);
    var w, rest := s[..1 + n], s[1 + n..];
    assert Words(s) == [w] + Words(rest) by {
      assert s[0] == c;
    }
  }

  /** A non-whitespace character in front of a text starts a new word when the
      text is empty or starts with whitespace, and joins its first word otherwise. */
  lemma WordsConsNonSpace(c: char, x: string)
    requires !IsSpace(c)
    ensures x == [] || IsSpace(x[0]) ==> Words([c] + x) == [[c]] + Words(x)
    ensures x != [] && !IsSpace(x[0]) ==>
      Words(x) != [] && Words([c] + x) == [[c] + Words(x)[0]] + Words(x)[1..]
  {
    WordsConsStep(c, x);
    var n := WordLength(x);
    if n == 0 {
      assert [c] + x[..n] == [c];
      assert x[n..] == x;
    } else {
      assert Words(x) == [x[..n]] + Words(x[n..]);
    }
  }

  /** The words of each string of `ps`, in order. */
  function WordsOfEach(ps: seq<string>): seq<string> {
    if ps == [] then [] else Words(ps[0]) + WordsOfEach(ps[1..])
  }

  lemma {:induction false} WordsOfEachSnoc(ps: seq<string>, p: string)
    ensures WordsOfEach(ps + [p]) == WordsOfEach(ps) + Words(p)
  {
    if ps == [] {
      assert ([p])[1..] == [];
      assert ps + [p] == [p];
    } else {
      assert (ps + [p])[1..] == ps[1..] + [p];
      WordsOfEachSnoc(ps[1..], p);
    }
  }

  lemma WordsOfEachInit(ps: seq<string>)
    requires ps != []
    ensures WordsOfEach(ps) == WordsOfEach(ps[..|ps| - 1]) + Words(ps[|ps| - 1])
  {
    var init, last := ps[..|ps| - 1], ps[|ps| - 1];
    assert init + [last] == ps;
    WordsOfEachSnoc(init, last);
  }

  /** A text that starts with a non-whitespace character has a word. */
  lemma WordsOfNonSpaceStart(s: string)
    requires s != [] && !IsSpace(s[0])
    ensures Words(s) != []
  {
  }

  /** The pieces have a word between them exactly when one of them has one. */
  lemma {:induction false} WordsOfEachNonEmpty(ps: seq<string>)
    ensures WordsOfEach(ps) != [] <==> exists k :: 0 <= k < |ps| && Words(ps[k]) != []
  {
    if ps != [] {
      WordsOfEachNonEmpty(ps[1..]);
      assert forall k :: 0 < k < |ps| ==> ps[k] == ps[1..][k - 1];
    }
  }

  /** Splitting the space-joined pieces gives the words of each piece, in order. */
  lemma {:induction false} WordsOfJoin(ps: seq<string>)
    ensures Words(Join(ps)) == WordsOfEach(ps)
  {
    if |ps| == 1 {
      assert ps[1..] == [];
    } else if |ps| > 1 {
      WordsAroundSpace(ps[0], Join(ps[1..]));
      WordsOfJoin(ps[1..]);
    }
  }

  /** A word splits to itself. */
  lemma {:induction false} WordsOfWord(w: string)
    requires IsWord(w)
    ensures Words(w) == [w]
  {
    WordLengthOfWord(w, []);
    assert w + [] == w;
    assert w[|w|..] == [];
  }

  /** Round trip: `" ".join(ws).split() == ws` whenever every element is a word. */
  lemma {:induction false} WordsJoinRoundTrip(ws: seq<string>)
    requires AllWords(ws)
    ensures Words(Join(ws)) == ws
  {
    if |ws| == 1 {
      WordsOfWord(ws[0]);
    } else if |ws| > 1 {
      WordsAroundSpace(ws[0], Join(ws[1..]));
      WordsOfWord(ws[0]);
      WordsJoinRoundTrip(ws[1..]);
    }
  }

  function Min(a: int, b: int): int { if a < b then a else b }

  function Max(a: int, b: int): int { if a < b then b else a }

  /** Python's normalisation of one slice bound against a length `n`. */
  function SliceBound(i: int, n: nat): (b: nat)
    ensures b <= n
    ensures 0 <= i ==> b == Min(i, n)
  {
    if i < 0 then (if n + i < 0 then 0 else n + i) else Min(i, n)
  }

  /** `xs[i:j]`, with Python's clamping and negative indices. */
  function Slice<T>(xs: seq<T>, i: int, j: int): (r: seq<T>)
    ensures |r| <= |xs|
    ensures 0 <= i <= j ==> r == xs[Min(i, |xs|)..Min(j, |xs|)]
  {
    var lo := SliceBound(i, |xs|);
    var hi := SliceBound(j, |xs|);
    if lo < hi then xs[lo..hi] else []
  }

  /** Slicing after dropping the first `d` elements is slicing further along. */
  lemma SliceShift<T>(xs: seq<T>, d: nat, i: nat, j: nat)
    requires d <= |xs| && i <= j
    ensures Slice(xs[d..], i, j) == Slice(xs, i + d, j + d)
  {
    var ys := xs[d..];
    assert ys[Min(i, |ys|)..Min(j, |ys|)] == xs[Min(i + d, |xs|)..Min(j + d, |xs|)];
  }

  /** `xs[-k:]` for `k > 0`: the last `min(k, len(xs))` elements. */
  lemma SliceLast<T>(xs: seq<T>, k: int)
    requires k > 0
    ensures Slice(xs, -k, |xs|) == xs[|xs| - Min(k, |xs|)..]
  {
  }

  /** The decimal digit for `d`: `'0'` to `'9'`. */
  function DigitChar(d: nat): (c: char)
    requires d < 10
    ensures '0' <= c <= '9' && c as int - '0' as int == d
  {
    ('0' as int + d) as char
  }

  /** `str(n)` for a non-negative integer. */
  function NatToString(n: nat): (s: string)
    ensures |s| >= 1
    ensures n >= 10 ==> |s| >= 2
  {
    if n < 10 then [DigitChar(n)] else NatToString(n / 10) + [DigitChar(n % 10)]
  }

  /** `str(n)` for any integer. */
  function IntToString(n: int): string {
    if n < 0 then "-" + NatToString(-n) else NatToString(n)
  }

  /** Distinct numbers print differently. */
  lemma {:induction false} NatToStringInjective(a: nat, b: nat)
    requires NatToString(a) == NatToString(b)
    ensures a == b
  {
    var s := NatToString(a);
    if a < 10 && b < 10 {
      assert DigitChar(a) == s[0] == DigitChar(b);
    } else if a >= 10 && b >= 10 {
      var pa, pb := NatToString(a / 10), NatToString(b / 10);
      assert s == pa + [DigitChar(a % 10)] && s == pb + [DigitChar(b % 10)];
      assert pa == s[..|s| - 1] == pb;
      NatToStringInjective(a / 10, b / 10);
      assert DigitChar(a % 10) == s[|s| - 1] == DigitChar(b % 10);
    }
  }
}
