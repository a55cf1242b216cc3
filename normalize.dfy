/** `_clean_text` of src/ingestion/chunker.py: collapse whitespace runs, drop the
    space in front of `? . ! ,`, strip both ends. The two regular-expression
    passes are written as scans over the characters. */
module Normalizer {
  import opened PyStrings

  /** The class `[?.!,]`. */
  predicate IsPunct(c: char) {
    c == '?' || c == '.' || c == '!' || c == ','
  }

  /** Every whitespace character is a plain space. */
  predicate OnlyPlainSpaces(s: string) {
    forall i :: 0 <= i < |s| && IsSpace(s[i]) ==> s[i] == ' '
  }

  /** No two whitespace characters are adjacent. */
  predicate SpacesIsolated(s: string) {
    forall i :: 0 < i < |s| && IsSpace(s[i]) ==> !IsSpace(s[i - 1])
  }

  predicate NoSpaceBeforePunct(s: string) {
    forall i :: 0 < i < |s| && IsPunct(s[i]) ==> !IsSpace(s[i - 1])
  }

  predicate Trimmed(s: string) {
    s == [] || (!IsSpace(s[0]) && !IsSpace(s[|s| - 1]))
  }

  /** The shape of a cleaned text. */
  predicate Normalized(s: string) {
    OnlyPlainSpaces(s) && SpacesIsolated(s) && NoSpaceBeforePunct(s) && Trimmed(s)
  }

  lemma ConsPlain(x: char, t: string)
    ensures OnlyPlainSpaces(t) && (IsSpace(x) ==> x == ' ') ==> OnlyPlainSpaces([x] + t)
  {
  }

  lemma ConsIsolated(x: char, t: string)
    ensures SpacesIsolated(t) && (t != [] && IsSpace(t[0]) ==> !IsSpace(x)) ==> SpacesIsolated([x] + t)
  {
  }

  lemma ConsNoSpaceBeforePunct(x: char, t: string)
    ensures NoSpaceBeforePunct(t) && (t != [] && IsPunct(t[0]) ==> !IsSpace(x)) ==> NoSpaceBeforePunct([x] + t)
  {
  }

  lemma SuffixKeepsShape(s: string, lo: nat)
    requires lo <= |s|
    ensures OnlyPlainSpaces(s) ==> OnlyPlainSpaces(s[lo..])
    ensures SpacesIsolated(s) ==> SpacesIsolated(s[lo..])
    ensures NoSpaceBeforePunct(s) ==> NoSpaceBeforePunct(s[lo..])
  {
  }

  lemma PrefixKeepsShape(s: string, hi: nat)
    requires hi <= |s|
    ensures OnlyPlainSpaces(s) ==> OnlyPlainSpaces(s[..hi])
    ensures SpacesIsolated(s) ==> SpacesIsolated(s[..hi])
    ensures NoSpaceBeforePunct(s) ==> NoSpaceBeforePunct(s[..hi])
  {
  }

  lemma NonSpaceCons(x: char, t: string)
    ensures NonSpace([x] + t) == (if IsSpace(x) then [] else [x]) + NonSpace(t)
  {
    assert ([x] + t)[1..] == t;
  }

  /** `re.sub(r"\s+", " ", s)`: every maximal whitespace run becomes one space. */
  function CollapseWhitespace(s: string): (r: string)
    ensures OnlyPlainSpaces(r) && SpacesIsolated(r)
    ensures NonSpace(r) == NonSpace(s)
    ensures (r == []) == (s == [])
    ensures s != [] ==> (IsSpace(r[0]) <==> IsSpace(s[0]))
    ensures s != [] && !IsSpace(s[0]) ==> r[0] == s[0]
    decreases |s|
  {
    if s == [] then []
    else if IsSpace(s[0]) then
      TrimStartDropsSpace(s);
      var t := CollapseWhitespace(TrimStart(s));
      ConsPlain(' ', t);
      ConsIsolated(' ', t);
      NonSpaceCons(' ', t);
      [' '] + t
    else
      var t := CollapseWhitespace(s[1..]);
      ConsPlain(s[0], t);
      ConsIsolated(s[0], t);
      NonSpaceCons(s[0], t);
      NonSpaceCons(s[0], s[1..]);
      assert s == [s[0]] + s[1..];
      [s[0]] + t
  }

  /** Collapsing whitespace keeps every word boundary: the text splits into the
      same words before and after. */
  lemma {:induction false} CollapseKeepsWords(s: string)
    ensures Words(CollapseWhitespace(s)) == Words(s)
    decreases |s|
  {
    if s != [] && IsSpace(s[0]) {
      var t := TrimStart(s);
      assert t == TrimStart(s[1..]);
      CollapseKeepsWords(t);
      WordsTrimStart(s);
      var r := CollapseWhitespace(s);
      assert r[0] == ' ' && r[1..] == CollapseWhitespace(t);
    } else if s != [] {
      CollapseKeepsWords(s[1..]);
      WordsConsNonSpace(s[0], s[1..]);
      WordsConsNonSpace(s[0], CollapseWhitespace(s[1..]));
      assert s == [s[0]] + s[1..];
    }
  }

  /** The substitution works run by run: after a non-whitespace character the
      rest of the text is collapsed on its own. */
  lemma {:induction false} CollapseAppend(a: string, x: string)
    requires a == [] || !IsSpace(a[|a| - 1])
    ensures CollapseWhitespace(a + x) == CollapseWhitespace(a) + CollapseWhitespace(x)
    decreases |a|
  {
    var cx := CollapseWhitespace(x);
    if a == [] {
      assert a + x == x;
      assert [] + cx == cx;
    } else {
      var c, u := CollapseStep(a, x);
      CollapseAppend(u, x);
      ConcatAssoc([c], CollapseWhitespace(u), cx);
    }
  }

  /** One step of the scan over `a + x`, for `a` ending in a non-whitespace character. */
  lemma CollapseStep(a: string, x: string) returns (c: char, u: string)
    requires a != [] && !IsSpace(a[|a| - 1])
    ensures |u| < |a| && (u == [] || !IsSpace(u[|u| - 1]))
    ensures CollapseWhitespace(a + x) == [c] + CollapseWhitespace(u + x)
    ensures CollapseWhitespace(a) == [c] + CollapseWhitespace(u)
  {
    assert (a + x)[0] == a[0];
    if IsSpace(a[0]) {
      c, u := ' ', TrimStart(a);
      assert u == TrimStart(a[1..]);
      TrimStartAppend(a, x);
      TrimStartKeepsLast(a);
    } else {
      c, u := a[0], a[1..];
      AppendDrop(a, x, 1);
      assert u == [] || u[|u| - 1] == a[|a| - 1];
    }
  }

  /** A whitespace run in front of a word becomes one space. */
  lemma CollapseSpaceRun(w: string, b: string)
    requires w != [] && forall i :: 0 <= i < |w| ==> IsSpace(w[i])
    requires b == [] || !IsSpace(b[0])
    ensures CollapseWhitespace(w + b) == " " + CollapseWhitespace(b)
  {
    TrimStartSpaceRun(w, b);
    assert (w + b)[0] == w[0];
  }

  /** Collapsing keeps a final non-whitespace character last. */
  lemma {:induction false} CollapseEndsNonSpace(a: string)
    requires a != [] && !IsSpace(a[|a| - 1])
    ensures EndsWithChar(CollapseWhitespace(a), a[|a| - 1])
    decreases |a|
  {
    var last := a[|a| - 1];
    if IsSpace(a[0]) {
      var t := TrimStart(a);
      assert t == TrimStart(a[1..]);
      TrimStartKeepsLast(a);
      CollapseEndsNonSpace(t);
      assert CollapseWhitespace(a) == [' '] + CollapseWhitespace(t);
      EndsWithCons(' ', CollapseWhitespace(t), last);
    } else {
      var u := a[1..];
      if u != [] {
        assert u[|u| - 1] == last;
        CollapseEndsNonSpace(u);
      }
      assert CollapseWhitespace(a) == [a[0]] + CollapseWhitespace(u);
      EndsWithCons(a[0], CollapseWhitespace(u), last);
    }
  }

  /** `re.sub(r"\s([?.!,])", r"\1", s)`: scanning left to right, a whitespace
      character directly followed by one of `? . ! ,` is removed. */
  function DropSpaceBeforePunct(s: string): (r: string)
    ensures NonSpace(r) == NonSpace(s)
    ensures (r == []) == (s == [])
    ensures s != [] && !IsSpace(s[0]) ==> r[0] == s[0]
  {
    if |s| >= 2 && IsSpace(s[0]) && IsPunct(s[1]) then
      var t := DropSpaceBeforePunct(s[2..]);
      assert s == [s[0]] + ([s[1]] + s[2..]);
      NonSpaceCons(s[0], [s[1]] + s[2..]);
      NonSpaceCons(s[1], s[2..]);
      NonSpaceCons(s[1], t);
      [s[1]] + t
    else if s == [] then []
    else
      var t := DropSpaceBeforePunct(s[1..]);
      assert s == [s[0]] + s[1..];
      NonSpaceCons(s[0], s[1..]);
      NonSpaceCons(s[0], t);
      [s[0]] + t
  }

  /** Dropping those spaces keeps spaces plain and isolated, and when spaces
      were isolated to begin with, no space is left in front of `? . ! ,`. */
  lemma {:induction false} DropSpaceBeforePunctShape(s: string)
    ensures OnlyPlainSpaces(s) ==> OnlyPlainSpaces(DropSpaceBeforePunct(s))
    ensures SpacesIsolated(s) ==>
      SpacesIsolated(DropSpaceBeforePunct(s)) && NoSpaceBeforePunct(DropSpaceBeforePunct(s))
  {
    if |s| >= 2 && IsSpace(s[0]) && IsPunct(s[1]) {
      var t := DropSpaceBeforePunct(s[2..]);
      assert DropSpaceBeforePunct(s) == [s[1]] + t;
      DropSpaceBeforePunctShape(s[2..]);
      SuffixKeepsShape(s, 2);
      ConsPlain(s[1], t);
      ConsIsolated(s[1], t);
      ConsNoSpaceBeforePunct(s[1], t);
    } else if s != [] {
      var t := DropSpaceBeforePunct(s[1..]);
      assert DropSpaceBeforePunct(s) == [s[0]] + t;
      DropSpaceBeforePunctShape(s[1..]);
      SuffixKeepsShape(s, 1);
      if SpacesIsolated(s) && |s| >= 2 && IsSpace(s[0]) {
        assert !IsSpace(s[1]) && !IsPunct(s[1]);
        assert t[0] == s[1];
      }
      ConsPlain(s[0], t);
      ConsIsolated(s[0], t);
      ConsNoSpaceBeforePunct(s[0], t);
    }
  }

  /** One step of the scan over `a + x`, for `a` ending in a non-whitespace
      character: it emits `c` and resumes `k` characters on, inside `a`. */
  lemma DropStep(a: string, x: string) returns (c: char, k: nat)
    requires a != [] && !IsSpace(a[|a| - 1])
    ensures 1 <= k <= |a| && c == a[k - 1]
    ensures DropSpaceBeforePunct(a + x) == [c] + DropSpaceBeforePunct(a[k..] + x)
    ensures DropSpaceBeforePunct(a) == [c] + DropSpaceBeforePunct(a[k..])
  {
    var s := a + x;
    assert s[0] == a[0];
    assert |a| >= 2 ==> s[1] == a[1];
    if |a| >= 2 && IsSpace(a[0]) && IsPunct(a[1]) {
      c, k := a[1], 2;
    } else {
      c, k := a[0], 1;
    }
    AppendDrop(a, x, k);
  }

  /** The scan never carries a decision past a non-whitespace character, so
      the substitution works on the two sides of one independently. */
  lemma {:induction false} DropAppend(a: string, x: string)
    requires a == [] || !IsSpace(a[|a| - 1])
    ensures DropSpaceBeforePunct(a + x) == DropSpaceBeforePunct(a) + DropSpaceBeforePunct(x)
    decreases |a|
  {
    var dx := DropSpaceBeforePunct(x);
    if a == [] {
      assert a + x == x;
      assert DropSpaceBeforePunct(a) == [];
      assert [] + dx == dx;
    } else {
      var c, k := DropStep(a, x);
      var u := a[k..];
      assert u == [] || u[|u| - 1] == a[|a| - 1];
      DropAppend(u, x);
      ConcatAssoc([c], DropSpaceBeforePunct(u), dx);
    }
  }

  /** A space after a word is kept when `? . ! ,` does not follow it. */
  lemma DropKeepsSpace(a: string, b: string)
    requires a == [] || !IsSpace(a[|a| - 1])
    requires b == [] || !IsPunct(b[0])
    ensures DropSpaceBeforePunct(a + " " + b) == DropSpaceBeforePunct(a) + " " + DropSpaceBeforePunct(b)
  {
    var sb := " " + b;
    assert a + " " + b == a + sb;
    DropAppend(a, sb);
    assert sb[0] == ' ' && sb[1..] == b;
    assert |sb| >= 2 ==> sb[1] == b[0];
    var db := DropSpaceBeforePunct(b);
    assert DropSpaceBeforePunct(sb) == [' '] + db;
    ConcatAssoc(DropSpaceBeforePunct(a), " ", db);
  }

  /** A whitespace character after a word is removed when one of `? . ! ,` follows it. */
  lemma DropSpaceBeforeMark(a: string, c: char, p: char, b: string)
    requires a == [] || !IsSpace(a[|a| - 1])
    requires IsSpace(c) && IsPunct(p)
    ensures DropSpaceBeforePunct(a + [c, p] + b) == DropSpaceBeforePunct(a) + [p] + DropSpaceBeforePunct(b)
  {
    var m := [c, p] + b;
    assert a + [c, p] + b == a + m;
    DropAppend(a, m);
    assert m[0] == c && m[1] == p && m[2..] == b;
    var db := DropSpaceBeforePunct(b);
    assert DropSpaceBeforePunct(m) == [p] + db;
    ConcatAssoc(DropSpaceBeforePunct(a), [p], db);
  }

  /** The substitution keeps a final non-whitespace character last. */
  lemma {:induction false} DropEndsNonSpace(s: string)
    requires s != [] && !IsSpace(s[|s| - 1])
    ensures EndsWithChar(DropSpaceBeforePunct(s), s[|s| - 1])
    decreases |s|
  {
    var c, k := DropStep(s, []);
    var u := s[k..];
    if u != [] {
      assert u[|u| - 1] == s[|s| - 1];
      DropEndsNonSpace(u);
    }
    EndsWithCons(c, DropSpaceBeforePunct(u), s[|s| - 1]);
  }

  /** `strip()` keeps a contiguous part of its input. */
  lemma StripIsInfix(s: string) returns (lo: nat, hi: nat)
    ensures lo <= hi <= |s| && Strip(s) == s[lo..hi]
  {
    var left := TrimStart(s);
    var r := TrimEnd(left);
    lo, hi := |s| - |left|, |s| - |left| + |r|;
    assert r == left[..|r|];
  }

  lemma InfixKeepsShape(s: string, lo: nat, hi: nat)
    requires lo <= hi <= |s|
    ensures OnlyPlainSpaces(s) ==> OnlyPlainSpaces(s[lo..hi])
    ensures SpacesIsolated(s) ==> SpacesIsolated(s[lo..hi])
    ensures NoSpaceBeforePunct(s) ==> NoSpaceBeforePunct(s[lo..hi])
  {
    SuffixKeepsShape(s, lo);
    PrefixKeepsShape(s[lo..], hi - lo);
    assert s[lo..][..hi - lo] == s[lo..hi];
  }

  lemma StripTrimmed(s: string)
    ensures Trimmed(Strip(s))
  {
    var left := TrimStart(s);
    var r := TrimEnd(left);
    assert r != [] ==> r[0] == left[0];
  }

  /** `strip()` keeps the shape of what it keeps and removes whitespace at both ends. */
  lemma StripShape(s: string)
    ensures Trimmed(Strip(s))
    ensures OnlyPlainSpaces(s) ==> OnlyPlainSpaces(Strip(s))
    ensures SpacesIsolated(s) ==> SpacesIsolated(Strip(s))
    ensures NoSpaceBeforePunct(s) ==> NoSpaceBeforePunct(Strip(s))
    ensures NonSpace(Strip(s)) == NonSpace(s)
  {
    StripTrimmed(s);
    var lo, hi := StripIsInfix(s);
    InfixKeepsShape(s, lo, hi);
    TrimStartDropsSpace(s);
    TrimEndDropsSpace(TrimStart(s));
  }

  /** `_clean_text(text)`. */
  function CleanText(text: string): string {
    Strip(DropSpaceBeforePunct(CollapseWhitespace(text)))
  }

  /** A cleaned text has the shape `Normalized` describes and keeps every
      non-whitespace character of the input, in order. */
  lemma CleanTextShape(text: string)
    ensures Normalized(CleanText(text))
    ensures NonSpace(CleanText(text)) == NonSpace(text)
  {
    DropSpaceBeforePunctShape(CollapseWhitespace(text));
    StripShape(DropSpaceBeforePunct(CollapseWhitespace(text)));
  }

  /** Cleaning keeps every word boundary: a whitespace run between a word and a
      next word that does not start with `? . ! ,` becomes exactly one space,
      and the two sides are cleaned independently. */
  lemma CleanTextAroundSpace(a: string, w: string, b: string)
    requires a != [] && !IsSpace(a[|a| - 1])
    requires w != [] && forall i :: 0 <= i < |w| ==> IsSpace(w[i])
    requires b != [] && !IsSpace(b[0]) && !IsPunct(b[0])
    ensures CleanText(a + w + b) == CleanText(a) + " " + CleanText(b)
  {
    CollapseAroundSpace(a, w, b);
    CollapseEndsNonSpace(a);
    DropStripAroundSpace(CollapseWhitespace(a), CollapseWhitespace(b));
  }

  lemma CollapseAroundSpace(a: string, w: string, b: string)
    requires a != [] && !IsSpace(a[|a| - 1])
    requires w != [] && forall i :: 0 <= i < |w| ==> IsSpace(w[i])
    requires b != [] && !IsSpace(b[0])
    ensures CollapseWhitespace(a + w + b) == CollapseWhitespace(a) + " " + CollapseWhitespace(b)
  {
    assert a + w + b == a + (w + b);
    CollapseAppend(a, w + b);
    CollapseSpaceRun(w, b);
    ConcatAssoc(CollapseWhitespace(a), " ", CollapseWhitespace(b));
  }

  lemma DropStripAroundSpace(x: string, y: string)
    requires x != [] && !IsSpace(x[|x| - 1])
    requires y != [] && !IsSpace(y[0]) && !IsPunct(y[0])
    ensures Strip(DropSpaceBeforePunct(x + " " + y))
         == Strip(DropSpaceBeforePunct(x)) + " " + Strip(DropSpaceBeforePunct(y))
  {
    DropKeepsSpace(x, y);
    DropEndsNonSpace(x);
    StripAroundSpace(DropSpaceBeforePunct(x), DropSpaceBeforePunct(y));
  }

  /** The cleaned text is empty exactly when the input is all whitespace. */
  lemma CleanTextEmptyIff(text: string)
    ensures CleanText(text) == [] <==> forall i :: 0 <= i < |text| ==> IsSpace(text[i])
  {
    var r := CleanText(text);
    CleanTextShape(text);
    NonSpaceEmpty(text);
    NonSpaceEmpty(r);
  }

  lemma CollapseKeepsSpace(s: string)
    requires s != [] && s[0] == ' ' && (|s| > 1 ==> !IsSpace(s[1]))
    requires CollapseWhitespace(s[1..]) == s[1..]
    ensures CollapseWhitespace(s) == s
  {
    var t := s[1..];
    assert IsSpace(s[0]);
    assert t != [] ==> t[0] == s[1];
    assert TrimStart(t) == t;
    assert TrimStart(s) == t;
    assert CollapseWhitespace(s) == [' '] + t;
    assert [s[0]] + t == s;
  }

  lemma CollapseKeepsChar(s: string)
    requires s != [] && !IsSpace(s[0])
    requires CollapseWhitespace(s[1..]) == s[1..]
    ensures CollapseWhitespace(s) == s
  {
    assert [s[0]] + s[1..] == s;
  }

  lemma {:induction false} CollapseFixedPoint(s: string)
    requires OnlyPlainSpaces(s) && SpacesIsolated(s)
    ensures CollapseWhitespace(s) == s
    decreases |s|
  {
    if s != [] {
      SuffixKeepsShape(s, 1);
      CollapseFixedPoint(s[1..]);
      if IsSpace(s[0]) {
        CollapseKeepsSpace(s);
      } else {
        CollapseKeepsChar(s);
      }
    }
  }

  lemma {:induction false} DropFixedPoint(s: string)
    requires NoSpaceBeforePunct(s)
    ensures DropSpaceBeforePunct(s) == s
  {
    if s != [] {
      assert |s| >= 2 && IsSpace(s[0]) ==> !IsPunct(s[1]);
      DropFixedPoint(s[1..]);
    }
  }

  /** Cleaning leaves a cleaned text as it is, so `_clean_text` is idempotent. */
  lemma CleanTextFixedPoint(s: string)
    requires Normalized(s)
    ensures CleanText(s) == s
  {
    CollapseFixedPoint(s);
    DropFixedPoint(s);
  }

  lemma CleanTextIdempotent(text: string)
    ensures CleanText(CleanText(text)) == CleanText(text)
  {
    CleanTextShape(text);
    CleanTextFixedPoint(CleanText(text));
  }
}
