/** `_split_into_sentences` of src/ingestion/chunker.py:
    `re.compile(r"(?<=[.!?])\s+").split(text)`. A split point is a maximal run
    of whitespace whose first character follows `.`, `!` or `?`; the run is
    consumed and the mark stays with the sentence before it. */
module Segmenter {
  import opened PyStrings
  import opened Normalizer

  /** The look-behind class `[.!?]`. */
  predicate IsSentenceEnd(c: char) {
    c == '.' || c == '!' || c == '?'
  }

  /** Every whitespace character is a plain space with a non-whitespace
      character after it. Unlike `Normalized`, this survives dropping a prefix. */
  ghost predicate SingleSpaced(s: string) {
    && (forall i :: 0 <= i < |s| && IsSpace(s[i]) ==> s[i] == ' ' && i + 1 < |s|)
    && (forall i, j :: 0 <= i < j < |s| && j == i + 1 && IsSpace(s[i]) ==> !IsSpace(s[j]))
  }

  /** No whitespace character directly follows `.`, `!` or `?`. */
  predicate NoBoundaryInside(p: string) {
    forall i :: 0 < i < |p| && IsSpace(p[i]) ==> !IsSentenceEnd(p[i - 1])
  }

  predicate EndsSentence(p: string) {
    p != [] && IsSentenceEnd(p[|p| - 1])
  }

  /** The regular-expression scan: `piece` is the part of the current sentence
      read so far and `rest` the text not yet read. The look-behind sees the last
      character of `piece`; right after a split `piece` is empty and the
      character before is whitespace, so the look-behind fails there. */
  function SplitFrom(rest: string, piece: string): (pieces: seq<string>)
    ensures |pieces| >= 1
    decreases |rest|
  {
    if rest == [] then [piece]
    else if EndsSentence(piece) && IsSpace(rest[0]) then
      [piece] + SplitFrom(TrimStart(rest), [])
    else
      SplitFrom(rest[1..], piece + [rest[0]])
  }

  /** `_split_into_sentences(text)`. */
  function SplitSentences(text: string): (pieces: seq<string>)
    ensures |pieces| >= 1
  {
    SplitFrom(text, [])
  }

  lemma NormalizedIsSingleSpaced(s: string)
    requires Normalized(s)
    ensures SingleSpaced(s)
  {
    forall i | 0 <= i < |s| && IsSpace(s[i])
      ensures s[i] == ' ' && i + 1 < |s|
    {
      assert i + 1 < |s|;
    }
  }

  lemma JoinCons(x: string, tail: seq<string>)
    requires tail != []
    ensures Join([x] + tail) == x + " " + Join(tail)
  {
    assert ([x] + tail)[1..] == tail;
  }

  /** A single-spaced text that starts with whitespace is one space followed by
      a single-spaced text that does not. */
  lemma SingleSpacedAfterSpace(rest: string)
    requires SingleSpaced(rest) && rest != [] && IsSpace(rest[0])
    ensures rest == " " + rest[1..]
    ensures rest[1..] != [] && !IsSpace(rest[1..][0])
    ensures TrimStart(rest) == rest[1..]
  {
    assert rest[0] == ' ' && 1 < |rest|;
    assert !IsSpace(rest[1]);
    TrimStartOne(rest);
    assert [rest[0]] + rest[1..] == rest;
  }

  lemma SingleSpacedSuffix(rest: string)
    requires SingleSpaced(rest) && rest != []
    ensures SingleSpaced(rest[1..])
  {
    var t := rest[1..];
    forall i, j | 0 <= i < j < |t| && j == i + 1 && IsSpace(t[i])
      ensures !IsSpace(t[j])
    {
      assert t[i] == rest[i + 1] && t[j] == rest[j + 1];
    }
  }

  /** Away from a split point, the scan moves one character into the piece. */
  lemma SplitFromRead(rest: string, piece: string)
    requires rest != [] && !(EndsSentence(piece) && IsSpace(rest[0]))
    ensures SplitFrom(rest, piece) == SplitFrom(rest[1..], piece + [rest[0]])
  {
  }

  /** At a split point the piece read so far closes, and the single space
      after it becomes the separator `join` puts back. */
  lemma JoinAtBoundary(rest: string, piece: string)
    requires SingleSpaced(rest) && rest != [] && EndsSentence(piece) && IsSpace(rest[0])
    requires Join(SplitFrom(rest[1..], [])) == rest[1..]
    ensures Join(SplitFrom(rest, piece)) == piece + rest
  {
    var t := rest[1..];
    SingleSpacedAfterSpace(rest);
    var tail := SplitFrom(t, []);
    assert SplitFrom(rest, piece) == [piece] + tail;
    JoinCons(piece, tail);
    ConcatAssoc(piece, " ", t);
  }

  /** Away from a split point the character moves into the piece. */
  lemma JoinAfterRead(rest: string, piece: string)
    requires rest != [] && !(EndsSentence(piece) && IsSpace(rest[0]))
    requires Join(SplitFrom(rest[1..], piece + [rest[0]])) == piece + [rest[0]] + rest[1..]
    ensures Join(SplitFrom(rest, piece)) == piece + rest
  {
    SplitFromRead(rest, piece);
    assert [rest[0]] + rest[1..] == rest;
    ConcatAssoc(piece, [rest[0]], rest[1..]);
  }

  lemma {:induction false} SplitFromJoin(rest: string, piece: string)
    requires SingleSpaced(rest)
    ensures Join(SplitFrom(rest, piece)) == piece + rest
    decreases |rest|
  {
    if rest == [] {
      assert piece + rest == piece;
    } else if EndsSentence(piece) && IsSpace(rest[0]) {
      SingleSpacedSuffix(rest);
      SplitFromJoin(rest[1..], []);
      assert [] + rest[1..] == rest[1..];
      JoinAtBoundary(rest, piece);
    } else {
      SingleSpacedSuffix(rest);
      SplitFromJoin(rest[1..], piece + [rest[0]]);
      JoinAfterRead(rest, piece);
    }
  }

  /** Joining the sentences of a cleaned text with single spaces gives the text back. */
  lemma SplitSentencesJoin(text: string)
    requires Normalized(text)
    ensures Join(SplitSentences(text)) == text
  {
    NormalizedIsSingleSpaced(text);
    SplitFromJoin(text, []);
  }

  lemma {:induction false} SplitFromEnds(rest: string, piece: string)
    ensures forall k :: 0 <= k < |SplitFrom(rest, piece)| - 1 ==> EndsSentence(SplitFrom(rest, piece)[k])
    decreases |rest|
  {
    if rest == [] {
    } else if EndsSentence(piece) && IsSpace(rest[0]) {
      var tail := SplitFrom(TrimStart(rest), []);
      assert SplitFrom(rest, piece) == [piece] + tail;
      SplitFromEnds(TrimStart(rest), []);
    } else {
      SplitFromEnds(rest[1..], piece + [rest[0]]);
    }
  }

  /** Every sentence but the last ends in `.`, `!` or `?`. */
  lemma SplitSentencesEnds(text: string)
    ensures forall k :: 0 <= k < |SplitSentences(text)| - 1 ==> EndsSentence(SplitSentences(text)[k])
  {
    SplitFromEnds(text, []);
  }

  lemma {:induction false} SplitFromNoBoundaryInside(rest: string, piece: string)
    requires NoBoundaryInside(piece)
    ensures forall k :: 0 <= k < |SplitFrom(rest, piece)| ==> NoBoundaryInside(SplitFrom(rest, piece)[k])
    decreases |rest|
  {
    if rest == [] {
    } else if EndsSentence(piece) && IsSpace(rest[0]) {
      var tail := SplitFrom(TrimStart(rest), []);
      assert SplitFrom(rest, piece) == [piece] + tail;
      SplitFromNoBoundaryInside(TrimStart(rest), []);
    } else {
      var p := piece + [rest[0]];
      assert NoBoundaryInside(p) by {
        forall i | 0 < i < |p| && IsSpace(p[i]) ensures !IsSentenceEnd(p[i - 1]) {
          if i == |piece| {
            assert !EndsSentence(piece);
          } else {
            assert p[i] == piece[i] && p[i - 1] == piece[i - 1];
          }
        }
      }
      SplitFromNoBoundaryInside(rest[1..], p);
    }
  }

  /** No sentence holds a whitespace character right after `.`, `!` or `?`:
      every such place is a split point. */
  lemma SplitSentencesNoBoundaryInside(text: string)
    ensures forall k :: 0 <= k < |SplitSentences(text)| ==> NoBoundaryInside(SplitSentences(text)[k])
  {
    SplitFromNoBoundaryInside(text, []);
  }
}
