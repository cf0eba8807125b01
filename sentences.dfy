/**
 * The sentence splitter of the tokenizers: the successive matches of the default sentence
 * pattern `[^.?!\r\n]*[.?!\r\n]+\s*` found left to right, followed by whatever text is left
 * after the last match.
 */
module Sentences {
  import opened Wrappers
  import opened PyStr
  import opened CharTokenizer

  /** The characters that end a sentence: `. ? ! \r \n`. */
  const ENDERS: set<char> := {'.', '?', '!', '\r', '\n'}

  /**
   * The end of the match of the sentence pattern when the search resumes at `p`, or None
   * when the pattern matches nowhere in `s[p..]`. A match exists exactly when an ender
   * follows `p`, and then it starts at `p` itself (the leading class may match nothing):
   * the non-enders, the maximal run of enders, then the maximal run of whitespace.
   */
  function SentenceMatch(s: string, p: nat): (m: Option<nat>)
    requires p <= |s|
    ensures m.Some? ==> p < m.value <= |s|
  {
    var a := RunEnd(s, ENDERS, false, p);
    if a == |s| then None
    else
      var b := RunEnd(s, ENDERS, true, a);
      Some(b + LeadingWhitespace(s[b..]))
  }

  /** The sentences found from `p` on, the unmatched remainder (if non-empty) last. */
  function SentencesFrom(s: string, p: nat): seq<string>
    requires p <= |s|
    decreases |s| - p
  {
    match SentenceMatch(s, p)
    case None => if p < |s| then [s[p..]] else []
    case Some(e) => [s[p..e]] + SentencesFrom(s, e)
  }

  function Sentences(s: string): seq<string> {
    SentencesFrom(s, 0)
  }

  /** sentence_tokenizer: append each match, remember where it ended, then add the rest. */
  method SentenceTokenizer(input: string) returns (sentences: seq<string>)
    ensures sentences == Sentences(input)
  {
    sentences := [];
    var sentenceEndPos: nat := 0;
    var m := SentenceMatch(input, 0);
    while m.Some?
      invariant sentenceEndPos <= |input|
      invariant m == SentenceMatch(input, sentenceEndPos)
      invariant sentences + SentencesFrom(input, sentenceEndPos) == Sentences(input)
      decreases |input| - sentenceEndPos
    {
      var e := m.value;
      assert SentencesFrom(input, sentenceEndPos) == [input[sentenceEndPos..e]] + SentencesFrom(input, e);
      sentences := sentences + [input[sentenceEndPos..e]];
      sentenceEndPos := e;
      m := SentenceMatch(input, sentenceEndPos);
    }
    if sentenceEndPos < |input| {
      sentences := sentences + [input[sentenceEndPos..]];
    }
  }

  // ---------------------------------------------------------------------------
  // What the split promises

  /** The shape of one match: non-enders, at least one ender, then only whitespace. */
  predicate IsSentence(t: string) {
    exists a, b :: 0 <= a < b <= |t| && NoneIn(t[..a], ENDERS) && AllIn(t[a..b], ENDERS) && AllWhitespace(t[b..])
  }

  /** A matched sentence contains an ender. */
  lemma SentenceHasEnder(t: string)
    requires IsSentence(t)
    ensures exists i :: 0 <= i < |t| && t[i] in ENDERS
  {
    var a, b :| 0 <= a < b <= |t| && NoneIn(t[..a], ENDERS) && AllIn(t[a..b], ENDERS) && AllWhitespace(t[b..]);
    assert t[a..b][0] == t[a];
  }

  /** The text a match covers has the shape of a sentence; the match leaves no whitespace behind it. */
  lemma MatchIsSentence(s: string, p: nat)
    requires p <= |s| && SentenceMatch(s, p).Some?
    ensures IsSentence(s[p..SentenceMatch(s, p).value])
    ensures SentenceMatch(s, p).value < |s| ==> !IsWhitespace(s[SentenceMatch(s, p).value])
  {
    var a := RunEnd(s, ENDERS, false, p);
    var b := RunEnd(s, ENDERS, true, a);
    var n := LeadingWhitespace(s[b..]);
    var e := b + n;
    assert SentenceMatch(s, p).value == e;
    RunEndChars(s, ENDERS, false, p);
    RunEndChars(s, ENDERS, true, a);
    var t := s[p..e];
    assert p <= a < b <= e <= |s|;
    SliceOfSlice(s, p, e, p, a);
    SliceOfSlice(s, p, e, a, b);
    SliceOfSlice(s, p, e, b, e);
    assert s[b..e] == s[b..][..n];
    assert t[..a - p] == t[0..a - p];
    assert t[b - p..] == t[b - p..e - p];
  }

  lemma SliceOfSlice(s: string, p: nat, e: nat, x: nat, y: nat)
    requires p <= x <= y <= e <= |s|
    ensures s[p..e][x - p..y - p] == s[x..y]
  {
    var t := s[p..e];
    forall i | 0 <= i < y - x
      ensures t[x - p..y - p][i] == s[x..y][i]
    {
      assert t[x - p..y - p][i] == t[x - p + i] == s[x + i];
    }
  }

  /** Without a match, the rest of the text holds no ender. */
  lemma NoMatchNoEnder(s: string, p: nat)
    requires p <= |s| && SentenceMatch(s, p).None?
    ensures NoneIn(s[p..], ENDERS)
  {
    RunEndChars(s, ENDERS, false, p);
  }

  /** Joining the sentences gives back the text they came from. */
  lemma {:induction false} SentencesFromConcat(s: string, p: nat)
    requires p <= |s|
    ensures Concat(SentencesFrom(s, p)) == s[p..]
    decreases |s| - p
  {
    match SentenceMatch(s, p)
    case None =>
    case Some(e) =>
      var rest := SentencesFrom(s, e);
      SentencesFromConcat(s, e);
      assert ([s[p..e]] + rest)[1..] == rest;
      assert s[p..] == s[p..e] + s[e..];
  }

  /**
   * A list of pieces shaped as the splitter leaves them: each non-empty; each but the last
   * a sentence whose successor does not start with whitespace; the last a sentence or a
   * remainder without any ender.
   */
  predicate Segmented(r: seq<string>)
  {
    r == [] ||
    (&& r[0] != []
     && (|r| == 1 ==> IsSentence(r[0]) || NoneIn(r[0], ENDERS))
     && (|r| > 1 ==> IsSentence(r[0]) && r[1] != [] && !IsWhitespace(r[1][0]) && Segmented(r[1..])))
  }

  /** The pieces found from `p` are segmented, and the first starts with the character at `p`. */
  lemma {:induction false} SentencesFromSegmented(s: string, p: nat)
    requires p <= |s|
    ensures var r := SentencesFrom(s, p);
      && Segmented(r)
      && (p == |s| ==> r == [])
      && (p < |s| ==> |r| > 0 && r[0] != [] && r[0][0] == s[p])
    decreases |s| - p
  {
    match SentenceMatch(s, p)
    case None =>
      if p < |s| {
        NoMatchNoEnder(s, p);
      }
    case Some(e) =>
      var rest := SentencesFrom(s, e);
      assert SentencesFrom(s, p) == [s[p..e]] + rest;
      assert ([s[p..e]] + rest)[1..] == rest;
      SentencesFromSegmented(s, e);
      MatchIsSentence(s, p);
  }

  /** The segmented shape, stated piece by piece. */
  lemma {:induction false} SegmentedPieces(r: seq<string>)
    requires Segmented(r)
    ensures forall k :: 0 <= k < |r| ==> r[k] != []
    ensures forall k :: 0 <= k < |r| - 1 ==> IsSentence(r[k])
    ensures forall k :: 1 <= k < |r| ==> !IsWhitespace(r[k][0])
    ensures |r| > 0 ==> IsSentence(r[|r| - 1]) || NoneIn(r[|r| - 1], ENDERS)
  {
    if |r| > 1 {
      SegmentedPieces(r[1..]);
      forall k | 1 <= k < |r|
        ensures r[k] == r[1..][k - 1]
      {
      }
    }
  }

  /**
   * sentence_tokenizer splits losslessly into non-empty pieces. Every piece but the last is
   * a matched sentence, and no piece after the first starts with whitespace (the match
   * before it took it all). The last piece is a matched sentence or a remainder without
   * any ender.
   */
  lemma SentencesSplit(s: string)
    ensures var r := Sentences(s);
      && Concat(r) == s
      && (s == [] <==> r == [])
      && (forall k :: 0 <= k < |r| ==> r[k] != [])
      && (forall k :: 0 <= k < |r| - 1 ==> IsSentence(r[k]))
      && (forall k :: 1 <= k < |r| ==> !IsWhitespace(r[k][0]))
      && (|r| > 0 ==> IsSentence(r[|r| - 1]) || NoneIn(r[|r| - 1], ENDERS))
  {
    SentencesFromConcat(s, 0);
    SentencesFromSegmented(s, 0);
    SegmentedPieces(Sentences(s));
    assert s[0..] == s;
  }

  /** A text holding no ender is returned whole, as the remainder. */
  lemma NoEnderOnePiece(s: string)
    requires s != [] && NoneIn(s, ENDERS)
    ensures Sentences(s) == [s]
  {
    RunEndUnique(s, ENDERS, false, 0, |s|);
    assert s[0..] == s;
  }
}
