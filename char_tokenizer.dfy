/**
 * The token value and the character-class tokenizer of the SmartCompose utilities.
 *
 * A separator class and a delete class are the sets of characters that the
 * bracket expressions `[sep_chars]+` and `[del_chars]+` denote; the empty set
 * stands for an empty `sep_chars` / `del_chars` string.
 */
module CharTokenizer {
  import opened PyStr
  import opened Wrappers

  /** A word token or an intertoken (the separator text between tokens). */
  datatype Token = Token(text: string) {

    /** Token.is_punct: after removing whitespace, every character is punctuation. */
    predicate IsPunct() {
      AllIn(Concat(WhitespaceSplit(text)), PUNCTUATION)
    }

    /** Token.is_space: str.isspace(), false for the empty text. */
    predicate IsSpace() {
      |text| > 0 && AllWhitespace(text)
    }
  }

  /** is_punct holds exactly when each character is whitespace or punctuation (so also for ""). */
  lemma IsPunctCharacters(t: Token)
    ensures t.IsPunct() <==> forall i :: 0 <= i < |t.text| ==> IsWhitespace(t.text[i]) || t.text[i] in PUNCTUATION
  {
    var r := Concat(WhitespaceSplit(t.text));
    ConcatWhitespaceSplit(t.text);
    forall c ensures c in r <==> c in t.text && !IsWhitespace(c) {
      RemoveWhitespaceMembers(t.text, c);
    }
    if t.IsPunct() {
      forall i | 0 <= i < |t.text| && !IsWhitespace(t.text[i])
        ensures t.text[i] in PUNCTUATION
      {
        assert t.text[i] in r;
      }
    } else {
      var k :| 0 <= k < |r| && r[k] !in PUNCTUATION;
      assert r[k] in r;
      var i :| 0 <= i < |t.text| && t.text[i] == r[k];
      assert !(IsWhitespace(t.text[i]) || t.text[i] in PUNCTUATION);
    }
  }

  /** An all-whitespace token is also a punctuation token; the empty token is punctuation but not space. */
  lemma SpaceIsPunct(t: Token)
    ensures t.IsSpace() ==> t.IsPunct()
    ensures Token("").IsPunct() && !Token("").IsSpace()
  {
    IsPunctCharacters(t);
    IsPunctCharacters(Token(""));
  }

  // ---------------------------------------------------------------------------
  // Specification of the split into tokens and intertokens

  /** The end of the maximal run from `p` whose characters are in `cs` (inside) or outside it. */
  function RunEnd(s: string, cs: set<char>, inside: bool, p: nat): (q: nat)
    requires p <= |s|
    ensures p <= q <= |s|
    ensures q < |s| ==> (s[q] in cs) != inside
    decreases |s| - p
  {
    if p < |s| && (s[p] in cs) == inside then RunEnd(s, cs, inside, p + 1) else p
  }

  /** Every character of the run is inside (or outside) the class. */
  lemma {:induction false} RunEndChars(s: string, cs: set<char>, inside: bool, p: nat)
    requires p <= |s|
    ensures forall i :: p <= i < RunEnd(s, cs, inside, p) ==> (s[i] in cs) == inside
    decreases |s| - p
  {
    if p < |s| && (s[p] in cs) == inside {
      RunEndChars(s, cs, inside, p + 1);
    }
  }

  /** The run end is determined by where the run stops. */
  lemma {:induction false} RunEndUnique(s: string, cs: set<char>, inside: bool, p: nat, q: nat)
    requires p <= q <= |s|
    requires forall i :: p <= i < q ==> (s[i] in cs) == inside
    requires q < |s| ==> (s[q] in cs) != inside
    ensures RunEnd(s, cs, inside, p) == q
    decreases q - p
  {
    if p < q {
      RunEndUnique(s, cs, inside, p + 1, q);
    }
  }

  /**
   * Tokens and intertokens of `s` from index `p`, where `p` is the end of the text or starts
   * a token: a token (maximal run outside the class) followed by its intertoken (the
   * following maximal separator run, empty at the end of the text), repeatedly.
   */
  function Alternate(s: string, sep: set<char>, p: nat): (r: (seq<Token>, seq<Token>))
    requires p <= |s| && (p == |s| || s[p] !in sep)
    decreases |s| - p
  {
    if p == |s| then ([], [])
    else
      var w := RunEnd(s, sep, false, p);
      var e := RunEnd(s, sep, true, w);
      var rest := Alternate(s, sep, e);
      ([Token(s[p..w])] + rest.0, [Token(s[w..e])] + rest.1)
  }

  /** The split for a non-empty separator class: the leading separator run (maybe empty), then Alternate. */
  function Separate(s: string, sep: set<char>): (seq<Token>, seq<Token>)
  {
    var n := RunEnd(s, sep, true, 0);
    var rest := Alternate(s, sep, n);
    (rest.0, [Token(s[..n])] + rest.1)
  }

  /**
   * Every text with the delete class removed: piece for piece, none of the class is left,
   * no piece grows, and every other character of a piece is kept.
   */
  function DeleteAll(ts: seq<Token>, del: set<char>): (r: seq<Token>)
    ensures |r| == |ts|
    ensures forall i :: 0 <= i < |ts| ==> NoneIn(r[i].text, del) && |r[i].text| <= |ts[i].text|
    ensures forall i, c :: 0 <= i < |ts| ==> (c in r[i].text <==> c in ts[i].text && c !in del)
  {
    DeleteAllMembers(ts, del);
    seq(|ts|, i requires 0 <= i < |ts| => Token(Delete(ts[i].text, del)))
  }

  lemma DeleteAllMembers(ts: seq<Token>, del: set<char>)
    ensures forall i, c :: 0 <= i < |ts| ==> (c in Delete(ts[i].text, del) <==> c in ts[i].text && c !in del)
  {
    forall i | 0 <= i < |ts|
      ensures forall c :: c in Delete(ts[i].text, del) <==> c in ts[i].text && c !in del
    {
      forall c
        ensures c in Delete(ts[i].text, del) <==> c in ts[i].text && c !in del
      {
        DeleteMembers(ts[i].text, del, c);
      }
    }
  }

  /** The result of char_tokenizer(s, sep_chars, del_chars), as (tokens, intertokens). */
  function Tokenization(s: string, sep: set<char>, del: set<char>): (seq<Token>, seq<Token>)
  {
    var split := if sep == {} then ([Token(s)], []) else Separate(s, sep);
    if del == {} then split else (DeleteAll(split.0, del), DeleteAll(split.1, del))
  }

  /** tok[0]+inter[1]+tok[1]+inter[2]+… for two lists of equal length. */
  function InterleaveFrom(ts: seq<Token>, gs: seq<Token>): string
    requires |ts| == |gs|
  {
    if ts == [] then "" else ts[0].text + gs[0].text + InterleaveFrom(ts[1..], gs[1..])
  }

  /** inter[0]+tok[0]+inter[1]+…+tok[n-1]+inter[n]. */
  function Interleave(inters: seq<Token>, toks: seq<Token>): string
    requires |inters| == |toks| + 1
  {
    inters[0].text + InterleaveFrom(toks, inters[1..])
  }

  /** The laws that a split of `s` by a non-empty separator class obeys (see CharacterizationUnique). */
  predicate IsSplit(s: string, sep: set<char>, toks: seq<Token>, inters: seq<Token>) {
    && |inters| == |toks| + 1
    && Interleave(inters, toks) == s
    && (forall k :: 0 <= k < |toks| ==> toks[k].text != [] && NoneIn(toks[k].text, sep))
    && (forall k :: 0 < k < |toks| ==> inters[k].text != [])
    && (forall k :: 0 <= k < |inters| ==> AllIn(inters[k].text, sep))
  }

  /** The laws of IsSplit without the leading intertoken, for the text from a token on. */
  predicate AlternateLaws(t: string, sep: set<char>, ts: seq<Token>, gs: seq<Token>) {
    && |ts| == |gs| && InterleaveFrom(ts, gs) == t
    && (forall k :: 0 <= k < |ts| ==> ts[k].text != [] && NoneIn(ts[k].text, sep))
    && (forall k :: 0 <= k < |gs| - 1 ==> gs[k].text != [])
    && (forall k :: 0 <= k < |gs| ==> AllIn(gs[k].text, sep))
  }

  // ---------------------------------------------------------------------------
  // Properties of Alternate

  /** One step of Alternate from a token start `p`: the token ends at `w`, its intertoken at `e`. */
  lemma AlternateBounds(s: string, sep: set<char>, p: nat)
    requires p < |s| && s[p] !in sep
    ensures var w := RunEnd(s, sep, false, p); var e := RunEnd(s, sep, true, w);
      && p < w <= e <= |s| && (w < |s| ==> w < e)
      && Alternate(s, sep, p).0 == [Token(s[p..w])] + Alternate(s, sep, e).0
      && Alternate(s, sep, p).1 == [Token(s[w..e])] + Alternate(s, sep, e).1
  {
  }

  /** Alternate yields no pieces exactly at the end of the text. */
  lemma AlternateEmpty(s: string, sep: set<char>, p: nat)
    requires p <= |s| && (p == |s| || s[p] !in sep)
    ensures Alternate(s, sep, p).1 == [] <==> p == |s|
  {
  }

  /** Alternate splits the text from `p` into tokens and intertokens of equal number that rebuild it. */
  lemma {:induction false} AlternateRebuilds(s: string, sep: set<char>, p: nat)
    requires p <= |s| && (p == |s| || s[p] !in sep)
    ensures var r := Alternate(s, sep, p); |r.0| == |r.1| && InterleaveFrom(r.0, r.1) == s[p..]
    decreases |s| - p
  {
    if p < |s| {
      AlternateBounds(s, sep, p);
      var w := RunEnd(s, sep, false, p);
      var e := RunEnd(s, sep, true, w);
      AlternateRebuilds(s, sep, e);
      var rest := Alternate(s, sep, e);
      RebuildStep(s, p, w, e, Alternate(s, sep, p).0, Alternate(s, sep, p).1, rest.0, rest.1);
    } else {
      assert s[p..] == [];
    }
  }

  /** Putting the token `s[p..w]` and the intertoken `s[w..e]` before lists that rebuild `s[e..]` rebuilds `s[p..]`. */
  lemma RebuildStep(s: string, p: nat, w: nat, e: nat, ts: seq<Token>, gs: seq<Token>, ts': seq<Token>, gs': seq<Token>)
    requires p <= w <= e <= |s| && |ts'| == |gs'| && InterleaveFrom(ts', gs') == s[e..]
    requires ts == [Token(s[p..w])] + ts' && gs == [Token(s[w..e])] + gs'
    ensures |ts| == |gs| && InterleaveFrom(ts, gs) == s[p..]
  {
    assert ts[1..] == ts' && gs[1..] == gs';
    assert ts[0].text == s[p..w] && gs[0].text == s[w..e];
    assert InterleaveFrom(ts, gs) == s[p..w] + s[w..e] + s[e..];
    SliceThree(s, p, w, e);
  }

  /** The text from `p` is its three consecutive slices at `w` and `e`. */
  lemma SliceThree(s: string, p: nat, w: nat, e: nat)
    requires p <= w <= e <= |s|
    ensures s[p..w] + s[w..e] + s[e..] == s[p..]
  {
  }

  /** Tokens of Alternate are non-empty runs outside the class. */
  lemma {:induction false} AlternateTokens(s: string, sep: set<char>, p: nat)
    requires p <= |s| && (p == |s| || s[p] !in sep)
    ensures var r := Alternate(s, sep, p).0;
      forall k :: 0 <= k < |r| ==> r[k].text != [] && NoneIn(r[k].text, sep)
    decreases |s| - p
  {
    if p < |s| {
      AlternateBounds(s, sep, p);
      var w := RunEnd(s, sep, false, p);
      var e := RunEnd(s, sep, true, w);
      AlternateTokens(s, sep, e);
      RunEndChars(s, sep, false, p);
      assert NoneIn(s[p..w], sep) by {
        forall i | 0 <= i < w - p ensures s[p..w][i] !in sep {
          assert s[p..w][i] == s[p + i];
        }
      }
    }
  }

  /** Intertokens of Alternate are runs inside the class, and only the last one can be empty. */
  lemma {:induction false} AlternateIntertokens(s: string, sep: set<char>, p: nat)
    requires p <= |s| && (p == |s| || s[p] !in sep)
    ensures var r := Alternate(s, sep, p).1;
      && (forall k :: 0 <= k < |r| - 1 ==> r[k].text != [])
      && (forall k :: 0 <= k < |r| ==> AllIn(r[k].text, sep))
    decreases |s| - p
  {
    if p < |s| {
      AlternateBounds(s, sep, p);
      var w := RunEnd(s, sep, false, p);
      var e := RunEnd(s, sep, true, w);
      AlternateIntertokens(s, sep, e);
      AlternateEmpty(s, sep, e);
      RunEndChars(s, sep, true, w);
      assert AllIn(s[w..e], sep) by {
        forall i | 0 <= i < e - w ensures s[w..e][i] in sep {
          assert s[w..e][i] == s[w + i];
        }
      }
    }
  }

  /** Both facts about Alternate together: it obeys AlternateLaws. */
  lemma AlternateShape(s: string, sep: set<char>, p: nat)
    requires p <= |s| && (p == |s| || s[p] !in sep)
    ensures var r := Alternate(s, sep, p); AlternateLaws(s[p..], sep, r.0, r.1)
  {
    AlternateRebuilds(s, sep, p);
    AlternateTokens(s, sep, p);
    AlternateIntertokens(s, sep, p);
  }

  /** From a token start with no separator after it: one token and one empty intertoken, or nothing. */
  lemma AlternateNoSeparator(s: string, sep: set<char>, p: nat)
    requires p <= |s|
    requires forall i :: p <= i < |s| ==> s[i] !in sep
    ensures Alternate(s, sep, p) == if p == |s| then ([], []) else ([Token(s[p..])], [Token("")])
  {
    if p < |s| {
      RunEndChars(s, sep, false, p);
      RunEndUnique(s, sep, false, p, |s|);
      RunEndUnique(s, sep, true, |s|, |s|);
      AlternateBounds(s, sep, p);
      assert Alternate(s, sep, |s|) == ([], []);
      assert s[p..|s|] == s[p..];
      assert s[|s|..|s|] == "";
      assert Alternate(s, sep, p).0 == [Token(s[p..])];
      assert Alternate(s, sep, p).1 == [Token("")];
    }
  }

  /** Alternate at `p`, over the token `s[p..a]` and the separator run `s[a..b]` after it. */
  lemma AlternateStep(s: string, sep: set<char>, p: nat, a: nat, b: nat)
    requires p < a < b <= |s|
    requires forall i :: p <= i < a ==> s[i] !in sep
    requires forall i :: a <= i < b ==> s[i] in sep
    requires b < |s| ==> s[b] !in sep
    ensures Alternate(s, sep, p).0 == [Token(s[p..a])] + Alternate(s, sep, b).0
    ensures Alternate(s, sep, p).1 == [Token(s[a..b])] + Alternate(s, sep, b).1
  {
    RunEndUnique(s, sep, false, p, a);
    RunEndUnique(s, sep, true, a, b);
    AlternateBounds(s, sep, p);
  }

  /** Dropping the first token and intertoken keeps the laws, for the text after them. */
  lemma AlternateLawsTail(t: string, sep: set<char>, ts: seq<Token>, gs: seq<Token>)
    requires AlternateLaws(t, sep, ts, gs) && ts != []
    ensures var more := InterleaveFrom(ts[1..], gs[1..]);
      && t == ts[0].text + gs[0].text + more
      && AlternateLaws(more, sep, ts[1..], gs[1..])
      && (more == [] || more[0] !in sep)
      && (gs[0].text == [] ==> more == [])
  {
    if |ts| > 1 {
      InterleaveFromHead(ts[1..], gs[1..]);
    }
  }

  /** The interleaving starts with the first token. */
  lemma InterleaveFromHead(ts: seq<Token>, gs: seq<Token>)
    requires |ts| == |gs| && ts != [] && ts[0].text != []
    ensures var s := InterleaveFrom(ts, gs); s != [] && s[0] == ts[0].text[0]
  {
  }

  /**
   * The laws of AlternateLaws, located in `s`: from `p` on, each token and its intertoken
   * are the next slices of `s`, and the pieces end exactly at the end of `s`.
   */
  predicate Pieces(s: string, sep: set<char>, p: nat, ts: seq<Token>, gs: seq<Token>)
    decreases |ts|
  {
    && p <= |s| && |ts| == |gs|
    && if ts == [] then p == |s|
       else
         var a := p + |ts[0].text|;
         var b := a + |gs[0].text|;
         && b <= |s| && s[p..a] == ts[0].text && s[a..b] == gs[0].text
         && ts[0].text != [] && NoneIn(ts[0].text, sep) && AllIn(gs[0].text, sep)
         && (gs[0].text == [] ==> b == |s|)
         && Pieces(s, sep, b, ts[1..], gs[1..])
  }

  /** AlternateLaws of the text from `p` locate its pieces in `s`. */
  lemma {:induction false} LawsPieces(s: string, sep: set<char>, p: nat, ts: seq<Token>, gs: seq<Token>)
    requires p <= |s| && AlternateLaws(s[p..], sep, ts, gs)
    ensures Pieces(s, sep, p, ts, gs)
    decreases |ts|
  {
    if ts != [] {
      var w, g := ts[0].text, gs[0].text;
      var more := InterleaveFrom(ts[1..], gs[1..]);
      var a := p + |w|;
      var b := a + |g|;
      AlternateLawsTail(s[p..], sep, ts, gs);
      SlicesAt(s, p, w, g, more);
      LawsPieces(s, sep, b, ts[1..], gs[1..]);
    } else {
      assert s[p..] == [];
    }
  }

  /** Where three consecutive pieces of the text from `p` sit in `s`. */
  lemma SlicesAt(s: string, p: nat, w: string, g: string, more: string)
    requires p <= |s| && s[p..] == w + g + more
    ensures var a := p + |w|; var b := a + |g|;
      b <= |s| && s[p..a] == w && s[a..b] == g && s[b..] == more
  {
    assert forall i :: p <= i < |s| ==> s[i] == s[p..][i - p];
  }

  /** Under Pieces, the first token and intertoken are the two runs at `p`. */
  lemma PiecesHead(s: string, sep: set<char>, p: nat, ts: seq<Token>, gs: seq<Token>)
    requires Pieces(s, sep, p, ts, gs) && ts != []
    ensures var a := p + |ts[0].text|; var b := a + |gs[0].text|;
      && p < |s| && s[p] !in sep && b <= |s|
      && RunEnd(s, sep, false, p) == a && RunEnd(s, sep, true, a) == b
      && (b == |s| || s[b] !in sep)
      && Pieces(s, sep, b, ts[1..], gs[1..])
  {
    var w, g := ts[0].text, gs[0].text;
    var a := p + |w|;
    var b := a + |g|;
    assert forall i :: p <= i < a ==> s[i] == w[i - p];
    assert forall i :: a <= i < b ==> s[i] == g[i - a];
    RunEndUnique(s, sep, false, p, a);
    RunEndUnique(s, sep, true, a, b);
    if b < |s| {
      var ts', gs' := ts[1..], gs[1..];
      assert ts' != [];
      assert s[b] == ts'[0].text[0];
    }
  }

  /** A non-empty list is its first token, rebuilt from its text, followed by the rest. */
  lemma ConsBack(ts: seq<Token>, x: string, rest: seq<Token>)
    requires ts != [] && ts[0].text == x && ts[1..] == rest
    ensures [Token(x)] + rest == ts
  {
    assert ([Token(x)] + rest)[0] == ts[0];
  }

  /** Alternate at a token start whose token ends at `a` and whose intertoken ends at `b`. */
  lemma AlternateCons(s: string, sep: set<char>, p: nat, a: nat, b: nat)
    requires p < |s| && s[p] !in sep
    requires RunEnd(s, sep, false, p) == a && RunEnd(s, sep, true, a) == b
    ensures b <= |s| && (b == |s| || s[b] !in sep)
    ensures Alternate(s, sep, p) == ([Token(s[p..a])] + Alternate(s, sep, b).0, [Token(s[a..b])] + Alternate(s, sep, b).1)
  {
  }

  /** Pieces determine Alternate: any lists obeying them are the ones it returns. */
  lemma {:induction false} AlternateUnique(s: string, sep: set<char>, p: nat, ts: seq<Token>, gs: seq<Token>)
    requires p == |s| || (p < |s| && s[p] !in sep)
    requires Pieces(s, sep, p, ts, gs)
    ensures Alternate(s, sep, p) == (ts, gs)
    decreases |ts|
  {
    if ts != [] {
      var a := p + |ts[0].text|;
      var b := a + |gs[0].text|;
      PiecesHead(s, sep, p, ts, gs);
      AlternateUnique(s, sep, b, ts[1..], gs[1..]);
      AlternateCons(s, sep, p, a, b);
      ConsBack(ts, s[p..a], Alternate(s, sep, b).0);
      ConsBack(gs, s[a..b], Alternate(s, sep, b).1);
    } else {
      assert gs == [];
    }
  }

  // ---------------------------------------------------------------------------
  // Properties of the tokenization

  /** With a non-empty separator class and no delete class: one more intertoken than tokens, and they rebuild the input. */
  lemma RoundTrip(s: string, sep: set<char>)
    requires sep != {}
    ensures var (toks, inters) := Tokenization(s, sep, {});
      |inters| == |toks| + 1 && Interleave(inters, toks) == s
  {
    var n := RunEnd(s, sep, true, 0);
    AlternateRebuilds(s, sep, n);
    assert s == s[..n] + s[n..];
  }

  /** The tokenization obeys every law of IsSplit. */
  lemma TokenizationIsSplit(s: string, sep: set<char>)
    requires sep != {}
    ensures var (toks, inters) := Tokenization(s, sep, {}); IsSplit(s, sep, toks, inters)
  {
    var n := RunEnd(s, sep, true, 0);
    AlternateShape(s, sep, n);
    RoundTrip(s, sep);
    var (toks, inters) := Tokenization(s, sep, {});
    var rest := Alternate(s, sep, n);
    assert inters == [Token(s[..n])] + rest.1;
    RunEndChars(s, sep, true, 0);
    assert AllIn(s[..n], sep) by {
      forall i | 0 <= i < n ensures s[..n][i] in sep {
        assert s[..n][i] == s[i];
      }
    }
    forall k | 0 < k < |inters|
      ensures inters[k].text == rest.1[k - 1].text
    {
    }
  }

  /** Tokens are non-empty and hold no separator; inner intertokens are non-empty separator runs; the first and last are separator runs, possibly empty. */
  lemma PieceShapes(s: string, sep: set<char>)
    requires sep != {}
    ensures var (toks, inters) := Tokenization(s, sep, {});
      && (forall k :: 0 <= k < |toks| ==> toks[k].text != [] && NoneIn(toks[k].text, sep))
      && (forall k :: 0 < k < |inters| - 1 ==> inters[k].text != [] && AllIn(inters[k].text, sep))
      && |inters| >= 1
      && AllIn(inters[0].text, sep) && AllIn(inters[|inters| - 1].text, sep)
  {
    TokenizationIsSplit(s, sep);
  }

  /** An input starting with a token gets an empty first intertoken; one ending in a token gets an empty last intertoken. */
  lemma EmptyEndIntertokens(s: string, sep: set<char>)
    requires sep != {}
    ensures var (toks, inters) := Tokenization(s, sep, {});
      && (s != [] && s[0] !in sep ==> inters[0].text == "")
      && (s != [] && s[|s| - 1] !in sep ==> inters[|inters| - 1].text == "")
  {
    var (toks, inters) := Tokenization(s, sep, {});
    TokenizationIsSplit(s, sep);
    InterleaveSuffix(inters, toks);
    var last := inters[|inters| - 1].text;
    assert last != [] ==> s[|s| - 1] in sep by {
      if last != [] {
        assert s[|s| - |last|..] == last;
        assert s[|s| - 1] == last[|last| - 1];
      }
    }
    assert s != [] && s[0] !in sep ==> RunEnd(s, sep, true, 0) == 0;
  }

  /** The last intertoken is a suffix of the interleaving. */
  lemma InterleaveSuffix(inters: seq<Token>, toks: seq<Token>)
    requires |inters| == |toks| + 1
    ensures var s := Interleave(inters, toks); var last := inters[|inters| - 1].text;
      |last| <= |s| && s[|s| - |last|..] == last
  {
    if toks != [] {
      InterleaveSuffix(inters[1..], toks[1..]);
      var s := Interleave(inters, toks);
      assert s == inters[0].text + toks[0].text + Interleave(inters[1..], toks[1..]);
    }
  }

  /** An empty input with a non-empty separator class yields no token and one empty intertoken. */
  lemma EmptyInput(sep: set<char>, del: set<char>)
    requires sep != {}
    ensures Tokenization("", sep, del) == ([], [Token("")])
  {
    var e: string := [];
    assert RunEnd(e, sep, true, 0) == 0;
    assert Alternate(e, sep, 0) == ([], []);
    assert e[..0] == e;
    var split := Separate(e, sep);
    assert split.1 == [Token(e)] + [];
    if del != {} {
      assert Delete(e, del) == e;
      assert DeleteAll(split.1, del) == [Token(e)];
      assert DeleteAll(split.0, del) == [];
    }
    assert Tokenization(e, sep, del) == if del == {} then split else (DeleteAll(split.0, del), DeleteAll(split.1, del));
    assert e == "";
    assert Tokenization(e, sep, del).0 == [];
    assert Tokenization(e, sep, del).1 == [Token(e)];
  }

  /** With no separator class, the whole input is the one token, and there are no intertokens. */
  lemma NoSeparators(s: string, del: set<char>)
    ensures var (toks, inters) := Tokenization(s, {}, del);
      toks == [Token(Delete(s, del))] && inters == []
  {
    if del == {} {
      DeleteNone(s, del);
    }
  }

  /** A delete class keeps both list lengths and removes its characters from every piece, keeping the rest in order. */
  lemma DeleteClass(s: string, sep: set<char>, del: set<char>)
    ensures var (toks, inters) := Tokenization(s, sep, del);
      var (toks0, inters0) := Tokenization(s, sep, {});
      && |toks| == |toks0| && |inters| == |inters0|
      && (forall k :: 0 <= k < |toks| ==> toks[k].text == Delete(toks0[k].text, del) && NoneIn(toks[k].text, del))
      && (forall k :: 0 <= k < |inters| ==> inters[k].text == Delete(inters0[k].text, del) && NoneIn(inters[k].text, del))
  {
    var (toks, inters) := Tokenization(s, sep, del);
    var (toks0, inters0) := Tokenization(s, sep, {});
    if del == {} {
      forall k | 0 <= k < |toks| ensures toks[k].text == Delete(toks0[k].text, del) {
        DeleteNone(toks[k].text, del);
      }
      forall k | 0 <= k < |inters| ensures inters[k].text == Delete(inters0[k].text, del) {
        DeleteNone(inters[k].text, del);
      }
    }
  }

  /** IsSplit determines the split: any lists obeying its laws are the ones char_tokenizer returns. */
  lemma CharacterizationUnique(s: string, sep: set<char>, toks: seq<Token>, inters: seq<Token>)
    requires sep != {}
    requires IsSplit(s, sep, toks, inters)
    ensures (toks, inters) == Tokenization(s, sep, {})
  {
    var lead := inters[0].text;
    var rest := InterleaveFrom(toks, inters[1..]);
    var n := |lead|;
    assert s == lead + rest;
    assert rest == [] || rest[0] !in sep by {
      if toks != [] {
        InterleaveFromHead(toks, inters[1..]);
      }
    }
    assert s[..n] == lead && s[n..] == rest;
    assert forall i :: 0 <= i < n ==> s[i] == lead[i];
    RunEndUnique(s, sep, true, 0, n);
    LawsPieces(s, sep, n, toks, inters[1..]);
    AlternateUnique(s, sep, n, toks, inters[1..]);
    assert inters == [Token(lead)] + inters[1..];
  }

  // ---------------------------------------------------------------------------
  // The tokenizer as the source runs it: a scan over the separator matches

  /**
   * The next match of `[sep]+` at or after `from` (the regex match iterator's next):
   * the first separator character and the end of its maximal run.
   */
  function NextMatch(s: string, sep: set<char>, from: nat): (m: Option<(nat, nat)>)
    requires from <= |s|
    ensures m.None? ==> forall i :: from <= i < |s| ==> s[i] !in sep
    ensures m.Some? ==> var (a, b) := m.value;
      && from <= a < b <= |s|
      && (forall i :: from <= i < a ==> s[i] !in sep)
      && (forall i :: a <= i < b ==> s[i] in sep)
      && (b < |s| ==> s[b] !in sep)
    decreases |s| - from
  {
    if from == |s| then None
    else if s[from] in sep then RunEndChars(s, sep, true, from); Some((from, RunEnd(s, sep, true, from)))
    else NextMatch(s, sep, from + 1)
  }

  /** The separator scan of char_tokenizer: the first match, the loop over the others, and the leftover token. */
  method SplitOnSeparators(input: string, sep: set<char>) returns (tokens: seq<Token>, intertokens: seq<Token>)
    requires sep != {}
    ensures (tokens, intertokens) == Separate(input, sep)
  {
    tokens, intertokens := [], [];
    var prev: nat := 0;
    var first := NextMatch(input, sep, 0);
    if first.None? {
      // no match at all: one empty intertoken
      intertokens := [Token("")];
      ScanNone(input, sep);
    } else {
      var cur := first.value;
      // a first match that does not start the input follows an empty intertoken
      intertokens := if cur.0 != 0 then [Token("")] else [];
      ScanStart(input, sep, cur);
      tokens, intertokens, prev := ScanMatches(input, sep, tokens, intertokens, cur);
    }
    Leftover(input, sep, tokens, intertokens, prev);
    // the leftover after the last match is a token, followed by an empty intertoken
    if prev != |input| {
      tokens := tokens + [Token(input[prev..])];
      intertokens := intertokens + [Token("")];
    }
  }

  /**
   * The loop of the scan, from the match `first` on: each match adds the token before it
   * (none for a match at the very start) and itself as an intertoken; `prev` ends at the last match.
   */
  method ScanMatches(input: string, sep: set<char>, tokens0: seq<Token>, intertokens0: seq<Token>, first: (nat, nat))
    returns (tokens: seq<Token>, intertokens: seq<Token>, prev: nat)
    requires first.0 < first.1 <= |input|
    requires first.0 == 0 ==> tokens0 == [] && intertokens0 == []
    requires first.1 < |input| ==> input[first.1] !in sep
    requires ScanInvariant(input, sep, tokens0, intertokens0, 0, first)
    ensures prev <= |input|
    ensures forall i :: prev <= i < |input| ==> input[i] !in sep
    ensures Separate(input, sep).0 == tokens + Alternate(input, sep, prev).0
    ensures Separate(input, sep).1 == intertokens + Alternate(input, sep, prev).1
  {
    tokens, intertokens, prev := tokens0, intertokens0, 0;
    var cur := first;
    while true
      invariant prev <= cur.0 < cur.1 <= |input|
      invariant cur.0 == 0 ==> prev == 0 && tokens == [] && intertokens == []
      invariant cur.1 < |input| ==> input[cur.1] !in sep
      invariant ScanInvariant(input, sep, tokens, intertokens, prev, cur)
      decreases |input| - cur.0
    {
      ghost var (tokens1, intertokens1, prev1) := (tokens, intertokens, prev);
      // a match at the very start produces no token before it
      if cur.0 != 0 {
        tokens := tokens + [Token(input[prev..cur.0])];
      }
      intertokens := intertokens + [Token(input[cur.0..cur.1])];
      prev := cur.1;
      var next := NextMatch(input, sep, cur.1);
      if next.None? {
        ScanLast(input, sep, tokens1, intertokens1, prev1, cur);
        break;
      }
      var (a, b) := next.value;
      ScanStep(input, sep, tokens1, intertokens1, prev1, cur, a, b);
      cur := next.value;
    }
  }

  /** The loop invariant of the scan: what is emitted, the pending token and match, and Alternate after them make up the split. */
  predicate ScanInvariant(input: string, sep: set<char>, tokens: seq<Token>, intertokens: seq<Token>, prev: nat, cur: (nat, nat))
    requires prev <= cur.0 < cur.1 <= |input|
    requires cur.1 < |input| ==> input[cur.1] !in sep
  {
    var pending := if cur.0 != 0 then [Token(input[prev..cur.0])] else [];
    && Separate(input, sep).0 == tokens + pending + Alternate(input, sep, cur.1).0
    && Separate(input, sep).1 == intertokens + [Token(input[cur.0..cur.1])] + Alternate(input, sep, cur.1).1
  }

  /** Before any separator: the text holds none, and its separation starts with one empty intertoken. */
  lemma ScanNone(input: string, sep: set<char>)
    requires forall i :: 0 <= i < |input| ==> input[i] !in sep
    ensures Separate(input, sep).0 == [] + Alternate(input, sep, 0).0
    ensures Separate(input, sep).1 == [Token("")] + Alternate(input, sep, 0).1
  {
    RunEndUnique(input, sep, true, 0, 0);
    assert input[..0] == "";
  }

  /** The scan invariant holds at the first match `cur`. */
  lemma ScanStart(input: string, sep: set<char>, cur: (nat, nat))
    requires cur.0 < cur.1 <= |input|
    requires forall i :: 0 <= i < cur.0 ==> input[i] !in sep
    requires forall i :: cur.0 <= i < cur.1 ==> input[i] in sep
    requires cur.1 < |input| ==> input[cur.1] !in sep
    ensures ScanInvariant(input, sep, [], if cur.0 != 0 then [Token("")] else [], 0, cur)
  {
    if cur.0 != 0 {
      RunEndUnique(input, sep, true, 0, 0);
      AlternateStep(input, sep, 0, cur.0, cur.1);
      assert input[..0] == "";
    } else {
      RunEndUnique(input, sep, true, 0, cur.1);
      assert input[..cur.1] == input[cur.0..cur.1];
    }
  }

  /** One turn of the scan loop keeps its invariant. */
  lemma ScanStep(input: string, sep: set<char>, tokens: seq<Token>, intertokens: seq<Token>, prev: nat, cur: (nat, nat), a: nat, b: nat)
    requires prev <= cur.0 < cur.1 <= |input|
    requires cur.1 < |input| ==> input[cur.1] !in sep
    requires ScanInvariant(input, sep, tokens, intertokens, prev, cur)
    requires cur.1 < a < b <= |input|
    requires forall i :: cur.1 <= i < a ==> input[i] !in sep
    requires forall i :: a <= i < b ==> input[i] in sep
    requires b < |input| ==> input[b] !in sep
    ensures ScanInvariant(input, sep,
      tokens + (if cur.0 != 0 then [Token(input[prev..cur.0])] else []),
      intertokens + [Token(input[cur.0..cur.1])], cur.1, (a, b))
  {
    AlternateStep(input, sep, cur.1, a, b);
    var pending := if cur.0 != 0 then [Token(input[prev..cur.0])] else [];
    var sp := Separate(input, sep);
    var here, next := Alternate(input, sep, cur.1), Alternate(input, sep, b);
    Regroup(sp.0, tokens, pending, here.0, Token(input[cur.1..a]), next.0);
    Regroup(sp.1, intertokens, [Token(input[cur.0..cur.1])], here.1, Token(input[a..b]), next.1);
  }

  /** Moving the head of the rest into the finished part of a three-part list. */
  lemma Regroup<T>(all: seq<T>, done: seq<T>, pending: seq<T>, rest: seq<T>, head: T, tail: seq<T>)
    requires all == done + pending + rest && rest == [head] + tail
    ensures all == (done + pending) + [head] + tail
  {
  }

  /** The last turn of the scan loop: no separator follows the last match. */
  lemma ScanLast(input: string, sep: set<char>, tokens: seq<Token>, intertokens: seq<Token>, prev: nat, cur: (nat, nat))
    requires prev <= cur.0 < cur.1 <= |input|
    requires cur.1 < |input| ==> input[cur.1] !in sep
    requires ScanInvariant(input, sep, tokens, intertokens, prev, cur)
    ensures var tokens' := tokens + (if cur.0 != 0 then [Token(input[prev..cur.0])] else []);
      var intertokens' := intertokens + [Token(input[cur.0..cur.1])];
      && Separate(input, sep).0 == tokens' + Alternate(input, sep, cur.1).0
      && Separate(input, sep).1 == intertokens' + Alternate(input, sep, cur.1).1
  {
  }

  /** What the leftover step of the scan adds, once no separator follows `prev`. */
  lemma Leftover(s: string, sep: set<char>, toks: seq<Token>, inters: seq<Token>, prev: nat)
    requires prev <= |s|
    requires forall i :: prev <= i < |s| ==> s[i] !in sep
    requires Separate(s, sep).0 == toks + Alternate(s, sep, prev).0
    requires Separate(s, sep).1 == inters + Alternate(s, sep, prev).1
    ensures Separate(s, sep) ==
      if prev != |s| then (toks + [Token(s[prev..])], inters + [Token("")]) else (toks, inters)
  {
    AlternateNoSeparator(s, sep, prev);
    if prev == |s| {
      assert toks + [] == toks && inters + [] == inters;
    }
  }

  /** The deletion loop of char_tokenizer: every text with the delete class removed, in place. */
  method DeleteInPlace(ts: seq<Token>, del: set<char>) returns (r: seq<Token>)
    ensures r == DeleteAll(ts, del)
  {
    r := ts;
    var i := 0;
    while i < |r|
      invariant 0 <= i <= |r| == |ts|
      invariant forall k :: 0 <= k < i ==> r[k] == Token(Delete(ts[k].text, del))
      invariant forall k :: i <= k < |r| ==> r[k] == ts[k]
    {
      r := r[i := Token(Delete(r[i].text, del))];
      i := i + 1;
    }
  }

  /** char_tokenizer: the separator scan, then the delete class stripped from every piece. */
  method Tokenize(input: string, sep: set<char>, del: set<char>) returns (tokens: seq<Token>, intertokens: seq<Token>)
    ensures (tokens, intertokens) == Tokenization(input, sep, del)
  {
    if sep != {} {
      tokens, intertokens := SplitOnSeparators(input, sep);
    } else {
      // no separator class: the whole input is the one token
      tokens, intertokens := [Token(input)], [];
    }
    if del != {} {
      tokens := DeleteInPlace(tokens, del);
      intertokens := DeleteInPlace(intertokens, del);
    }
  }
}
