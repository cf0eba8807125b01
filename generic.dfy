/**
 * The small text utilities of the SmartCompose library: line-break removal, token
 * filtering, the reply-header body splitters, punctuation-word removal, the character
 * prefix trie, e-mail address formatting, histogram sums and the evaluation-id parsers.
 */
module Generic {
  import opened Wrappers
  import opened PyStr
  import opened CharTokenizer

  // ---------------------------------------------------------------------------
  // remove_line_breaks

  /** The class of `[\r\n]+`. */
  const LINE_BREAKS: set<char> := {'\r', '\n'}

  /** remove_line_breaks: every run of `\r`/`\n` replaced by nothing. */
  function RemoveLineBreaks(s: string): string
  {
    Delete(s, LINE_BREAKS)
  }

  /** No line break survives, every other character does, and removal works piece by piece (so order is kept). */
  lemma RemoveLineBreaksLaws(s: string, t: string)
    ensures NoneIn(RemoveLineBreaks(s), LINE_BREAKS)
    ensures forall c :: c in RemoveLineBreaks(s) <==> c in s && c !in LINE_BREAKS
    ensures NoneIn(s, LINE_BREAKS) ==> RemoveLineBreaks(s) == s
    ensures RemoveLineBreaks(s + t) == RemoveLineBreaks(s) + RemoveLineBreaks(t)
  {
    forall c ensures c in RemoveLineBreaks(s) <==> c in s && c !in LINE_BREAKS {
      DeleteMembers(s, LINE_BREAKS, c);
    }
    if NoneIn(s, LINE_BREAKS) {
      DeleteNone(s, LINE_BREAKS);
    }
    DeleteAppend(s, t, LINE_BREAKS);
  }

  // ---------------------------------------------------------------------------
  // filter_tokens

  /** A token survives the filters: it equals none of the literals and is neither punctuation nor space. */
  predicate Survives(t: Token, literals: seq<string>) {
    t.text !in literals && !t.IsPunct() && !t.IsSpace()
  }

  /** The surviving tokens, in their original order. */
  function Keep(tokens: seq<Token>, literals: seq<string>): seq<Token>
  {
    Filter(tokens, (t: Token) => Survives(t, literals))
  }

  /** A token is kept exactly when it is one of the inputs and survives. */
  lemma {:induction false} KeepMembers(tokens: seq<Token>, literals: seq<string>, t: Token)
    ensures t in Keep(tokens, literals) <==> t in tokens && Survives(t, literals)
  {
    FilterMembers(tokens, (t: Token) => Survives(t, literals), t);
  }

  /** Filtering a concatenation filters each part: the kept tokens keep their order. */
  lemma {:induction false} KeepAppend(a: seq<Token>, b: seq<Token>, literals: seq<string>)
    ensures Keep(a + b, literals) == Keep(a, literals) + Keep(b, literals)
  {
    FilterAppend(a, b, (t: Token) => Survives(t, literals));
  }

  /** Each token with its text stripped. */
  function StripAll(tokens: seq<Token>): (r: seq<Token>)
  {
    seq(|tokens|, i requires 0 <= i < |tokens| => Token(Strip(tokens[i].text)))
  }

  /** filter_tokens as evidently intended: drop every token equal to any filter literal. */
  function FilterTokens(tokens: seq<Token>, filters: seq<string>, removeWhitespace: bool): seq<Token>
  {
    var kept := Keep(tokens, filters);
    if removeWhitespace then StripAll(kept) else kept
  }

  /** With remove_whitespace, the survivors come out stripped, one for one. */
  lemma FilterTokensStrip(tokens: seq<Token>, filters: seq<string>)
    ensures var kept := FilterTokens(tokens, filters, false);
      var r := FilterTokens(tokens, filters, true);
      && |r| == |kept|
      && forall i :: 0 <= i < |r| ==> r[i].text == Strip(kept[i].text) && Strip(r[i].text) == r[i].text
  {
    var kept := FilterTokens(tokens, filters, false);
    forall i | 0 <= i < |kept| ensures Strip(Strip(kept[i].text)) == Strip(kept[i].text) {
      var x := Strip(kept[i].text);
      assert x == [] || (!IsWhitespace(x[0]) && !IsWhitespace(x[|x| - 1]));
    }
  }

  /**
   * The literals filter_tokens actually compares against. Each `filter(lambda tok:
   * tok.text != str_match, …)` is lazy and reads the loop variable `str_match` only
   * when the result is consumed, after the loop: every lambda then sees the last literal.
   */
  function BoundFilters(filters: seq<string>): (r: seq<string>)
    ensures |r| <= 1
  {
    if filters == [] then [] else [filters[|filters| - 1]]
  }

  /** filter_tokens as written: only the last filter literal takes effect. */
  function FilterTokensAsWritten(tokens: seq<Token>, filters: seq<string>, removeWhitespace: bool): seq<Token>
  {
    FilterTokens(tokens, BoundFilters(filters), removeWhitespace)
  }

  /** With at most one literal the code as written and as intended agree. */
  lemma FilterTokensAgree(tokens: seq<Token>, filters: seq<string>, removeWhitespace: bool)
    requires |filters| <= 1
    ensures FilterTokensAsWritten(tokens, filters, removeWhitespace) == FilterTokens(tokens, filters, removeWhitespace)
  {
    assert BoundFilters(filters) == filters;
  }

  /** A one-letter token that is neither whitespace nor punctuation is a word. */
  lemma LetterToken(c: char)
    requires !IsWhitespace(c) && c !in PUNCTUATION
    ensures !Token([c]).IsPunct() && !Token([c]).IsSpace()
  {
    IsPunctCharacters(Token([c]));
  }

  /** Keeping from a token list of one more token than its tail. */
  lemma KeepCons(t: Token, rest: seq<Token>, literals: seq<string>)
    ensures Keep([t] + rest, literals) == (if Survives(t, literals) then [t] else []) + Keep(rest, literals)
  {
    FilterCons(t, rest, (t: Token) => Survives(t, literals));
  }

  /** Which of the tokens "a" and "b" survive the literals ["b"] and ["a", "b"]. */
  lemma LateBindingSurvivors()
    ensures Survives(Token("a"), ["b"]) && !Survives(Token("b"), ["b"])
    ensures !Survives(Token("a"), ["a", "b"]) && !Survives(Token("b"), ["a", "b"])
  {
    LetterToken('a');
    assert "a" != "b" by { assert "a"[0] != "b"[0]; }
  }

  /** Two filter literals: the code as written keeps a token equal to the first one. */
  lemma FilterTokensLateBinding()
    ensures FilterTokensAsWritten([Token("a"), Token("b")], ["a", "b"], false) == [Token("a")]
    ensures FilterTokens([Token("a"), Token("b")], ["a", "b"], false) == []
  {
    var a, b := Token("a"), Token("b");
    LateBindingSurvivors();
    assert BoundFilters(["a", "b"]) == ["b"];
    assert [a, b] == [a] + [b] && [b] == [b] + [];
    KeepCons(a, [b], ["b"]);
    KeepCons(b, [], ["b"]);
    KeepCons(a, [b], ["a", "b"]);
    KeepCons(b, [], ["a", "b"]);
  }

  // ---------------------------------------------------------------------------
  // get_current_body_only / get_prior_body_only

  const REPLY_HEADER_1: string := "-----Original Message-----"
  const REPLY_HEADER_2: string := "----- Original Message -----"

  /** get_current_body_only: the first piece of the split at header 1, then of its split at header 2. */
  function CurrentBody(text: string): string
  {
    Split(Split(text, REPLY_HEADER_1)[0], REPLY_HEADER_2)[0]
  }

  /**
   * The current body is a prefix of the text that holds neither header, ends where the
   * text ends or where a header starts, and is the whole text when no header occurs.
   */
  lemma CurrentBodyLaws(text: string)
    ensures var r := CurrentBody(text);
      && r <= text
      && !Contains(r, REPLY_HEADER_1) && !Contains(r, REPLY_HEADER_2)
      && (r == text || OccursAt(text, REPLY_HEADER_1, |r|) || OccursAt(text, REPLY_HEADER_2, |r|))
      && (!Contains(text, REPLY_HEADER_1) && !Contains(text, REPLY_HEADER_2) ==> r == text)
  {
    var a := Split(text, REPLY_HEADER_1)[0];
    var r := Split(a, REPLY_HEADER_2)[0];
    SplitPiecesClean(text, REPLY_HEADER_1);
    SplitPiecesClean(a, REPLY_HEADER_2);
    SplitHead(text, REPLY_HEADER_1);
    SplitHead(a, REPLY_HEADER_2);
    PrefixNoOccurrence(a, r, REPLY_HEADER_1);
    if r != a {
      var j := Find(a, REPLY_HEADER_2);
      assert a[j..j + |REPLY_HEADER_2|] == text[j..j + |REPLY_HEADER_2|];
    }
  }

  /** get_prior_body_only: the current body of the segment after the first header, or None when it is empty or absent. */
  function PriorBody(text: string): Option<string>
  {
    var items := Split(text, REPLY_HEADER_1);
    var prior :=
      if |items| > 1 then items[1]
      else
        var res := Split(items[0], REPLY_HEADER_2);
        if |res| > 1 then res[1] else "";
    if prior != "" then Some(CurrentBody(prior)) else None
  }

  /** The segment after the first occurrence of `header`, up to its next occurrence. */
  function SegmentAfter(text: string, header: string): string
    requires header != "" && Contains(text, header)
  {
    var i := Find(text, header);
    Split(text[i + |header|..], header)[0]
  }

  /**
   * With no header there is no prior body. Otherwise header 1 wins over header 2, and the
   * prior body is the current body of the segment after the first occurrence of the header,
   * or None when that segment is empty.
   */
  lemma PriorBodyLaws(text: string)
    ensures !Contains(text, REPLY_HEADER_1) && !Contains(text, REPLY_HEADER_2) ==> PriorBody(text) == None
    ensures Contains(text, REPLY_HEADER_1) ==>
      var seg := SegmentAfter(text, REPLY_HEADER_1);
      PriorBody(text) == if seg == "" then None else Some(CurrentBody(seg))
    ensures !Contains(text, REPLY_HEADER_1) && Contains(text, REPLY_HEADER_2) ==>
      var seg := SegmentAfter(text, REPLY_HEADER_2);
      PriorBody(text) == if seg == "" then None else Some(CurrentBody(seg))
  {
    SplitSingle(text, REPLY_HEADER_1);
    SplitHead(text, REPLY_HEADER_1);
    if Contains(text, REPLY_HEADER_1) {
      SplitSecond(text, REPLY_HEADER_1);
    } else {
      SplitSingle(text, REPLY_HEADER_2);
      if Contains(text, REPLY_HEADER_2) {
        SplitSecond(text, REPLY_HEADER_2);
      }
    }
  }

  // ---------------------------------------------------------------------------
  // remove_punct

  /** The words that hold at least one character outside string.punctuation, in order. */
  function WordsWithContent(words: seq<string>): seq<string>
  {
    Filter(words, (w: string) => !AllIn(w, PUNCTUATION))
  }

  /** remove_punct: the words of `s` that are not all punctuation, joined by single spaces. */
  function RemovePunct(s: string): string
  {
    Join(WordsWithContent(WhitespaceSplit(s)), " ")
  }

  /** A word is kept exactly when it is one of the words and not all punctuation. */
  lemma {:induction false} WordsWithContentMembers(words: seq<string>, w: string)
    ensures w in WordsWithContent(words) <==> w in words && !AllIn(w, PUNCTUATION)
  {
    FilterMembers(words, (w: string) => !AllIn(w, PUNCTUATION), w);
  }

  /** Splitting the result of remove_punct on whitespace gives back exactly the kept words, in order. */
  lemma RemovePunctWords(s: string)
    ensures WhitespaceSplit(RemovePunct(s)) == WordsWithContent(WhitespaceSplit(s))
  {
    var words := WhitespaceSplit(s);
    var kept := WordsWithContent(words);
    forall k | 0 <= k < |kept| ensures kept[k] != [] && NoWhitespace(kept[k]) {
      WordsWithContentMembers(words, kept[k]);
    }
    WhitespaceSplitJoin(kept);
  }

  // ---------------------------------------------------------------------------
  // build_prefix_dict

  /** Special tokens such as `<unk>`: they start with '<' and end with '>'. */
  predicate Special(w: string) {
    |w| >= 1 && w[0] == '<' && w[|w| - 1] == '>'
  }

  /** The dictionary after appending `index` to the list of `key`, or starting that list. */
  function AddPrefix(d: map<string, seq<int>>, key: string, index: int): map<string, seq<int>>
  {
    if key !in d then d[key := [index]] else d[key := d[key] + [index]]
  }

  /** The dictionary after the inner loop has recorded the prefixes `w[..0]` … `w[..k-1]` of the word at `index`. */
  function AddPrefixes(d: map<string, seq<int>>, w: string, index: int, k: nat): map<string, seq<int>>
    requires k <= |w| + 1
  {
    if k == 0 then d else AddPrefix(AddPrefixes(d, w, index, k - 1), w[..k - 1], index)
  }

  /** The dictionary after the outer loop has visited the first `n` words. */
  function PrefixDictUpTo(words: seq<string>, n: nat): map<string, seq<int>>
    requires n <= |words|
  {
    if n == 0 then map[]
    else
      var d := PrefixDictUpTo(words, n - 1);
      var w := words[n - 1];
      if Special(w) then d else AddPrefixes(d, w, n - 1, |w| + 1)
  }

  predicate Increasing(s: seq<int>) {
    forall a, b :: 0 <= a < b < |s| ==> s[a] < s[b]
  }

  /** Every list of the dictionary is non-empty and strictly increasing. */
  predicate ListsIncreasing(d: map<string, seq<int>>) {
    forall key | key in d :: d[key] != [] && Increasing(d[key])
  }

  /**
   * Every index in the list of `key` is an ordinary word among the first `n + 1` of which
   * `key` is a prefix; index `n` itself only under the keys shorter than `k`.
   */
  predicate ListedBelow(d: map<string, seq<int>>, words: seq<string>, n: nat, k: nat)
    requires n < |words|
  {
    forall key, p | key in d && 0 <= p < |d[key]| ::
      var i := d[key][p]; 0 <= i <= n && !Special(words[i]) && key <= words[i] && (i == n ==> |key| < k)
  }

  /** Every prefix, from "" to the whole word, of every ordinary word among the first `n` lists that word's index. */
  predicate Covered(d: map<string, seq<int>>, words: seq<string>, n: nat)
    requires n <= |words|
  {
    forall i, k | 0 <= i < n && !Special(words[i]) && 0 <= k <= |words[i]| ::
      words[i][..k] in d && i in d[words[i][..k]]
  }

  /**
   * The trie of the first `n` words: every list is non-empty and strictly increasing;
   * every index in the list of `key` is an ordinary word of which `key` is a prefix; and
   * every prefix, from "" to the whole word, of every ordinary word lists that word's index.
   */
  predicate TrieOf(d: map<string, seq<int>>, words: seq<string>, n: nat)
    requires n <= |words|
  {
    && ListsIncreasing(d)
    && (forall key, p | key in d && 0 <= p < |d[key]| ::
          var i := d[key][p]; 0 <= i < n && !Special(words[i]) && key <= words[i])
    && Covered(d, words, n)
  }

  /** TrieOf while the prefixes `words[n][..0]` … `words[n][..k-1]` of word `n` have been recorded. */
  predicate PartialTrie(d: map<string, seq<int>>, words: seq<string>, n: nat, k: nat)
    requires n < |words|
  {
    && ListsIncreasing(d)
    && ListedBelow(d, words, n, k)
    && Covered(d, words, n)
    && (forall j | 0 <= j < k && j <= |words[n]| :: words[n][..j] in d && n in d[words[n][..j]])
  }

  lemma TrieStart(d: map<string, seq<int>>, words: seq<string>, n: nat)
    requires n < |words| && TrieOf(d, words, n) && !Special(words[n])
    ensures PartialTrie(d, words, n, 0)
  {
    forall key, p | key in d && 0 <= p < |d[key]|
      ensures var i := d[key][p]; 0 <= i <= n && !Special(words[i]) && key <= words[i] && (i == n ==> |key| < 0)
    {
    }
  }

  /** Appending a larger index keeps a list strictly increasing. */
  lemma IncreasingAppend(s: seq<int>, x: int)
    requires Increasing(s) && forall p :: 0 <= p < |s| ==> s[p] < x
    ensures Increasing(s + [x])
  {
    forall a, b | 0 <= a < b < |s| + 1 ensures (s + [x])[a] < (s + [x])[b] {
    }
  }

  /** Recording index `n` under `key` when every index listed there so far is smaller. */
  lemma AddPrefixIncreasing(d: map<string, seq<int>>, key: string, n: int)
    requires ListsIncreasing(d)
    requires key in d ==> forall p :: 0 <= p < |d[key]| ==> d[key][p] < n
    ensures ListsIncreasing(AddPrefix(d, key, n))
    ensures forall x | x in d :: x in AddPrefix(d, key, n) && d[x] <= AddPrefix(d, key, n)[x]
  {
    if key in d {
      IncreasingAppend(d[key], n);
    }
  }

  /** One step of the inner loop: recording the prefix of length `k` of word `n`. */
  lemma PartialTrieStep(d: map<string, seq<int>>, words: seq<string>, n: nat, k: nat)
    requires n < |words| && !Special(words[n]) && k <= |words[n]| && PartialTrie(d, words, n, k)
    ensures PartialTrie(AddPrefix(d, words[n][..k], n), words, n, k + 1)
  {
    var key := words[n][..k];
    var d' := AddPrefix(d, key, n);
    assert |key| == k;
    if key in d {
      forall p | 0 <= p < |d[key]| ensures d[key][p] < n {
        assert ListedBelow(d, words, n, k);
      }
    }
    AddPrefixIncreasing(d, key, n);
    forall x, p | x in d' && 0 <= p < |d'[x]|
      ensures var i := d'[x][p]; 0 <= i <= n && !Special(words[i]) && x <= words[i] && (i == n ==> |x| < k + 1)
    {
      if x != key || (key in d && p < |d[key]|) {
        assert d'[x][p] == d[x][p];
        assert ListedBelow(d, words, n, k);
      }
    }
    forall i, j | 0 <= i < n && !Special(words[i]) && 0 <= j <= |words[i]|
      ensures words[i][..j] in d' && i in d'[words[i][..j]]
    {
      assert Covered(d, words, n);
    }
  }

  lemma {:induction false} AddPrefixesTrie(d: map<string, seq<int>>, words: seq<string>, n: nat, k: nat)
    requires n < |words| && !Special(words[n]) && k <= |words[n]| + 1 && TrieOf(d, words, n)
    ensures PartialTrie(AddPrefixes(d, words[n], n, k), words, n, k)
    decreases k
  {
    if k == 0 {
      TrieStart(d, words, n);
    } else {
      AddPrefixesTrie(d, words, n, k - 1);
      PartialTrieStep(AddPrefixes(d, words[n], n, k - 1), words, n, k - 1);
    }
  }

  lemma TrieFinish(d: map<string, seq<int>>, words: seq<string>, n: nat)
    requires n < |words| && PartialTrie(d, words, n, |words[n]| + 1)
    ensures TrieOf(d, words, n + 1)
  {
    forall key, p | key in d && 0 <= p < |d[key]|
      ensures var i := d[key][p]; 0 <= i < n + 1 && !Special(words[i]) && key <= words[i]
    {
      assert ListedBelow(d, words, n, |words[n]| + 1);
    }
    forall i, k | 0 <= i < n + 1 && !Special(words[i]) && 0 <= k <= |words[i]|
      ensures words[i][..k] in d && i in d[words[i][..k]]
    {
      if i < n {
        assert Covered(d, words, n);
      }
    }
  }

  lemma TrieSkip(d: map<string, seq<int>>, words: seq<string>, n: nat)
    requires n < |words| && Special(words[n]) && TrieOf(d, words, n)
    ensures TrieOf(d, words, n + 1)
  {
    forall i, k | 0 <= i < n + 1 && !Special(words[i]) && 0 <= k <= |words[i]|
      ensures words[i][..k] in d && i in d[words[i][..k]]
    {
      assert Covered(d, words, n);
    }
  }

  /** The dictionary built from the first `n` words is their character-prefix trie. */
  lemma {:induction false} PrefixDictIsTrie(words: seq<string>, n: nat)
    requires n <= |words|
    ensures TrieOf(PrefixDictUpTo(words, n), words, n)
    decreases n
  {
    if n > 0 {
      PrefixDictIsTrie(words, n - 1);
      WordStep(PrefixDictUpTo(words, n - 1), words, n - 1);
    }
  }

  /** One step of the outer loop keeps the trie property, one word further. */
  lemma WordStep(d: map<string, seq<int>>, words: seq<string>, n: nat)
    requires n < |words| && TrieOf(d, words, n)
    ensures var w := words[n];
      TrieOf(if Special(w) then d else AddPrefixes(d, w, n, |w| + 1), words, n + 1)
  {
    var w := words[n];
    if Special(w) {
      TrieSkip(d, words, n);
    } else {
      AddPrefixesTrie(d, words, n, |w| + 1);
      TrieFinish(AddPrefixes(d, w, n, |w| + 1), words, n);
    }
  }

  /** build_prefix_dict: the nested loop that fills the dictionary, word by word and prefix by prefix. */
  method BuildPrefixDict(words: seq<string>) returns (d: map<string, seq<int>>)
    ensures TrieOf(d, words, |words|)
  {
    d := map[];
    for index := 0 to |words|
      invariant d == PrefixDictUpTo(words, index)
    {
      var word := words[index];
      if Special(word) {
        continue;
      }
      for i := 0 to |word| + 1
        invariant d == AddPrefixes(PrefixDictUpTo(words, index), word, index, i)
      {
        var key := word[..i];
        if key !in d {
          d := d[key := [index]];
        } else {
          d := d[key := d[key] + [index]];
        }
      }
    }
    PrefixDictIsTrie(words, |words|);
  }

  // ---------------------------------------------------------------------------
  // pretty_print_email_address / concatenate_multiple_addresses

  /** The JSON values an address record holds, with Python's truth value. */
  datatype JValue = JNull | JStr(text: string) | JInt(number: int) | JObj(fields: map<string, JValue>) {
    predicate Truthy() {
      match this
      case JNull => false
      case JStr(s) => s != ""
      case JInt(i) => i != 0
      case JObj(m) => |m| != 0
    }
  }

  const EMAILADDRESS_KEY: string := "emailaddress"
  const ADDRESS_KEY: string := "address"
  const NAME_KEY: string := "name"

  /** str(i) for any int: a '-' exactly for a negative number, then the digits of its magnitude. */
  function IntToString(i: int): (r: string)
    ensures |r| >= 1
    ensures r[0] == '-' <==> i < 0
    ensures i < 0 ==> |r| >= 2 && DigitsValue(r[1..]) == -i
    ensures i >= 0 ==> DigitsValue(r) == i
  {
    if i < 0 then
      var p := NatToString(-i);
      assert ("-" + p)[1..] == p;
      "-" + p
    else NatToString(i)
  }

  /** The text an f-string substitutes for a value; a non-empty dict's repr is not modelled. */
  function FormatValue(v: JValue): Result<string>
  {
    match v
    case JNull => Ok("None")
    case JStr(s) => Ok(s)
    case JInt(i) => Ok(IntToString(i))
    case JObj(m) => if |m| == 0 then Ok("{}") else Err(Unsupported("repr of a dict"))
  }

  /**
   * First and last name: "Last, First" splits at the first ',', otherwise "First Last"
   * at the first ' ', otherwise the whole name is the first name; each part is stripped.
   */
  function NameParts(name: string): (string, string)
  {
    if ',' in name then
      var i := IndexOf(name, ',');
      (Strip(name[i + 1..]), Strip(name[..i]))
    else if ' ' in name then
      var i := IndexOf(name, ' ');
      (Strip(name[..i]), Strip(name[i + 1..]))
    else (Strip(name), "")
  }

  /**
   * Both parts come out stripped; the last name of "Last, First" holds no ',', the first
   * name of "First Last" no ' ', and a single word is a first name only.
   */
  lemma NamePartsLaws(name: string)
    ensures Strip(NameParts(name).0) == NameParts(name).0 && Strip(NameParts(name).1) == NameParts(name).1
    ensures ',' in name ==> ',' !in NameParts(name).1
    ensures ',' !in name && ' ' in name ==> ' ' !in NameParts(name).0
    ensures ',' !in name && ' ' !in name ==> NameParts(name).1 == ""
  {
    if ',' in name {
      StrippedWithout(name[..IndexOf(name, ',')], ',');
    } else if ' ' in name {
      StrippedWithout(name[..IndexOf(name, ' ')], ' ');
    }
  }

  /** Stripping a text without `c` gives a text without `c`, which stripping again leaves alone. */
  lemma StrippedWithout(s: string, c: char)
    requires c !in s
    ensures c !in Strip(s) && Strip(Strip(s)) == Strip(s)
  {
    StripInside(s);
  }

  /**
   * pretty_print_email_address: "First Last <address>" for a record (or a record nested
   * under "emailaddress") that has an address and a name; the address itself, or "", when
   * the name is falsy. The errors are the ones Python raises on the other shapes.
   */
  function PrettyPrint(v: JValue): Result<JValue>
  {
    var rec := if v.JObj? && EMAILADDRESS_KEY in v.fields then v.fields[EMAILADDRESS_KEY] else v;
    if !rec.JObj? then Err(TypeError("not subscriptable"))
    else if ADDRESS_KEY !in rec.fields then Err(KeyError(ADDRESS_KEY))
    else if NAME_KEY !in rec.fields then Err(KeyError(NAME_KEY))
    else PrettyPrintFields(rec.fields[NAME_KEY], rec.fields[ADDRESS_KEY])
  }

  /** The formatting once the name and the address have been looked up. */
  function PrettyPrintFields(name: JValue, address: JValue): Result<JValue>
  {
    if !name.Truthy() then Ok(if !address.Truthy() then JStr("") else address)
    else if name.JInt? then Err(TypeError("not iterable"))
    else if name.JObj? then Err(AttributeError("no attribute strip"))
    else
      var (first, last) := NameParts(name.text);
      var a :- FormatValue(address);
      Ok(JStr(first + " " + last + " <" + a + ">"))
  }

  /** A record with a given name and address. */
  function Record(name: string, address: string): JValue
  {
    JObj(map[NAME_KEY := JStr(name), ADDRESS_KEY := JStr(address)])
  }

  /**
   * A name given as "Last, First" and as "First Last" prints the same, also when the
   * record is nested under "emailaddress".
   */
  lemma PrettyPrintNameOrders(first: string, last: string, address: string)
    requires first != "" && last != ""
    requires NoWhitespace(first) && NoWhitespace(last) && ',' !in first && ',' !in last
    ensures PrettyPrint(Record(last + ", " + first, address)) == Ok(JStr(first + " " + last + " <" + address + ">"))
    ensures PrettyPrint(Record(first + " " + last, address)) == Ok(JStr(first + " " + last + " <" + address + ">"))
    ensures PrettyPrint(JObj(map[EMAILADDRESS_KEY := Record(first + " " + last, address)]))
      == Ok(JStr(first + " " + last + " <" + address + ">"))
  {
    var expected := Ok(JStr(first + " " + last + " <" + address + ">"));
    assert PrettyPrint(Record(last + ", " + first, address)) == expected by {
      NamePartsCommaOrder(first, last);
      PrettyPrintRecord(last + ", " + first, address, first, last);
    }
    assert PrettyPrint(Record(first + " " + last, address)) == expected by {
      NamePartsSpaceOrder(first, last);
      PrettyPrintRecord(first + " " + last, address, first, last);
    }
    PrettyPrintNested(Record(first + " " + last, address));
  }

  /** A record with a non-empty string name and a string address prints as "First Last <address>". */
  lemma PrettyPrintRecord(name: string, address: string, first: string, last: string)
    requires name != "" && NameParts(name) == (first, last)
    ensures PrettyPrint(Record(name, address)) == Ok(JStr(first + " " + last + " <" + address + ">"))
  {
    RecordFields(name, address);
  }

  /** The keys of a record are distinct, so both fields are found. */
  lemma RecordFields(name: string, address: string)
    ensures PrettyPrint(Record(name, address)) == PrettyPrintFields(JStr(name), JStr(address))
  {
    var r := Record(name, address);
    assert ADDRESS_KEY != NAME_KEY by { assert ADDRESS_KEY[0] != NAME_KEY[0]; }
    assert EMAILADDRESS_KEY != NAME_KEY && EMAILADDRESS_KEY != ADDRESS_KEY by {
      assert EMAILADDRESS_KEY[0] != NAME_KEY[0] && EMAILADDRESS_KEY[0] != ADDRESS_KEY[0];
    }
  }

  /** A record nested under "emailaddress" prints as the record itself. */
  lemma PrettyPrintNested(r: JValue)
    requires r.JObj? && EMAILADDRESS_KEY !in r.fields
    ensures PrettyPrint(JObj(map[EMAILADDRESS_KEY := r])) == PrettyPrint(r)
  {
  }

  lemma NamePartsCommaOrder(first: string, last: string)
    requires first != "" && last != ""
    requires NoWhitespace(first) && NoWhitespace(last) && ',' !in first && ',' !in last
    ensures NameParts(last + ", " + first) == (first, last)
  {
    var rest := [' '] + first;
    assert last + ", " + first == last + [','] + rest;
    IndexOfFirst(last, ',', rest);
    StripSkipWhitespace(' ', first);
  }

  lemma NamePartsSpaceOrder(first: string, last: string)
    requires first != "" && last != ""
    requires NoWhitespace(first) && NoWhitespace(last) && ',' !in first && ',' !in last
    ensures NameParts(first + " " + last) == (first, last)
  {
    assert ',' !in first + " " + last;
    IndexOfFirst(first, ' ', last);
  }

  /**
   * The pieces concatenate_multiple_addresses keeps from the pretty-printing results, in
   * order: the non-empty strings; the first error stops the loop.
   */
  function KeptPieces(results: seq<Result<JValue>>): (r: Result<seq<string>>)
    ensures r.Ok? ==> |r.value| <= |results| && forall k :: 0 <= k < |r.value| ==> r.value[k] != ""
  {
    if results == [] then Ok([])
    else
      var done :- KeptPieces(results[..|results| - 1]);
      var p :- results[|results| - 1];
      Ok(done + if p.JStr? && p.text != "" then [p.text] else [])
  }

  /** The result of pretty-printing each address. */
  function PrettyResults(addresses: seq<JValue>): (r: seq<Result<JValue>>)
    ensures |r| == |addresses|
  {
    seq(|addresses|, i requires 0 <= i < |addresses| => PrettyPrint(addresses[i]))
  }

  /** concatenate_multiple_addresses: the kept pretty addresses joined with ';'. */
  method ConcatenateMultipleAddresses(addresses: seq<JValue>) returns (r: Result<string>)
    ensures var kept := KeptPieces(PrettyResults(addresses));
      r == if kept.Ok? then Ok(Join(kept.value, ";")) else Err(kept.error)
  {
    ghost var results := PrettyResults(addresses);
    var pretty: seq<string> := [];
    for i := 0 to |addresses|
      invariant KeptPieces(results[..i]) == Ok(pretty)
    {
      KeptPiecesSnoc(results, i);
      var p := PrettyPrint(addresses[i]);
      assert p == results[i];
      if p.Err? {
        KeptPiecesStops(results, i + 1);
        return Err(p.error);
      }
      var kept := if p.value.JStr? && p.value.text != "" then [p.value.text] else [];
      pretty := pretty + kept;
    }
    assert results[..|addresses|] == results;
    r := Ok(Join(pretty, ";"));
  }

  /** The kept pieces of one more result. */
  lemma KeptPiecesSnoc(results: seq<Result<JValue>>, i: nat)
    requires i < |results|
    ensures var done := KeptPieces(results[..i]);
      var p := results[i];
      KeptPieces(results[..i + 1]) ==
        if done.Err? then done
        else if p.Err? then Err(p.error)
        else Ok(done.value + if p.value.JStr? && p.value.text != "" then [p.value.text] else [])
  {
    assert results[..i + 1][..i] == results[..i];
  }

  /** An error among the first `n` results is the error of the whole list. */
  lemma {:induction false} KeptPiecesStops(results: seq<Result<JValue>>, n: nat)
    requires n <= |results| && KeptPieces(results[..n]).Err?
    ensures KeptPieces(results) == KeptPieces(results[..n])
    decreases |results| - n
  {
    if n < |results| {
      KeptPiecesSnoc(results, n);
      KeptPiecesStops(results, n + 1);
    } else {
      assert results[..n] == results;
    }
  }

  /** The loop succeeds exactly when every result is a value. */
  lemma {:induction false} KeptPiecesOk(results: seq<Result<JValue>>)
    ensures KeptPieces(results).Ok? <==> forall k :: 0 <= k < |results| ==> results[k].Ok?
    decreases |results|
  {
    if results != [] {
      var n := |results| - 1;
      var init := results[..n];
      KeptPiecesOk(init);
      assert forall k :: 0 <= k < n ==> init[k] == results[k];
    }
  }

  /** When no kept piece holds ';', splitting the concatenation at ';' gives the pieces back. */
  lemma ConcatenationSplits(pieces: seq<string>)
    requires |pieces| >= 1 && forall k :: 0 <= k < |pieces| ==> ';' !in pieces[k]
    ensures Split(Join(pieces, ";"), ";") == pieces
  {
    SplitJoin(pieces, ';');
  }

  // ---------------------------------------------------------------------------
  // histogram_sum

  /** Σ key × count over the (key, count) items of the histogram, in order. */
  function WeightedSum(items: seq<(int, int)>): int
  {
    if items == [] then 0
    else WeightedSum(items[..|items| - 1]) + items[|items| - 1].0 * items[|items| - 1].1
  }

  /** histogram_sum: the accumulator loop over histogram.items(). */
  method HistogramSum(items: seq<(int, int)>) returns (total: int)
    ensures total == WeightedSum(items)
  {
    total := 0;
    for k := 0 to |items|
      invariant total == WeightedSum(items[..k])
    {
      assert items[..k + 1][..k] == items[..k];
      total := total + items[k].0 * items[k].1;
    }
    assert items[..|items|] == items;
  }

  /** The histogram spelled out: each key repeated as many times as its count. */
  function Expand(items: seq<(int, int)>): (r: seq<int>)
    requires forall k :: 0 <= k < |items| ==> items[k].1 >= 0
  {
    if items == [] then []
    else Expand(items[..|items| - 1]) + seq(items[|items| - 1].1, _ => items[|items| - 1].0)
  }

  function Sum(xs: seq<int>): int
  {
    if xs == [] then 0 else Sum(xs[..|xs| - 1]) + xs[|xs| - 1]
  }

  lemma {:induction false} SumAppend(xs: seq<int>, ys: seq<int>)
    ensures Sum(xs + ys) == Sum(xs) + Sum(ys)
    decreases |ys|
  {
    if ys != [] {
      assert (xs + ys)[..|xs + ys| - 1] == xs + ys[..|ys| - 1];
      SumAppend(xs, ys[..|ys| - 1]);
    } else {
      assert xs + ys == xs;
    }
  }

  lemma {:induction false} SumRepeat(x: int, n: nat)
    ensures Sum(seq(n, _ => x)) == n * x
    decreases n
  {
    if n > 0 {
      assert seq(n, _ => x)[..n - 1] == seq(n - 1, _ => x);
      SumRepeat(x, n - 1);
    }
  }

  /** With non-negative counts the histogram sum is the sum of the spelled-out histogram. */
  lemma {:induction false} HistogramSumIsExpansionSum(items: seq<(int, int)>)
    requires forall k :: 0 <= k < |items| ==> items[k].1 >= 0
    ensures WeightedSum(items) == Sum(Expand(items))
    decreases |items|
  {
    if items != [] {
      var init, last := items[..|items| - 1], items[|items| - 1];
      HistogramSumIsExpansionSum(init);
      SumAppend(Expand(init), seq(last.1, _ => last.0));
      SumRepeat(last.0, last.1);
    }
  }

  /** The sum over a histogram split in two parts is the sum of the parts. */
  lemma {:induction false} WeightedSumAppend(a: seq<(int, int)>, b: seq<(int, int)>)
    ensures WeightedSum(a + b) == WeightedSum(a) + WeightedSum(b)
    decreases |b|
  {
    if b != [] {
      assert (a + b)[..|a + b| - 1] == a + b[..|b| - 1];
      WeightedSumAppend(a, b[..|b| - 1]);
    } else {
      assert a + b == a;
    }
  }

  // ---------------------------------------------------------------------------
  // extract_email_id / extract_char_position / qcs_unique_id_from

  /** The prefix QCS ids start with. */
  const QUERY_QCS: string := "dummyQuery"

  /** extract_email_id: the e-mail field of "email-pos" (or "dummyQuery-email-pos" in QCS mode), else the id itself. */
  function ExtractEmailId(uniqueId: string, qcs: bool): string
  {
    var fields := Split(uniqueId, "-");
    if qcs && QUERY_QCS <= uniqueId && |fields| == 3 then fields[1]
    else if !qcs && |fields| == 2 then fields[0]
    else uniqueId
  }

  /** extract_char_position: the non-empty position field of the same formats, else None. */
  function ExtractCharPosition(uniqueId: string, qcs: bool): Option<string>
  {
    var fields := Split(uniqueId, "-");
    if qcs && QUERY_QCS <= uniqueId && |fields| == 3 && fields[2] != "" then Some(fields[2])
    else if !qcs && |fields| == 2 && fields[1] != "" then Some(fields[1])
    else None
  }

  /** qcs_unique_id_from: the first tab-separated field of the line. */
  function QcsUniqueIdFrom(line: string): string
  {
    Split(line, "\t")[0]
  }

  /** The ids built as "email-pos" are taken apart again. */
  lemma ExtractJsonRoundTrip(email: string, pos: string)
    requires '-' !in email && '-' !in pos
    ensures ExtractEmailId(email + "-" + pos, false) == email
    ensures ExtractCharPosition(email + "-" + pos, false) == if pos == "" then None else Some(pos)
  {
    SplitJoin([email, pos], '-');
  }

  /** The ids built as "dummyQuery-email-pos" are taken apart again in QCS mode. */
  lemma ExtractQcsRoundTrip(email: string, pos: string)
    requires '-' !in email && '-' !in pos
    ensures ExtractEmailId(QUERY_QCS + "-" + email + "-" + pos, true) == email
    ensures ExtractCharPosition(QUERY_QCS + "-" + email + "-" + pos, true) == if pos == "" then None else Some(pos)
  {
    assert '-' !in QUERY_QCS;
    ThreeFields(QUERY_QCS, email, pos);
  }

  /** Three dash-free fields joined by '-' split back into the three. */
  lemma ThreeFields(a: string, b: string, c: string)
    requires '-' !in a && '-' !in b && '-' !in c
    ensures a <= a + "-" + b + "-" + c
    ensures Split(a + "-" + b + "-" + c, "-") == [a, b, c]
  {
    assert a + "-" + b + "-" + c == a + "-" + (b + "-" + c);
    SplitFirstChar(a, '-', b + "-" + c);
    SplitFirstChar(b, '-', c);
    SplitNoChar(c, '-');
  }

  /** An id without '-' is its own e-mail id and has no position, in either mode. */
  lemma ExtractWithoutDash(uniqueId: string, qcs: bool)
    requires '-' !in uniqueId
    ensures ExtractEmailId(uniqueId, qcs) == uniqueId
    ensures ExtractCharPosition(uniqueId, qcs) == None
  {
    SplitJoin([uniqueId], '-');
  }

  /** The id is the text before the first tab, or the whole line when it has none. */
  lemma QcsUniqueIdRoundTrip(id: string, rest: string)
    requires '\t' !in id
    ensures QcsUniqueIdFrom(id + "\t" + rest) == id
    ensures '\t' !in rest ==> QcsUniqueIdFrom(id) == id
  {
    SplitFirstChar(id, '\t', rest);
    SplitNoChar(id, '\t');
  }
}
