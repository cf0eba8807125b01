/**
 * The parts of Python's `str` type that the tokenizer library relies on:
 * whitespace (`isspace`, `split()`, `strip()`, `\s`), `split(sep)`, `sep.join`,
 * `find`, `replace` of one character, and `string.punctuation`.
 */
module PyStr {

  /** Python's whitespace test (str.isspace, str.split(), str.strip(), and `\s` on str patterns). */
  predicate IsWhitespace(c: char) {
    c == ' ' || ('\t' <= c <= '\r') || ('\U{1C}' <= c <= '\U{1F}')
    || c == '\U{85}' || c == '\U{A0}' || c == '\U{1680}'
    || ('\U{2000}' <= c <= '\U{200A}')
    || c == '\U{2028}' || c == '\U{2029}' || c == '\U{202F}' || c == '\U{205F}' || c == '\U{3000}'
  }

  predicate AllWhitespace(s: string) {
    forall i :: 0 <= i < |s| ==> IsWhitespace(s[i])
  }

  predicate NoWhitespace(s: string) {
    forall i :: 0 <= i < |s| ==> !IsWhitespace(s[i])
  }

  /** `string.punctuation`: the 32 printable ASCII characters that are neither letters, digits nor space. */
  const PUNCTUATION: set<char> := {
    '!', '"', '#', '$', '%', '&', '\'', '(', ')', '*', '+', ',', '-', '.', '/',
    ':', ';', '<', '=', '>', '?', '@', '[', '\\', ']', '^', '_', '`', '{', '|', '}', '~'
  }

  /** Every character of `s` belongs to `cs`. */
  predicate AllIn(s: string, cs: set<char>) {
    forall i :: 0 <= i < |s| ==> s[i] in cs
  }

  /** No character of `s` belongs to `cs`. */
  predicate NoneIn(s: string, cs: set<char>) {
    forall i :: 0 <= i < |s| ==> s[i] !in cs
  }

  // ---------------------------------------------------------------------------
  // strip()

  /** Number of leading whitespace characters. */
  function LeadingWhitespace(s: string): (n: nat)
    ensures n <= |s| && AllWhitespace(s[..n])
    ensures n < |s| ==> !IsWhitespace(s[n])
    decreases |s|
  {
    if s != [] && IsWhitespace(s[0]) then
      var n := 1 + LeadingWhitespace(s[1..]);
      assert s[..n] == [s[0]] + s[1..][..n - 1];
      n
    else 0
  }

  /** Number of trailing whitespace characters. */
  function TrailingWhitespace(s: string): (n: nat)
    ensures n <= |s| && AllWhitespace(s[|s| - n..])
    ensures n < |s| ==> !IsWhitespace(s[|s| - n - 1])
    decreases |s|
  {
    if s != [] && IsWhitespace(s[|s| - 1]) then
      var m := TrailingWhitespace(s[..|s| - 1]);
      TrailingStep(s, m);
      m + 1
    else 0
  }

  /** A whitespace last character extends the trailing whitespace of the rest by one. */
  lemma TrailingStep(s: string, m: nat)
    requires s != [] && IsWhitespace(s[|s| - 1]) && m <= |s| - 1
    requires AllWhitespace(s[..|s| - 1][|s| - 1 - m..])
    requires m < |s| - 1 ==> !IsWhitespace(s[..|s| - 1][|s| - 2 - m])
    ensures AllWhitespace(s[|s| - m - 1..])
    ensures m + 1 < |s| ==> !IsWhitespace(s[|s| - m - 2])
  {
    assert s[|s| - m - 1..] == s[..|s| - 1][|s| - 1 - m..] + [s[|s| - 1]];
  }

  /** str.strip(): `s` without its leading and trailing whitespace. */
  function Strip(s: string): (r: string)
    ensures |r| <= |s|
    ensures r == [] || (!IsWhitespace(r[0]) && !IsWhitespace(r[|r| - 1]))
    ensures (s == [] || (!IsWhitespace(s[0]) && !IsWhitespace(s[|s| - 1]))) ==> r == s
  {
    var a := LeadingWhitespace(s);
    var t := s[a..];
    var b := TrailingWhitespace(t);
    t[..|t| - b]
  }

  /** A leading whitespace character makes no difference to strip(). */
  lemma StripSkipWhitespace(c: char, s: string)
    requires IsWhitespace(c)
    ensures Strip([c] + s) == Strip(s)
  {
    assert ([c] + s)[1..] == s;
    assert LeadingWhitespace([c] + s) == 1 + LeadingWhitespace(s);
  }

  /** strip() only removes characters. */
  lemma StripInside(s: string)
    ensures forall c :: c in Strip(s) ==> c in s
  {
    var a := LeadingWhitespace(s);
    var r := Strip(s);
    forall c | c in r ensures c in s {
      var j :| 0 <= j < |r| && r[j] == c;
      assert s[a + j] == c;
    }
  }

  // ---------------------------------------------------------------------------
  // Substrings: find, split(sep), sep.join

  predicate OccursAt(s: string, sub: string, i: int) {
    0 <= i && i + |sub| <= |s| && s[i..i + |sub|] == sub
  }

  /** Python's `sub in s`. */
  predicate Contains(s: string, sub: string) {
    exists i :: 0 <= i <= |s| - |sub| && OccursAt(s, sub, i)
  }

  function FindFrom(s: string, sub: string, k: nat): (r: int)
    requires k <= |s|
    ensures r == -1 || (k <= r && OccursAt(s, sub, r))
    ensures forall j :: k <= j && (r == -1 || j < r) ==> !OccursAt(s, sub, j)
    decreases |s| - k
  {
    if k + |sub| > |s| then -1
    else if s[k..k + |sub|] == sub then k
    else FindFrom(s, sub, k + 1)
  }

  /** str.find: the first index where `sub` occurs, or -1. */
  function Find(s: string, sub: string): (r: int)
    ensures r == -1 <==> !Contains(s, sub)
    ensures r >= 0 ==> OccursAt(s, sub, r) && forall j :: 0 <= j < r ==> !OccursAt(s, sub, j)
  {
    FindFrom(s, sub, 0)
  }

  /** A prefix that ends before the first occurrence of `sub` contains no occurrence of it. */
  lemma PrefixBeforeFirst(s: string, sub: string, i: int)
    requires sub != [] && 0 <= i <= |s|
    requires forall j :: 0 <= j < i ==> !OccursAt(s, sub, j)
    ensures !Contains(s[..i], sub)
  {
    forall j | 0 <= j <= i - |sub|
      ensures !OccursAt(s[..i], sub, j)
    {
      if j + |sub| <= i {
        assert s[..i][j..j + |sub|] == s[j..j + |sub|];
        assert !OccursAt(s, sub, j);
      }
    }
  }

  /** sep.join(parts). */
  function Join(parts: seq<string>, sep: string): string
  {
    if |parts| == 0 then ""
    else if |parts| == 1 then parts[0]
    else parts[0] + sep + Join(parts[1..], sep)
  }

  /** str.split(sep) for a non-empty separator: the pieces between the leftmost non-overlapping occurrences. */
  function Split(s: string, sep: string): (parts: seq<string>)
    requires sep != ""
    ensures |parts| >= 1
    decreases |s|
  {
    var i := Find(s, sep);
    if i < 0 then [s]
    else [s[..i]] + Split(s[i + |sep|..], sep)
  }

  /** Joining the pieces of a split with the separator gives the text back. */
  lemma {:induction false} SplitJoinsBack(s: string, sep: string)
    requires sep != ""
    ensures Join(Split(s, sep), sep) == s
    decreases |s|
  {
    var i := Find(s, sep);
    if i >= 0 {
      var t := s[i + |sep|..];
      var rest := Split(t, sep);
      SplitJoinsBack(t, sep);
      var parts := [s[..i]] + rest;
      assert parts[1..] == rest;
      assert Join(parts, sep) == s[..i] + sep + t;
      assert s == s[..i] + sep + t;
    }
  }

  /** No piece of a split holds the separator, and the first piece is a prefix of the text. */
  lemma {:induction false} SplitPiecesClean(s: string, sep: string)
    requires sep != ""
    ensures forall k :: 0 <= k < |Split(s, sep)| ==> !Contains(Split(s, sep)[k], sep)
    ensures Split(s, sep)[0] <= s
    decreases |s|
  {
    var i := Find(s, sep);
    if i >= 0 {
      var t := s[i + |sep|..];
      PrefixBeforeFirst(s, sep, i);
      SplitPiecesClean(t, sep);
      var parts := [s[..i]] + Split(t, sep);
      assert forall k :: 1 <= k < |parts| ==> parts[k] == Split(t, sep)[k - 1];
    }
  }

  /** The first piece of a split is the text before the first occurrence, or the whole text. */
  lemma SplitHead(s: string, sep: string)
    requires sep != ""
    ensures Split(s, sep)[0] == if Find(s, sep) < 0 then s else s[..Find(s, sep)]
  {
  }

  /** When the separator occurs, the second piece is the first piece of the text after its first occurrence. */
  lemma SplitSecond(s: string, sep: string)
    requires sep != "" && Find(s, sep) >= 0
    ensures Find(s, sep) + |sep| <= |s|
    ensures |Split(s, sep)| >= 2 && Split(s, sep)[1] == Split(s[Find(s, sep) + |sep|..], sep)[0]
  {
  }

  /** A prefix of a text without occurrences of `sub` has none either. */
  lemma PrefixNoOccurrence(s: string, r: string, sub: string)
    requires r <= s && !Contains(s, sub)
    ensures !Contains(r, sub)
  {
    forall j | 0 <= j <= |r| - |sub|
      ensures !OccursAt(r, sub, j)
    {
      assert r[j..j + |sub|] == s[j..j + |sub|];
      assert !OccursAt(s, sub, j);
    }
  }

  /** A split has one piece exactly when the text holds no separator. */
  lemma SplitSingle(s: string, sep: string)
    requires sep != ""
    ensures |Split(s, sep)| == 1 <==> !Contains(s, sep)
  {
  }

  /** When the separator is one character that no piece contains, splitting undoes joining. */
  lemma {:induction false} SplitJoin(parts: seq<string>, c: char)
    requires |parts| >= 1
    requires forall k :: 0 <= k < |parts| ==> c !in parts[k]
    ensures Split(Join(parts, [c]), [c]) == parts
    decreases |parts|
  {
    var s := Join(parts, [c]);
    if |parts| == 1 {
      NoCharNoOccurrence(parts[0], c);
    } else {
      var rest := Join(parts[1..], [c]);
      assert s == parts[0] + [c] + rest;
      var n := |parts[0]|;
      assert OccursAt(s, [c], n) by { assert s[n..n + 1] == [c]; }
      forall j | 0 <= j < n
        ensures !OccursAt(s, [c], j)
      {
        assert s[j] == parts[0][j];
      }
      assert Find(s, [c]) == n;
      assert s[n + 1..] == rest;
      assert s[..n] == parts[0];
      SplitJoin(parts[1..], c);
    }
  }

  /** str.find for a one-character needle that occurs: the index of its first occurrence. */
  function IndexOf(s: string, c: char): (i: nat)
    requires c in s
    ensures i < |s| && s[i] == c && c !in s[..i]
  {
    if s[0] == c then 0
    else
      var i := 1 + IndexOf(s[1..], c);
      assert s[..i] == [s[0]] + s[1..][..i - 1];
      i
  }

  /** For a one-character needle, find and IndexOf agree. */
  lemma FindIsIndexOf(s: string, c: char)
    ensures Find(s, [c]) >= 0 <==> c in s
    ensures c in s ==> Find(s, [c]) == IndexOf(s, c)
  {
    var r := Find(s, [c]);
    if c in s {
      var i := IndexOf(s, c);
      assert OccursAt(s, [c], i) by { assert s[i..i + 1] == [c]; }
      forall j | 0 <= j < i ensures !OccursAt(s, [c], j) {
        assert s[j] in s[..i];
        assert s[j..j + 1] == [s[j]];
      }
    }
    if r >= 0 {
      assert s[r] == s[r..r + 1][0] == c;
    }
  }

  /** The first occurrence of a character is right after a text that does not hold it. */
  lemma IndexOfFirst(a: string, c: char, rest: string)
    requires c !in a
    ensures IndexOf(a + [c] + rest, c) == |a|
    ensures (a + [c] + rest)[..|a|] == a && (a + [c] + rest)[|a| + 1..] == rest
  {
    var s := a + [c] + rest;
    assert s[..|a|] == a && s[|a|] == c;
    assert s[|a| + 1..] == rest;
  }

  /** The first occurrence of a character is right after a text that does not hold it. */
  lemma FindFirstChar(a: string, c: char, rest: string)
    requires c !in a
    ensures Find(a + [c] + rest, [c]) == |a|
    ensures (a + [c] + rest)[..|a|] == a && (a + [c] + rest)[|a| + 1..] == rest
  {
    var s := a + [c] + rest;
    var n := |a|;
    assert OccursAt(s, [c], n) by { assert s[n..n + 1] == [c]; }
    forall j | 0 <= j < n
      ensures !OccursAt(s, [c], j)
    {
      assert s[j..j + 1] == [a[j]];
    }
    assert s[n + 1..] == rest && s[..n] == a;
  }

  /** Splitting at a one-character separator: the text up to its first occurrence is the first piece. */
  lemma SplitFirstChar(a: string, c: char, rest: string)
    requires c !in a
    ensures Split(a + [c] + rest, [c]) == [a] + Split(rest, [c])
  {
    FindFirstChar(a, c, rest);
  }

  /** A text without the separator character splits into itself. */
  lemma SplitNoChar(s: string, c: char)
    requires c !in s
    ensures Split(s, [c]) == [s]
  {
    NoCharNoOccurrence(s, c);
  }

  lemma NoCharNoOccurrence(s: string, c: char)
    requires c !in s
    ensures !Contains(s, [c])
  {
    forall j | 0 <= j <= |s| - 1
      ensures !OccursAt(s, [c], j)
    {
      assert s[j..j + 1] == [s[j]];
    }
  }

  // ---------------------------------------------------------------------------
  // str.split() with no separator

  /** Length of the leading run of non-whitespace characters. */
  function LeadingWord(s: string): (n: nat)
    ensures n <= |s| && NoWhitespace(s[..n])
    ensures n < |s| ==> IsWhitespace(s[n])
    decreases |s|
  {
    if s != [] && !IsWhitespace(s[0]) then
      var n := 1 + LeadingWord(s[1..]);
      assert s[..n] == [s[0]] + s[1..][..n - 1];
      n
    else 0
  }

  /** str.split(): the maximal runs of non-whitespace characters, in order. */
  function WhitespaceSplit(s: string): (words: seq<string>)
    ensures forall k :: 0 <= k < |words| ==> words[k] != [] && NoWhitespace(words[k])
    decreases |s|
  {
    var t := s[LeadingWhitespace(s)..];
    if t == [] then []
    else
      var n := LeadingWord(t);
      assert n > 0;
      [t[..n]] + WhitespaceSplit(t[n..])
  }

  /** The leading word ends at the first whitespace character. */
  lemma {:induction false} LeadingWordIs(s: string, n: nat)
    requires n <= |s| && NoWhitespace(s[..n]) && (n == |s| || IsWhitespace(s[n]))
    ensures LeadingWord(s) == n
    decreases n
  {
    if n > 0 {
      assert !IsWhitespace(s[..n][0]);
      assert s[1..][..n - 1] == s[..n][1..];
      LeadingWordIs(s[1..], n - 1);
    }
  }

  /** A leading space does not change the words. */
  lemma WhitespaceSplitSkip(x: string)
    ensures WhitespaceSplit(" " + x) == WhitespaceSplit(x)
  {
    var s := " " + x;
    assert s[1..] == x;
    assert LeadingWhitespace(s) == 1 + LeadingWhitespace(x);
    assert s[LeadingWhitespace(s)..] == x[LeadingWhitespace(x)..];
  }

  /** A word followed by nothing or by whitespace is the first word of the split. */
  lemma WordThenRest(w: string, tail: string)
    requires w != [] && NoWhitespace(w) && (tail == [] || IsWhitespace(tail[0]))
    ensures WhitespaceSplit(w + tail) == [w] + WhitespaceSplit(tail)
  {
    var s := w + tail;
    assert s[0] == w[0];
    assert LeadingWhitespace(s) == 0;
    assert s[..|w|] == w;
    LeadingWordIs(s, |w|);
    assert s[|w|..] == tail;
  }

  /** Joining non-empty words without whitespace by single spaces, then splitting, gives the words back. */
  lemma {:induction false} WhitespaceSplitJoin(words: seq<string>)
    requires forall k :: 0 <= k < |words| ==> words[k] != [] && NoWhitespace(words[k])
    ensures WhitespaceSplit(Join(words, " ")) == words
    decreases |words|
  {
    if |words| == 1 {
      WordThenRest(words[0], []);
      assert words[0] + [] == words[0];
    } else if |words| > 1 {
      var rest := Join(words[1..], " ");
      assert Join(words, " ") == words[0] + (" " + rest);
      WordThenRest(words[0], " " + rest);
      WhitespaceSplitSkip(rest);
      WhitespaceSplitJoin(words[1..]);
      assert words == [words[0]] + words[1..];
    }
  }

  /** "".join(parts) */
  function Concat(parts: seq<string>): string
  {
    if parts == [] then "" else parts[0] + Concat(parts[1..])
  }

  lemma ConcatAppend(a: seq<string>, b: seq<string>)
    ensures Concat(a + b) == Concat(a) + Concat(b)
  {
    if a != [] {
      calc {
        Concat(a + b);
        (a + b)[0] + Concat((a + b)[1..]);
        { assert (a + b)[1..] == a[1..] + b; ConcatAppend(a[1..], b); }
        a[0] + (Concat(a[1..]) + Concat(b));
      }
    } else {
      assert a + b == b;
    }
  }

  /** `s` with every character of `cs` removed, the others kept in order. */
  function Delete(s: string, cs: set<char>): (r: string)
    ensures |r| <= |s|
    ensures NoneIn(r, cs)
  {
    if s == [] then ""
    else (if s[0] in cs then "" else [s[0]]) + Delete(s[1..], cs)
  }

  lemma DeleteAppend(a: string, b: string, cs: set<char>)
    ensures Delete(a + b, cs) == Delete(a, cs) + Delete(b, cs)
  {
    if a != [] {
      calc {
        Delete(a + b, cs);
        (if a[0] in cs then "" else [a[0]]) + Delete((a + b)[1..], cs);
        { assert (a + b)[1..] == a[1..] + b; DeleteAppend(a[1..], b, cs); }
        (if a[0] in cs then "" else [a[0]]) + (Delete(a[1..], cs) + Delete(b, cs));
      }
    } else {
      assert a + b == b;
    }
  }

  /** Deleting removes nothing from a string that has none of the characters. */
  lemma DeleteNone(s: string, cs: set<char>)
    requires NoneIn(s, cs)
    ensures Delete(s, cs) == s
  {
    if s != [] {
      DeleteNone(s[1..], cs);
    }
  }

  /** A character survives deletion exactly when it is in `s` and not in `cs`. */
  lemma DeleteMembers(s: string, cs: set<char>, c: char)
    ensures c in Delete(s, cs) <==> c in s && c !in cs
  {
    if s != [] {
      DeleteMembers(s[1..], cs, c);
      assert s == [s[0]] + s[1..];
    }
  }

  /** Joining with a one-character separator only adds that character. */
  lemma {:induction false} DeleteJoin(parts: seq<string>, c: char)
    ensures Delete(Join(parts, [c]), {c}) == Delete(Concat(parts), {c})
    decreases |parts|
  {
    if |parts| > 1 {
      DeleteJoin(parts[1..], c);
      DeleteAppend(parts[0] + [c], Join(parts[1..], [c]), {c});
      DeleteAppend(parts[0], [c], {c});
      DeleteAppend(parts[0], Concat(parts[1..]), {c});
    } else if |parts| == 1 {
      assert parts[1..] == [];
      assert Concat(parts) == parts[0] + Concat(parts[1..]) == parts[0];
    }
  }

  /** Removing all whitespace characters. */
  function RemoveWhitespace(s: string): string
  {
    if s == [] then ""
    else (if IsWhitespace(s[0]) then "" else [s[0]]) + RemoveWhitespace(s[1..])
  }

  lemma RemoveWhitespaceAllWhitespace(s: string)
    requires AllWhitespace(s)
    ensures RemoveWhitespace(s) == ""
  {
    if s != [] {
      RemoveWhitespaceAllWhitespace(s[1..]);
    }
  }

  lemma RemoveWhitespaceNone(s: string)
    requires NoWhitespace(s)
    ensures RemoveWhitespace(s) == s
  {
    if s != [] {
      RemoveWhitespaceNone(s[1..]);
    }
  }

  lemma RemoveWhitespaceAppend(a: string, b: string)
    ensures RemoveWhitespace(a + b) == RemoveWhitespace(a) + RemoveWhitespace(b)
  {
    if a != [] {
      calc {
        RemoveWhitespace(a + b);
        (if IsWhitespace(a[0]) then "" else [a[0]]) + RemoveWhitespace((a + b)[1..]);
        { assert (a + b)[1..] == a[1..] + b; RemoveWhitespaceAppend(a[1..], b); }
        (if IsWhitespace(a[0]) then "" else [a[0]]) + (RemoveWhitespace(a[1..]) + RemoveWhitespace(b));
      }
    } else {
      assert a + b == b;
    }
  }

  /** "".join(s.split()) is `s` with its whitespace removed. */
  lemma {:induction false} ConcatWhitespaceSplit(s: string)
    ensures Concat(WhitespaceSplit(s)) == RemoveWhitespace(s)
    decreases |s|
  {
    var a := LeadingWhitespace(s);
    var t := s[a..];
    DropLeadingWhitespace(s);
    if t != [] {
      var n := LeadingWord(t);
      DropLeadingWord(t);
      ConcatWhitespaceSplit(t[n..]);
      var words := WhitespaceSplit(t[n..]);
      assert ([t[..n]] + words)[1..] == words;
    }
  }

  /** Leading whitespace does not survive its removal. */
  lemma DropLeadingWhitespace(s: string)
    ensures RemoveWhitespace(s) == RemoveWhitespace(s[LeadingWhitespace(s)..])
  {
    var a := LeadingWhitespace(s);
    assert s == s[..a] + s[a..];
    RemoveWhitespaceAppend(s[..a], s[a..]);
    RemoveWhitespaceAllWhitespace(s[..a]);
  }

  /** A leading word survives whitespace removal unchanged. */
  lemma DropLeadingWord(t: string)
    ensures RemoveWhitespace(t) == t[..LeadingWord(t)] + RemoveWhitespace(t[LeadingWord(t)..])
  {
    var n := LeadingWord(t);
    assert t == t[..n] + t[n..];
    RemoveWhitespaceAppend(t[..n], t[n..]);
    RemoveWhitespaceNone(t[..n]);
  }

  lemma RemoveWhitespaceMembers(s: string, c: char)
    ensures c in RemoveWhitespace(s) <==> c in s && !IsWhitespace(c)
  {
    if s != [] {
      RemoveWhitespaceMembers(s[1..], c);
      assert s == [s[0]] + s[1..];
    }
  }

  // ---------------------------------------------------------------------------
  // The builtin filter, consumed into a list

  /** list(filter(keep, xs)): the elements satisfying `keep`, in their original order. */
  function Filter<T>(xs: seq<T>, keep: T -> bool): seq<T>
  {
    if xs == [] then []
    else (if keep(xs[0]) then [xs[0]] else []) + Filter(xs[1..], keep)
  }

  /** An element is kept exactly when it is one of the inputs and satisfies the predicate. */
  lemma {:induction false} FilterMembers<T>(xs: seq<T>, keep: T -> bool, x: T)
    ensures x in Filter(xs, keep) <==> x in xs && keep(x)
    decreases |xs|
  {
    if xs != [] {
      FilterMembers(xs[1..], keep, x);
      assert xs == [xs[0]] + xs[1..];
    }
  }

  /** Filtering a concatenation filters each part: the kept elements keep their order. */
  lemma {:induction false} FilterAppend<T>(a: seq<T>, b: seq<T>, keep: T -> bool)
    ensures Filter(a + b, keep) == Filter(a, keep) + Filter(b, keep)
    decreases |a|
  {
    if a != [] {
      assert (a + b)[1..] == a[1..] + b;
      FilterAppend(a[1..], b, keep);
    } else {
      assert a + b == b;
    }
  }

  lemma FilterCons<T>(x: T, rest: seq<T>, keep: T -> bool)
    ensures Filter([x] + rest, keep) == (if keep(x) then [x] else []) + Filter(rest, keep)
  {
    assert ([x] + rest)[1..] == rest;
  }

  /**
   * Filtering never lengthens, keeps everything exactly when every element passes, and keeps
   * nothing exactly when no element passes.
   */
  lemma {:induction false} FilterLength<T>(xs: seq<T>, keep: T -> bool)
    ensures |Filter(xs, keep)| <= |xs|
    ensures |Filter(xs, keep)| == |xs| <==> forall k :: 0 <= k < |xs| ==> keep(xs[k])
    ensures |Filter(xs, keep)| == 0 <==> forall k :: 0 <= k < |xs| ==> !keep(xs[k])
    decreases |xs|
  {
    if xs != [] {
      FilterLength(xs[1..], keep);
      assert forall k :: 1 <= k < |xs| ==> xs[k] == xs[1..][k - 1];
    }
  }

  // ---------------------------------------------------------------------------
  // replace of a single character

  /** s.replace(c, repl) for a one-character `c`. */
  function ReplaceChar(s: string, c: char, repl: string): (r: string)
    ensures c !in repl ==> c !in r
    ensures c !in s ==> r == s
  {
    if s == [] then ""
    else
      assert s == [s[0]] + s[1..];
      (if s[0] == c then repl else [s[0]]) + ReplaceChar(s[1..], c, repl)
  }

  /**
   * replace works character by character: it distributes over concatenation, turns `c`
   * into `repl` and keeps every other character, which together fix its result.
   */
  lemma {:induction false} ReplaceCharLaws(a: string, b: string, c: char, repl: string, x: char)
    ensures ReplaceChar(a + b, c, repl) == ReplaceChar(a, c, repl) + ReplaceChar(b, c, repl)
    ensures ReplaceChar([c], c, repl) == repl
    ensures x != c ==> ReplaceChar([x], c, repl) == [x]
    decreases |a|
  {
    assert [c][1..] == [];
    if a == [] {
      assert a + b == b;
    } else {
      assert (a + b)[1..] == a[1..] + b;
      ReplaceCharLaws(a[1..], b, c, repl, x);
    }
  }

  // ---------------------------------------------------------------------------
  // Paths and numbers

  /** os.path.basename: the text after the last '/'. */
  function Basename(p: string): (r: string)
    ensures |r| <= |p| && r == p[|p| - |r|..] && '/' !in r
    ensures |r| < |p| ==> p[|p| - |r| - 1] == '/'
    decreases |p|
  {
    if p == [] || p[|p| - 1] == '/' then ""
    else Basename(p[..|p| - 1]) + [p[|p| - 1]]
  }

  function DigitChar(d: nat): (c: char)
    requires d < 10
    ensures c as int - '0' as int == d
  {
    "0123456789"[d]
  }

  /** The number a string of decimal digits spells, most significant digit first. */
  function DigitsValue(s: string): int
  {
    if s == [] then 0 else DigitsValue(s[..|s| - 1]) * 10 + (s[|s| - 1] as int - '0' as int)
  }

  /** str(n) for a non-negative int: decimal digits with no leading zero that spell n. */
  function NatToString(n: nat): (r: string)
    ensures |r| >= 1
    ensures forall i :: 0 <= i < |r| ==> '0' <= r[i] <= '9'
    ensures (|r| > 1 ==> r[0] != '0')
    ensures DigitsValue(r) == n
  {
    if n < 10 then [DigitChar(n)]
    else
      var p := NatToString(n / 10);
      assert (p + [DigitChar(n % 10)])[..|p|] == p;
      p + [DigitChar(n % 10)]
  }

  /** Different numbers get different strings, so the names str(i) never collide. */
  lemma NatToStringInjective(a: nat, b: nat)
    ensures NatToString(a) == NatToString(b) <==> a == b
  {
  }
}
