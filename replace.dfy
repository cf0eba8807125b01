/**
 * multi_replace and the pattern the training tokenizer builds for it: the replacement keys
 * sorted longest first and joined into one alternation of literals, substituted by a single
 * left-to-right `re.sub` pass whose callback looks each match up in the replacement dict.
 */
module Replace {
  import opened Wrappers
  import opened PyStr

  /** A replacement dict, in insertion order: (substring to find, substring to put instead). */
  type Rules = seq<(string, string)>

  function Keys(rules: Rules): (keys: seq<string>)
    ensures |keys| == |rules|
    ensures forall i :: 0 <= i < |rules| ==> keys[i] == rules[i].0
  {
    seq(|rules|, i requires 0 <= i < |rules| => rules[i].0)
  }

  /** `rules[key]`: the value of the entry with that key, if any. */
  function Lookup(rules: Rules, key: string): (v: Option<string>)
    ensures v.Some? <==> key in Keys(rules)
  {
    if rules == [] then None
    else if rules[0].0 == key then Some(rules[0].1)
    else
      var v := Lookup(rules[1..], key);
      assert Keys(rules) == [rules[0].0] + Keys(rules[1..]);
      v
  }

  /** TOKENIZER_TRAINING_RULE, in its insertion order. */
  const TRAINING_RULE: Rules := [
    ("'s", " 's"), ("'ve", " 've"), ("'t", " 't"), ("'re", " 're"), ("'d", " 'd"), ("'ll", " 'll"),
    ("â€™", " '"), (",", " , "), ("\"", " \" "), ("!", " ! "), ("(", " ( "),
    (")", " ) "), ("?", " ? "), (".", " . "), (":", " : "), (";", " ; ")
  ]

  // ---------------------------------------------------------------------------
  // sorted(replacements, key=len, reverse=True)

  predicate LongestFirst(keys: seq<string>) {
    forall i, j :: 0 <= i < j < |keys| ==> |keys[i]| >= |keys[j]|
  }

  /** Insert `k` before the first key that is not longer than it (keeps equal keys in order). */
  function InsertByLength(k: string, sorted: seq<string>): seq<string>
  {
    if sorted == [] || |k| >= |sorted[0]| then [k] + sorted
    else [sorted[0]] + InsertByLength(k, sorted[1..])
  }

  /** Python's stable sort of the keys by decreasing length. */
  function SortByLengthDesc(keys: seq<string>): seq<string>
  {
    if keys == [] then [] else InsertByLength(keys[0], SortByLengthDesc(keys[1..]))
  }

  lemma LongestFirstCons(x: string, ys: seq<string>)
    requires LongestFirst(ys)
    requires forall j :: 0 <= j < |ys| ==> |ys[j]| <= |x|
    ensures LongestFirst([x] + ys)
  {
    var r := [x] + ys;
    forall i, j | 0 <= i < j < |r|
      ensures |r[i]| >= |r[j]|
    {
      assert r[j] == ys[j - 1];
      if i > 0 {
        assert r[i] == ys[i - 1];
      }
    }
  }

  lemma {:induction false} InsertByLengthLaws(k: string, sorted: seq<string>)
    requires LongestFirst(sorted)
    ensures LongestFirst(InsertByLength(k, sorted))
    ensures multiset(InsertByLength(k, sorted)) == multiset(sorted) + multiset{k}
  {
    if sorted == [] || |k| >= |sorted[0]| {
      LongestFirstCons(k, sorted);
    } else {
      var tail := InsertByLength(k, sorted[1..]);
      InsertByLengthLaws(k, sorted[1..]);
      assert sorted == [sorted[0]] + sorted[1..];
      forall j | 0 <= j < |tail|
        ensures |tail[j]| <= |sorted[0]|
      {
        assert tail[j] in multiset(sorted[1..]) + multiset{k};
        if tail[j] != k {
          assert tail[j] in sorted[1..];
        }
      }
      LongestFirstCons(sorted[0], tail);
    }
  }

  /** The sorted keys are the same keys, longest first. */
  lemma {:induction false} SortByLengthDescLaws(keys: seq<string>)
    ensures LongestFirst(SortByLengthDesc(keys))
    ensures multiset(SortByLengthDesc(keys)) == multiset(keys)
  {
    if keys != [] {
      SortByLengthDescLaws(keys[1..]);
      InsertByLengthLaws(keys[0], SortByLengthDesc(keys[1..]));
      assert keys == [keys[0]] + keys[1..];
    }
  }

  // ---------------------------------------------------------------------------
  // re.sub with an alternation of literal keys

  /**
   * The alternative the regex engine takes at `i`: the first one, in pattern order, that
   * occurs there. An empty match is refused right after another empty match at the same
   * place (`emptyOk` false), and the engine then tries the later alternatives.
   */
  function FirstMatch(s: string, i: nat, alts: seq<string>, emptyOk: bool): (m: Option<string>)
    ensures m.Some? ==> m.value in alts && OccursAt(s, m.value, i) && (emptyOk || m.value != [])
  {
    if alts == [] then None
    else if OccursAt(s, alts[0], i) && (emptyOk || alts[0] != []) then Some(alts[0])
    else FirstMatch(s, i, alts[1..], emptyOk)
  }

  /** The pattern `'|'.join(keys)`: no keys give the empty pattern, which matches "". */
  function Pattern(alts: seq<string>): seq<string> {
    if alts == [] then [""] else alts
  }

  /**
   * The substitution from `i` on: at each position the match is replaced by `rules[match]`
   * (a KeyError when the match is not a key); where nothing matches the character is kept.
   */
  function ReplaceFrom(s: string, i: nat, alts: seq<string>, rules: Rules, emptyOk: bool): Result<string>
    requires i <= |s|
    decreases |s| - i, emptyOk
  {
    match FirstMatch(s, i, alts, emptyOk)
    case Some(k) =>
      (match Lookup(rules, k)
       case None => Err(KeyError(k))
       case Some(v) =>
         var rest :- if k == [] then ReplaceFrom(s, i, alts, rules, false)
                     else ReplaceFrom(s, i + |k|, alts, rules, true);
         Ok(v + rest))
    case None =>
      if i == |s| then Ok([])
      else
        var rest :- ReplaceFrom(s, i + 1, alts, rules, true);
        Ok([s[i]] + rest)
  }

  /** multi_replace(input, replacements, pattern), the pattern given as its alternatives. */
  function MultiReplace(input: string, rules: Rules, alts: seq<string>): Result<string> {
    ReplaceFrom(input, 0, Pattern(alts), rules, true)
  }

  /** The training tokenizer's replacement: its pattern is the keys sorted longest first. */
  function TrainingReplace(input: string, rules: Rules): Result<string> {
    MultiReplace(input, rules, SortByLengthDesc(Keys(rules)))
  }

  // ---------------------------------------------------------------------------
  // Properties

  /** With the keys longest first, the alternative taken is a longest key occurring there. */
  lemma {:induction false} FirstMatchLongest(s: string, i: nat, alts: seq<string>, emptyOk: bool)
    requires LongestFirst(alts)
    ensures FirstMatch(s, i, alts, emptyOk).None? ==>
      forall k :: k in alts && OccursAt(s, k, i) ==> !emptyOk && k == []
    ensures FirstMatch(s, i, alts, emptyOk).Some? ==>
      forall k :: k in alts && OccursAt(s, k, i) ==> |k| <= |FirstMatch(s, i, alts, emptyOk).value|
  {
    if alts != [] {
      FirstMatchLongest(s, i, alts[1..], emptyOk);
      assert forall k :: k in alts ==> k == alts[0] || k in alts[1..];
      if !(OccursAt(s, alts[0], i) && (emptyOk || alts[0] != [])) {
        if FirstMatch(s, i, alts[1..], emptyOk).Some? {
          var m := FirstMatch(s, i, alts[1..], emptyOk).value;
          var j :| 0 <= j < |alts[1..]| && alts[1..][j] == m;
          assert alts[1 + j] == m;
        }
      } else {
        forall k | k in alts
          ensures |k| <= |alts[0]|
        {
          var j :| 0 <= j < |alts| && alts[j] == k;
        }
      }
    }
  }

  /** Two keys of the same length occurring at the same place are the same key. */
  lemma SameLengthSameKey(s: string, i: nat, k1: string, k2: string)
    requires OccursAt(s, k1, i) && OccursAt(s, k2, i) && |k1| == |k2|
    ensures k1 == k2
  {
  }

  /**
   * The order among keys of equal length does not matter: any longest-first ordering of the
   * same keys takes the same alternative everywhere.
   */
  lemma FirstMatchOrderIndependent(s: string, i: nat, a1: seq<string>, a2: seq<string>, emptyOk: bool)
    requires LongestFirst(a1) && LongestFirst(a2) && multiset(a1) == multiset(a2)
    ensures FirstMatch(s, i, a1, emptyOk) == FirstMatch(s, i, a2, emptyOk)
  {
    FirstMatchLongest(s, i, a1, emptyOk);
    FirstMatchLongest(s, i, a2, emptyOk);
    var m1 := FirstMatch(s, i, a1, emptyOk);
    var m2 := FirstMatch(s, i, a2, emptyOk);
    assert forall k :: k in a1 <==> k in a2 by {
      forall k
        ensures k in a1 <==> k in a2
      {
        assert k in a1 <==> k in multiset(a1);
        assert k in a2 <==> k in multiset(a2);
      }
    }
    if m1.Some? && m2.Some? {
      SameLengthSameKey(s, i, m1.value, m2.value);
    }
  }

  /** Where the longest key occurring is `k`, the sorted pattern's first match is `k`. */
  lemma LongestKeyMatched(s: string, i: nat, rules: Rules, k: string)
    requires k in Keys(rules) && k != [] && OccursAt(s, k, i)
    requires forall k' :: k' in Keys(rules) && OccursAt(s, k', i) ==> |k'| <= |k|
    ensures FirstMatch(s, i, SortByLengthDesc(Keys(rules)), true) == Some(k)
  {
    var sorted := SortByLengthDesc(Keys(rules));
    SortByLengthDescLaws(Keys(rules));
    assert k in multiset(sorted);
    FirstMatchLongest(s, i, sorted, true);
    var m := FirstMatch(s, i, sorted, true).value;
    assert |k| <= |m|;
    assert m in multiset(Keys(rules));
    assert |m| <= |k|;
    SameLengthSameKey(s, i, m, k);
  }

  /**
   * At a position where the longest key occurring is `k`, the training replacement puts
   * `rules[k]` there and carries on after it.
   */
  lemma LongestKeyReplaced(s: string, i: nat, rules: Rules, k: string)
    requires i <= |s| && k in Keys(rules) && k != [] && OccursAt(s, k, i)
    requires forall k' :: k' in Keys(rules) && OccursAt(s, k', i) ==> |k'| <= |k|
    ensures ReplaceFrom(s, i, Pattern(SortByLengthDesc(Keys(rules))), rules, true) ==
      match ReplaceFrom(s, i + |k|, Pattern(SortByLengthDesc(Keys(rules))), rules, true)
      case Ok(rest) => Ok(Lookup(rules, k).value + rest)
      case Err(e) => Err(e)
  {
    var sorted := SortByLengthDesc(Keys(rules));
    LongestKeyMatched(s, i, rules, k);
    assert Pattern(sorted) == sorted;
    assert Lookup(rules, k).Some?;
  }

  /** Where no key occurs at all, the text comes back unchanged. */
  lemma {:induction false} ReplaceFromNoKey(s: string, i: nat, alts: seq<string>, rules: Rules, emptyOk: bool)
    requires i <= |s|
    requires forall k, j :: k in alts && i <= j <= |s| ==> !OccursAt(s, k, j)
    ensures ReplaceFrom(s, i, alts, rules, emptyOk) == Ok(s[i..])
    decreases |s| - i
  {
    if i < |s| {
      ReplaceFromNoKey(s, i + 1, alts, rules, true);
      assert s[i..] == [s[i]] + s[i + 1..];
    }
  }

  /** Input containing none of the keys is returned unchanged. */
  lemma NoKeyUnchanged(s: string, rules: Rules)
    requires rules != []
    requires forall k :: k in Keys(rules) ==> !Contains(s, k)
    ensures TrainingReplace(s, rules) == Ok(s)
  {
    var sorted := SortByLengthDesc(Keys(rules));
    SortByLengthDescLaws(Keys(rules));
    assert Keys(rules)[0] in multiset(sorted);
    assert Pattern(sorted) == sorted;
    forall k, j | k in sorted && 0 <= j <= |s|
      ensures !OccursAt(s, k, j)
    {
      assert k in Keys(rules) by {
        assert k in multiset(Keys(rules));
      }
      assert !Contains(s, k);
    }
    ReplaceFromNoKey(s, 0, sorted, rules, true);
    assert s[0..] == s;
  }

  /** Every match is looked up successfully when every alternative is a key. */
  lemma {:induction false} ReplaceFromOk(s: string, i: nat, alts: seq<string>, rules: Rules, emptyOk: bool)
    requires i <= |s|
    requires forall k :: k in alts ==> k in Keys(rules)
    ensures ReplaceFrom(s, i, alts, rules, emptyOk).Ok?
    decreases |s| - i, emptyOk
  {
    match FirstMatch(s, i, alts, emptyOk)
    case Some(k) =>
      if k == [] {
        ReplaceFromOk(s, i, alts, rules, false);
      } else {
        ReplaceFromOk(s, i + |k|, alts, rules, true);
      }
    case None =>
      if i < |s| {
        ReplaceFromOk(s, i + 1, alts, rules, true);
      }
  }

  /**
   * The training replacement fails exactly when the dict is empty: the empty pattern then
   * matches "" and looking it up raises KeyError('').
   */
  lemma TrainingReplaceFails(s: string, rules: Rules)
    ensures TrainingReplace(s, rules).Err? <==> rules == []
    ensures rules == [] ==> TrainingReplace(s, rules) == Err(KeyError(""))
  {
    var sorted := SortByLengthDesc(Keys(rules));
    SortByLengthDescLaws(Keys(rules));
    if rules == [] {
      assert sorted == [];
      assert OccursAt(s, "", 0);
    } else {
      assert Keys(rules)[0] in multiset(sorted);
      forall k | k in sorted
        ensures k in Keys(rules)
      {
        assert k in multiset(Keys(rules));
      }
      ReplaceFromOk(s, 0, sorted, rules, true);
    }
  }

  /** The default training rules never fail. */
  lemma TrainingRuleReplaces(s: string)
    ensures TrainingReplace(s, TRAINING_RULE).Ok?
  {
    TrainingReplaceFails(s, TRAINING_RULE);
  }

  /** One step of the substitution where nothing matches: the character is kept. */
  lemma ReplaceKeeps(s: string, i: nat, alts: seq<string>, rules: Rules, rest: string)
    requires i < |s| && FirstMatch(s, i, alts, true).None?
    requires ReplaceFrom(s, i + 1, alts, rules, true) == Ok(rest)
    ensures ReplaceFrom(s, i, alts, rules, true) == Ok([s[i]] + rest)
  {
  }

  /** One step of the substitution where a non-empty key matches: its value is put instead. */
  lemma ReplaceKey(s: string, i: nat, alts: seq<string>, rules: Rules, k: string, rest: string)
    requires i <= |s| && FirstMatch(s, i, alts, true) == Some(k) && k != [] && k in Keys(rules)
    requires ReplaceFrom(s, i + |k|, alts, rules, true) == Ok(rest)
    ensures ReplaceFrom(s, i, alts, rules, true) == Ok(Lookup(rules, k).value + rest)
  {
  }

  /** The keys of the example below, longest first. */
  lemma LongestKeyExampleAlts()
    ensures SortByLengthDesc(Keys([("ab", "AB"), ("abc", "ABC")])) == ["abc", "ab"]
  {
    assert Keys([("ab", "AB"), ("abc", "ABC")]) == ["ab", "abc"];
    assert SortByLengthDesc(["ab", "abc"]) == ["abc", "ab"];
  }

  /** The end of the example below: "abc" at index 4 becomes "ABC". */
  lemma LongestKeyExampleTail()
    ensures ReplaceFrom("hey abc", 4, ["abc", "ab"], [("ab", "AB"), ("abc", "ABC")], true) == Ok("ABC")
  {
    var rules := [("ab", "AB"), ("abc", "ABC")];
    var s := "hey abc";
    var alts := ["abc", "ab"];
    assert FirstMatch(s, 7, alts, true) == None;
    assert ReplaceFrom(s, 7, alts, rules, true) == Ok("");
    assert FirstMatch(s, 4, alts, true) == Some("abc") by {
      assert s[4..7] == "abc";
    }
    assert Lookup(rules, "abc") == Some("ABC");
    ReplaceKey(s, 4, alts, rules, "abc", "");
    assert "ABC" + "" == "ABC";
  }

  /** A stretch with no match at any position is copied as it is. */
  lemma {:induction false} ReplaceKeepsStretch(s: string, i: nat, j: nat, alts: seq<string>, rules: Rules, rest: string)
    requires i <= j <= |s|
    requires forall p :: i <= p < j ==> FirstMatch(s, p, alts, true).None?
    requires ReplaceFrom(s, j, alts, rules, true) == Ok(rest)
    ensures ReplaceFrom(s, i, alts, rules, true) == Ok(s[i..j] + rest)
    decreases j - i
  {
    if i < j {
      ReplaceKeepsStretch(s, i + 1, j, alts, rules, rest);
      ReplaceKeeps(s, i, alts, rules, s[i + 1..j] + rest);
      assert [s[i]] + (s[i + 1..j] + rest) == s[i..j] + rest;
    } else {
      assert s[i..j] + rest == rest;
    }
  }

  /** The start of the example below: "hey " has no key, so it is kept before "ABC". */
  lemma LongestKeyExampleHead()
    ensures ReplaceFrom("hey abc", 0, ["abc", "ab"], [("ab", "AB"), ("abc", "ABC")], true) == Ok("hey ABC")
  {
    var rules := [("ab", "AB"), ("abc", "ABC")];
    var s := "hey abc";
    var alts := ["abc", "ab"];
    LongestKeyExampleTail();
    forall p | 0 <= p < 4
      ensures FirstMatch(s, p, alts, true).None?
    {
      assert s[p] != 'a';
      assert s[p..p + 2][0] == s[p];
      assert s[p..p + 3][0] == s[p];
    }
    ReplaceKeepsStretch(s, 0, 4, alts, rules, "ABC");
    assert s[0..4] + "ABC" == "hey ABC";
  }

  /** Longer keys take precedence: {'ab': 'AB', 'abc': 'ABC'} turns 'hey abc' into 'hey ABC'. */
  lemma LongestKeyExample()
    ensures TrainingReplace("hey abc", [("ab", "AB"), ("abc", "ABC")]) == Ok("hey ABC")
  {
    LongestKeyExampleAlts();
    LongestKeyExampleHead();
  }
}
