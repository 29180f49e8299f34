/** The regular-expression matcher of grep, from Kernighan and Pike, "The Practice of Programming", chapter 9, against
    the language that a pattern denotes. A C string is the sequence of its characters before the terminating zero.
 */
module Regex {

  // ---------- what a pattern denotes ----------

  /** One character, or any number of them; '.' stands for any character. */
  datatype Item = One(c: char) | Star(c: char)

  /** A sequence of items, and whether it must reach to the end of the text. */
  datatype Pattern = Pattern(items: seq<Item>, toEnd: bool)

  /** '*' binds to the character before it, whatever that is; '$' is special only as the last character. */
  function Parse(re: string): Pattern {
    if re == [] then Pattern([], false)
    else if |re| > 1 && re[1] == '*' then
      var rest := Parse(re[2..]);
      Pattern([Star(re[0])] + rest.items, rest.toEnd)
    else if re == "$" then Pattern([], true)
    else
      var rest := Parse(re[1..]);
      Pattern([One(re[0])] + rest.items, rest.toEnd)
  }

  predicate Fits(c: char, x: char) { c == '.' || c == x }

  ghost predicate AllFit(c: char, s: string) { forall i :: 0 <= i < |s| ==> Fits(c, s[i]) }

  /** The language of one item. */
  ghost predicate InItem(item: Item, s: string) {
    match item
    case One(c) => |s| == 1 && Fits(c, s[0])
    case Star(c) => AllFit(c, s)
  }

  /** The language of a sequence of items: concatenations of one string from each. */
  ghost predicate InLanguage(items: seq<Item>, s: string) {
    if items == [] then s == []
    else exists k :: 0 <= k <= |s| && InItem(items[0], s[..k]) && InLanguage(items[1..], s[k..])
  }

  /** The first n characters of the text match the pattern. */
  ghost predicate MatchesTo(p: Pattern, text: string, n: int) {
    0 <= n <= |text| && InLanguage(p.items, text[..n]) && (p.toEnd ==> n == |text|)
  }

  ghost predicate MatchesHere(p: Pattern, text: string) {
    exists n :: MatchesTo(p, text, n)
  }

  ghost predicate MatchesAt(p: Pattern, text: string, k: int) {
    0 <= k <= |text| && MatchesHere(p, text[k..])
  }

  /** What grep looks for in a line. */
  ghost predicate Matches(re: string, text: string) {
    if re != [] && re[0] == '^' then MatchesHere(Parse(re[1..]), text)
    else exists k :: MatchesAt(Parse(re), text, k)
  }

  // ---------- one item at a time ----------

  /** A pattern that begins with an item matches here when the item matches some prefix and the rest what follows. */
  lemma {:induction false} ItemThenRest(item: Item, rest: Pattern, text: string)
    ensures MatchesHere(Pattern([item] + rest.items, rest.toEnd), text)
       <==> exists k :: 0 <= k <= |text| && InItem(item, text[..k]) && MatchesHere(rest, text[k..])
  {
    var p := Pattern([item] + rest.items, rest.toEnd);
    assert p.items[1..] == rest.items;
    if n :| MatchesTo(p, text, n) {
      var k :| 0 <= k <= n && InItem(item, text[..n][..k]) && InLanguage(rest.items, text[..n][k..]);
      assert text[..n][..k] == text[..k] && text[..n][k..] == text[k..][..n - k];
      assert MatchesTo(rest, text[k..], n - k);
    }
    if k :| 0 <= k <= |text| && InItem(item, text[..k]) && MatchesHere(rest, text[k..]) {
      var n :| MatchesTo(rest, text[k..], n);
      assert text[..k + n][..k] == text[..k] && text[..k + n][k..] == text[k..][..n];
      assert MatchesTo(p, text, k + n);
    }
  }

  lemma {:induction false} OneThenRest(c: char, rest: Pattern, text: string)
    ensures MatchesHere(Pattern([One(c)] + rest.items, rest.toEnd), text)
       <==> text != [] && Fits(c, text[0]) && MatchesHere(rest, text[1..])
  {
    ItemThenRest(One(c), rest, text);
    if text != [] && Fits(c, text[0]) {
      assert InItem(One(c), text[..1]);
    }
  }

  /** The rest of a pattern matches behind some number of repetitions. */
  ghost predicate StarAt(c: char, rest: Pattern, text: string, k: int) {
    0 <= k <= |text| && AllFit(c, text[..k]) && MatchesHere(rest, text[k..])
  }

  lemma {:induction false} StarThenRest(c: char, rest: Pattern, text: string)
    ensures MatchesHere(Pattern([Star(c)] + rest.items, rest.toEnd), text) <==> exists k :: StarAt(c, rest, text, k)
  {
    ItemThenRest(Star(c), rest, text);
    if k :| 0 <= k <= |text| && InItem(Star(c), text[..k]) && MatchesHere(rest, text[k..]) {
      assert StarAt(c, rest, text, k);
    }
    if k :| StarAt(c, rest, text, k) {
      assert InItem(Star(c), text[..k]);
    }
  }

  lemma {:induction false} NothingLeft(toEnd: bool, text: string)
    ensures MatchesHere(Pattern([], toEnd), text) <==> !toEnd || text == []
  {
    assert text[..0] == [];
    if !toEnd || text == [] {
      assert MatchesTo(Pattern([], toEnd), text, 0);
    }
  }

  // ---------- the matcher ----------

  /** Does the pattern occur in the text? */
  method Match(re: string, text: string) returns (r: bool)
    ensures r <==> Matches(re, text)
  {
    if re != [] && re[0] == '^' {
      r := Matchhere(re[1..], text);
      return;
    }
    var k := 0;
    while true
      invariant 0 <= k <= |text|
      invariant forall j :: 0 <= j < k ==> !MatchesAt(Parse(re), text, j)
      decreases |text| - k
    {
      var here := Matchhere(re, text[k..]);
      assert here <==> MatchesAt(Parse(re), text, k);
      if here {
        return true;
      }
      if k == |text| {
        break;
      }
      k := k + 1;
    }
    return false;
  }

  /** Does the text begin with a match? */
  method Matchhere(re: string, text: string) returns (r: bool)
    ensures r <==> MatchesHere(Parse(re), text)
    decreases |re|, 0
  {
    if re == [] {
      NothingLeft(false, text);
      return true;
    }
    if |re| > 1 && re[1] == '*' {
      StarThenRest(re[0], Parse(re[2..]), text);
      assert Parse(re) == Pattern([Star(re[0])] + Parse(re[2..]).items, Parse(re[2..]).toEnd);
      r := Matchstar(re[0], re[2..], text);
      return;
    }
    if re[0] == '$' && |re| == 1 {
      NothingLeft(true, text);
      return text == [];
    }
    OneThenRest(re[0], Parse(re[1..]), text);
    if text != [] && (re[0] == '.' || re[0] == text[0]) {
      r := Matchhere(re[1..], text[1..]);
      return;
    }
    return false;
  }

  /** Does the text begin with repetitions of one item and then a match? */
  method Matchstar(c: char, re: string, text: string) returns (r: bool)
    ensures r <==> exists k :: StarAt(c, Parse(re), text, k)
    decreases |re|, 1
  {
    var k := 0;
    while true
      invariant 0 <= k <= |text| && AllFit(c, text[..k])
      invariant forall j :: 0 <= j < k ==> !StarAt(c, Parse(re), text, j)
      decreases |text| - k
    {
      var here := Matchhere(re, text[k..]);
      if here {
        assert StarAt(c, Parse(re), text, k);
        return true;
      }
      assert !StarAt(c, Parse(re), text, k);
      if k == |text| {
        break;
      }
      k := k + 1;
      if !(text[k - 1] == c || c == '.') {
        forall j
          ensures !StarAt(c, Parse(re), text, j)
        {
          assert k <= j <= |text| ==> text[..j][k - 1] == text[k - 1];
        }
        break;
      }
    }
    return false;
  }
}
