/** grep.c's matcher (Kernighan and Pike, The Practice of Programming, chapter 9) against the
    language its patterns denote. */
module Regex {

  /** A C string: no NUL inside, and a NUL where it ends. */
  type CString = s: string | '\0' !in s

  function CharAt(s: CString, i: nat): char {
    if i < |s| then s[i] else '\0'
  }

  // ---------- What a pattern denotes ----------

  datatype Item = One(c: char) | Star(c: char)

  /** The body of a pattern: items in sequence, and whether `$` ties the match to the end of the text. */
  datatype Pattern = Pattern(items: seq<Item>, toEnd: bool)

  function Parse(re: CString): Pattern
    decreases |re|
  {
    if re == [] then Pattern([], false)
    else if |re| >= 2 && re[1] == '*' then Prepend(Star(re[0]), Parse(re[2..]))
    else if re == "$" then Pattern([], true)
    else Prepend(One(re[0]), Parse(re[1..]))
  }

  function Prepend(item: Item, p: Pattern): Pattern {
    p.(items := [item] + p.items)
  }

  /** How a pattern is written: a starred item is its character and a '*', any other its character, and '$' ends it. */
  function Text(p: Pattern): string
    decreases |p.items|
  {
    if p.items == [] then if p.toEnd then "$" else ""
    else
      var rest := Text(p.(items := p.items[1..]));
      match p.items[0]
      case One(c) => [c] + rest
      case Star(c) => [c, '*'] + rest
  }

  /** What can be written: no '*' after an item that is not starred, and no '$' at the end that is to be a character. */
  predicate Clear(p: Pattern) {
    && (forall i :: 0 <= i < |p.items| - 1 && p.items[i].One? ==> p.items[i + 1].c != '*')
    && (p.items != [] && !p.toEnd ==> p.items[|p.items| - 1] != One('$'))
  }

  lemma PrependText(item: Item, p: Pattern)
    ensures Text(Prepend(item, p)) == (if item.One? then [item.c] else [item.c, '*']) + Text(p)
  {
    assert Prepend(item, p).items[1..] == p.items;
    assert Prepend(item, p).(items := p.items) == p;
  }

  /** Every string is the text of the pattern read from it. */
  lemma {:induction false} ParseWrites(re: CString)
    ensures Text(Parse(re)) == re && Clear(Parse(re))
    decreases |re|
  {
    if re == [] {
    } else if |re| >= 2 && re[1] == '*' {
      ParseWrites(re[2..]);
      PrependText(Star(re[0]), Parse(re[2..]));
      assert re == [re[0], '*'] + re[2..];
    } else if re != "$" {
      ParseWrites(re[1..]);
      PrependText(One(re[0]), Parse(re[1..]));
      assert re == [re[0]] + re[1..];
      FirstChar(Parse(re[1..]));
    }
  }

  lemma FirstChar(p: Pattern)
    ensures p.items != [] ==> Text(p) != [] && Text(p)[0] == p.items[0].c
    ensures p.items == [] ==> Text(p) == if p.toEnd then "$" else ""
  {
  }

  /** And every pattern that can be written is read back from its text. */
  lemma {:induction false} ParseReads(p: Pattern)
    requires Clear(p) && '\0' !in Text(p)
    ensures Parse(Text(p)) == p
    decreases |p.items|
  {
    if p.items != [] {
      var item, rest := p.items[0], p.(items := p.items[1..]);
      assert p == Prepend(item, rest);
      PrependText(item, rest);
      assert forall c :: c in Text(rest) ==> c in Text(p);
      ParseReads(rest);
      FirstChar(rest);
      if item.One? {
        assert Text(p)[1..] == Text(rest);
      } else {
        assert Text(p)[2..] == Text(rest);
      }
    }
  }

  predicate Accepts(c: char, x: char) {
    c == '.' || c == x
  }

  ghost predicate Denotes(item: Item, piece: string) {
    match item
    case One(c) => |piece| == 1 && Accepts(c, piece[0])
    case Star(c) => forall i :: 0 <= i < |piece| ==> Accepts(c, piece[i])
  }

  ghost function Concat(pieces: seq<string>): string {
    if pieces == [] then "" else pieces[0] + Concat(pieces[1..])
  }

  /** A split of w into one piece per item, each piece in its item's language. */
  ghost predicate Splits(items: seq<Item>, pieces: seq<string>, w: string) {
    && |pieces| == |items| && Concat(pieces) == w
    && forall i :: 0 <= i < |items| ==> Denotes(items[i], pieces[i])
  }

  ghost predicate InLanguage(items: seq<Item>, w: string) {
    exists pieces :: Splits(items, pieces, w)
  }

  /** text[i..j] is a match of p, read as a match beginning at i. */
  ghost predicate MatchesAt(p: Pattern, text: string, i: nat, j: nat) {
    i <= j <= |text| && InLanguage(p.items, text[i..j]) && (p.toEnd ==> j == |text|)
  }

  ghost predicate MatchesHere(p: Pattern, text: string) {
    exists j: nat :: MatchesAt(p, text, 0, j)
  }

  // ---------- Languages, one item at a time ----------

  lemma LanguageEmpty(w: string)
    ensures InLanguage([], w) <==> w == ""
  {
    if w == "" {
      assert Splits([], [], w);
    }
  }

  lemma LanguageUncons(item: Item, items: seq<Item>, w: string) returns (k: nat)
    requires InLanguage([item] + items, w)
    ensures k <= |w| && Denotes(item, w[..k]) && InLanguage(items, w[k..])
  {
    var pieces :| Splits([item] + items, pieces, w);
    k := |pieces[0]|;
    assert w[..k] == pieces[0] && w[k..] == Concat(pieces[1..]);
    assert Denotes(([item] + items)[0], pieces[0]);
    forall i | 0 <= i < |items| ensures Denotes(items[i], pieces[1..][i]) {
      assert ([item] + items)[i + 1] == items[i];
    }
    assert Splits(items, pieces[1..], w[k..]);
  }

  lemma LanguageCons(item: Item, items: seq<Item>, w: string, k: nat)
    requires k <= |w| && Denotes(item, w[..k]) && InLanguage(items, w[k..])
    ensures InLanguage([item] + items, w)
  {
    var rest :| Splits(items, rest, w[k..]);
    var pieces := [w[..k]] + rest;
    assert pieces[1..] == rest && Concat(pieces) == w[..k] + w[k..] == w;
    assert Splits([item] + items, pieces, w);
  }

  /** A pattern starting with a single-character item matches here exactly when that character
      does and the rest matches one place on. */
  lemma HereOne(c: char, p: Pattern, text: string)
    ensures MatchesHere(Prepend(One(c), p), text) <==>
      text != "" && Accepts(c, text[0]) && MatchesHere(p, text[1..])
  {
    if MatchesHere(Prepend(One(c), p), text) {
      var j: nat :| MatchesAt(Prepend(One(c), p), text, 0, j);
      var k := LanguageUncons(One(c), p.items, text[0..j]);
      assert text[0..j][1..] == text[1..][0..j - 1];
      assert MatchesAt(p, text[1..], 0, j - 1);
    }
    if text != "" && Accepts(c, text[0]) && MatchesHere(p, text[1..]) {
      var j: nat :| MatchesAt(p, text[1..], 0, j);
      assert text[0..j + 1][1..] == text[1..][0..j];
      assert text[0..j + 1][..1] == [text[0]];
      LanguageCons(One(c), p.items, text[0..j + 1], 1);
      assert MatchesAt(Prepend(One(c), p), text, 0, j + 1);
    }
  }

  /** A starred item takes some number of accepted characters, then the rest matches. */
  ghost predicate StarSplit(c: char, p: Pattern, text: string, k: nat) {
    && k <= |text| && (forall i :: 0 <= i < k ==> Accepts(c, text[i]))
    && MatchesHere(p, text[k..])
  }

  lemma HereStar(c: char, p: Pattern, text: string)
    ensures MatchesHere(Prepend(Star(c), p), text) <==> exists k: nat :: StarSplit(c, p, text, k)
  {
    if MatchesHere(Prepend(Star(c), p), text) {
      var j: nat :| MatchesAt(Prepend(Star(c), p), text, 0, j);
      var k := LanguageUncons(Star(c), p.items, text[0..j]);
      assert text[0..j][k..] == text[k..][0..j - k];
      assert MatchesAt(p, text[k..], 0, j - k);
      forall i | 0 <= i < k ensures Accepts(c, text[i]) {
        assert text[0..j][..k][i] == text[i];
      }
      assert StarSplit(c, p, text, k);
    }
    if k: nat :| StarSplit(c, p, text, k) {
      var j: nat :| MatchesAt(p, text[k..], 0, j);
      assert text[0..k + j][k..] == text[k..][0..j];
      assert text[0..k + j][..k] == text[..k];
      LanguageCons(Star(c), p.items, text[0..k + j], k);
      assert MatchesAt(Prepend(Star(c), p), text, 0, k + j);
    }
  }

  lemma HereEmpty(text: string)
    ensures MatchesHere(Pattern([], false), text)
    ensures MatchesHere(Pattern([], true), text) <==> text == ""
  {
    LanguageEmpty(text[0..0]);
    assert MatchesAt(Pattern([], false), text, 0, 0);
    if text == "" {
      assert MatchesAt(Pattern([], true), text, 0, 0);
    }
    if j: nat :| MatchesAt(Pattern([], true), text, 0, j) {
      LanguageEmpty(text[0..j]);
    }
  }

  // ---------- The matcher ----------

  /** matchhere: does re match at the beginning of text? */
  method MatchHere(re: CString, text: CString) returns (r: bool)
    ensures r <==> MatchesHere(Parse(re), text)
    decreases |re|, |text|, 0
  {
    HereEmpty(text);
    if CharAt(re, 0) == '\0' {
      return true;
    }
    if CharAt(re, 1) == '*' {
      r := MatchStar(re[0], re[2..], text);
      assert Parse(re) == Prepend(Star(re[0]), Parse(re[2..]));
      HereStar(re[0], Parse(re[2..]), text);
      return;
    }
    if re[0] == '$' && CharAt(re, 1) == '\0' {
      return CharAt(text, 0) == '\0';
    }
    HereOne(re[0], Parse(re[1..]), text);
    if CharAt(text, 0) != '\0' && (re[0] == '.' || re[0] == text[0]) {
      r := MatchHere(re[1..], text[1..]);
      return;
    }
    return false;
  }

  /** matchstar: does c*re match at the beginning of text? */
  method MatchStar(c: char, re: CString, text: CString) returns (r: bool)
    ensures r <==> exists k: nat :: StarSplit(c, Parse(re), text, k)
    decreases |re|, |text|, 1
  {
    var i := 0;
    while true
      invariant 0 <= i <= |text|
      invariant forall j :: 0 <= j < i ==> Accepts(c, text[j])
      invariant forall k: nat :: k < i ==> !StarSplit(c, Parse(re), text, k)
      decreases |text| - i
    {
      var here := MatchHere(re, text[i..]);
      if here {
        assert StarSplit(c, Parse(re), text, i);
        return true;
      }
      if !(i < |text| && (text[i] == c || c == '.')) {
        forall k: nat ensures !StarSplit(c, Parse(re), text, k) {
          if k > i && k <= |text| {
            assert !Accepts(c, text[i]);
          }
        }
        return false;
      }
      i := i + 1;
    }
  }

  /** match: true exactly when some substring of the text is in the language of the pattern,
      starting at the front if the pattern starts with `^`, and reaching the end if it ends with `$`. */
  method Match(re: CString, text: CString) returns (r: bool)
    ensures CharAt(re, 0) == '^' ==> (r <==> exists j: nat :: MatchesAt(Parse(re[1..]), text, 0, j))
    ensures CharAt(re, 0) != '^' ==> (r <==> exists i: nat, j: nat :: MatchesAt(Parse(re), text, i, j))
  {
    if CharAt(re, 0) == '^' {
      r := MatchHere(re[1..], text);
      return;
    }
    var i := 0;
    while true
      invariant 0 <= i <= |text|
      invariant forall k: nat, j: nat :: k < i ==> !MatchesAt(Parse(re), text, k, j)
      decreases |text| - i
    {
      var here := MatchHere(re, text[i..]);
      SuffixMatch(Parse(re), text, i);
      if here {
        return true;
      }
      if i == |text| {
        return false;
      }
      i := i + 1;
    }
  }

  lemma SuffixMatch(p: Pattern, text: string, i: nat)
    requires i <= |text|
    ensures MatchesHere(p, text[i..]) <==> exists j: nat :: MatchesAt(p, text, i, j)
  {
    if j: nat :| MatchesAt(p, text[i..], 0, j) {
      assert text[i..][0..j] == text[i..i + j];
      assert MatchesAt(p, text, i, i + j);
    }
    if j: nat :| MatchesAt(p, text, i, j) {
      assert text[i..][0..j - i] == text[i..j];
      assert MatchesAt(p, text[i..], 0, j - i);
    }
  }
}
