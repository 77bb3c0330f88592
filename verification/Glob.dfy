/**
 The shell-style matcher of decode/opendevice.c.

 Text and pattern are C strings without their terminating NUL, as sequences of
 `char` values; nothing depends on whether plain `char` is signed.
 */
module Glob {
  import opened Machine

  const BACKSLASH := 92
  const QUESTION := 63
  const STAR := 42
  const OPEN := 91
  const CLOSE := 93
  const CARET := 94
  const DASH := 45

  const SUCCESS := 1
  const FAILED := 0
  const ABORT := -1

  // ----- The declared language -----

  datatype Item = Single(c: int) | Range(lo: int, hi: int)

  datatype Token = Literal(c: int) | AnyChar | Star | Class(negated: bool, items: seq<Item>)

  predicate Covers(item: Item, c: int) {
    match item
    case Single(d) => c == d
    case Range(lo, hi) => lo <= c <= hi
  }

  predicate Listed(items: seq<Item>, c: int) {
    exists i :: 0 <= i < |items| && Covers(items[i], c)
  }

  /** One character is accepted by a token other than the star. */
  predicate Accepts(token: Token, c: int)
    requires !token.Star?
  {
    match token
    case Literal(d) => c == d
    case AnyChar => true
    case Class(negated, items) => Listed(items, c) != negated
  }

  /** The star stands for any split of the text; every other token for one character. */
  ghost predicate InLanguage(text: seq<int>, tokens: seq<Token>)
    decreases |tokens|
  {
    if tokens == [] then text == []
    else if tokens[0].Star? then exists k :: 0 <= k <= |text| && InLanguage(text[k..], tokens[1..])
    else text != [] && Accepts(tokens[0], text[0]) && InLanguage(text[1..], tokens[1..])
  }

  // ----- Reading a pattern -----

  /** `*p` for a pointer `i` characters into a C string. */
  function At(s: seq<int>, i: nat): int {
    if i < |s| then s[i] else 0
  }

  predicate NulFree(s: seq<int>) {
    forall i :: 0 <= i < |s| ==> s[i] != 0
  }

  /** The items of a bracket list from `i` on, `last` being the character before,
      and the position of the closing bracket; None if the list is not closed. */
  function ReadItems(pat: seq<int>, i: nat, last: int): (r: Option<(seq<Item>, nat)>)
    ensures r.Some? ==> i <= r.value.1 < |pat| && pat[r.value.1] == CLOSE
    decreases |pat| - i
  {
    if i >= |pat| then None
    else if pat[i] == CLOSE then Some(([], i))
    else if pat[i] == DASH && At(pat, i + 1) != CLOSE then
      if i + 1 >= |pat| then None
      else
        match ReadItems(pat, i + 2, pat[i + 1])
        case None => None
        case Some((items, end)) => Some(([Range(last, pat[i + 1])] + items, end))
    else
      match ReadItems(pat, i + 1, pat[i])
      case None => None
      case Some((items, end)) => Some(([Single(pat[i])] + items, end))
  }

  /** A bracket list whose first character stands at `i`: a leading ']' or '-' is itself listed. */
  function ReadList(pat: seq<int>, i: nat): (r: Option<(seq<Item>, nat)>)
    requires 0 < i <= |pat|
    ensures r.Some? ==> i <= r.value.1 < |pat| && pat[r.value.1] == CLOSE
  {
    if At(pat, i) == CLOSE || At(pat, i) == DASH then
      match ReadItems(pat, i + 1, pat[i])
      case None => None
      case Some((items, end)) => Some(([Single(pat[i])] + items, end))
    else
      ReadItems(pat, i, pat[i - 1])
  }

  /** The token that starts at `i` and the position of its last character. */
  function ReadToken(pat: seq<int>, i: nat): (r: Option<(Token, nat)>)
    requires i < |pat|
    ensures r.Some? ==> i <= r.value.1 <= |pat|
  {
    if pat[i] == BACKSLASH then Some((Literal(At(pat, i + 1)), i + 1))
    else if pat[i] == QUESTION then Some((AnyChar, i))
    else if pat[i] == STAR then Some((Star, i))
    else if pat[i] == OPEN then
      var negated := At(pat, i + 1) == CARET;
      match ReadList(pat, if negated then i + 2 else i + 1)
      case None => None
      case Some((items, end)) => Some((Class(negated, items), end))
    else Some((Literal(pat[i]), i))
  }

  /** The tokens of a pattern from `i` on; None if a bracket list is not closed. */
  function Tokens(pat: seq<int>, i: nat): Option<seq<Token>>
    decreases |pat| - i
  {
    if i >= |pat| then Some([])
    else
      match ReadToken(pat, i)
      case None => None
      case Some((token, end)) =>
        match Tokens(pat, end + 1)
        case None => None
        case Some(rest) => Some([token] + rest)
  }

  predicate Closed(pat: seq<int>) {
    Tokens(pat, 0).Some?
  }

  // ----- The matcher -----

  /** No suffix of the text, the text itself included, is in the language. */
  ghost predicate NoSuffixMatches(text: seq<int>, tokens: seq<Token>) {
    forall k :: 0 <= k <= |text| ==> !InLanguage(text[k..], tokens)
  }

  /** One bracket list against one character: `open` is the position of '[', `p` that of ']'. */
  method MatchList(c: int, pat: seq<int>, open: nat, ghost token: Token) returns (mismatch: bool, p: nat)
    requires NulFree(pat) && open < |pat| && pat[open] == OPEN
    requires ReadToken(pat, open).Some? && ReadToken(pat, open).value.0 == token
    ensures p == ReadToken(pat, open).value.1
    ensures mismatch <==> !Accepts(token, c)
  {
    p := open;
    var negated := At(pat, p + 1) == CARET;
    if negated {
      p := p + 1;
    }
    ghost var all := ReadList(pat, p + 1).value;
    var matched := false;
    ghost var seen: seq<Item> := [];
    if At(pat, p + 1) == CLOSE || At(pat, p + 1) == DASH {
      p := p + 1;
      ListedSnoc(seen, Single(pat[p]), c);
      seen := seen + [Single(pat[p])];
      if pat[p] == c {
        matched := true;
      }
    }
    matched, p := MatchItems(c, pat, p, matched, seen, all);
    mismatch := matched == negated;
  }

  /** The loop over the items, entered with `p` on the character before the first of them. */
  method MatchItems(c: int, pat: seq<int>, before: nat, found: bool, ghost read: seq<Item>, ghost all: (seq<Item>, nat))
    returns (matched: bool, p: nat)
    requires NulFree(pat) && before < |pat|
    requires ListRest(pat, before + 1, pat[before], read, all)
    requires found <==> Listed(read, c)
    ensures p == all.1
    ensures matched <==> Listed(all.0, c)
  {
    matched := found;
    ghost var seen := read;
    p := before;
    var last := pat[p];
    p := p + 1;
    while At(pat, p) != 0 && At(pat, p) != CLOSE
      invariant p <= |pat|
      invariant ListRest(pat, p, last, seen, all)
      invariant matched <==> Listed(seen, c)
      decreases |pat| - p
    {
      ListRestStep(pat, p, last, seen, all);
      ghost var item := FirstItem(pat, p, last).0;
      ListedSnoc(seen, item, c);
      if pat[p] == DASH && At(pat, p + 1) != CLOSE {
        p := p + 1;
        if c <= pat[p] && c >= last {
          matched := true;
        }
      } else {
        if c == pat[p] {
          matched := true;
        }
      }
      seen := seen + [item];
      last := pat[p];
      p := p + 1;
    }
    assert seen == all.0;
  }

  /** The first item of an unfinished list and the position of its last character. */
  function FirstItem(pat: seq<int>, p: nat, last: int): (Item, nat)
    requires p < |pat|
  {
    if pat[p] == DASH && At(pat, p + 1) != CLOSE then (Range(last, At(pat, p + 1)), p + 1)
    else (Single(pat[p]), p)
  }

  lemma ListRestStep(pat: seq<int>, p: nat, last: int, seen: seq<Item>, all: (seq<Item>, nat))
    requires p < |pat| && pat[p] != CLOSE && ListRest(pat, p, last, seen, all)
    ensures var (item, end) := FirstItem(pat, p, last);
            end < |pat| && ListRest(pat, end + 1, pat[end], seen + [item], all)
  {
    var (item, end) := FirstItem(pat, p, last);
    var rest := ReadItems(pat, end + 1, pat[end]).value.0;
    assert seen + ([item] + rest) == seen + [item] + rest;
  }

  /** What is still to be read completes `seen` to the whole list. */
  ghost predicate ListRest(pat: seq<int>, p: nat, last: int, seen: seq<Item>, all: (seq<Item>, nat)) {
    var rest := ReadItems(pat, p, last);
    rest.Some? && seen + rest.value.0 == all.0 && rest.value.1 == all.1
  }

  lemma ListedSnoc(items: seq<Item>, item: Item, c: int)
    ensures Listed(items + [item], c) <==> Listed(items, c) || Covers(item, c)
  {
    if Listed(items, c) {
      var i :| 0 <= i < |items| && Covers(items[i], c);
      assert (items + [item])[i] == items[i];
    }
    if Covers(item, c) {
      assert (items + [item])[|items|] == item;
    }
  }

  // ----- Facts about the language -----

  lemma {:induction false} EmptyText(tokens: seq<Token>)
    requires tokens != [] && !tokens[0].Star?
    ensures !InLanguage([], tokens)
  {}

  /** A run of stars is no different from a single star. */
  lemma StarStar(text: seq<int>, rest: seq<Token>)
    ensures InLanguage(text, [Star, Star] + rest) <==> InLanguage(text, [Star] + rest)
  {
    var one, two := [Star] + rest, [Star, Star] + rest;
    assert two[1..] == one && one[1..] == rest;
    if InLanguage(text, two) {
      var i :| 0 <= i <= |text| && InLanguage(text[i..], one);
      var j :| 0 <= j <= |text[i..]| && InLanguage(text[i..][j..], rest);
      assert text[i..][j..] == text[i + j..];
    }
    if InLanguage(text, one) {
      assert text[0..] == text;
      assert InLanguage(text[0..], one);
    }
  }

  lemma StarAt(text: seq<int>, rest: seq<Token>, k: nat)
    requires k <= |text| && InLanguage(text[k..], rest)
    ensures InLanguage(text, [Star] + rest)
  {
    assert ([Star] + rest)[1..] == rest;
  }

  /** The link the matcher keeps between the texts it was called on and what is left:
      after `k` tokens of one character each, a member's remainder is a member of the rest. */
  ghost predicate Progress(text: seq<int>, start: nat, k: nat, all: seq<Token>, rest: seq<Token>)
    requires start + k <= |text|
  {
    && (InLanguage(text[start + k..], rest) ==> InLanguage(text[start..], all))
    && forall m {:trigger text[m..]} :: start <= m <= |text| && InLanguage(text[m..], all) ==>
         m + k <= |text| && InLanguage(text[m + k..], rest)
  }

  lemma ProgressStep(text: seq<int>, start: nat, k: nat, all: seq<Token>, rest: seq<Token>)
    requires start + k < |text| && Progress(text, start, k, all, rest)
    requires rest != [] && !rest[0].Star? && Accepts(rest[0], text[start + k])
    ensures Progress(text, start, k + 1, all, rest[1..])
  {
    assert text[start + k..][1..] == text[start + k + 1..];
    forall m | start <= m <= |text| && InLanguage(text[m..], all)
      ensures m + k + 1 <= |text| && InLanguage(text[m + k + 1..], rest[1..])
    {
      assert text[m + k..][1..] == text[m + k + 1..];
    }
  }

  lemma ProgressStart(text: seq<int>, start: nat, all: seq<Token>)
    requires start <= |text|
    ensures Progress(text, start, 0, all, all)
  {}

  lemma ProgressMismatch(text: seq<int>, start: nat, k: nat, all: seq<Token>, rest: seq<Token>)
    requires start + k < |text| && Progress(text, start, k, all, rest)
    requires rest != [] && !rest[0].Star? && !Accepts(rest[0], text[start + k])
    ensures !InLanguage(text[start..], all)
  {}

  lemma ProgressEnd(text: seq<int>, start: nat, k: nat, all: seq<Token>)
    requires start + k <= |text| && Progress(text, start, k, all, [])
    ensures InLanguage(text[start..], all) <==> start + k == |text|
  {}

  /** Nothing is left of the text but a character is still demanded: no suffix can match. */
  lemma ProgressExhausted(text: seq<int>, start: nat, k: nat, all: seq<Token>, rest: seq<Token>)
    requires start + k == |text| && Progress(text, start, k, all, rest)
    requires rest != [] && !rest[0].Star?
    ensures NoSuffixMatches(text[start..], all) && !InLanguage(text[start..], all)
  {
    forall j | 0 <= j <= |text[start..]|
      ensures !InLanguage(text[start..][j..], all)
    {
      assert text[start..][j..] == text[start + j..];
      EmptyText(rest);
    }
    NoSuffixIsNoMatch(text, start, all);
  }

  /** None of the suffixes that start at `lo` to `hi - 1` matches. */
  ghost predicate NoneMatches(text: seq<int>, lo: nat, hi: nat, tokens: seq<Token>)
    requires hi <= |text| + 1
  {
    forall m {:trigger text[m..]} :: lo <= m < hi ==> !InLanguage(text[m..], tokens)
  }

  lemma StarFails(text: seq<int>, at: nat, rest: seq<Token>)
    requires at <= |text| && NoneMatches(text, at, |text| + 1, rest)
    ensures !InLanguage(text[at..], [Star] + rest)
  {
    assert ([Star] + rest)[1..] == rest;
    forall i | 0 <= i <= |text[at..]|
      ensures !InLanguage(text[at..][i..], rest)
    {
      assert text[at..][i..] == text[at + i..];
    }
  }

  /** No place after the star takes the rest of the pattern: no suffix can match at all. */
  lemma ProgressStarFails(text: seq<int>, start: nat, k: nat, all: seq<Token>, rest: seq<Token>)
    requires start + k <= |text| && Progress(text, start, k, all, [Star] + rest)
    requires NoneMatches(text, start + k, |text| + 1, rest)
    ensures NoSuffixMatches(text[start..], all) && !InLanguage(text[start..], all)
  {
    forall j | 0 <= j <= |text[start..]|
      ensures !InLanguage(text[start..][j..], all)
    {
      assert text[start..][j..] == text[start + j..];
      if start + j + k <= |text| {
        StarFails(text, start + j + k, rest);
      }
    }
    NoSuffixIsNoMatch(text, start, all);
  }

  /** The rest of the pattern matches at some place after the star. */
  lemma ProgressStarMatches(text: seq<int>, start: nat, k: nat, all: seq<Token>, rest: seq<Token>, t: nat)
    requires start + k <= t <= |text| && Progress(text, start, k, all, [Star] + rest)
    requires InLanguage(text[t..], rest)
    ensures InLanguage(text[start..], all)
  {
    assert text[start + k..][t - start - k..] == text[t..];
    StarAt(text[start + k..], rest, t - start - k);
  }

  /** An ABORT at one place rules out that place and all later ones. */
  lemma AbortExtends(text: seq<int>, lo: nat, t: nat, rest: seq<Token>)
    requires lo <= t <= |text| && NoneMatches(text, lo, t, rest)
    requires NoSuffixMatches(text[t..], rest)
    ensures NoneMatches(text, lo, |text| + 1, rest)
  {
    forall m | t <= m <= |text|
      ensures !InLanguage(text[m..], rest)
    {
      assert text[t..][m - t..] == text[m..];
    }
  }

  lemma NoSuffixIsNoMatch(text: seq<int>, start: nat, all: seq<Token>)
    requires start <= |text| && NoSuffixMatches(text[start..], all)
    ensures !InLanguage(text[start..], all)
  {
    assert text[start..][0..] == text[start..];
  }

  // ----- The matcher -----

  /**
   `_shellStyleMatch` on the text from `start` on and the pattern from `from` on. ABORT may
   only be returned when no suffix of the text matches: this is why the loop over the places
   a star may end at can stop at the first result other than FAILED.
   */
  method MatchFrom(text: seq<int>, start: nat, pat: seq<int>, from: nat) returns (r: int)
    requires NulFree(text) && NulFree(pat) && start <= |text| && from <= |pat|
    requires Tokens(pat, from).Some?
    ensures r == SUCCESS || r == FAILED || r == ABORT
    ensures r == SUCCESS <==> InLanguage(text[start..], Tokens(pat, from).value)
    ensures r == ABORT ==> NoSuffixMatches(text[start..], Tokens(pat, from).value)
    decreases |pat| - from, 1
  {
    hide Progress, InLanguage, ReadToken, NoSuffixMatches;
    ghost var all := Tokens(pat, from).value;
    ghost var rest := all;
    var t, p := start, from;
    ProgressStart(text, start, all);
    while At(pat, p) != 0
      invariant start <= t <= |text| && from <= p <= |pat|
      invariant Tokens(pat, p) == Some(rest)
      invariant Progress(text, start, t - start, all, rest)
      decreases |pat| - p
    {
      TokensStep(pat, p, rest);
      if At(text, t) == 0 && At(pat, p) != STAR {
        ProgressExhausted(text, start, t - start, all, rest);
        return ABORT;
      }
      if At(pat, p) == STAR {
        r := MatchStar(text, start, t, pat, p, all, rest[1..]);
        return;
      }
      var mismatch, end := MatchOne(text[t], pat, p, rest[0]);
      if mismatch {
        ProgressMismatch(text, start, t - start, all, rest);
        return FAILED;
      }
      ProgressStep(text, start, t - start, all, rest);
      rest := rest[1..];
      t, p := t + 1, end + 1;
    }
    ProgressEnd(text, start, t - start, all);
    r := if At(text, t) == 0 then SUCCESS else FAILED;
  }

  /** The cases of `switch(*p)` that take one character; `end` is the last position of the token. */
  method MatchOne(c: int, pat: seq<int>, p: nat, ghost token: Token) returns (mismatch: bool, end: nat)
    requires c != 0 && NulFree(pat) && p < |pat| && pat[p] != STAR
    requires ReadToken(pat, p).Some? && ReadToken(pat, p).value.0 == token
    ensures !mismatch ==> end < |pat|
    ensures !token.Star? && end == ReadToken(pat, p).value.1
    ensures mismatch <==> !Accepts(token, c)
  {
    end := p;
    if At(pat, p) == QUESTION {
      mismatch := false;
    } else if At(pat, p) == OPEN {
      mismatch, end := MatchList(c, pat, p, token);
    } else {
      if At(pat, p) == BACKSLASH {
        end := p + 1;
      }
      mismatch := c != At(pat, end);
    }
  }

  /** The case of a star at `star`, which ends the call. */
  method MatchStar(text: seq<int>, start: nat, from: nat, pat: seq<int>, star: nat,
                   ghost all: seq<Token>, ghost after: seq<Token>)
    returns (r: int)
    requires NulFree(text) && NulFree(pat) && start <= from <= |text|
    requires star < |pat| && pat[star] == STAR && Tokens(pat, star + 1) == Some(after)
    requires Progress(text, start, from - start, all, [Star] + after)
    ensures r == SUCCESS || r == ABORT
    ensures r == SUCCESS <==> InLanguage(text[start..], all)
    ensures r == ABORT ==> NoSuffixMatches(text[start..], all)
    decreases |pat| - star, 0
  {
    hide Progress;
    var p := star + 1;
    ghost var rest := after;
    while At(pat, p) == STAR
      invariant star < p <= |pat|
      invariant Tokens(pat, p) == Some(rest)
      invariant Progress(text, start, from - start, all, [Star] + rest)
      decreases |pat| - p
    {
      StarToken(pat, p);
      ProgressDropStar(text, start, from - start, all, rest);
      rest := rest[1..];
      p := p + 1;
    }
    if At(pat, p) == 0 {
      assert rest == [] && text[|text|..] == [];
      ProgressStarMatches(text, start, from - start, all, rest, |text|);
      return SUCCESS;
    }
    TokensHead(pat, p);
    r := MatchPlaces(text, start, from, pat, p, all, rest);
  }

  /** Tries the rest of the pattern at every place the star may end at, up to the first result
      other than FAILED. */
  method MatchPlaces(text: seq<int>, start: nat, from: nat, pat: seq<int>, p: nat,
                     ghost all: seq<Token>, ghost rest: seq<Token>)
    returns (r: int)
    requires NulFree(text) && NulFree(pat) && start <= from <= |text|
    requires p < |pat| && pat[p] != STAR && Tokens(pat, p) == Some(rest) && rest != [] && !rest[0].Star?
    requires Progress(text, start, from - start, all, [Star] + rest)
    ensures r == SUCCESS || r == ABORT
    ensures r == SUCCESS <==> InLanguage(text[start..], all)
    ensures r == ABORT ==> NoSuffixMatches(text[start..], all)
    decreases |pat| - p, 2
  {
    hide Progress;
    var t := from;
    while At(text, t) != 0
      invariant from <= t <= |text|
      invariant NoneMatches(text, from, t, rest)
      decreases |text| - t
    {
      r := MatchFrom(text, t, pat, p);
      if r != FAILED {
        if r == SUCCESS {
          ProgressStarMatches(text, start, from - start, all, rest, t);
        } else {
          AbortExtends(text, from, t, rest);
          ProgressStarFails(text, start, from - start, all, rest);
        }
        return;
      }
      t := t + 1;
    }
    EmptyText(rest);
    assert text[|text|..] == [];
    ProgressStarFails(text, start, from - start, all, rest);
    return ABORT;
  }

  lemma TokensStep(pat: seq<int>, p: nat, tokens: seq<Token>)
    requires p < |pat| && Tokens(pat, p) == Some(tokens)
    ensures tokens != [] && ReadToken(pat, p).Some? && ReadToken(pat, p).value.0 == tokens[0]
    ensures Tokens(pat, ReadToken(pat, p).value.1 + 1) == Some(tokens[1..])
    ensures pat[p] == STAR <==> tokens[0].Star?
    ensures pat[p] == STAR ==> tokens == [Star] + tokens[1..] && ReadToken(pat, p).value.1 == p
  {}

  lemma TokensHead(pat: seq<int>, p: nat)
    requires p < |pat| && pat[p] != STAR && Tokens(pat, p).Some?
    ensures Tokens(pat, p).value != [] && !Tokens(pat, p).value[0].Star?
  {}

  lemma StarToken(pat: seq<int>, p: nat)
    requires p < |pat| && pat[p] == STAR && Tokens(pat, p).Some?
    ensures Tokens(pat, p + 1).Some? && Tokens(pat, p).value == [Star] + Tokens(pat, p + 1).value
  {
    assert ReadToken(pat, p) == Some((Star, p));
  }

  lemma ProgressDropStar(text: seq<int>, start: nat, k: nat, all: seq<Token>, rest: seq<Token>)
    requires start + k <= |text| && rest != [] && rest[0] == Star && Progress(text, start, k, all, [Star] + rest)
    ensures Progress(text, start, k, all, [Star] + rest[1..])
  {
    assert [Star] + rest == [Star, Star] + rest[1..];
    forall m | start <= m <= |text| ensures
      InLanguage(text[m..], [Star] + rest) <==> InLanguage(text[m..], [Star] + rest[1..])
    {
      StarStar(text[m..], rest[1..]);
    }
  }

  /** The public interface; None stands for the NULL pattern. */
  method ShellStyleMatch(text: seq<int>, pattern: Option<seq<int>>) returns (r: int)
    requires NulFree(text)
    requires pattern.Some? ==> NulFree(pattern.value) && Closed(pattern.value)
    ensures pattern.None? ==> r == 1
    ensures pattern.Some? ==>
      r == if InLanguage(text, Tokens(pattern.value, 0).value) then 1 else 0
  {
    if pattern.None? {
      return 1;
    }
    var m := MatchFrom(text, 0, pattern.value, 0);
    assert text[0..] == text;
    r := if m == SUCCESS then 1 else 0;
  }

  // ----- Writing a pattern: the documented syntax means the declared language -----

  function RenderItem(item: Item): seq<int> {
    match item
    case Single(c) => [c]
    case Range(lo, hi) => [lo, DASH, hi]
  }

  function RenderItems(items: seq<Item>): seq<int> {
    if items == [] then [] else RenderItem(items[0]) + RenderItems(items[1..])
  }

  function RenderToken(token: Token): seq<int> {
    match token
    case Literal(c) => if c == BACKSLASH || c == QUESTION || c == STAR || c == OPEN then [BACKSLASH, c] else [c]
    case AnyChar => [QUESTION]
    case Star => [STAR]
    case Class(negated, items) =>
      [OPEN] + (if negated then [CARET] else []) + RenderItems(items) + [CLOSE]
  }

  function Render(tokens: seq<Token>): seq<int> {
    if tokens == [] then [] else RenderToken(tokens[0]) + Render(tokens[1..])
  }

  predicate Plain(c: int) {
    c != 0 && c != CLOSE && c != DASH
  }

  predicate WritableItem(item: Item) {
    match item
    case Single(c) => Plain(c)
    case Range(lo, hi) => Plain(lo) && hi != 0 && hi != CLOSE && lo <= hi
  }

  /** What the documented syntax can write: a non-empty list that does not start with a caret of its own. */
  predicate Writable(token: Token) {
    match token
    case Literal(c) => c != 0
    case AnyChar => true
    case Star => true
    case Class(negated, items) =>
      && items != [] && (forall i :: 0 <= i < |items| ==> WritableItem(items[i]))
      && (negated || RenderItem(items[0])[0] != CARET)
  }

  /** A range is read as its first character followed by the range. */
  function Reread(items: seq<Item>): seq<Item> {
    if items == [] then []
    else (if items[0].Range? then [Single(items[0].lo), items[0]] else [items[0]]) + Reread(items[1..])
  }

  lemma {:induction false} RereadListed(items: seq<Item>, c: int)
    requires forall i :: 0 <= i < |items| ==> WritableItem(items[i])
    ensures Listed(Reread(items), c) <==> Listed(items, c)
  {
    if items == [] {
    } else {
      var head := if items[0].Range? then [Single(items[0].lo), items[0]] else [items[0]];
      RereadListed(items[1..], c);
      ListedConcat(head, Reread(items[1..]), c);
      ListedConcat([items[0]], items[1..], c);
      assert [items[0]] + items[1..] == items;
      assert Covers([items[0]][0], c) ==> Covers(head[|head| - 1], c);
      assert Listed(head, c) <==> Covers(items[0], c);
      assert Listed([items[0]], c) <==> Covers(items[0], c);
    }
  }

  lemma ListedConcat(a: seq<Item>, b: seq<Item>, c: int)
    ensures Listed(a + b, c) <==> Listed(a, c) || Listed(b, c)
  {
    if Listed(a, c) {
      var i :| 0 <= i < |a| && Covers(a[i], c);
      assert (a + b)[i] == a[i];
    }
    if Listed(b, c) {
      var i :| 0 <= i < |b| && Covers(b[i], c);
      assert (a + b)[|a| + i] == b[i];
    }
  }

  /** The characters of `s` stand in the pattern from `i` on. */
  predicate Here(pat: seq<int>, i: nat, s: seq<int>) {
    i + |s| <= |pat| && forall k :: 0 <= k < |s| ==> pat[i + k] == s[k]
  }

  lemma HereConcat(pat: seq<int>, i: nat, a: seq<int>, b: seq<int>)
    requires Here(pat, i, a + b)
    ensures Here(pat, i, a) && Here(pat, i + |a|, b)
  {
    assert forall k :: 0 <= k < |a| ==> (a + b)[k] == a[k];
    assert forall k :: 0 <= k < |b| ==> (a + b)[|a| + k] == b[k];
  }

  lemma HereFirst(pat: seq<int>, i: nat, s: seq<int>)
    requires s != [] && Here(pat, i, s)
    ensures i < |pat| && At(pat, i) == pat[i] == s[0]
  {}

  lemma {:induction false} ItemsReadBack(pat: seq<int>, i: nat, last: int, items: seq<Item>)
    requires forall k :: 0 <= k < |items| ==> WritableItem(items[k])
    requires Here(pat, i, RenderItems(items) + [CLOSE])
    ensures ReadItems(pat, i, last) == Some((Reread(items), i + |RenderItems(items)|))
    decreases items
  {
    if items == [] {
      assert RenderItems(items) + [CLOSE] == [CLOSE];
      HereFirst(pat, i, [CLOSE]);
    } else {
      var head := RenderItem(items[0]);
      var tail := RenderItems(items[1..]) + [CLOSE];
      assert RenderItems(items) + [CLOSE] == head + tail;
      HereConcat(pat, i, head, tail);
      ItemsReadBack(pat, i + |head|, pat[i + |head| - 1], items[1..]);
      ItemReadBack(pat, i, last, items[0]);
      var rest := Reread(items[1..]);
      if items[0].Range? {
        assert [Single(items[0].lo)] + ([items[0]] + rest) == [Single(items[0].lo), items[0]] + rest;
      }
    }
  }

  /** One written item is read as one item, or as two for a range. */
  lemma ItemReadBack(pat: seq<int>, i: nat, last: int, item: Item)
    requires WritableItem(item) && Here(pat, i, RenderItem(item))
    requires i + |RenderItem(item)| < |pat|
    ensures FirstItem(pat, i, last) == (Single(RenderItem(item)[0]), i)
    ensures pat[i] != CLOSE && pat[i] == RenderItem(item)[0]
    ensures item.Range? ==>
      pat[i + 1] != CLOSE && pat[i + 2] == item.hi && FirstItem(pat, i + 1, pat[i]) == (item, i + 2)
  {
    var s := RenderItem(item);
    HereFirst(pat, i, s);
    if item.Range? {
      assert pat[i + 1] == s[1] && pat[i + 2] == s[2];
    }
  }

  lemma ClassReadBack(pat: seq<int>, i: nat, token: Token)
    requires token.Class? && Writable(token) && Here(pat, i, RenderToken(token))
    ensures i < |pat|
    ensures ReadToken(pat, i) == Some((token.(items := Reread(token.items)), i + |RenderToken(token)| - 1))
  {
    var caret := if token.negated then [CARET] else [];
    var body := RenderItems(token.items) + [CLOSE];
    assert RenderToken(token) == [OPEN] + (caret + body);
    HereConcat(pat, i, [OPEN], caret + body);
    HereConcat(pat, i + 1, caret, body);
    HereFirst(pat, i, [OPEN]);
    var first := i + 1 + |caret|;
    HereFirst(pat, first, body);
    assert body[0] == RenderItem(token.items[0])[0];
    if token.negated {
      HereFirst(pat, i + 1, caret);
    }
    ItemsReadBack(pat, first, pat[first - 1], token.items);
  }

  lemma TokenReadBack(pat: seq<int>, i: nat, token: Token)
    requires Writable(token) && Here(pat, i, RenderToken(token))
    ensures i < |pat|
    ensures ReadToken(pat, i) ==
            Some((if token.Class? then token.(items := Reread(token.items)) else token, i + |RenderToken(token)| - 1))
  {
    if token.Class? {
      ClassReadBack(pat, i, token);
    } else {
      var s := RenderToken(token);
      HereFirst(pat, i, s);
      if |s| == 2 {
        assert pat[i + 1] == s[1];
      }
    }
  }

  lemma RereadAccepts(token: Token, text: seq<int>, back: seq<Token>, tokens: seq<Token>)
    requires Writable(token) && (forall t :: InLanguage(t, back) <==> InLanguage(t, tokens))
    ensures InLanguage(text, [if token.Class? then token.(items := Reread(token.items)) else token] + back)
       <==> InLanguage(text, [token] + tokens)
  {
    var read := if token.Class? then token.(items := Reread(token.items)) else token;
    assert ([read] + back)[1..] == back && ([token] + tokens)[1..] == tokens;
    if token.Class? && text != [] {
      RereadListed(token.items, text[0]);
    }
  }

  /** The pattern written for a token list is closed, and a text is in the language of the tokens
      read back from it exactly when it is in the language of the list. */
  lemma {:induction false} WrittenPattern(pat: seq<int>, i: nat, tokens: seq<Token>)
    requires forall k :: 0 <= k < |tokens| ==> Writable(tokens[k])
    requires Here(pat, i, Render(tokens)) && i + |Render(tokens)| == |pat|
    ensures Tokens(pat, i).Some?
    ensures forall text :: InLanguage(text, Tokens(pat, i).value) <==> InLanguage(text, tokens)
    decreases |tokens|
  {
    hide InLanguage, ReadToken, Here, RenderToken, Writable;
    if tokens == [] {
    } else {
      var token, rest := tokens[0], Render(tokens[1..]);
      HereConcat(pat, i, RenderToken(token), rest);
      TokenReadBack(pat, i, token);
      WrittenPattern(pat, i + |RenderToken(token)|, tokens[1..]);
      assert [token] + tokens[1..] == tokens;
      forall text ensures InLanguage(text, Tokens(pat, i).value) <==> InLanguage(text, tokens) {
        RereadAccepts(token, text, Tokens(pat, i + |RenderToken(token)|).value, tokens[1..]);
      }
    }
  }

  lemma NulFreeConcat(a: seq<int>, b: seq<int>)
    requires NulFree(a) && NulFree(b)
    ensures NulFree(a + b)
  {}

  lemma {:induction false} RenderItemsNulFree(items: seq<Item>)
    requires forall k :: 0 <= k < |items| ==> WritableItem(items[k])
    ensures NulFree(RenderItems(items))
  {
    if items == [] {
    } else {
      RenderItemsNulFree(items[1..]);
      NulFreeConcat(RenderItem(items[0]), RenderItems(items[1..]));
    }
  }

  lemma RenderTokenNulFree(token: Token)
    requires Writable(token)
    ensures NulFree(RenderToken(token))
  {
    if token.Class? {
      RenderItemsNulFree(token.items);
      NulFreeConcat([OPEN], if token.negated then [CARET] else []);
      NulFreeConcat([OPEN] + (if token.negated then [CARET] else []), RenderItems(token.items));
      NulFreeConcat([OPEN] + (if token.negated then [CARET] else []) + RenderItems(token.items), [CLOSE]);
    }
  }

  lemma {:induction false} RenderNulFree(tokens: seq<Token>)
    requires forall k :: 0 <= k < |tokens| ==> Writable(tokens[k])
    ensures NulFree(Render(tokens))
  {
    if tokens == [] {
    } else {
      RenderNulFree(tokens[1..]);
      RenderTokenNulFree(tokens[0]);
      NulFreeConcat(RenderToken(tokens[0]), Render(tokens[1..]));
    }
  }

  /** What the documentation promises of the public function, for every pattern it can write: the
      pattern is one the matcher may be given, and means the tokens it was written from. */
  lemma DocumentedPattern(tokens: seq<Token>)
    requires forall k :: 0 <= k < |tokens| ==> Writable(tokens[k])
    ensures NulFree(Render(tokens)) && Closed(Render(tokens))
    ensures forall text :: InLanguage(text, Tokens(Render(tokens), 0).value) <==> InLanguage(text, tokens)
  {
    WrittenPattern(Render(tokens), 0, tokens);
    RenderNulFree(tokens);
  }
}
