/** Splitting an intent into tokens. */
module Tokens {
  /** The separators, in the order in which they are applied: blanks, ASCII and
      Chinese punctuation, and four Chinese particles. */
  const SEPARATORS: seq<char> := [
    ' ', '\t', ',', '\U{FF0C}', '\U{3001}', ';', '\U{FF1B}', '|', '\U{FF1A}', ':',
    '\U{7684}', '\U{4E86}', '\U{662F}', '\U{5728}']

  /** White space in the sense of Unicode. */
  predicate IsSpace(c: char) {
    || c == '\t' || c == '\n' || c == '\U{000B}' || c == '\U{000C}' || c == '\r' || c == ' '
    || c == '\U{0085}' || c == '\U{00A0}' || c == '\U{1680}'
    || '\U{2000}' <= c <= '\U{200A}'
    || c == '\U{2028}' || c == '\U{2029}' || c == '\U{202F}' || c == '\U{205F}' || c == '\U{3000}'
  }

  /** `part` occurs in `s`. */
  predicate Contains(s: string, part: string) {
    exists i :: 0 <= i <= |s| && part <= s[i..]
  }

  // ---- The pieces of one pass ----

  function Split(s: string, sep: char): (parts: seq<string>)
    ensures |parts| >= 1
  {
    if s == [] then [""]
    else
      var rest := Split(s[1..], sep);
      if s[0] == sep then [""] + rest else [[s[0]] + rest[0]] + rest[1..]
  }

  function TrimLeft(s: string): string {
    if s != [] && IsSpace(s[0]) then TrimLeft(s[1..]) else s
  }

  function TrimRight(s: string): string {
    if s != [] && IsSpace(s[|s| - 1]) then TrimRight(s[..|s| - 1]) else s
  }

  function Trim(s: string): string {
    TrimRight(TrimLeft(s))
  }

  /** The non-empty trimmed parts, in order. */
  function Clean(parts: seq<string>): seq<string> {
    if parts == [] then []
    else
      var p := Trim(parts[|parts| - 1]);
      Clean(parts[..|parts| - 1]) + if p != "" then [p] else []
  }

  function Expand(result: seq<string>, sep: char): seq<string> {
    if result == [] then []
    else Expand(result[..|result| - 1], sep) + Clean(Split(result[|result| - 1], sep))
  }

  function Passes(text: string, seps: seq<char>): seq<string> {
    if seps == [] then [text] else Expand(Passes(text, seps[..|seps| - 1]), seps[|seps| - 1])
  }

  method Tokenize(text: string) returns (result: seq<string>)
    ensures result == Passes(text, SEPARATORS) == Clean(SplitAny(text, SEPARATORS))
  {
    hide Clean, SplitAny, Expand;
    TokensOfOneCut(text);
    result := [text];
    for k := 0 to |SEPARATORS|
      invariant result == Passes(text, SEPARATORS[..k])
    {
      assert SEPARATORS[..k + 1][..k] == SEPARATORS[..k];
      result := OnePass(result, SEPARATORS[k]);
    }
    assert SEPARATORS[..|SEPARATORS|] == SEPARATORS;
  }

  lemma NothingYet(sep: char)
    ensures Expand([], sep) == [] && Clean([]) == []
  {
  }

  lemma ExpandNext(result: seq<string>, i: nat, sep: char)
    requires i < |result|
    ensures Expand(result[..i + 1], sep) == Expand(result[..i], sep) + Clean(Split(result[i], sep))
  {
    assert result[..i + 1][..i] == result[..i];
  }

  lemma CleanNext(parts: seq<string>, j: nat)
    requires j < |parts|
    ensures Clean(parts[..j + 1]) == Clean(parts[..j]) + if Trim(parts[j]) != "" then [Trim(parts[j])] else []
  {
    assert parts[..j + 1][..j] == parts[..j];
  }

  method OnePass(result: seq<string>, sep: char) returns (expanded: seq<string>)
    ensures expanded == Expand(result, sep)
  {
    hide Clean, Expand, Split, Trim;
    expanded := [];
    NothingYet(sep);
    assert result[..0] == [];
    for i := 0 to |result|
      invariant expanded == Expand(result[..i], sep)
    {
      ExpandNext(result, i, sep);
      var parts := Split(result[i], sep);
      ghost var before := expanded;
      assert parts[..0] == [];
      for j := 0 to |parts|
        invariant expanded == before + Clean(parts[..j])
      {
        CleanNext(parts, j);
        var p := Trim(parts[j]);
        if p != "" {
          expanded := expanded + [p];
        }
      }
      assert parts[..|parts|] == parts;
    }
    assert result[..|result|] == result;
  }

  // ---- Substrings ----

  lemma ContainsTrans(s: string, t: string, u: string)
    requires Contains(s, t) && Contains(t, u)
    ensures Contains(s, u)
  {
    var i :| 0 <= i <= |s| && t <= s[i..];
    var j :| 0 <= j <= |t| && u <= t[j..];
    assert s[i..][..|t|] == t;
    assert u == t[j..][..|u|];
    assert s[i + j..][..|u|] == u;
  }

  lemma ContainsSlice(s: string, i: nat, j: nat)
    requires i <= j <= |s|
    ensures Contains(s, s[i..j])
  {
    assert s[i..][..j - i] == s[i..j];
  }

  lemma ContainsSelf(s: string)
    ensures Contains(s, s)
  {
    assert s[0..] == s;
  }

  lemma {:induction false} TrimLeftFacts(s: string)
    ensures Contains(s, TrimLeft(s))
    ensures TrimLeft(s) != [] ==> !IsSpace(TrimLeft(s)[0])
    ensures forall c :: c in s && !IsSpace(c) ==> c in TrimLeft(s)
    decreases |s|
  {
    ContainsSelf(s);
    if s == [] {
    } else if IsSpace(s[0]) {
      TrimLeftFacts(s[1..]);
      ContainsSlice(s, 1, |s|);
      ContainsTrans(s, s[1..], TrimLeft(s[1..]));
    }
  }

  lemma {:induction false} TrimRightFacts(s: string)
    ensures TrimRight(s) <= s
    ensures forall c :: c in s && !IsSpace(c) ==> c in TrimRight(s)
    decreases |s|
  {
    if s == [] {
    } else if IsSpace(s[|s| - 1]) {
      TrimRightFacts(s[..|s| - 1]);
      assert s == s[..|s| - 1] + [s[|s| - 1]];
    }
  }

  /** Trimming keeps a substring, every non-space character, and leaves no space
      in front. */
  lemma TrimFacts(s: string)
    ensures Contains(s, Trim(s))
    ensures Trim(s) != "" ==> !IsSpace(Trim(s)[0])
    ensures forall c :: c in s && !IsSpace(c) ==> c in Trim(s)
  {
    var t := TrimLeft(s);
    TrimLeftFacts(s);
    TrimRightFacts(t);
    ContainsSlice(t, 0, |TrimRight(t)|);
    assert t[0..|TrimRight(t)|] == TrimRight(t);
    ContainsTrans(s, t, TrimRight(t));
  }

  ghost predicate Part(s: string, sep: char, part: string) {
    Contains(s, part) && sep !in part
  }

  lemma {:induction false} SplitFacts(s: string, sep: char)
    ensures Split(s, sep)[0] <= s
    ensures forall k :: 0 <= k < |Split(s, sep)| ==> Part(s, sep, Split(s, sep)[k])
    decreases |s|
  {
    ContainsSelf(s);
    if s == [] {
    } else {
      var parts, rest := Split(s, sep), Split(s[1..], sep);
      SplitFacts(s[1..], sep);
      assert parts == if s[0] == sep then [""] + rest else [[s[0]] + rest[0]] + rest[1..];
      assert s == [s[0]] + s[1..];
      hide Split, Part;
      FirstPart(s, sep, parts[0]);
      forall k | 1 <= k < |parts| ensures Part(s, sep, parts[k]) {
        LaterPart(s, sep, if s[0] == sep then rest[k - 1] else rest[k]);
      }
    }
  }

  lemma FirstPart(s: string, sep: char, part: string)
    requires part <= s && sep !in part
    ensures Part(s, sep, part)
  {
    assert s[0..] == s;
  }

  lemma LaterPart(s: string, sep: char, part: string)
    requires s != [] && Part(s[1..], sep, part)
    ensures Part(s, sep, part)
  {
    ContainsSlice(s, 1, |s|);
    ContainsTrans(s, s[1..], part);
  }

  /** A character other than the separator is in some part. */
  lemma {:induction false} SplitKeeps(s: string, sep: char, i: nat) returns (k: nat)
    requires i < |s| && s[i] != sep
    ensures k < |Split(s, sep)| && s[i] in Split(s, sep)[k]
    decreases |s|
  {
    var parts, rest := Split(s, sep), Split(s[1..], sep);
    if i == 0 {
      k := 0;
      assert parts[0][0] == s[0];
    } else {
      var j := SplitKeeps(s[1..], sep, i - 1);
      assert s[i] == s[1..][i - 1];
      k := if s[0] == sep then j + 1 else j;
    }
  }

  /** What one part of a pass guarantees about a token it yields. */
  ghost predicate GoodToken(text: string, seps: seq<char>, t: string) {
    t != "" && Contains(text, t) && !IsSpace(t[0]) && forall c :: c in t ==> c !in seps
  }

  lemma {:induction false} CleanFacts(parts: seq<string>, t: string)
    requires t in Clean(parts)
    ensures t != "" && exists k :: 0 <= k < |parts| && t == Trim(parts[k])
    decreases |parts|
  {
    if t in Clean(parts[..|parts| - 1]) {
      CleanFacts(parts[..|parts| - 1], t);
      var k :| 0 <= k < |parts| - 1 && t == Trim(parts[..|parts| - 1][k]);
      assert t == Trim(parts[k]);
    }
  }

  lemma {:induction false} CleanKeeps(parts: seq<string>, k: nat)
    requires k < |parts| && Trim(parts[k]) != ""
    ensures Trim(parts[k]) in Clean(parts)
    decreases |parts|
  {
    if k == |parts| - 1 {
    } else {
      CleanKeeps(parts[..|parts| - 1], k);
    }
  }

  lemma {:induction false} ExpandFacts(result: seq<string>, sep: char, t: string)
    requires t in Expand(result, sep)
    ensures exists i :: 0 <= i < |result| && t in Clean(Split(result[i], sep))
    decreases |result|
  {
    if t in Expand(result[..|result| - 1], sep) {
      ExpandFacts(result[..|result| - 1], sep, t);
      var i :| 0 <= i < |result| - 1 && t in Clean(Split(result[..|result| - 1][i], sep));
      assert t in Clean(Split(result[i], sep));
    }
  }

  lemma {:induction false} ExpandKeeps(result: seq<string>, sep: char, i: nat, t: string)
    requires i < |result| && t in Clean(Split(result[i], sep))
    ensures t in Expand(result, sep)
    decreases |result|
  {
    if i == |result| - 1 {
    } else {
      ExpandKeeps(result[..|result| - 1], sep, i, t);
    }
  }

  lemma {:induction false} PassTokens(text: string, seps: seq<char>, t: string)
    requires seps != [] && t in Passes(text, seps)
    ensures GoodToken(text, seps, t)
    decreases |seps|
  {
    var front, sep := seps[..|seps| - 1], seps[|seps| - 1];
    assert seps == front + [sep];
    var before := Passes(text, front);
    ExpandFacts(before, sep, t);
    var i :| 0 <= i < |before| && t in Clean(Split(before[i], sep));
    var r := before[i];
    CleanFacts(Split(r, sep), t);
    var k :| 0 <= k < |Split(r, sep)| && t == Trim(Split(r, sep)[k]);
    SplitFacts(r, sep);
    TrimFacts(Split(r, sep)[k]);
    ContainsTrans(r, Split(r, sep)[k], t);
    SubstringChars(r, t);
    SubstringChars(Split(r, sep)[k], t);
    if front == [] {
    } else {
      PassTokens(text, front, r);
      ContainsTrans(text, r, t);
    }
  }

  lemma SubstringChars(s: string, t: string)
    requires Contains(s, t)
    ensures forall c :: c in t ==> c in s
  {
    var i :| 0 <= i <= |s| && t <= s[i..];
    assert t == s[i..][..|t|];
  }

  /** Some token keeps a character that is neither space nor separator. */
  lemma {:induction false} PassKeeps(text: string, seps: seq<char>, c: char)
    requires c in text && !IsSpace(c) && c !in seps
    ensures exists t :: t in Passes(text, seps) && c in t
    decreases |seps|
  {
    if seps == [] {
      assert text in Passes(text, seps);
    } else {
      var front, sep := seps[..|seps| - 1], seps[|seps| - 1];
      PassKeeps(text, front, c);
      var before := Passes(text, front);
      var r :| r in before && c in r;
      var i :| 0 <= i < |before| && before[i] == r;
      var x :| 0 <= x < |r| && r[x] == c;
      var k := SplitKeeps(r, sep, x);
      TrimFacts(Split(r, sep)[k]);
      var t := Trim(Split(r, sep)[k]);
      CleanKeeps(Split(r, sep), k);
      ExpandKeeps(before, sep, i, t);
    }
  }

  /** A character that belongs to no separator and is no space. */
  ghost predicate HasInk(text: string) {
    exists c :: c in text && !IsSpace(c) && c !in SEPARATORS
  }

  /** Every token is a non-empty substring of the text without separators. */
  lemma TokensAreSubstrings(text: string, t: string)
    requires t in Passes(text, SEPARATORS)
    ensures t != "" && Contains(text, t) && forall c :: c in t ==> c !in SEPARATORS
  {
    PassTokens(text, SEPARATORS, t);
  }

  /** There are tokens exactly when the text holds more than spaces and separators. */
  lemma TokensExist(text: string)
    ensures Passes(text, SEPARATORS) != [] <==> HasInk(text)
  {
    hide Passes, SEPARATORS;
    var tokens := Passes(text, SEPARATORS);
    if tokens != [] {
      assert tokens[0] in tokens;
      SeparatorsExist();
      PassTokens(text, SEPARATORS, tokens[0]);
      SubstringChars(text, tokens[0]);
      assert tokens[0][0] in tokens[0];
    }
    if HasInk(text) {
      var c :| c in text && !IsSpace(c) && c !in SEPARATORS;
      PassKeeps(text, SEPARATORS, c);
    }
  }

  lemma SeparatorsExist()
    ensures SEPARATORS != []
  {
  }

  // ---- What splitting and trimming are ----

  ghost function Join(parts: seq<string>, sep: char): string {
    if parts == [] then "" else if |parts| == 1 then parts[0] else parts[0] + [sep] + Join(parts[1..], sep)
  }

  /** The parts hold no separator, and joined by it they are the string again. */
  lemma {:induction false} SplitJoins(s: string, sep: char)
    ensures Join(Split(s, sep), sep) == s
    ensures forall k :: 0 <= k < |Split(s, sep)| ==> sep !in Split(s, sep)[k]
    decreases |s|
  {
    if s == "" {
    } else {
      var rest := Split(s[1..], sep);
      SplitJoins(s[1..], sep);
      assert s == [s[0]] + s[1..];
      if s[0] == sep {
        assert Split(s, sep)[1..] == rest;
      } else {
        assert Split(s, sep)[1..] == rest[1..];
      }
    }
  }

  ghost predicate AllSpace(s: string) {
    forall c :: c in s ==> IsSpace(c)
  }

  lemma {:induction false} TrimLeftIs(s: string) returns (i: nat)
    ensures i <= |s| && TrimLeft(s) == s[i..] && AllSpace(s[..i])
    decreases |s|
  {
    if s == "" || !IsSpace(s[0]) {
      i := 0;
    } else {
      var j := TrimLeftIs(s[1..]);
      i := j + 1;
      assert s[..i] == [s[0]] + s[1..][..j];
    }
  }

  lemma {:induction false} TrimRightIs(s: string) returns (j: nat)
    ensures j <= |s| && TrimRight(s) == s[..j] && AllSpace(s[j..])
    ensures j > 0 ==> !IsSpace(s[j - 1])
    decreases |s|
  {
    if s == "" || !IsSpace(s[|s| - 1]) {
      j := |s|;
    } else {
      var front := s[..|s| - 1];
      j := TrimRightIs(front);
      assert s[j..] == front[j..] + [s[|s| - 1]];
    }
  }

  /** Trimming cuts off spaces on both sides and leaves none at either end. */
  lemma TrimIs(s: string)
    ensures exists i, j :: 0 <= i <= j <= |s| && Trim(s) == s[i..j] && AllSpace(s[..i]) && AllSpace(s[j..])
    ensures Trim(s) != "" ==> !IsSpace(Trim(s)[0]) && !IsSpace(Trim(s)[|Trim(s)| - 1])
  {
    TrimFacts(s);
    var i := TrimLeftIs(s);
    var j := TrimRightIs(TrimLeft(s));
    assert s[i..][..j] == s[i..i + j] && s[i..][j..] == s[i + j..];
  }

  // ---- Fourteen passes are one ----

  /** Cutting at every character of `seps`. */
  function SplitAny(s: string, seps: seq<char>): (parts: seq<string>)
    ensures |parts| >= 1
  {
    if s == [] then [""]
    else
      var rest := SplitAny(s[1..], seps);
      if s[0] in seps then [""] + rest else [[s[0]] + rest[0]] + rest[1..]
  }

  ghost function SplitEach(parts: seq<string>, sep: char): seq<string> {
    if parts == [] then [] else Split(parts[0], sep) + SplitEach(parts[1..], sep)
  }

  lemma {:induction false} SplitEachSnoc(parts: seq<string>, p: string, sep: char)
    ensures SplitEach(parts + [p], sep) == SplitEach(parts, sep) + Split(p, sep)
    decreases |parts|
  {
    hide Split;
    if parts == [] {
      assert parts + [p] == [p];
      assert SplitEach([p], sep) == Split(p, sep) + SplitEach([p][1..], sep);
    } else {
      SplitEachSnoc(parts[1..], p, sep);
      assert (parts + [p])[1..] == parts[1..] + [p];
    }
  }

  lemma SplitHead(c: char, s: string, sep: char)
    ensures Split([c] + s, sep) == if c == sep then [""] + Split(s, sep) else [[c] + Split(s, sep)[0]] + Split(s, sep)[1..]
  {
    assert ([c] + s)[1..] == s;
  }

  lemma SplitAnyHead(c: char, s: string, seps: seq<char>)
    ensures var rest := SplitAny(s, seps);
            SplitAny([c] + s, seps) == if c in seps then [""] + rest else [[c] + rest[0]] + rest[1..]
  {
    assert ([c] + s)[1..] == s;
  }

  lemma SplitEachHead(p: string, parts: seq<string>, sep: char)
    ensures SplitEach([p] + parts, sep) == Split(p, sep) + SplitEach(parts, sep)
  {
    hide Split;
    assert ([p] + parts)[1..] == parts;
  }

  lemma SplitNothing(seps: seq<char>, sep: char)
    ensures Split("", sep) == [""] == SplitAny("", seps)
    ensures SplitEach([""], sep) == [""] && SplitEach([], sep) == []
  {
    var one: seq<string> := [""];
    assert one[1..] == [];
    assert SplitEach(one, sep) == Split("", sep) + SplitEach(one[1..], sep);
  }

  /** Cutting the parts at one more separator. */
  lemma {:induction false} SplitOnce(s: string, seps: seq<char>, sep: char)
    ensures SplitEach(SplitAny(s, seps), sep) == SplitAny(s, seps + [sep])
    decreases |s|
  {
    hide Split, SplitAny, SplitEach;
    if s == "" {
      SplitNothing(seps, sep);
      SplitNothing(seps + [sep], sep);
    } else {
      SplitOnce(s[1..], seps, sep);
      SplitOnceHead(s[0], s[1..], seps, sep);
      assert s == [s[0]] + s[1..];
    }
  }

  lemma SplitOnceHead(c: char, s: string, seps: seq<char>, sep: char)
    requires SplitEach(SplitAny(s, seps), sep) == SplitAny(s, seps + [sep])
    ensures SplitEach(SplitAny([c] + s, seps), sep) == SplitAny([c] + s, seps + [sep])
  {
    hide Split, SplitAny, SplitEach;
    var rest, all := SplitAny(s, seps), SplitAny(s, seps + [sep]);
    SplitAnyHead(c, s, seps);
    SplitAnyHead(c, s, seps + [sep]);
    SplitNothing(seps, sep);
    SplitHead(c, rest[0], sep);
    SplitEachHead(rest[0], rest[1..], sep);
    assert [rest[0]] + rest[1..] == rest;
    SplitEachHead("", rest, sep);
    SplitEachHead([c] + rest[0], rest[1..], sep);
    PrefixFirst(c, Split(rest[0], sep), SplitEach(rest[1..], sep));
  }

  lemma PrefixFirst(c: char, a: seq<string>, b: seq<string>)
    requires a != []
    ensures [[c] + a[0]] + a[1..] + b == [[c] + (a + b)[0]] + (a + b)[1..]
    ensures [""] + a + b == [""] + (a + b)
  {
  }

  lemma {:induction false} CleanJoins(a: seq<string>, b: seq<string>)
    ensures Clean(a + b) == Clean(a) + Clean(b)
    decreases |b|
  {
    hide Trim;
    if b == [] {
      assert a + b == a;
    } else {
      CleanJoins(a, b[..|b| - 1]);
      assert (a + b)[..|a + b| - 1] == a + b[..|b| - 1];
    }
  }

  lemma CleanOne(p: string)
    ensures Clean([p]) == if Trim(p) != "" then [Trim(p)] else []
  {
    hide Trim;
    var one := [p];
    assert one[..0] == [];
    assert Clean(one[..0]) == [];
  }

  /** A space in front changes nothing. */
  lemma CleanDropsLeft(s: string, sep: char)
    requires s != "" && IsSpace(s[0])
    ensures Clean(Split(s, sep)) == Clean(Split(s[1..], sep))
  {
    hide Clean, IsSpace, TrimRight;
    var rest := Split(s[1..], sep);
    if s[0] == sep {
      CleanJoins([""], rest);
      CleanOne("");
      assert TrimLeft("") == "" && Trim("") == "" by { EmptyTrims(); }
    } else {
      var longer := [s[0]] + rest[0];
      CleanJoins([longer], rest[1..]);
      CleanJoins([rest[0]], rest[1..]);
      CleanOne(longer);
      CleanOne(rest[0]);
      assert longer[1..] == rest[0];
      assert TrimLeft(longer) == TrimLeft(rest[0]) && Trim(longer) == Trim(rest[0]);
      assert Split(s, sep) == [longer] + rest[1..];
      assert [rest[0]] + rest[1..] == rest;
    }
  }

  lemma EmptyTrims()
    ensures TrimLeft("") == "" && Trim("") == ""
  {
  }

  ghost function Extended(parts: seq<string>, c: char, sep: char): seq<string>
    requires parts != []
  {
    if c == sep then parts + [""] else parts[..|parts| - 1] + [parts[|parts| - 1] + [c]]
  }

  lemma ExtendedHead(h: char, parts: seq<string>, c: char, sep: char)
    requires parts != []
    ensures Extended([""] + parts, c, sep) == [""] + Extended(parts, c, sep)
    ensures var more := Extended(parts, c, sep);
            Extended([[h] + parts[0]] + parts[1..], c, sep) == [[h] + more[0]] + more[1..]
  {
    assert [h] + (parts[0] + [c]) == ([h] + parts[0]) + [c];
  }

  lemma {:induction false} SplitSnoc(s: string, c: char, sep: char)
    ensures Split(s + [c], sep) == Extended(Split(s, sep), c, sep)
    decreases |s|
  {
    hide Split, Extended;
    if s == "" {
      OneCharacter(c, sep);
      assert s + [c] == [c];
    } else {
      SplitSnoc(s[1..], c, sep);
      assert s == [s[0]] + s[1..];
      assert s + [c] == [s[0]] + (s[1..] + [c]);
      SplitHead(s[0], s[1..], sep);
      SplitHead(s[0], s[1..] + [c], sep);
      ExtendedHead(s[0], Split(s[1..], sep), c, sep);
    }
  }

  lemma OneCharacter(c: char, sep: char)
    ensures Split([c], sep) == Extended(Split("", sep), c, sep)
  {
    var none: string := "";
    SplitHead(c, none, sep);
    assert Split(none, sep) == [none];
    assert [c] + none == [c] == none + [c];
    assert [none][..0] == [] && [none][1..] == [];
  }

  lemma {:induction false} TrimLeftSnoc(s: string, c: char)
    requires IsSpace(c)
    ensures TrimLeft(s + [c]) == if TrimLeft(s) == "" then "" else TrimLeft(s) + [c]
    decreases |s|
  {
    if s == "" {
      assert (s + [c])[1..] == "";
    } else if IsSpace(s[0]) {
      TrimLeftSnoc(s[1..], c);
      assert (s + [c])[1..] == s[1..] + [c];
    }
  }

  lemma TrimSnoc(s: string, c: char)
    requires IsSpace(c)
    ensures Trim(s + [c]) == Trim(s)
  {
    var t := TrimLeft(s);
    TrimLeftSnoc(s, c);
    assert (t + [c])[..|t|] == t;
  }

  /** Nor does a space at the end. */
  lemma CleanDropsRight(s: string, c: char, sep: char)
    requires IsSpace(c)
    ensures Clean(Split(s + [c], sep)) == Clean(Split(s, sep))
  {
    hide Clean, IsSpace, Trim, Split;
    var parts := Split(s, sep);
    var n := |parts| - 1;
    SplitSnoc(s, c, sep);
    CleanOne("");
    EmptyTrims();
    CleanJoins(parts, [""]);
    CleanJoins(parts[..n], [parts[n] + [c]]);
    CleanJoins(parts[..n], [parts[n]]);
    CleanOne(parts[n] + [c]);
    CleanOne(parts[n]);
    TrimSnoc(parts[n], c);
    assert parts == parts[..n] + [parts[n]];
  }

  lemma {:induction false} CleanTrimsLeft(s: string, sep: char)
    ensures Clean(Split(TrimLeft(s), sep)) == Clean(Split(s, sep))
    decreases |s|
  {
    hide Clean, IsSpace, Split;
    if s != "" && IsSpace(s[0]) {
      CleanTrimsLeft(s[1..], sep);
      CleanDropsLeft(s, sep);
    }
  }

  lemma {:induction false} CleanTrimsRight(s: string, sep: char)
    ensures Clean(Split(TrimRight(s), sep)) == Clean(Split(s, sep))
    decreases |s|
  {
    hide Clean, IsSpace, Split;
    if s != "" && IsSpace(s[|s| - 1]) {
      CleanTrimsRight(s[..|s| - 1], sep);
      CleanDropsRight(s[..|s| - 1], s[|s| - 1], sep);
      assert s == s[..|s| - 1] + [s[|s| - 1]];
    }
  }

  /** Trimming before a cut changes nothing. */
  lemma CleanTrims(s: string, sep: char)
    ensures Clean(Split(Trim(s), sep)) == Clean(Split(s, sep))
  {
    hide Clean, Split, TrimLeft, TrimRight;
    CleanTrimsLeft(s, sep);
    CleanTrimsRight(TrimLeft(s), sep);
  }

  lemma ExpandSnoc(result: seq<string>, r: string, sep: char)
    ensures Expand(result + [r], sep) == Expand(result, sep) + Clean(Split(r, sep))
  {
    assert (result + [r])[..|result|] == result;
  }

  /** A pass over cleaned parts finds what cutting all the parts finds. */
  lemma {:induction false} PassOnce(parts: seq<string>, sep: char)
    ensures Expand(Clean(parts), sep) == Clean(SplitEach(parts, sep))
    decreases |parts|
  {
    hide Clean, Split, Expand, SplitEach;
    if parts == [] {
      NothingYet(sep);
      SplitNothing([], sep);
    } else {
      var front, p := parts[..|parts| - 1], parts[|parts| - 1];
      PassOnce(front, sep);
      CleanPass(front, p, sep);
      assert parts == front + [p];
    }
  }

  lemma CleanPass(front: seq<string>, p: string, sep: char)
    requires Expand(Clean(front), sep) == Clean(SplitEach(front, sep))
    ensures Expand(Clean(front + [p]), sep) == Clean(SplitEach(front + [p], sep))
  {
    hide Clean, Split, Trim, Expand, SplitEach;
    SplitEachSnoc(front, p, sep);
    CleanJoins(SplitEach(front, sep), Split(p, sep));
    CleanTrims(p, sep);
    CleanJoins(front, [p]);
    CleanOne(p);
    if Trim(p) == "" {
      NothingToClean(sep);
      assert Clean(front + [p]) == Clean(front);
    } else {
      ExpandSnoc(Clean(front), Trim(p), sep);
    }
  }

  lemma NothingToClean(sep: char)
    ensures Clean(Split("", sep)) == []
  {
    CleanOne("");
    EmptyTrims();
  }

  /** All passes together find exactly the trimmed non-empty parts, in order, that one
      cut at every separator leaves. */
  lemma {:induction false} PassesAreOne(text: string, seps: seq<char>)
    requires seps != []
    ensures Passes(text, seps) == Clean(SplitAny(text, seps))
    decreases |seps|
  {
    hide Clean, SplitAny, Expand, SplitEach;
    var front, sep := seps[..|seps| - 1], seps[|seps| - 1];
    assert seps == front + [sep];
    SplitOnce(text, front, sep);
    if front == [] {
      WholeText(text);
      FirstPass(text, sep);
    } else {
      PassesAreOne(text, front);
      PassOnce(SplitAny(text, front), sep);
    }
  }

  lemma {:induction false} WholeText(text: string)
    ensures SplitAny(text, []) == [text]
    decreases |text|
  {
    if text == "" {
    } else {
      WholeText(text[1..]);
      assert text == [text[0]] + text[1..];
    }
  }

  lemma FirstPass(text: string, sep: char)
    ensures Expand([text], sep) == Clean(SplitEach([text], sep))
  {
    hide Clean, Split, Expand, SplitEach;
    var none: seq<string> := [];
    NothingYet(sep);
    SplitNothing([], sep);
    ExpandSnoc(none, text, sep);
    SplitEachHead(text, none, sep);
    assert none + [text] == [text] + none == [text];
    assert Split(text, sep) + none == Split(text, sep);
    assert none + Clean(Split(text, sep)) == Clean(Split(text, sep));
  }

  /** So the tokens are what one cut at every separator leaves. */
  lemma TokensOfOneCut(text: string)
    ensures Passes(text, SEPARATORS) == Clean(SplitAny(text, SEPARATORS))
  {
    hide Passes, Clean, SplitAny, SEPARATORS;
    SeparatorsExist();
    PassesAreOne(text, SEPARATORS);
  }
}
