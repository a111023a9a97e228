/**
 * Name-level token routines (src/Mixfix/token.cc): joining continued
 * lines, building derived names, splitting names at separators, printing
 * token vectors and peeling a pair of outer parentheses.
 */
module TokenNames {
  import opened TokenChars

  // ---------------------------------------------------------------------
  // fixUp: removal of backslash-newline pairs
  // ---------------------------------------------------------------------

  predicate PairAt(s: string, k: int)
  {
    0 <= k && k + 1 < |s| && s[k] == '\\' && s[k + 1] == '\n'
  }

  /**
   * The text a token stands for once each backslash-newline pair is
   * dropped, reading left to right; with `tabs` set, each remaining tab
   * becomes a space.
   */
  function Unfolded(s: string, tabs: bool): string
    decreases |s|
  {
    if s == [] then []
    else if PairAt(s, 0) then Unfolded(s[2..], tabs)
    else [if tabs && s[0] == '\t' then ' ' else s[0]] + Unfolded(s[1..], tabs)
  }

  /** How many backslash-newline pairs the left-to-right reading drops. */
  function Pairs(s: string): nat
    decreases |s|
  {
    if s == [] then 0
    else if PairAt(s, 0) then 1 + Pairs(s[2..])
    else Pairs(s[1..])
  }

  /** Each tab replaced by a space. */
  function TabsToSpaces(s: string): (r: string)
    ensures |r| == |s|
    ensures forall k :: 0 <= k < |s| ==> r[k] == (if s[k] == '\t' then ' ' else s[k])
  {
    if s == [] then [] else [if s[0] == '\t' then ' ' else s[0]] + TabsToSpaces(s[1..])
  }

  /** Every dropped pair takes two characters with it, and nothing else is dropped. */
  lemma {:induction false} UnfoldedLength(s: string, tabs: bool)
    ensures |Unfolded(s, tabs)| + 2 * Pairs(s) == |s|
    decreases |s|
  {
    if s == [] {
    } else if PairAt(s, 0) {
      UnfoldedLength(s[2..], tabs);
    } else {
      UnfoldedLength(s[1..], tabs);
    }
  }

  /**
   * The two-argument fixUp is the one-argument one followed by turning
   * tabs into spaces; in particular its result holds no tab.
   */
  lemma {:induction false} UnfoldedTabs(s: string)
    ensures Unfolded(s, true) == TabsToSpaces(Unfolded(s, false))
    ensures forall k :: 0 <= k < |Unfolded(s, true)| ==> Unfolded(s, true)[k] != '\t'
    decreases |s|
  {
    if s == [] {
    } else if PairAt(s, 0) {
      UnfoldedTabs(s[2..]);
    } else {
      UnfoldedTabs(s[1..]);
    }
  }

  /**
   * Pairs cannot overlap, so the reading drops every backslash-newline pair
   * that occurs in the text: none is dropped exactly when none occurs, and
   * then the one-argument fixUp gives the text back unchanged.
   */
  lemma {:induction false} NoPairsUnchanged(s: string)
    ensures Pairs(s) == 0 <==> forall k :: 0 <= k < |s| ==> !PairAt(s, k)
    ensures Pairs(s) == 0 ==> Unfolded(s, false) == s
    decreases |s|
  {
    if s == [] {
    } else if PairAt(s, 0) {
    } else {
      NoPairsUnchanged(s[1..]);
      assert forall k :: 0 <= k < |s[1..]| ==> (PairAt(s[1..], k) <==> PairAt(s, k + 1));
      if forall k :: 0 <= k < |s[1..]| ==> !PairAt(s[1..], k) {
        forall k | 0 <= k < |s|
          ensures !PairAt(s, k)
        {
          if k > 0 {
            assert !PairAt(s[1..], k - 1);
          }
        }
      }
    }
  }

  /**
   * fixUp(tokenString, lineNumber): the token becomes the text with its
   * backslash-newline pairs dropped and tabs turned into spaces, it is
   * stamped with the incoming line number, and the caller's line number
   * moves past the lines the pairs continued.
   */
  method FixUp(tokenString: string, lineNumber: int) returns (token: Token, lineNumber': int)
    ensures token == Token(Unfolded(tokenString, true), lineNumber)
    ensures lineNumber' == lineNumber + Pairs(tokenString)
  {
    var buffer := [];
    var combos := 0;
    var i := 0;
    while i < |tokenString|
      invariant 0 <= i <= |tokenString|
      invariant buffer + Unfolded(tokenString[i..], true) == Unfolded(tokenString, true)
      invariant combos + Pairs(tokenString[i..]) == Pairs(tokenString)
      decreases |tokenString| - i
    {
      var c := tokenString[i];
      if c == '\\' && CharAt(tokenString, i + 1) == '\n' {
        assert tokenString[i..][2..] == tokenString[i + 2..];
        i := i + 2;
        combos := combos + 1;
      } else {
        if c == '\t' {
          c := ' ';
        }
        assert tokenString[i..][1..] == tokenString[i + 1..];
        buffer := buffer + [c];
        i := i + 1;
      }
    }
    token := Token(buffer, lineNumber);
    lineNumber' := lineNumber + combos;
  }

  /** fixUp(tokenString): the name with its backslash-newline pairs dropped; tabs stay. */
  method FixUpName(tokenString: string) returns (name: string)
    ensures name == Unfolded(tokenString, false)
  {
    name := [];
    var i := 0;
    while i < |tokenString|
      invariant 0 <= i <= |tokenString|
      invariant name + Unfolded(tokenString[i..], false) == Unfolded(tokenString, false)
      decreases |tokenString| - i
    {
      if tokenString[i] == '\\' && CharAt(tokenString, i + 1) == '\n' {
        assert tokenString[i..][2..] == tokenString[i + 2..];
        i := i + 2;
      } else {
        assert tokenString[i..][1..] == tokenString[i + 1..];
        name := name + [tokenString[i]];
        i := i + 1;
      }
    }
  }

  // ---------------------------------------------------------------------
  // Derived names
  // ---------------------------------------------------------------------

  /** dropChar: the original's name without its last character, on the original's line. */
  function DropChar(original: Token): (t: Token)
    requires |original.name| > 0
    ensures t.name + [original.name[|original.name| - 1]] == original.name
    ensures t.lineNr == original.lineNr
  {
    Token(original.name[..|original.name| - 1], original.lineNr)
  }

  /** dotNameCode: the sort name behind a leading dot. */
  function DotNameCode(sortName: string): (r: string)
    ensures |r| == |sortName| + 1 && r[0] == '.' && r[1..] == sortName
  {
    "." + sortName
  }

  /** quoteNameCode: the identifier behind a leading quote. */
  function QuoteNameCode(id: string): (r: string)
    ensures |r| == |id| + 1 && r[0] == '\'' && r[1..] == id
  {
    "'" + id
  }

  /** makeParameterInstanceName: the parameter's name and the original's, joined by `$`. */
  function MakeParameterInstanceName(parameter: string, original: string): (r: string)
    ensures |r| == |parameter| + 1 + |original|
    ensures r[..|parameter|] == parameter && r[|parameter|] == '$' && r[|parameter| + 1..] == original
  {
    parameter + "$" + original
  }

  /**
   * Parameter names hold no `$`, so an instance name determines both the
   * parameter and the original name it was made from.
   */
  lemma ParameterInstanceNameInjective(p1: string, o1: string, p2: string, o2: string)
    requires forall k :: 0 <= k < |p1| ==> p1[k] != '$'
    requires forall k :: 0 <= k < |p2| ==> p2[k] != '$'
    requires MakeParameterInstanceName(p1, o1) == MakeParameterInstanceName(p2, o2)
    ensures p1 == p2 && o1 == o2
  {
  }

  // ---------------------------------------------------------------------
  // split(code, prefix, suffix): the last ':' or '.'
  // ---------------------------------------------------------------------

  predicate IsSeparator(c: char)
  {
    c == ':' || c == '.'
  }

  /** What follows a separator: `None` (the source's NONE) when nothing does. */
  function Rest(suffix: Option<string>): string
  {
    if suffix.None? then "" else suffix.value
  }

  /**
   * split(code, prefix, suffix): cuts the name at its last `:` or `.` other
   * than a leading one. The prefix is what precedes the separator and the
   * suffix what follows, absent when the separator ends the name; with no
   * such separator the split fails.
   */
  method Split(name: string) returns (ok: bool, prefix: string, suffix: Option<string>)
    ensures ok <==> exists i :: 1 <= i < |name| && IsSeparator(name[i])
    ensures ok ==> 1 <= |prefix| < |name| && IsSeparator(name[|prefix|])
    ensures ok ==> prefix + [name[|prefix|]] + Rest(suffix) == name
    ensures ok ==> (suffix.None? <==> |prefix| == |name| - 1)
    ensures ok ==> forall k :: |prefix| < k < |name| ==> !IsSeparator(name[k])
  {
    var i := |name| - 1;
    while i > 0
      invariant -1 <= i <= |name| - 1
      invariant forall k :: i < k < |name| ==> !IsSeparator(name[k])
      decreases i
    {
      if IsSeparator(name[i]) {
        suffix := if i == |name| - 1 then None else Some(name[i + 1..]);
        prefix := name[..i];
        assert prefix + [name[i]] + Rest(suffix) == name;
        return true, prefix, suffix;
      }
      i := i - 1;
    }
    return false, [], None;
  }

  /**
   * A dotted sort name holding no separator of its own does not split: the
   * leading dot is not taken as a separator.
   */
  lemma DotNameNotSplit(sortName: string)
    requires forall k :: 0 <= k < |sortName| ==> !IsSeparator(sortName[k])
    ensures !exists i :: 1 <= i < |DotNameCode(sortName)| && IsSeparator(DotNameCode(sortName)[i])
  {
    var r := DotNameCode(sortName);
    forall i | 1 <= i < |r|
      ensures !IsSeparator(r[i])
    {
      assert r[i] == sortName[i - 1];
    }
  }

  // ---------------------------------------------------------------------
  // split(code, opName, number): iterated operator names `f^n`
  // ---------------------------------------------------------------------

  /**
   * The name is `X^n` with `X` non-empty and `n` a non-empty string of
   * digits that does not start with 0, the `^` being at position `i`.
   */
  predicate IterAt(s: string, i: int)
  {
    1 <= i < |s| - 1 && s[i] == '^' && s[i + 1] != '0' && AllDigits(s[i + 1..])
  }

  predicate IterShape(s: string)
  {
    exists i :: 1 <= i < |s| - 1 && IterAt(s, i)
  }

  /** At most one `^` can be the one an iterated name is cut at. */
  lemma IterAtUnique(s: string, i: int, j: int)
    requires IterAt(s, i) && IterAt(s, j)
    ensures i == j
  {
  }

  /**
   * The trailing scan shared by split(code, opName, number) and the
   * classification of iterated symbols: walks back over digits to a `^`.
   * Returns the position of the `^` when the name has the iterated shape.
   */
  method IterScan(s: string) returns (found: bool, at: int)
    requires |s| > 0
    ensures found <==> IterShape(s)
    ensures found ==> IterAt(s, at)
  {
    var i := |s| - 1;
    while i > 0
      invariant 0 <= i <= |s| - 1
      invariant AllDigits(s[i + 1..])
      decreases i
    {
      var c := s[i];
      if c == '^' {
        if i == |s| - 1 || s[i + 1] == '0' {
          assert forall j :: 1 <= j < |s| - 1 ==> !IterAt(s, j);
          return false, 0;
        }
        assert IterAt(s, i);
        return true, i;
      }
      if !IsDigit(c) {
        assert forall j :: 1 <= j < |s| - 1 ==> !IterAt(s, j);
        return false, 0;
      }
      assert s[i..] == [c] + s[i + 1..];
      i := i - 1;
    }
    assert forall j :: 1 <= j < |s| - 1 ==> !IterAt(s, j);
    return false, 0;
  }

  /**
   * split(code, opName, number): `X^n` is cut into the operator name `X`
   * and the digits of `n` (converting them to a number is left out). The
   * name must be non-empty: on the empty name the source's unsigned index
   * wraps around.
   */
  method SplitIter(name: string) returns (ok: bool, opName: string, number: string)
    requires |name| > 0
    ensures ok <==> IterShape(name)
    ensures ok ==> name == opName + "^" + number && |opName| >= 1
    ensures ok ==> |number| >= 1 && number[0] != '0' && AllDigits(number)
  {
    var at;
    ok, at := IterScan(name);
    if ok {
      opName := name[..at];
      number := name[at + 1..];
      assert name == opName + "^" + number;
    } else {
      opName, number := [], [];
    }
  }

  // ---------------------------------------------------------------------
  // Printing token vectors
  // ---------------------------------------------------------------------

  /** Names joined by a separator. */
  function Joined(names: seq<string>, separator: string): string
  {
    if |names| == 0 then ""
    else if |names| == 1 then names[0]
    else Joined(names[..|names| - 1], separator) + separator + names[|names| - 1]
  }

  lemma {:induction false} JoinedLength(names: seq<string>, separator: string, total: nat)
    requires |names| > 0
    requires total == Sum(names)
    ensures |Joined(names, separator)| == total + (|names| - 1) * |separator|
  {
    if |names| > 1 {
      JoinedLength(names[..|names| - 1], separator, Sum(names[..|names| - 1]));
    }
  }

  function Sum(names: seq<string>): nat
  {
    if names == [] then 0 else Sum(names[..|names| - 1]) + |names[|names| - 1]|
  }

  /** printTokens: each token's name, the separator between consecutive ones. */
  method PrintTokens(tokens: seq<Token>, separator: string) returns (out: string)
    ensures out == Joined(Names(tokens), separator)
  {
    var sep := "";
    out := "";
    var i := 0;
    while i < |tokens|
      invariant 0 <= i <= |tokens|
      invariant out == Joined(Names(tokens[..i]), separator)
      invariant sep == if i == 0 then "" else separator
    {
      assert Names(tokens[..i + 1])[..i] == Names(tokens[..i]);
      out := out + sep + tokens[i].name;
      sep := separator;
      i := i + 1;
    }
    assert tokens[..i] == tokens;
  }

  /** A name made of one opening bracket: no space follows it in fancy spacing. */
  predicate Opening(name: string)
  {
    |name| == 1 && (name[0] == '(' || name[0] == '[' || name[0] == '{')
  }

  /** A name made of one closing bracket or a comma: no space precedes it in fancy spacing. */
  predicate Closing(name: string)
  {
    |name| == 1 && (name[0] == ')' || name[0] == ']' || name[0] == '}' || name[0] == ',')
  }

  /**
   * Whether a space goes before token `i` of `tokens[first..]`: never
   * before the first; otherwise always in plain spacing, and in fancy
   * spacing unless the previous token opens or this one closes.
   */
  predicate SpaceBefore(tokens: seq<Token>, first: int, i: int, fancy: bool)
    requires 0 <= first <= i < |tokens|
  {
    i > first && (!fancy || (!Opening(tokens[i - 1].name) && !Closing(tokens[i].name)))
  }

  /** The text printTokenVector writes for tokens `first` through `n - 1`. */
  function Spaced(tokens: seq<Token>, first: int, n: int, fancy: bool): string
    requires 0 <= first && (n <= first || n <= |tokens|)
    decreases n - first
  {
    if n <= first then ""
    else Spaced(tokens, first, n - 1, fancy) + (if SpaceBefore(tokens, first, n - 1, fancy) then " " else "")
         + tokens[n - 1].name
  }

  /** printTokenVector(tokens, first, last, fancySpacing). */
  method PrintTokenVector(tokens: seq<Token>, first: int, last: int, fancySpacing: bool) returns (out: string)
    requires 0 <= first && last < |tokens|
    ensures out == Spaced(tokens, first, last + 1, fancySpacing)
  {
    out := "";
    if fancySpacing {
      var needSpace := false;
      var i := first;
      while i <= last
        invariant first <= i && (i <= last + 1 || i == first)
        invariant out == Spaced(tokens, first, i, true)
        invariant needSpace == (i > first && !Opening(tokens[i - 1].name))
      {
        var nextNeedSpace := true;
        var name := tokens[i].name;
        var c := CharAt(name, 0);
        if c != '\0' && CharAt(name, 1) == '\0' && |name| == 1 {
          if c == ')' || c == ']' || c == '}' || c == ',' {
            needSpace := false;
          } else if c == '(' || c == '[' || c == '{' {
            nextNeedSpace := false;
          }
        }
        if needSpace {
          out := out + " ";
        }
        out := out + name;
        needSpace := nextNeedSpace;
        i := i + 1;
      }
    } else {
      var i := first;
      while i <= last
        invariant first <= i && (i <= last + 1 || i == first)
        invariant out == Spaced(tokens, first, i, false)
      {
        if i != first {
          out := out + " ";
        }
        out := out + tokens[i].name;
        i := i + 1;
      }
    }
  }

  /** Plain spacing of a whole vector is printTokens with a single space as separator. */
  lemma {:induction false} PlainIsJoined(tokens: seq<Token>, n: nat)
    requires n <= |tokens|
    ensures Spaced(tokens, 0, n, false) == Joined(Names(tokens[..n]), " ")
  {
    if n > 1 {
      PlainIsJoined(tokens, n - 1);
      assert Names(tokens[..n])[..n - 1] == Names(tokens[..n - 1]);
    } else if n == 1 {
      assert Spaced(tokens, 0, 0, false) == "";
    }
  }

  /** Without single-character brackets or commas, fancy spacing is plain spacing. */
  lemma {:induction false} FancyWithoutBrackets(tokens: seq<Token>, first: int, n: int)
    requires 0 <= first && n <= |tokens|
    requires forall k :: first <= k < n ==> !Opening(tokens[k].name) && !Closing(tokens[k].name)
    ensures Spaced(tokens, first, n, true) == Spaced(tokens, first, n, false)
    decreases n - first
  {
    if n > first {
      FancyWithoutBrackets(tokens, first, n - 1);
    }
  }

  // ---------------------------------------------------------------------
  // peelParens
  // ---------------------------------------------------------------------

  /** What a token does to the parenthesis depth: an opening name counts up, a closing one down. */
  function Step(t: Token): int
  {
    if t.name == "(" then 1 else if t.name == ")" then -1 else 0
  }

  /** Parenthesis depth after the first `n` tokens. */
  function Depth(tokens: seq<Token>, n: nat): int
    requires n <= |tokens|
  {
    if n == 0 then 0 else Depth(tokens, n - 1) + Step(tokens[n - 1])
  }

  /** Parentheses balanced: the depth never drops below zero and ends at zero. */
  predicate Balanced(tokens: seq<Token>)
  {
    (forall n :: 0 <= n <= |tokens| ==> Depth(tokens, n) >= 0) && Depth(tokens, |tokens|) == 0
  }

  /** The inner tokens, when the guard lets the peeling go ahead and they balance. */
  function Peel(tokens: seq<Token>, bothEnds: bool): seq<Token>
  {
    var len := |tokens|;
    if len <= 2 then tokens
    else if bothEnds && (tokens[0].name != "(" || tokens[len - 1].name != ")") then tokens
    else if !bothEnds && (tokens[0].name != "(" && tokens[len - 1].name != ")") then tokens
    else if !Balanced(tokens[1..len - 1]) then tokens
    else tokens[1..len - 1]
  }

  /**
   * peelParens as written: the guard returns early only when neither end
   * is a parenthesis, so the tokens are peeled as soon as one end is.
   */
  method PeelParensAsWritten(tokens: seq<Token>) returns (tokens': seq<Token>)
    ensures tokens' == Peel(tokens, false)
  {
    var len := |tokens|;
    if len <= 2 {
      return tokens;
    }
    if tokens[0].name != "(" && tokens[len - 1].name != ")" {
      return tokens;
    }
    tokens' := PeelInner(tokens);
  }

  /**
   * peelParens as intended: `( ... )` whose middle part balances loses
   * its outer parentheses; anything else is left alone.
   */
  method PeelParens(tokens: seq<Token>) returns (tokens': seq<Token>)
    ensures tokens' == Peel(tokens, true)
  {
    var len := |tokens|;
    if len <= 2 {
      return tokens;
    }
    if tokens[0].name != "(" || tokens[len - 1].name != ")" {
      return tokens;
    }
    tokens' := PeelInner(tokens);
  }

  /** The depth check over the middle part and the in-place shift shared by both guards. */
  method PeelInner(tokens: seq<Token>) returns (tokens': seq<Token>)
    requires |tokens| > 2
    ensures tokens' == if Balanced(tokens[1..|tokens| - 1]) then tokens[1..|tokens| - 1] else tokens
  {
    var balanced := MiddleBalanced(tokens);
    if !balanced {
      return tokens;
    }
    tokens' := ShiftOut(tokens);
  }

  /** The running depth over the tokens strictly between the two ends. */
  method MiddleBalanced(tokens: seq<Token>) returns (balanced: bool)
    requires |tokens| > 2
    ensures balanced == Balanced(tokens[1..|tokens| - 1])
  {
    var len := |tokens|;
    ghost var middle := tokens[1..len - 1];
    var depth := 0;
    var i := 1;
    while i < len - 1
      invariant 1 <= i <= len - 1
      invariant depth == Depth(middle, i - 1)
      invariant forall n :: 0 <= n <= i - 1 ==> Depth(middle, n) >= 0
    {
      assert middle[i - 1] == tokens[i];
      var name := tokens[i].name;
      if name == "(" {
        depth := depth + 1;
      } else if name == ")" {
        depth := depth - 1;
        if depth < 0 {
          assert Depth(middle, i) < 0;
          return false;
        }
      }
      i := i + 1;
    }
    return depth == 0;
  }

  /** Every token between the ends moves down one place and the last two go. */
  method ShiftOut(tokens: seq<Token>) returns (tokens': seq<Token>)
    requires |tokens| > 2
    ensures tokens' == tokens[1..|tokens| - 1]
  {
    var len := |tokens|;
    tokens' := tokens;
    var i := 1;
    while i < len - 1
      invariant 1 <= i <= len - 1 && |tokens'| == len
      invariant forall k :: 0 <= k < i - 1 ==> tokens'[k] == tokens[k + 1]
      invariant forall k :: i - 1 <= k < len ==> tokens'[k] == tokens[k]
    {
      tokens' := tokens'[i - 1 := tokens'[i]];
      i := i + 1;
    }
    tokens' := tokens'[..len - 2];
  }

  /**
   * The guard as written peels `( a b` down to `a`: the trailing `b` is
   * lost and the parenthesis it should have matched was never there.
   */
  lemma PeelAsWrittenLosesToken()
    ensures Peel([Token("(", 1), Token("a", 1), Token("b", 1)], false) == [Token("a", 1)]
    ensures Peel([Token("(", 1), Token("a", 1), Token("b", 1)], true) == [Token("(", 1), Token("a", 1), Token("b", 1)]
  {
    var ts := [Token("(", 1), Token("a", 1), Token("b", 1)];
    assert ts[1..2] == [Token("a", 1)];
    assert Depth([Token("a", 1)], 1) == 0;
  }

  /**
   * What the intended peeling removes is exactly one pair of outer
   * parentheses around a balanced middle; and such a middle is always
   * peeled.
   */
  lemma PeelRemovesOuterPair(tokens: seq<Token>)
    ensures var r := Peel(tokens, true);
      r != tokens ==>
        |tokens| > 2 && tokens[0].name == "(" && tokens[|tokens| - 1].name == ")" &&
        tokens == [tokens[0]] + r + [tokens[|tokens| - 1]] && Balanced(r)
    ensures (|tokens| > 2 && tokens[0].name == "(" && tokens[|tokens| - 1].name == ")" &&
             Balanced(tokens[1..|tokens| - 1])) ==> |Peel(tokens, true)| == |tokens| - 2
  {
    var r := Peel(tokens, true);
    if r != tokens {
      assert tokens == [tokens[0]] + tokens[1..|tokens| - 1] + [tokens[|tokens| - 1]];
    }
  }
}
