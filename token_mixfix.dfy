/**
 * Prefix and mixfix forms of operator names (src/Mixfix/token.cc).
 *
 * An operator's prefix name is a single token in which backquotes protect
 * the characters that would otherwise end a token (the special characters
 * and, in a name, the blanks between its parts). These routines go between
 * that form and the mixfix syntax a declaration spells out. Which
 * characters are special is decided by a table outside this model: it is a
 * parameter `special`.
 */
module TokenMixfix {
  import opened TokenChars

  /** Names whose property lets them carry mixfix syntax; the others are literals. */
  predicate PrefixLike(sp: Property)
  {
    sp == NoProperty || sp == ContainsColon || sp == EndsInColon || sp == IterSymbol
  }

  /** All names, concatenated. */
  function Concat(names: seq<string>): string
  {
    if names == [] then "" else Concat(names[..|names| - 1]) + names[|names| - 1]
  }

  lemma ConcatSnoc(names: seq<string>, t: string)
    ensures Concat(names + [t]) == Concat(names) + t
  {
    assert (names + [t])[..|names|] == names;
  }

  // ---------------------------------------------------------------------
  // prettyOpName
  // ---------------------------------------------------------------------

  predicate IsParen(c: char)
  {
    c == '(' || c == ')'
  }

  predicate IsBracketOrComma(c: char)
  {
    c == '[' || c == ']' || c == '{' || c == '}' || c == ','
  }

  /** A backquote at `k` that prettyOpName removes: one not protecting a parenthesis. */
  predicate RemovableAt(s: string, k: int)
  {
    0 <= k < |s| && s[k] == '`' && !IsParen(CharAt(s, k + 1))
  }

  predicate Removable(s: string)
  {
    exists k :: 0 <= k < |s| && RemovableAt(s, k)
  }

  /**
   * The name with each removable backquote dropped, and replaced by a space
   * unless a bracket, brace or comma follows it.
   */
  function Pretty(s: string): string
    decreases |s|
  {
    if s == [] then [] else Piece(s, 0) + Pretty(s[1..])
  }

  /** What the character at `i` becomes in the readable form. */
  function Piece(s: string, i: nat): string
    requires i < |s|
  {
    if RemovableAt(s, i) then (if IsBracketOrComma(CharAt(s, i + 1)) then [] else " ") else [s[i]]
  }

  /**
   * prettyOpName: a readable form of a prefix name, or the empty string
   * when the name is a literal or has no backquote to remove.
   */
  function PrettyOpName(s: string, sp: Property): string
  {
    if PrefixLike(sp) && Removable(s) then Pretty(s) else ""
  }

  lemma RemovableShift(s: string)
    requires s != []
    ensures forall k :: 0 <= k < |s[1..]| ==> (RemovableAt(s[1..], k) <==> RemovableAt(s, k + 1))
  {
    forall k | 0 <= k < |s[1..]|
      ensures RemovableAt(s[1..], k) <==> RemovableAt(s, k + 1)
    {
      assert CharAt(s[1..], k + 1) == CharAt(s, k + 2);
    }
  }

  lemma PrettyStep(s: string, i: nat)
    requires i < |s|
    ensures Pretty(s[i..]) == Piece(s, i) + Pretty(s[i + 1..])
  {
    assert s[i..][1..] == s[i + 1..];
    assert CharAt(s[i..], 1) == CharAt(s, i + 1);
  }

  /** prettyOpName, character by character as the source writes it. */
  method PrettyOpNameOf(s: string, sp: Property) returns (result: string)
    ensures result == PrettyOpName(s, sp)
  {
    if !PrefixLike(sp) {
      return "";
    }
    var prettified := false;
    result := "";
    var i := 0;
    while i < |s|
      invariant 0 <= i <= |s|
      invariant result + Pretty(s[i..]) == Pretty(s)
      invariant prettified <==> RemovableBefore(s, i)
    {
      var piece, removed := PrettyChar(s, i);
      PrettyStep(s, i);
      AppendAssoc(result, piece, Pretty(s[i + 1..]));
      result := result + piece;
      prettified := prettified || removed;
      i := i + 1;
    }
    RemovableBeforeAll(s, |s|);
    if !prettified {
      result := "";
    } else {
      assert s[|s|..] == [];
    }
  }

  /** The character at `i` as prettyOpName copies it, and whether it was a backquote it removed. */
  method PrettyChar(s: string, i: nat) returns (piece: string, removed: bool)
    requires i < |s|
    ensures piece == Piece(s, i) && removed == RemovableAt(s, i)
  {
    var c := s[i];
    if c == '`' && !IsParen(CharAt(s, i + 1)) {
      piece := if IsBracketOrComma(CharAt(s, i + 1)) then "" else " ";
      removed := true;
    } else {
      piece := [c];
      removed := false;
    }
  }

  /** Whether a removable backquote occurs before position `n`. */
  predicate RemovableBefore(s: string, n: nat)
  {
    n > 0 && (RemovableBefore(s, n - 1) || RemovableAt(s, n - 1))
  }

  lemma {:induction false} RemovableBeforeAll(s: string, n: nat)
    ensures RemovableBefore(s, n) <==> exists k :: 0 <= k < n && RemovableAt(s, k)
  {
    if n > 0 {
      RemovableBeforeAll(s, n - 1);
      if RemovableAt(s, n - 1) {
        assert exists k :: 0 <= k < n && RemovableAt(s, k);
      }
    }
  }

  /** Every backquote left in the readable form protects a parenthesis. */
  lemma {:induction false} PrettyKeepsParenQuotes(s: string)
    ensures forall k :: 0 <= k < |Pretty(s)| && Pretty(s)[k] == '`' ==> IsParen(CharAt(Pretty(s), k + 1))
    decreases |s|
  {
    if s != [] {
      PrettyKeepsParenQuotes(s[1..]);
      var r := Pretty(s);
      if !RemovableAt(s, 0) && s[0] == '`' {
        assert IsParen(s[1]);
        assert s[1..] != [] && !RemovableAt(s[1..], 0);
        assert Pretty(s[1..])[0] == s[1];
        assert r == [s[0]] + Pretty(s[1..]);
        forall k | 0 <= k < |r| && r[k] == '`'
          ensures IsParen(CharAt(r, k + 1))
        {
          if k > 0 {
            assert r[k] == Pretty(s[1..])[k - 1];
            assert CharAt(r, k + 1) == CharAt(Pretty(s[1..]), k);
          }
        }
      } else {
        var head := r[..|r| - |Pretty(s[1..])|];
        assert r == head + Pretty(s[1..]);
        assert forall k :: 0 <= k < |head| ==> head[k] != '`';
        forall k | 0 <= k < |r| && r[k] == '`'
          ensures IsParen(CharAt(r, k + 1))
        {
          assert k >= |head|;
          assert r[k] == Pretty(s[1..])[k - |head|];
          assert CharAt(r, k + 1) == CharAt(Pretty(s[1..]), k - |head| + 1);
        }
      }
    }
  }

  /**
   * With no backquote to remove the readable form is the name itself,
   * which is why prettyOpName then answers with the empty string.
   */
  lemma {:induction false} PrettyIdentity(s: string)
    requires !Removable(s)
    ensures Pretty(s) == s
    decreases |s|
  {
    if s != [] {
      RemovableShift(s);
      assert !RemovableAt(s, 0);
      PrettyIdentity(s[1..]);
      assert [s[0]] + s[1..] == s;
    }
  }

  // ---------------------------------------------------------------------
  // extractMixfix
  // ---------------------------------------------------------------------

  /** The characters that give a prefix name mixfix syntax. */
  predicate IsMark(c: char)
  {
    c == '`' || c == '_' || c == '"'
  }

  /** The position of the first mark from `i` on, `|s|` when there is none. */
  function FirstMark(s: string, i: nat): (p: nat)
    requires i <= |s|
    ensures i <= p <= |s| && (p < |s| ==> IsMark(s[p]))
    ensures forall k :: i <= k < p ==> !IsMark(s[k])
    decreases |s| - i
  {
    if i == |s| then i else if IsMark(s[i]) then i else FirstMark(s, i + 1)
  }

  /**
   * The state of the mixfix scan: the token being built, the tokens made
   * so far, whether a string literal is open and a backslash pending in
   * it, and how many underscores were seen.
   */
  datatype MixState = MixState(token: string, out: seq<string>, stringMode: bool, seenBS: bool, underscores: nat)

  /** The token being built, if any, moved to the output. */
  function Flush(out: seq<string>, token: string): seq<string>
  {
    if token == [] then out else out + [token]
  }

  /** One character of the mixfix scan. */
  function MixStep(st: MixState, c: char, special: char -> bool): MixState
  {
    if st.stringMode then
      if c == '\\' then st.(token := st.token + [c], seenBS := !st.seenBS)
      else st.(token := st.token + [c], stringMode := !(c == '"' && !st.seenBS), seenBS := false)
    else if c == '`' then st.(token := [], out := Flush(st.out, st.token))
    else if c != '_' && !special(c) then st.(token := st.token + [c], stringMode := c == '"')
    else st.(token := [], out := Flush(st.out, st.token) + [[c]],
             underscores := st.underscores + (if c == '_' then 1 else 0))
  }

  /** The scan from position `i` to the end. */
  function MixRun(s: string, i: nat, st: MixState, special: char -> bool): MixState
    requires i <= |s|
    decreases |s| - i
  {
    if i == |s| then st else MixRun(s, i + 1, MixStep(st, s[i], special), special)
  }

  /**
   * extractMixfix: the number of underscores (argument places) and the
   * mixfix syntax appended to `syntax`, one token per run of ordinary
   * characters, per special character and per underscore, backquotes only
   * separating tokens and string literals kept whole. A syntax that comes
   * out as the prefix name alone is cleared.
   */
  function ExtractMixfix(s: string, sp: Property, special: char -> bool, syntax: seq<string>): (int, seq<string>)
  {
    if !PrefixLike(sp) then (0, syntax)
    else
      var p := FirstMark(s, 0);
      if p == |s| then (0, syntax)
      else
        var st := MixRun(s, p, MixState(s[..p], syntax, false, false, 0), special);
        var out := Flush(st.out, st.token);
        (st.underscores, if |out| == 1 && out[0] == s then [] else out)
  }

  /** extractMixfix, as the source's two loops. */
  method ExtractMixfixOf(s: string, sp: Property, special: char -> bool, syntax: seq<string>)
    returns (nrUnderscores: int, mixfixSyntax: seq<string>)
    ensures (nrUnderscores, mixfixSyntax) == ExtractMixfix(s, sp, special, syntax)
  {
    if !PrefixLike(sp) {
      return 0, syntax;
    }
    var p := 0;
    while p < |s| && !IsMark(s[p])
      invariant 0 <= p <= |s| && FirstMark(s, 0) == FirstMark(s, p)
    {
      p := p + 1;
    }
    if p == |s| {
      return 0, syntax;
    }
    var token := s[..p];
    mixfixSyntax := syntax;
    var stringMode := false;
    var seenBS := false;
    nrUnderscores := 0;
    ghost var st0 := MixState(token, syntax, false, false, 0);
    while p < |s|
      invariant FirstMark(s, 0) <= p <= |s|
      invariant nrUnderscores >= 0
      invariant MixRun(s, p, MixState(token, mixfixSyntax, stringMode, seenBS, nrUnderscores), special)
                == MixRun(s, FirstMark(s, 0), st0, special)
    {
      var c := s[p];
      if stringMode {
        token := token + [c];
        if c == '\\' {
          seenBS := !seenBS;
        } else {
          if c == '"' && !seenBS {
            stringMode := false;
          }
          seenBS := false;
        }
      } else if c == '`' {
        if token != [] {
          mixfixSyntax := mixfixSyntax + [token];
          token := [];
        }
      } else if c != '_' && !special(c) {
        token := token + [c];
        if c == '"' {
          stringMode := true;
        }
      } else {
        if c == '_' {
          nrUnderscores := nrUnderscores + 1;
        }
        if token != [] {
          mixfixSyntax := mixfixSyntax + [token];
        }
        token := [c];
        mixfixSyntax := mixfixSyntax + [token];
        token := [];
      }
      p := p + 1;
    }
    if token != [] {
      mixfixSyntax := mixfixSyntax + [token];
    }
    if |mixfixSyntax| == 1 && mixfixSyntax[0] == s {
      mixfixSyntax := [];
    }
  }

  /**
   * Outside string literals the scan loses nothing but backquotes: what it
   * has made since `base`, followed by the token being built, spells the
   * input read so far without its backquotes; it counts the underscores;
   * and every token it makes is non-empty.
   */
  predicate Spells(s: string, i: nat, st: MixState, syntax: seq<string>)
    requires i <= |s|
  {
    |syntax| <= |st.out| && st.out[..|syntax|] == syntax &&
    Concat(st.out[|syntax|..]) + st.token == Without(s[..i], '`') &&
    st.underscores == Occurrences(s[..i], '_') &&
    (forall k :: |syntax| <= k < |st.out| ==> st.out[k] != []) &&
    !st.stringMode
  }

  /** Moving the token being built to the output keeps what the output spells. */
  lemma FlushSpells(out: seq<string>, token: string, base: nat)
    requires base <= |out|
    ensures |Flush(out, token)| >= |out| && Flush(out, token)[..|out|] == out
    ensures Flush(out, token)[..base] == out[..base]
    ensures Concat(Flush(out, token)[base..]) == Concat(out[base..]) + token
    ensures forall k :: |out| <= k < |Flush(out, token)| ==> Flush(out, token)[k] != []
  {
    if token != [] {
      assert Flush(out, token)[base..] == out[base..] + [token];
      ConcatSnoc(out[base..], token);
    } else {
      assert Concat(out[base..]) + token == Concat(out[base..]);
    }
  }

  lemma MixStepSpells(s: string, i: nat, st: MixState, syntax: seq<string>, special: char -> bool)
    requires i < |s| && s[i] != '"' && Spells(s, i, st, syntax)
    ensures Spells(s, i + 1, MixStep(st, s[i], special), syntax)
  {
    var c := s[i];
    assert s[..i + 1] == s[..i] + [c];
    WithoutSnoc(s[..i], c, '`');
    WithoutSnoc(s[..i], c, '_');
    if c == '`' {
      BackquoteSpells(s, i, st, syntax, special);
    } else if c == '_' || special(c) {
      SeparatorSpells(s, i, st, syntax, special);
    } else {
      PlainSpells(s, i, st, syntax, special);
    }
  }

  /** A backquote ends the token being built and is itself dropped. */
  lemma BackquoteSpells(s: string, i: nat, st: MixState, syntax: seq<string>, special: char -> bool)
    requires i < |s| && s[i] == '`' && Spells(s, i, st, syntax)
    requires Without(s[..i + 1], '`') == Without(s[..i], '`')
    requires Occurrences(s[..i + 1], '_') == Occurrences(s[..i], '_')
    ensures Spells(s, i + 1, MixStep(st, s[i], special), syntax)
  {
    FlushSpells(st.out, st.token, |syntax|);
  }

  /** An underscore or a special character ends the token being built and is a token of its own. */
  lemma SeparatorSpells(s: string, i: nat, st: MixState, syntax: seq<string>, special: char -> bool)
    requires i < |s| && s[i] != '`' && s[i] != '"' && (s[i] == '_' || special(s[i])) && Spells(s, i, st, syntax)
    requires Without(s[..i + 1], '`') == Without(s[..i], '`') + [s[i]]
    requires Occurrences(s[..i + 1], '_') == Occurrences(s[..i], '_') + (if s[i] == '_' then 1 else 0)
    ensures Spells(s, i + 1, MixStep(st, s[i], special), syntax)
  {
    var c := s[i];
    var base := |syntax|;
    FlushSpells(st.out, st.token, base);
    var f := Flush(st.out, st.token);
    FlushSpells(f, [c], base);
    assert MixStep(st, c, special).out == Flush(f, [c]);
  }

  /** Any other character outside a string literal extends the token being built. */
  lemma PlainSpells(s: string, i: nat, st: MixState, syntax: seq<string>, special: char -> bool)
    requires i < |s| && s[i] != '`' && s[i] != '"' && s[i] != '_' && !special(s[i]) && Spells(s, i, st, syntax)
    requires Without(s[..i + 1], '`') == Without(s[..i], '`') + [s[i]]
    requires Occurrences(s[..i + 1], '_') == Occurrences(s[..i], '_')
    ensures Spells(s, i + 1, MixStep(st, s[i], special), syntax)
  {
    var st' := MixStep(st, s[i], special);
    assert st'.out == st.out && st'.token == st.token + [s[i]];
  }

  lemma {:induction false} MixRunSpells(s: string, i: nat, st: MixState, syntax: seq<string>, special: char -> bool)
    requires i <= |s| && Spells(s, i, st, syntax)
    requires forall k :: 0 <= k < |s| ==> s[k] != '"'
    ensures Spells(s, |s|, MixRun(s, i, st, special), syntax)
    decreases |s| - i
  {
    if i < |s| {
      MixStepSpells(s, i, st, syntax, special);
      MixRunSpells(s, i + 1, MixStep(st, s[i], special), syntax, special);
    }
  }

  /** The state extractMixfix starts its second loop in. */
  function MixStart(s: string, syntax: seq<string>): MixState
  {
    MixState(s[..FirstMark(s, 0)], syntax, false, false, 0)
  }

  /** The characters before the first mark are plain, so the scan starts spelling them. */
  lemma MixStartSpells(s: string, syntax: seq<string>)
    requires FirstMark(s, 0) < |s|
    ensures Spells(s, FirstMark(s, 0), MixStart(s, syntax), syntax)
  {
    var p := FirstMark(s, 0);
    PlainPrefix(s, p);
    var st := MixStart(s, syntax);
    assert st.out[|syntax|..] == [] && st.out[..|syntax|] == syntax;
    assert Concat(st.out[|syntax|..]) + st.token == s[..p];
  }

  /** A prefix without marks has no backquote and no underscore to lose. */
  lemma PlainPrefix(s: string, p: nat)
    requires p <= |s| && forall k :: 0 <= k < p ==> !IsMark(s[k])
    ensures Without(s[..p], '`') == s[..p] && Occurrences(s[..p], '_') == 0
  {
    var t := s[..p];
    forall j | 0 <= j < |t|
      ensures t[j] != '`' && t[j] != '_'
    {
      assert t[j] == s[j] && !IsMark(s[j]);
    }
    WithoutAbsent(t, '`');
    WithoutAbsent(t, '_');
  }

  /** The tokens appended spell the name without backquotes and are non-empty. */
  predicate SpellsName(out: seq<string>, syntax: seq<string>, s: string)
  {
    |syntax| <= |out| && out[..|syntax|] == syntax && Concat(out[|syntax|..]) == Without(s, '`') &&
    forall k :: |syntax| <= k < |out| ==> out[k] != []
  }

  /** The last token moved to the output completes the spelling. */
  lemma MixEndSpells(s: string, st: MixState, syntax: seq<string>)
    requires Spells(s, |s|, st, syntax)
    ensures SpellsName(Flush(st.out, st.token), syntax, s)
    ensures st.underscores == Occurrences(s, '_')
  {
    assert s[..|s|] == s;
    FlushSpells(st.out, st.token, |syntax|);
  }

  /** The syntax extractMixfix builds before deciding whether to clear it. */
  ghost function MixOut(s: string, syntax: seq<string>, special: char -> bool): seq<string>
    requires FirstMark(s, 0) < |s|
  {
    var st := MixRun(s, FirstMark(s, 0), MixStart(s, syntax), special);
    Flush(st.out, st.token)
  }

  /**
   * For a prefix name without string literals that has a backquote or an
   * underscore, extractMixfix counts every underscore; the syntax it builds
   * is `syntax` followed by non-empty tokens that spell the name without its
   * backquotes, and it is returned unless it is the name alone, in which
   * case the result is cleared.
   */
  lemma ExtractMixfixSpells(s: string, sp: Property, special: char -> bool, syntax: seq<string>)
    requires PrefixLike(sp)
    requires forall k :: 0 <= k < |s| ==> s[k] != '"'
    requires exists k :: 0 <= k < |s| && (s[k] == '`' || s[k] == '_')
    ensures FirstMark(s, 0) < |s|
    ensures ExtractMixfix(s, sp, special, syntax).0 == Occurrences(s, '_')
    ensures SpellsName(MixOut(s, syntax, special), syntax, s)
    ensures var out := MixOut(s, syntax, special);
      ExtractMixfix(s, sp, special, syntax).1 == (if |out| == 1 && out[0] == s then [] else out)
  {
    var k :| 0 <= k < |s| && (s[k] == '`' || s[k] == '_');
    assert FirstMark(s, 0) <= k;
    MixStartSpells(s, syntax);
    MixRunSpells(s, FirstMark(s, 0), MixStart(s, syntax), syntax, special);
    MixEndSpells(s, MixRun(s, FirstMark(s, 0), MixStart(s, syntax), special), syntax);
  }

  // ---------------------------------------------------------------------
  // ropeToPrefixNameCode
  // ---------------------------------------------------------------------

  /**
   * The state of the prefix-name scan: the name so far, whether a
   * backquote is owed before the next character, whether the last
   * character was special, and the string-literal flags.
   */
  datatype PrefixState = PrefixState(result: string, needBQ: bool, lastCharSpecial: bool, stringMode: bool, seenBS: bool)

  /** One character of the prefix-name scan; `None` for a non-printable one. */
  function PrefixStep(st: PrefixState, c: char, special: char -> bool): Option<PrefixState>
  {
    if st.stringMode then
      if !IsPrint(c) then None
      else if c == '\\' then Some(st.(result := st.result + [c], seenBS := !st.seenBS))
      else Some(st.(result := st.result + [c], stringMode := !(c == '"' && !st.seenBS), seenBS := false))
    else if IsSpace(c) || c == '`' then Some(st.(needBQ := !st.lastCharSpecial && st.result != []))
    else if !IsPrint(c) then None
    else
      var last := special(c) || c == '_';
      var quoted := if (last || st.needBQ) && c != '_' then st.result + ['`'] else st.result;
      Some(st.(result := quoted + [c], lastCharSpecial := last, stringMode := c == '"', needBQ := false))
  }

  function PrefixRun(r: string, i: nat, st: PrefixState, special: char -> bool): Option<PrefixState>
    requires i <= |r|
    decreases |r| - i
  {
    if i == |r| then Some(st)
    else
      var next := PrefixStep(st, r[i], special);
      if next.None? then None else PrefixRun(r, i + 1, next.value, special)
  }

  /**
   * ropeToPrefixNameCode: the prefix name of the text of an operator;
   * `None` (the source's NONE) when it holds a non-printable character
   * other than white space, or ends inside a string literal.
   */
  function RopeToPrefixName(r: string, special: char -> bool): Option<string>
  {
    var st := PrefixRun(r, 0, PrefixState([], false, false, false, false), special);
    if st.None? || st.value.stringMode then None else Some(st.value.result)
  }

  /** ropeToPrefixNameCode, as the source's loop. */
  method RopeToPrefixNameCode(r: string, special: char -> bool) returns (code: Option<string>)
    ensures code == RopeToPrefixName(r, special)
  {
    var result := "";
    var needBQ := false;
    var lastCharSpecial := false;
    var stringMode := false;
    var seenBS := false;
    var i := 0;
    while i < |r|
      invariant 0 <= i <= |r|
      invariant PrefixRun(r, i, PrefixState(result, needBQ, lastCharSpecial, stringMode, seenBS), special)
                == PrefixRun(r, 0, PrefixState([], false, false, false, false), special)
    {
      var c := r[i];
      if stringMode {
        if !IsPrint(c) {
          return None;
        }
        result := result + [c];
        if c == '\\' {
          seenBS := !seenBS;
        } else {
          if c == '"' && !seenBS {
            stringMode := false;
          }
          seenBS := false;
        }
      } else {
        if IsSpace(c) || c == '`' {
          needBQ := !lastCharSpecial && result != [];
        } else if !IsPrint(c) {
          return None;
        } else {
          lastCharSpecial := special(c) || c == '_';
          if (lastCharSpecial || needBQ) && c != '_' {
            result := result + ['`'];
          }
          result := result + [c];
          if c == '"' {
            stringMode := true;
          }
          needBQ := false;
        }
      }
      i := i + 1;
    }
    if stringMode {
      return None;
    }
    return Some(result);
  }

  /** The text with white space and backquotes outside string literals dropped. */
  function Squeezed(r: string): string
  {
    if r == [] then []
    else Squeezed(r[..|r| - 1]) + (if IsSpace(r[|r| - 1]) || r[|r| - 1] == '`' then [] else [r[|r| - 1]])
  }

  predicate AllPrintable(s: string)
  {
    forall k :: 0 <= k < |s| ==> IsPrint(s[k])
  }

  /** What the prefix-name scan keeps while no string literal is involved. */
  predicate PrefixSoFar(r: string, i: nat, st: PrefixState)
    requires i <= |r|
  {
    !st.stringMode && AllPrintable(st.result) && Without(st.result, '`') == Squeezed(r[..i])
  }

  lemma SqueezedSnoc(s: string, c: char)
    ensures Squeezed(s + [c]) == Squeezed(s) + (if IsSpace(c) || c == '`' then [] else [c])
  {
    assert (s + [c])[..|s|] == s;
  }

  /** A printable character appended, with or without a backquote before it. */
  lemma AppendQuoted(result: string, quote: bool, c: char)
    requires AllPrintable(result) && IsPrint(c) && c != '`'
    ensures AllPrintable((if quote then result + ['`'] else result) + [c])
    ensures Without((if quote then result + ['`'] else result) + [c], '`') == Without(result, '`') + [c]
  {
    var quoted := if quote then result + ['`'] else result;
    PrintableSnoc(result, '`');
    PrintableSnoc(quoted, c);
    WithoutSnoc(result, '`', '`');
    WithoutSnoc(quoted, c, '`');
  }

  lemma PrintableSnoc(s: string, c: char)
    requires AllPrintable(s) && IsPrint(c)
    ensures AllPrintable(s + [c])
  {
    forall k | 0 <= k < |s + [c]|
      ensures IsPrint((s + [c])[k])
    {
      if k < |s| {
        assert (s + [c])[k] == s[k];
      }
    }
  }

  lemma PrefixStepKeeps(r: string, i: nat, st: PrefixState, special: char -> bool)
    requires i < |r| && PrefixSoFar(r, i, st)
    requires r[i] != '"' && (IsPrint(r[i]) || IsSpace(r[i]))
    ensures PrefixStep(st, r[i], special).Some?
    ensures PrefixSoFar(r, i + 1, PrefixStep(st, r[i], special).value)
  {
    var c := r[i];
    assert r[..i + 1] == r[..i] + [c];
    SqueezedSnoc(r[..i], c);
    if !(IsSpace(c) || c == '`') {
      AppendQuoted(st.result, ((special(c) || c == '_') || st.needBQ) && c != '_', c);
    }
  }

  lemma {:induction false} PrefixRunKeeps(r: string, i: nat, st: PrefixState, special: char -> bool)
    requires i <= |r| && PrefixSoFar(r, i, st)
    requires forall k :: 0 <= k < |r| ==> r[k] != '"' && (IsPrint(r[k]) || IsSpace(r[k]))
    ensures PrefixRun(r, i, st, special).Some?
    ensures PrefixSoFar(r, |r|, PrefixRun(r, i, st, special).value)
    decreases |r| - i
  {
    if i < |r| {
      PrefixStepKeeps(r, i, st, special);
      PrefixRunKeeps(r, i + 1, PrefixStep(st, r[i], special).value, special);
    }
  }

  /**
   * Text without string literals, made of printable characters and white
   * space, always has a prefix name; the name is printable, and without its
   * backquotes it is the text with its white space and backquotes removed:
   * the scan only inserts backquotes.
   */
  lemma PrefixNameSpells(r: string, special: char -> bool)
    requires forall k :: 0 <= k < |r| ==> r[k] != '"' && (IsPrint(r[k]) || IsSpace(r[k]))
    ensures RopeToPrefixName(r, special).Some?
    ensures AllPrintable(RopeToPrefixName(r, special).value)
    ensures Without(RopeToPrefixName(r, special).value, '`') == Squeezed(r)
  {
    var st0 := PrefixState([], false, false, false, false);
    assert r[..0] == [];
    PrefixRunKeeps(r, 0, st0, special);
    assert r[..|r|] == r;
  }

  // ---------------------------------------------------------------------
  // bubbleToPrefixNameCode
  // ---------------------------------------------------------------------

  /** The last character of a name as the source's copy loop leaves it (NUL for an empty name). */
  function LastChar(name: string): char
  {
    if name == [] then '\0' else name[|name| - 1]
  }

  /**
   * Whether a backquote goes before token `i` of an operator bubble: always
   * before a name that starts with a special character, never before one
   * starting with `_` or a backquote, and otherwise when the previous
   * name ended in an ordinary character.
   */
  predicate QuoteBefore(names: seq<string>, i: nat, special: char -> bool)
    requires i < |names|
  {
    var c := CharAt(names[i], 0);
    special(c) ||
    (c != '_' && c != '`' && i > 0 && !(special(LastChar(names[i - 1])) || LastChar(names[i - 1]) == '_'))
  }

  /** The bubble's first `n` names, each with its backquote if it gets one. */
  function Bubble(names: seq<string>, n: nat, special: char -> bool): string
    requires n <= |names|
  {
    if n == 0 then []
    else Bubble(names, n - 1, special) + (if QuoteBefore(names, n - 1, special) then "`" else "") + names[n - 1]
  }

  /**
   * bubbleToPrefixNameCode: a bubble of one token not starting with a
   * special character is its own prefix name; otherwise the names are
   * joined, with backquotes inserted where a blank between them matters.
   */
  function BubbleToPrefixName(names: seq<string>, special: char -> bool): string
  {
    if |names| == 1 && !special(CharAt(names[0], 0)) then names[0] else Bubble(names, |names|, special)
  }

  /** bubbleToPrefixNameCode, as the source's loop. */
  method BubbleToPrefixNameCode(opBubble: seq<Token>, special: char -> bool) returns (code: string)
    ensures code == BubbleToPrefixName(Names(opBubble), special)
  {
    var nrTokens := |opBubble|;
    ghost var names := Names(opBubble);
    if nrTokens == 1 {
      if !special(CharAt(opBubble[0].name, 0)) {
        return opBubble[0].name;
      }
    }
    var needBQ := false;
    var buffer := [];
    var i := 0;
    while i < nrTokens
      invariant 0 <= i <= nrTokens
      invariant buffer == Bubble(names, i, special)
      invariant needBQ == (i > 0 && !(special(LastChar(names[i - 1])) || LastChar(names[i - 1]) == '_'))
    {
      var name := opBubble[i].name;
      var c := CharAt(name, 0);
      if special(c) {
        needBQ := true;
      } else if c == '_' || c == '`' {
        needBQ := false;
      }
      if needBQ {
        buffer := buffer + ['`'];
      }
      var j := 0;
      while j < |name|
        invariant 0 <= j <= |name|
        invariant buffer == Bubble(names, i, special) + (if needBQ then "`" else "") + name[..j]
        invariant c == if j == 0 then CharAt(name, 0) else name[j - 1]
      {
        c := name[j];
        buffer := buffer + [c];
        j := j + 1;
      }
      assert name[..j] == name;
      needBQ := !(special(if name == [] then '\0' else c) || (if name == [] then '\0' else c) == '_');
      i := i + 1;
    }
    code := buffer;
  }

  predicate Unquoted(name: string)
  {
    forall j :: 0 <= j < |name| ==> name[j] != '`'
  }

  lemma TakeSnoc<T>(xs: seq<T>, n: nat)
    requires 0 < n <= |xs|
    ensures xs[..n] == xs[..n - 1] + [xs[n - 1]]
  {
  }

  /** Each name joins the bubble with at most one backquote in front of it. */
  lemma BubbleStep(names: seq<string>, n: nat, special: char -> bool)
    requires 0 < n <= |names| && Unquoted(names[n - 1])
    ensures Without(Bubble(names, n, special), '`') == Without(Bubble(names, n - 1, special), '`') + names[n - 1]
  {
    var b := Bubble(names, n - 1, special);
    var q: string := if QuoteBefore(names, n - 1, special) then "`" else "";
    assert Bubble(names, n, special) == b + q + names[n - 1];
    WithoutAppend(b + q, names[n - 1], '`');
    if q != [] {
      WithoutSnoc(b, '`', '`');
      assert b + q == b + ['`'];
    } else {
      assert b + q == b;
    }
    WithoutAbsent(names[n - 1], '`');
  }

  /** Names that hold no backquote come out of the bubble unchanged, only backquotes are added. */
  lemma {:induction false} BubbleSpells(names: seq<string>, n: nat, special: char -> bool)
    requires n <= |names|
    requires forall k :: 0 <= k < |names| ==> Unquoted(names[k])
    ensures Without(Bubble(names, n, special), '`') == Concat(names[..n])
  {
    if n > 0 {
      BubbleSpells(names, n - 1, special);
      BubbleStep(names, n, special);
      TakeSnoc(names, n);
      ConcatSnoc(names[..n - 1], names[n - 1]);
    }
  }

  /** The same for the whole prefix name, the one-token shortcut included. */
  lemma BubbleToPrefixNameSpells(names: seq<string>, special: char -> bool)
    requires forall k :: 0 <= k < |names| ==> Unquoted(names[k])
    ensures Without(BubbleToPrefixName(names, special), '`') == Concat(names)
  {
    BubbleSpells(names, |names|, special);
    assert names[..|names|] == names;
    if |names| == 1 {
      assert Unquoted(names[0]);
      WithoutAbsent(names[0], '`');
      assert Concat(names) == Concat([]) + names[0];
    }
  }

  // ---------------------------------------------------------------------
  // Words and examples
  // ---------------------------------------------------------------------

  /** A character that stands for itself in a prefix name. */
  predicate Plain(c: char, special: char -> bool)
  {
    IsPrint(c) && !IsSpace(c) && c != '`' && c != '_' && c != '"' && !special(c)
  }

  lemma {:induction false} PrefixRunPlain(r: string, i: nat, special: char -> bool)
    requires i <= |r|
    requires forall k :: 0 <= k < |r| ==> Plain(r[k], special)
    ensures PrefixRun(r, i, PrefixState(r[..i], false, false, false, false), special)
            == Some(PrefixState(r, false, false, false, false))
    decreases |r| - i
  {
    if i < |r| {
      assert r[..i + 1] == r[..i] + [r[i]];
      PrefixRunPlain(r, i + 1, special);
    } else {
      assert r[..i] == r;
    }
  }

  /** A word of ordinary characters is its own prefix name. */
  lemma PlainWordIsItsOwnPrefixName(r: string, special: char -> bool)
    requires forall k :: 0 <= k < |r| ==> Plain(r[k], special)
    ensures RopeToPrefixName(r, special) == Some(r)
  {
    assert r[..0] == [];
    PrefixRunPlain(r, 0, special);
  }

  /** Parentheses, brackets, braces and the comma: the special characters of the examples. */
  predicate ExampleSpecial(c: char)
  {
    IsParen(c) || IsBracketOrComma(c)
  }

  /** The operator written `f ( _ )` has prefix name f`(_`. */
  lemma FunctionCallPrefixName()
    ensures RopeToPrefixName("f ( _ )", ExampleSpecial) == Some("f`(_`)")
  {
    var r := "f ( _ )";
    var p0 := PrefixState([], false, false, false, false);
    var p1 := PrefixState("f", false, false, false, false);
    var p2 := PrefixState("f", true, false, false, false);
    var p3 := PrefixState("f`(", false, true, false, false);
    var p5 := PrefixState("f`(_", false, true, false, false);
    var p7 := PrefixState("f`(_`)", false, true, false, false);
    assert PrefixStep(p0, 'f', ExampleSpecial) == Some(p1) by { assert [] + ['f'] == "f"; }
    assert PrefixStep(p2, '(', ExampleSpecial) == Some(p3) by { assert "f" + ['`'] + ['('] == "f`("; }
    assert PrefixStep(p3, '_', ExampleSpecial) == Some(p5) by { assert "f`(" + ['_'] == "f`(_"; }
    assert PrefixStep(p5, ')', ExampleSpecial) == Some(p7) by { assert "f`(_" + ['`'] + [')'] == "f`(_`)"; }
    assert PrefixRun(r, 7, p7, ExampleSpecial) == Some(p7);
    assert PrefixRun(r, 6, p5, ExampleSpecial) == PrefixRun(r, 7, p7, ExampleSpecial);
    assert PrefixRun(r, 5, p5, ExampleSpecial) == PrefixRun(r, 6, p5, ExampleSpecial);
    assert PrefixRun(r, 4, p3, ExampleSpecial) == PrefixRun(r, 5, p5, ExampleSpecial);
    assert PrefixRun(r, 3, p3, ExampleSpecial) == PrefixRun(r, 4, p3, ExampleSpecial);
    assert PrefixRun(r, 2, p2, ExampleSpecial) == PrefixRun(r, 3, p3, ExampleSpecial);
    assert PrefixRun(r, 1, p1, ExampleSpecial) == PrefixRun(r, 2, p2, ExampleSpecial);
    assert PrefixRun(r, 0, p0, ExampleSpecial) == PrefixRun(r, 1, p1, ExampleSpecial);
  }

  /** The mixfix syntax of f`(_`) is f, (, _ and ), with one argument place. */
  lemma FunctionCallMixfix()
    ensures ExtractMixfix("f`(_`)", NoProperty, ExampleSpecial, []) == (1, ["f", "(", "_", ")"])
  {
    var s := "f`(_`)";
    assert FirstMark(s, 0) == 1;
    assert s[..1] == "f";
    FunctionCallRun();
  }

  /** The scan of f`(_`) from its first backquote, one character at a time. */
  lemma FunctionCallRun()
    ensures MixRun("f`(_`)", 1, MixState("f", [], false, false, 0), ExampleSpecial)
            == MixState([], ["f", "(", "_", ")"], false, false, 1)
  {
    var s := "f`(_`)";
    var m1 := MixState("f", [], false, false, 0);
    var m2 := MixState([], ["f"], false, false, 0);
    var m3 := MixState([], ["f", "("], false, false, 0);
    var m4 := MixState([], ["f", "(", "_"], false, false, 1);
    var m6 := MixState([], ["f", "(", "_", ")"], false, false, 1);
    assert s[1] == '`' && s[2] == '(' && s[3] == '_' && s[4] == '`' && s[5] == ')';
    assert MixStep(m1, '`', ExampleSpecial) == m2;
    assert MixStep(m2, '(', ExampleSpecial) == m3;
    assert MixStep(m3, '_', ExampleSpecial) == m4;
    assert MixStep(m4, '`', ExampleSpecial) == m4;
    assert MixStep(m4, ')', ExampleSpecial) == m6;
    assert MixRun(s, 6, m6, ExampleSpecial) == m6;
    assert MixRun(s, 5, m4, ExampleSpecial) == m6;
    assert MixRun(s, 4, m4, ExampleSpecial) == m6;
    assert MixRun(s, 3, m3, ExampleSpecial) == m6;
    assert MixRun(s, 2, m2, ExampleSpecial) == m6;
  }

  /** Every backquote of f`(_`) protects a parenthesis, so it has no readable form but itself. */
  lemma FunctionCallNotPretty()
    ensures PrettyOpName("f`(_`)", NoProperty) == ""
  {
    var s := "f`(_`)";
    assert !RemovableAt(s, 1) && !RemovableAt(s, 4);
    assert forall k :: 0 <= k < |s| && k != 1 && k != 4 ==> s[k] != '`';
  }

  /**
   * The operator `_[_]`: a backquote before a bracket is dropped without a
   * space in the readable form, and the bubble `_ [ _ ]` joins into the
   * same prefix name.
   */
  lemma BracketExample()
    ensures PrettyOpName("_`[_`]", NoProperty) == "_[_]"
    ensures BubbleToPrefixName(["_", "[", "_", "]"], ExampleSpecial) == "_`[_`]"
  {
    BracketPretty();
    BracketBubble();
  }

  lemma BracketQuotes()
    ensures var names := ["_", "[", "_", "]"];
      !QuoteBefore(names, 0, ExampleSpecial) && QuoteBefore(names, 1, ExampleSpecial) &&
      !QuoteBefore(names, 2, ExampleSpecial) && QuoteBefore(names, 3, ExampleSpecial)
  {
    assert CharAt("[", 0) == '[' && CharAt("]", 0) == ']' && CharAt("_", 0) == '_';
  }

  lemma BracketBubble()
    ensures BubbleToPrefixName(["_", "[", "_", "]"], ExampleSpecial) == "_`[_`]"
  {
    var names := ["_", "[", "_", "]"];
    BracketQuotes();
    assert Bubble(names, 1, ExampleSpecial) == "_";
    assert Bubble(names, 2, ExampleSpecial) == "_`[";
    assert Bubble(names, 3, ExampleSpecial) == "_`[_";
    assert Bubble(names, 4, ExampleSpecial) == "_`[_`]";
  }

  lemma BracketPretty()
    ensures PrettyOpName("_`[_`]", NoProperty) == "_[_]"
  {
    var s := "_`[_`]";
    assert RemovableAt(s, 1) && RemovableAt(s, 4);
    assert Pretty(s[6..]) == [];
    PrettyStep(s, 5);
    PrettyStep(s, 4);
    PrettyStep(s, 3);
    PrettyStep(s, 2);
    PrettyStep(s, 1);
    PrettyStep(s, 0);
    assert s[0..] == s;
  }
}
