/**
 * Classification of token names into special properties
 * (src/Mixfix/token.cc): quoted identifiers, string literals, names ending
 * in or containing a colon, iterated operator names and rationals, and the
 * property tables each new name is entered into.
 *
 * Whether a name is a float or an integer is decided by code outside this
 * model (a float recogniser and a multiple-precision parser); that decision
 * is a parameter `numeric`, giving the property of a numeric name and
 * `None` for any other.
 */
module TokenProperties {
  import opened TokenChars
  import opened TokenNames

  /**
   * Scanning a string literal from position `i`, a backslash escaping the
   * next character: the position of the first unescaped `"`, if any.
   */
  function CloseFrom(s: string, i: nat, escaped: bool): (r: Option<nat>)
    ensures r.Some? ==> i <= r.value < |s| && s[r.value] == '"'
    decreases |s| - i
  {
    if i >= |s| then None
    else if s[i] == '\\' then CloseFrom(s, i + 1, !escaped)
    else if s[i] == '"' && !escaped then Some(i)
    else CloseFrom(s, i + 1, false)
  }

  /** The closing quote of a name that starts with `"`. */
  function Close(s: string): (r: Option<nat>)
    ensures r.Some? ==> 1 <= r.value < |s| && s[r.value] == '"'
  {
    CloseFrom(s, 1, false)
  }

  /** A colon at or after position `from`. */
  predicate ColonFrom(s: string, from: nat)
  {
    exists k :: from <= k < |s| && s[k] == ':'
  }

  /**
   * `-?N/D`: `N` a non-empty digit string that starts with 0 only when it is
   * the unsigned `0`, and `D` a non-empty digit string that does not start
   * with 0, nothing after it.
   */
  predicate RationalAt(s: string, start: nat, k: int)
  {
    start < k < |s| - 1 && s[k] == '/' && AllDigits(s[start..k]) && AllDigits(s[k + 1..]) &&
    s[k + 1] != '0' && (s[start] == '0' ==> start == 0 && k == 1)
  }

  /** Where the numerator starts: after a leading minus sign, if any. */
  function NumeratorStart(s: string): nat
  {
    if |s| > 0 && s[0] == '-' then 1 else 0
  }

  predicate RationalShape(s: string)
  {
    exists k :: NumeratorStart(s) < k < |s| - 1 && RationalAt(s, NumeratorStart(s), k)
  }

  /**
   * The special property of a token name, `None` when the source's reading
   * runs past the terminator: a name that opens a string literal without
   * closing it, and is neither colon-ended nor iterated, has its search for
   * a colon start beyond the NUL.
   */
  function SpecialProperty(s: string, numeric: string -> Option<Property>): Option<Property>
  {
    if s == [] then Some(NoProperty)
    else if s[0] == '\'' then Some(QuotedIdentifier)
    else if s[0] == '"' && Close(s) == Some(|s| - 1) then Some(StringLiteral)
    else if |s| > 1 && s[|s| - 1] == ':' then Some(EndsInColon)
    else if IterShape(s) then Some(IterSymbol)
    else if s[0] == '"' && Close(s).None? then None
    else if ColonFrom(s, if s[0] == '"' then Close(s).value + 1 else 1) then Some(ContainsColon)
    else if numeric(s).Some? then numeric(s)
    else if RationalShape(s) then Some(Rational)
    else Some(NoProperty)
  }

  /** A name made by quoteNameCode is a quoted identifier, whatever follows the quote. */
  lemma QuotedNameIsQuotedIdentifier(id: string, numeric: string -> Option<Property>)
    ensures SpecialProperty(QuoteNameCode(id), numeric) == Some(QuotedIdentifier)
  {
  }

  /** The properties the numeric recogniser outside this model can give. */
  predicate NumericProperty(p: Property)
  {
    p == Float || p == Zero || p == SmallNeg || p == SmallNat
  }

  /**
   * The classification of iterated symbols agrees with
   * split(code, opName, number): a name that is neither quoted nor ends in
   * a colon is an iterated symbol exactly when it splits as `X^n`.
   */
  lemma IterSymbolIffSplits(s: string, numeric: string -> Option<Property>)
    requires |s| > 0 && s[0] != '\'' && s[0] != '"' && s[|s| - 1] != ':'
    requires numeric(s).Some? ==> NumericProperty(numeric(s).value)
    ensures SpecialProperty(s, numeric) == Some(IterSymbol) <==> IterShape(s)
  {
  }

  /** The position of the closing quote found from a later point of the same scan. */
  lemma CloseStep(s: string, i: nat, escaped: bool)
    requires i < |s|
    ensures s[i] == '\\' ==> CloseFrom(s, i, escaped) == CloseFrom(s, i + 1, !escaped)
    ensures s[i] != '\\' && !(s[i] == '"' && !escaped) ==> CloseFrom(s, i, escaped) == CloseFrom(s, i + 1, false)
  {
  }

  /**
   * The scan for the end of a string literal: the position the source's
   * pointer stops at, `|s|` standing for the terminator.
   */
  method ScanStringEnd(s: string) returns (p: nat)
    requires |s| > 0 && s[0] == '"'
    ensures p <= |s|
    ensures Close(s).Some? ==> p == Close(s).value
    ensures Close(s).None? ==> p == |s|
  {
    var seenBackslash := false;
    p := 1;
    while p < |s|
      invariant 1 <= p <= |s|
      invariant CloseFrom(s, p, seenBackslash) == Close(s)
      decreases |s| - p
    {
      var c := s[p];
      if c == '\\' {
        seenBackslash := !seenBackslash;
      } else {
        if c == '"' && !seenBackslash {
          return;
        }
        seenBackslash := false;
      }
      p := p + 1;
    }
  }

  /**
   * computeSpecialProperty: the tests in the source's order (empty name,
   * leading quote, string literal, ending colon, iterated symbol, inner
   * colon, numeric, rational), the search for an inner colon starting after
   * the first character or, for a name opening a string literal, after its
   * closing quote.
   */
  method ComputeSpecialProperty(tokenString: string, numeric: string -> Option<Property>) returns (r: Option<Property>)
    ensures r == SpecialProperty(tokenString, numeric)
    ensures r.None? <==> tokenString != [] && tokenString[0] == '"' && Close(tokenString).None? &&
                         !(|tokenString| > 1 && tokenString[|tokenString| - 1] == ':') && !IterShape(tokenString)
  {
    var s := tokenString;
    if |s| == 0 {
      return Some(NoProperty);
    }
    if s[0] == '\'' {
      return Some(QuotedIdentifier);
    }
    var p := 0;
    if s[0] == '"' {
      p := ScanStringEnd(s);
      if p < |s| && p == |s| - 1 {
        return Some(StringLiteral);
      }
    }
    var len := |s|;
    if len > 1 && s[len - 1] == ':' {
      return Some(EndsInColon);
    }
    var iter, _ := IterScan(s);
    if iter {
      return Some(IterSymbol);
    }
    if p == |s| {
      return None;
    }
    p := p + 1;
    while p < |s|
      invariant 1 <= p <= |s|
      invariant forall k :: (if s[0] == '"' then Close(s).value + 1 else 1) <= k < p ==> s[k] != ':'
      decreases |s| - p
    {
      if s[p] == ':' {
        return Some(ContainsColon);
      }
      p := p + 1;
    }
    if numeric(s).Some? {
      return numeric(s);
    }
    var rational := LooksLikeRational(s);
    if rational {
      return Some(Rational);
    }
    return Some(NoProperty);
  }

  /**
   * looksLikeRational, walking the name as a C string (the NUL shows past
   * its end).
   */
  method LooksLikeRational(s: string) returns (r: bool)
    ensures r <==> RationalShape(s)
  {
    var start := 0;
    var neg := false;
    if CharAt(s, 0) == '-' {
      start := 1;
      neg := true;
    }
    var c := CharAt(s, start);
    if !IsDigit(c) {
      NotRationalAt(s, start, start);
      return false;
    }
    var i := start + 1;
    if c == '0' && (neg || CharAt(s, i) != '/') {
      assert forall k :: start < k < |s| - 1 ==> !RationalAt(s, start, k);
      return false;
    }
    while CharAt(s, i) != '/'
      invariant start < i <= |s|
      invariant AllDigits(s[start..i])
      invariant c == '0' ==> start == 0 && i == 1
      decreases |s| - i
    {
      if !IsDigit(CharAt(s, i)) {
        NotRationalAt(s, start, i);
        return false;
      }
      assert s[start..i + 1] == s[start..i] + [s[i]];
      i := i + 1;
    }
    assert c == '0' ==> start == 0 && i == 1;
    r := ReadDenominator(s, start, i);
  }

  /** looksLikeRational after the first `/`, at `k`: the denominator must be digits not opening with `0`. */
  method ReadDenominator(s: string, start: nat, k: nat) returns (r: bool)
    requires start == NumeratorStart(s) && start < k < |s| && s[k] == '/' && AllDigits(s[start..k])
    requires s[start] == '0' ==> start == 0 && k == 1
    ensures r <==> RationalShape(s)
  {
    var i := k + 1;
    if !IsDigit(CharAt(s, i)) || CharAt(s, i) == '0' {
      OnlySlash(s, start, k);
      return false;
    }
    i := i + 1;
    while CharAt(s, i) != '\0'
      invariant k + 2 <= i <= |s|
      invariant AllDigits(s[k + 1..i])
      decreases |s| - i
    {
      if !IsDigit(CharAt(s, i)) {
        OnlySlash(s, start, k);
        return false;
      }
      assert s[k + 1..i + 1] == s[k + 1..i] + [s[i]];
      i := i + 1;
    }
    if i < |s| {
      OnlySlash(s, start, k);
      return false;
    }
    assert i == |s|;
    assert s[k + 1..] == s[k + 1..i];
    assert s[start..k][0] == s[start];
    assert RationalAt(s, NumeratorStart(s), k);
    return true;
  }

  /** A name whose characters from `start` are digits up to `i`, where a non-digit other than `/` sits, is no rational. */
  lemma NotRationalAt(s: string, start: nat, i: nat)
    requires start <= i <= |s| && AllDigits(s[start..i])
    requires (CharAt(s, i) != '/' || i == start) && !IsDigit(CharAt(s, i))
    requires start == NumeratorStart(s)
    ensures !RationalShape(s)
  {
    assert forall k :: start < k < |s| - 1 ==> !RationalAt(s, start, k);
  }

  /**
   * Once `k` is the first `/` after a digit run from `start`, it is the
   * only place a rational can be cut: the name is one exactly when it is
   * one at `k`.
   */
  lemma OnlySlash(s: string, start: nat, k: nat)
    requires start < k < |s| && s[k] == '/' && AllDigits(s[start..k])
    requires start == NumeratorStart(s)
    requires !RationalAt(s, start, k)
    ensures !RationalShape(s)
  {
    assert forall j :: start < j < |s| - 1 ==> !RationalAt(s, start, j);
  }

  /**
   * The property tables: for each name entered into the string table, its
   * special property and its auxiliary property, kept in step.
   */
  class PropertyTables {
    var specialProperties: seq<Property>
    var auxProperties: seq<int>

    predicate Valid()
      reads this
    {
      |specialProperties| == |auxProperties|
    }

    constructor ()
      ensures Valid() && specialProperties == [] && auxProperties == []
    {
      specialProperties := [];
      auxProperties := [];
    }

    /**
     * checkForSpecialProperty: the new name's special property and its
     * auxiliary property (computed by code outside this model, passed in as
     * `auxProperty`) are appended, so the two tables stay in step with the
     * string table.
     */
    method CheckForSpecialProperty(tokenString: string, numeric: string -> Option<Property>,
                                   auxProperty: string -> int)
      requires Valid() && SpecialProperty(tokenString, numeric).Some?
      modifies this
      ensures Valid()
      ensures specialProperties == old(specialProperties) + [SpecialProperty(tokenString, numeric).value]
      ensures auxProperties == old(auxProperties) + [auxProperty(tokenString)]
    {
      var p := ComputeSpecialProperty(tokenString, numeric);
      specialProperties := specialProperties + [p.value];
      auxProperties := auxProperties + [auxProperty(tokenString)];
    }
  }
}
