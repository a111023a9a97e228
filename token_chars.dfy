/**
 * Shared vocabulary of the token routines (src/Mixfix/token.cc).
 *
 * A token code names an entry of the string table; since the table is
 * injective, the model identifies a code with the string it names, so
 * `encode` is the identity and two codes are equal exactly when their
 * names are. A C string is modelled by its characters before the
 * terminating NUL. Character classes are those of the "C" locale; a `char`
 * of the source holds one byte, so ropes and names are sequences of
 * characters below 256.
 */
module TokenChars {

  datatype Option<T> = None | Some(value: T)

  /** A token: its name (standing for its code) and the line it came from. */
  datatype Token = Token(name: string, lineNr: int)

  /**
   * The special properties a token name can have. `NoProperty` is the
   * source's `NONE`; the numeric ones are decided by code outside this model
   * except for `Rational`.
   */
  datatype Property =
    | NoProperty
    | QuotedIdentifier
    | StringLiteral
    | EndsInColon
    | IterSymbol
    | ContainsColon
    | Float
    | Zero
    | SmallNeg
    | SmallNat
    | Rational

  /** Characters a C `char` can hold (its byte value). */
  predicate IsByte(c: char)
  {
    c as int < 256
  }

  predicate Bytes(s: string)
  {
    forall k :: 0 <= k < |s| ==> IsByte(s[k])
  }

  predicate NoNul(s: string)
  {
    forall k :: 0 <= k < |s| ==> s[k] != '\0'
  }

  /** `isdigit` */
  predicate IsDigit(c: char)
  {
    '0' <= c <= '9'
  }

  /** An octal digit: a digit other than 8 and 9. */
  predicate IsOctal(c: char)
  {
    '0' <= c <= '7'
  }

  /** `isprint` in the "C" locale: space through tilde. */
  predicate IsPrint(c: char)
  {
    ' ' <= c <= '~'
  }

  /** `isspace` in the "C" locale. */
  predicate IsSpace(c: char)
  {
    c == ' ' || '\t' <= c <= '\r'
  }

  predicate AllDigits(s: string)
  {
    forall k :: 0 <= k < |s| ==> IsDigit(s[k])
  }

  /** The characters of `s` in order, the NUL a C string shows past its end included. */
  function CharAt(s: string, i: nat): (c: char)
    ensures i < |s| ==> c == s[i]
  {
    if i < |s| then s[i] else '\0'
  }

  /** The names of a sequence of tokens. */
  function Names(tokens: seq<Token>): (r: seq<string>)
    ensures |r| == |tokens| && forall k :: 0 <= k < |r| ==> r[k] == tokens[k].name
  {
    if tokens == [] then [] else Names(tokens[..|tokens| - 1]) + [tokens[|tokens| - 1].name]
  }

  /** How many times `c` occurs in `s`. */
  function Occurrences(s: string, c: char): (n: nat)
    ensures n <= |s|
  {
    if s == [] then 0 else Occurrences(s[..|s| - 1], c) + (if s[|s| - 1] == c then 1 else 0)
  }

  /** `s` with every occurrence of `c` removed. */
  function Without(s: string, c: char): (r: string)
    ensures |r| + Occurrences(s, c) == |s|
  {
    if s == [] then [] else Without(s[..|s| - 1], c) + (if s[|s| - 1] == c then [] else [s[|s| - 1]])
  }

  lemma AppendAssoc(a: string, b: string, c: string)
    ensures (a + b) + c == a + (b + c)
  {
  }

  lemma WithoutAppend(s: string, t: string, c: char)
    ensures Without(s + t, c) == Without(s, c) + Without(t, c)
    decreases |t|
  {
    if t == [] {
      assert s + t == s;
    } else {
      assert (s + t)[..|s + t| - 1] == s + t[..|t| - 1];
      WithoutAppend(s, t[..|t| - 1], c);
    }
  }

  lemma WithoutSnoc(s: string, x: char, c: char)
    ensures Without(s + [x], c) == Without(s, c) + (if x == c then [] else [x])
    ensures Occurrences(s + [x], c) == Occurrences(s, c) + (if x == c then 1 else 0)
  {
    assert (s + [x])[..|s|] == s;
  }

  lemma WithoutAbsent(s: string, c: char)
    requires forall k :: 0 <= k < |s| ==> s[k] != c
    ensures Without(s, c) == s && Occurrences(s, c) == 0
  {
    if s != [] {
      var t := s[..|s| - 1];
      assert forall k :: 0 <= k < |t| ==> t[k] == s[k];
      WithoutAbsent(t, c);
      assert s == t + [s[|s| - 1]];
      WithoutSnoc(t, s[|s| - 1], c);
    }
  }
}
