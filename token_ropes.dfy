/**
 * String literals and ropes (src/Mixfix/token.cc): a rope is the byte
 * sequence a string literal denotes. `ropeToString` writes a rope as a
 * quoted literal with the escapes of C (section 6.4.4.4 of ISO/IEC
 * 9899:1999: simple escapes and octal escapes of at most three digits);
 * `stringToRope` reads such a literal back. Also here:
 * `removeBoundParameterBrackets`, which yields a rope.
 */
module TokenRopes {
  import opened TokenChars
  import opened TokenProperties

  const BEL: char := 7 as char
  const BS: char := 8 as char
  const HT: char := 9 as char
  const LF: char := 10 as char
  const VT: char := 11 as char
  const FF: char := 12 as char
  const CR: char := 13 as char

  /** The letter of a simple escape for a control character, if it has one. */
  function SimpleEscape(c: char): Option<char>
  {
    if c == BEL then Some('a')
    else if c == BS then Some('b')
    else if c == FF then Some('f')
    else if c == LF then Some('n')
    else if c == CR then Some('r')
    else if c == HT then Some('t')
    else if c == VT then Some('v')
    else None
  }

  /** The control character a simple-escape letter stands for, if it is one. */
  function EscapedControl(e: char): Option<char>
  {
    if e == 'a' then Some(BEL)
    else if e == 'b' then Some(BS)
    else if e == 'f' then Some(FF)
    else if e == 'n' then Some(LF)
    else if e == 'r' then Some(CR)
    else if e == 't' then Some(HT)
    else if e == 'v' then Some(VT)
    else None
  }

  function OctalDigit(d: nat): char
    requires d < 8
  {
    ('0' as int + d) as char
  }

  /** How one byte of a rope is written inside a literal. */
  function Escape(c: char): (r: string)
    requires IsByte(c)
    ensures 1 <= |r| <= 4
  {
    if IsPrint(c) then
      (if c == '\\' || c == '"' then ['\\', c] else [c])
    else if SimpleEscape(c).Some? then ['\\', SimpleEscape(c).value]
    else
      var t := c as int;
      ['\\', OctalDigit(t / 64), OctalDigit((t / 8) % 8), OctalDigit(t % 8)]
  }

  /** The bytes of a rope, each escaped. */
  function EscapedAll(r: string): string
    requires Bytes(r)
  {
    if r == [] then [] else Escape(r[0]) + EscapedAll(r[1..])
  }

  /** The literal ropeToString makes of a rope. */
  function Quoted(r: string): string
    requires Bytes(r)
  {
    "\"" + EscapedAll(r) + "\""
  }

  lemma {:induction false} EscapedAllSnoc(r: string, c: char)
    requires Bytes(r) && IsByte(c)
    ensures Bytes(r + [c])
    ensures EscapedAll(r + [c]) == EscapedAll(r) + Escape(c)
  {
    if r == [] {
      assert [c][1..] == [];
    } else {
      var rest := r[1..];
      assert (r + [c])[1..] == rest + [c];
      EscapedAllSnoc(rest, c);
      calc {
        EscapedAll(r + [c]);
        Escape(r[0]) + EscapedAll(rest + [c]);
        Escape(r[0]) + (EscapedAll(rest) + Escape(c));
        (Escape(r[0]) + EscapedAll(rest)) + Escape(c);
      }
    }
  }

  /**
   * ropeToString: an opening quote, each byte as it is if printable (with a
   * backslash before `\` and `"`), as a simple escape if it is one of the
   * seven control characters that have one, and otherwise as a backslash and
   * three octal digits of its unsigned value; then a closing quote.
   */
  method RopeToString(r: string) returns (result: string)
    requires Bytes(r)
    ensures result == Quoted(r)
  {
    result := "\"";
    var i := 0;
    while i < |r|
      invariant 0 <= i <= |r|
      invariant Bytes(r[..i]) && result == "\"" + EscapedAll(r[..i])
    {
      var c := r[i];
      var piece := EscapeByte(c);
      result := result + piece;
      EscapedAllSnoc(r[..i], c);
      assert r[..i + 1] == r[..i] + [c];
      i := i + 1;
    }
    assert r[..i] == r;
    result := result + "\"";
  }

  /** How ropeToString writes one byte, as a method with the source's tests in its order. */
  method EscapeByte(c: char) returns (piece: string)
    requires IsByte(c)
    ensures piece == Escape(c)
  {
    if IsPrint(c) {
      piece := if c == '\\' || c == '"' then ['\\', c] else [c];
    } else if c == BEL {
      piece := "\\a";
    } else if c == BS {
      piece := "\\b";
    } else if c == FF {
      piece := "\\f";
    } else if c == LF {
      piece := "\\n";
    } else if c == CR {
      piece := "\\r";
    } else if c == HT {
      piece := "\\t";
    } else if c == VT {
      piece := "\\v";
    } else {
      var t := c as int;
      piece := ['\\', OctalDigit(t / 64), OctalDigit((t / 8) % 8), OctalDigit(t % 8)];
    }
  }

  // ---------------------------------------------------------------------
  // Reading a literal back
  // ---------------------------------------------------------------------

  function Prepend(c: char, rest: Option<string>): Option<string>
  {
    if rest.None? then None else Some([c] + rest.value)
  }

  /** How many octal digits (at most three) an octal escape starting at `s[0]` takes. */
  function OctalRun(s: string): (n: nat)
    requires |s| > 0 && IsOctal(s[0])
    ensures 1 <= n <= 3 && n <= |s|
  {
    if |s| > 1 && IsOctal(s[1]) then (if |s| > 2 && IsOctal(s[2]) then 3 else 2) else 1
  }

  /** The value of the first `n` octal digits of `s`. */
  function OctalValue(s: string, n: nat): int
    requires n <= |s| && forall k :: 0 <= k < n ==> IsOctal(s[k])
  {
    if n == 0 then 0 else 8 * OctalValue(s, n - 1) + (s[n - 1] as int - '0' as int)
  }

  /**
   * What the characters after the opening quote of a literal stand for, up
   * to the first unescaped `"`: `None` when the text ends first (the
   * source's "bad end to string"). An octal escape whose value exceeds a
   * byte keeps its low eight bits, as converting it to `char` does.
   */
  function Unescape(s: string): Option<string>
    decreases |s|
  {
    if s == [] then None
    else if s[0] == '"' then Some([])
    else if s[0] != '\\' then Prepend(s[0], Unescape(s[1..]))
    else if |s| == 1 then None
    else Prepend(EscapeUnit(s[1..]).0, Unescape(s[1 + EscapeUnit(s[1..]).1..]))
  }

  /**
   * The byte an escape stands for, given the text after its backslash, and
   * how many characters of that text it takes: a simple-escape letter, an
   * octal escape, or any other character standing for itself.
   */
  function EscapeUnit(t: string): (r: (char, nat))
    requires |t| > 0
    ensures 1 <= r.1 <= |t|
  {
    if EscapedControl(t[0]).Some? then (EscapedControl(t[0]).value, 1)
    else if IsOctal(t[0]) then ((OctalValue(t, OctalRun(t)) % 256) as char, OctalRun(t))
    else (t[0], 1)
  }

  /** Unescape read from position `q` of a literal, one unit at a time. */
  lemma UnescapeAt(s: string, q: nat)
    requires q < |s|
    ensures s[q] == '"' ==> Unescape(s[q..]) == Some([])
    ensures s[q] != '"' && s[q] != '\\' ==> Unescape(s[q..]) == Prepend(s[q], Unescape(s[q + 1..]))
    ensures s[q] == '\\' && q + 1 == |s| ==> Unescape(s[q..]) == None
    ensures s[q] == '\\' && q + 1 < |s| ==>
              Unescape(s[q..]) == Prepend(EscapeUnit(s[q + 1..]).0, Unescape(s[q + 1 + EscapeUnit(s[q + 1..]).1..]))
  {
    assert s[q..][1..] == s[q + 1..];
    if s[q] == '\\' && q + 1 < |s| {
      assert s[q..][1 + EscapeUnit(s[q + 1..]).1..] == s[q + 1 + EscapeUnit(s[q + 1..]).1..];
    }
  }

  function Append(prefix: string, rest: Option<string>): Option<string>
  {
    if rest.None? then None else Some(prefix + rest.value)
  }

  lemma AppendNothing(rest: Option<string>)
    ensures Append([], rest) == rest
  {
    if rest.Some? {
      assert [] + rest.value == rest.value;
    }
  }

  lemma AppendPrepend(prefix: string, c: char, rest: Option<string>)
    ensures Append(prefix + [c], rest) == Append(prefix, Prepend(c, rest))
  {
    if rest.Some? {
      assert prefix + [c] + rest.value == prefix + ([c] + rest.value);
    }
  }

  /** An ordinary character of a literal read into the rope. */
  lemma PlainStep(s: string, p: nat, rope: string, target: Option<string>)
    requires p < |s| && s[p] != '"' && s[p] != '\\'
    requires Append(rope, Unescape(s[p..])) == target
    ensures Append(rope + [s[p]], Unescape(s[p + 1..])) == target
  {
    UnescapeAt(s, p);
    AppendPrepend(rope, s[p], Unescape(s[p + 1..]));
  }

  /** An escape of a literal, its backslash just before `p`, read into the rope. */
  lemma EscapeStep(s: string, p: nat, rope: string, target: Option<string>)
    requires 1 <= p < |s| && s[p - 1] == '\\'
    requires Append(rope, Unescape(s[p - 1..])) == target
    ensures Append(rope + [EscapeUnit(s[p..]).0], Unescape(s[p + EscapeUnit(s[p..]).1..])) == target
  {
    UnescapeAt(s, p - 1);
    AppendPrepend(rope, EscapeUnit(s[p..]).0, Unescape(s[p + EscapeUnit(s[p..]).1..]));
  }

  /**
   * stringToRope: the rope a literal (which must open with `"`) stands for;
   * `None` where the source reports a bad end to the string.
   */
  method StringToRope(s: string) returns (result: Option<string>)
    requires |s| > 0 && s[0] == '"'
    ensures result == Unescape(s[1..])
  {
    var rope := [];
    var seenBackslash := false;
    var p := 1;
    ghost var target := Unescape(s[1..]);
    AppendNothing(target);
    while p < |s|
      invariant 1 <= p <= |s|
      invariant seenBackslash ==> 2 <= p && s[p - 1] == '\\'
      invariant Append(rope, Unescape(s[if seenBackslash then p - 1 else p..])) == target
      decreases |s| - p
    {
      var c := s[p];
      if !seenBackslash {
        if c == '\\' {
          seenBackslash := true;
          p := p + 1;
          continue;
        }
        if c == '"' {
          Finish(s, p, rope, target);
          return Some(rope);
        }
        PlainStep(s, p, rope, target);
      } else {
        EscapeStep(s, p, rope, target);
        var last;
        c, last := ReadEscape(s, p);
        p := last;
      }
      rope := rope + [c];
      seenBackslash := false;
      p := p + 1;
    }
    if seenBackslash {
      UnescapeAt(s, p - 1);
    }
    return None;
  }

  /** The closing quote of a literal ends the rope. */
  lemma Finish(s: string, p: nat, rope: string, target: Option<string>)
    requires p < |s| && s[p] == '"'
    requires Append(rope, Unescape(s[p..])) == target
    ensures target == Some(rope)
  {
    UnescapeAt(s, p);
    assert rope + [] == rope;
  }

  /**
   * The escape whose backslash precedes position `p`: the byte it stands
   * for and the position of its last character. Up to three octal digits
   * are read; their value is cut to a byte.
   */
  method ReadEscape(s: string, p: nat) returns (c: char, last: nat)
    requires p < |s|
    ensures c == EscapeUnit(s[p..]).0 && last == p + EscapeUnit(s[p..]).1 - 1
  {
    c := s[p];
    last := p;
    if EscapedControl(c).Some? {
      c := EscapedControl(c).value;
    } else if IsOctal(c) {
      var i := c as int - '0' as int;
      assert i == OctalValue(s[p..], 1);
      if last + 1 < |s| && IsOctal(s[last + 1]) {
        last := last + 1;
        i := 8 * i + (s[last] as int - '0' as int);
        assert i == OctalValue(s[p..], 2);
        if last + 1 < |s| && IsOctal(s[last + 1]) {
          last := last + 1;
          i := 8 * i + (s[last] as int - '0' as int);
          assert i == OctalValue(s[p..], 3);
        }
      }
      c := (i % 256) as char;
    }
  }

  /** Reading back one escaped byte: the byte, then whatever follows. */
  lemma UnescapeEscape(c: char, t: string)
    requires IsByte(c)
    ensures Unescape(Escape(c) + t) == Prepend(c, Unescape(t))
  {
    var e := Escape(c);
    if IsPrint(c) {
      if c == '\\' || c == '"' {
        assert (e + t)[2..] == t;
      } else {
        assert (e + t)[1..] == t;
      }
    } else if SimpleEscape(c).Some? {
      assert (e + t)[2..] == t;
    } else {
      UnescapeOctal(c, t);
    }
  }

  /** Reading back a byte written as a three-digit octal escape. */
  lemma UnescapeOctal(c: char, t: string)
    requires IsByte(c) && !IsPrint(c) && SimpleEscape(c).None?
    ensures Unescape(Escape(c) + t) == Prepend(c, Unescape(t))
  {
    var e := Escape(c);
    var s := (e + t)[1..];
    assert s[..3] == e[1..];
    assert OctalRun(s) == 3;
    OctalDigits(s, c as int);
    assert EscapeUnit(s) == (c, 3);
    assert (e + t)[4..] == t;
  }

  /** Three octal digits of a byte read back as the byte. */
  lemma OctalDigits(s: string, v: nat)
    requires v < 256 && |s| >= 3
    requires s[0] == OctalDigit(v / 64) && s[1] == OctalDigit((v / 8) % 8) && s[2] == OctalDigit(v % 8)
    ensures forall k :: 0 <= k < 3 ==> IsOctal(s[k])
    ensures OctalValue(s, 3) == v
  {
    var q := v / 8;
    assert v == 8 * q + v % 8;
    assert q == 8 * (q / 8) + q % 8;
    assert q / 8 == v / 64;
    assert OctalValue(s, 1) == v / 64;
    assert OctalValue(s, 2) == q;
  }

  /**
   * Round trip: reading back the literal ropeToString writes gives the rope
   * again, whatever bytes it holds.
   */
  lemma {:induction false} RoundTrip(r: string)
    requires Bytes(r)
    ensures Unescape(Quoted(r)[1..]) == Some(r)
  {
    assert Quoted(r)[1..] == EscapedAll(r) + "\"";
    EscapedRoundTrip(r, "\"");
    assert Unescape("\"") == Some([]);
    assert r + [] == r;
  }

  /** Reading back escaped bytes gives the bytes, then whatever the text after them reads as. */
  lemma {:induction false} EscapedRoundTrip(r: string, t: string)
    requires Bytes(r)
    ensures Unescape(EscapedAll(r) + t) == Append(r, Unescape(t))
  {
    if r == [] {
      assert EscapedAll(r) + t == t;
      AppendNothing(Unescape(t));
    } else {
      EscapedRoundTrip(r[1..], t);
      EscapedFirst(r[0], r[1..], t);
      assert [r[0]] + r[1..] == r;
    }
  }

  /** One escaped byte read back in front of the rest. */
  lemma EscapedFirst(c: char, rest: string, t: string)
    requires IsByte(c) && Bytes(rest)
    requires Unescape(EscapedAll(rest) + t) == Append(rest, Unescape(t))
    ensures Bytes([c] + rest)
    ensures Unescape(EscapedAll([c] + rest) + t) == Append([c] + rest, Unescape(t))
  {
    var r := [c] + rest;
    assert r[0] == c && r[1..] == rest;
    var tail := EscapedAll(rest) + t;
    assert EscapedAll(r) == Escape(c) + EscapedAll(rest);
    AppendAssoc(Escape(c), EscapedAll(rest), t);
    UnescapeEscape(c, tail);
    PrependAppend(c, rest, Unescape(t));
  }

  lemma PrependAppend(c: char, prefix: string, rest: Option<string>)
    ensures Prepend(c, Append(prefix, rest)) == Append([c] + prefix, rest)
  {
    if rest.Some? {
      assert [c] + (prefix + rest.value) == [c] + prefix + rest.value;
    }
  }

  /** Every character of a literal ropeToString writes is printable. */
  lemma {:induction false} QuotedPrintable(r: string)
    requires Bytes(r)
    ensures forall k :: 0 <= k < |Quoted(r)| ==> IsPrint(Quoted(r)[k])
  {
    EscapedPrintable(r);
  }

  lemma {:induction false} EscapedPrintable(r: string)
    requires Bytes(r)
    ensures forall k :: 0 <= k < |EscapedAll(r)| ==> IsPrint(EscapedAll(r)[k])
  {
    if r != [] {
      EscapedPrintable(r[1..]);
      var e := Escape(r[0]);
      assert forall k :: 0 <= k < |e| ==> IsPrint(e[k]);
    }
  }

  /** `s` spells `t` from position `i` on. */
  predicate SpellsAt(s: string, i: nat, t: string)
  {
    i + |t| <= |s| && forall k :: 0 <= k < |t| ==> s[i + k] == t[k]
  }

  lemma SpellsAtSplit(s: string, i: nat, a: string, b: string)
    requires SpellsAt(s, i, a + b)
    ensures SpellsAt(s, i, a) && SpellsAt(s, i + |a|, b)
  {
    forall k | 0 <= k < |a|
      ensures s[i + k] == a[k]
    {
      assert (a + b)[k] == a[k];
    }
    forall k | 0 <= k < |b|
      ensures s[i + |a| + k] == b[k]
    {
      assert (a + b)[|a| + k] == b[k];
    }
  }

  /** The scan for a closing quote passes over an escaped byte without stopping. */
  lemma CloseSkipsEscape(s: string, i: nat, c: char)
    requires IsByte(c) && SpellsAt(s, i, Escape(c))
    ensures CloseFrom(s, i, false) == CloseFrom(s, i + |Escape(c)|, false)
  {
    var e := Escape(c);
    assert s[i] == e[0];
    if |e| >= 2 {
      assert s[i] == '\\' && s[i + 1] == e[1];
      assert CloseFrom(s, i + 1, true) == CloseFrom(s, i + 2, false);
      if |e| == 4 {
        assert s[i + 2] == e[2] && s[i + 3] == e[3];
        assert CloseFrom(s, i + 2, false) == CloseFrom(s, i + 3, false);
        assert CloseFrom(s, i + 3, false) == CloseFrom(s, i + 4, false);
      }
    }
  }

  /** The first escaped byte of a run passed over, the rest still spelled after it. */
  lemma CloseSkipsFirst(s: string, i: nat, r: string)
    requires Bytes(r) && r != [] && SpellsAt(s, i, EscapedAll(r))
    ensures |EscapedAll(r)| == |Escape(r[0])| + |EscapedAll(r[1..])|
    ensures SpellsAt(s, i + |Escape(r[0])|, EscapedAll(r[1..]))
    ensures CloseFrom(s, i, false) == CloseFrom(s, i + |Escape(r[0])|, false)
  {
    var e := Escape(r[0]);
    var rest := EscapedAll(r[1..]);
    assert EscapedAll(r) == e + rest;
    SpellsAtSplit(s, i, e, rest);
    CloseSkipsEscape(s, i, r[0]);
  }

  /** The scan for a closing quote passes over a run of escaped bytes. */
  lemma {:induction false} CloseSkipsEscapedAll(s: string, i: nat, r: string)
    requires Bytes(r) && SpellsAt(s, i, EscapedAll(r))
    ensures CloseFrom(s, i, false) == CloseFrom(s, i + |EscapedAll(r)|, false)
    decreases |r|
  {
    if r == [] {
      assert EscapedAll(r) == [];
    } else {
      CloseSkipsFirst(s, i, r);
      CloseSkipsEscapedAll(s, i + |Escape(r[0])|, r[1..]);
    }
  }

  /**
   * A literal ropeToString writes is classified as a string literal: its
   * only unescaped quote after the opening one is the last character.
   */
  lemma QuotedIsStringLiteral(r: string, numeric: string -> Option<Property>)
    requires Bytes(r)
    ensures SpecialProperty(Quoted(r), numeric) == Some(StringLiteral)
  {
    QuotedCloses(r);
  }

  /** The scan for the closing quote of a literal ropeToString writes stops at its last character. */
  lemma QuotedCloses(r: string)
    requires Bytes(r)
    ensures |Quoted(r)| >= 2 && Quoted(r)[0] == '"'
    ensures Close(Quoted(r)) == Some(|Quoted(r)| - 1)
  {
    var s := Quoted(r);
    assert SpellsAt(s, 1, EscapedAll(r));
    CloseSkipsEscapedAll(s, 1, r);
    assert CloseFrom(s, |s| - 1, false) == Some(|s| - 1);
  }

  // ---------------------------------------------------------------------
  // removeBoundParameterBrackets
  // ---------------------------------------------------------------------

  /**
   * The name with the brackets that sit inside braces removed, a backquote
   * protecting the character after it; `active` says a backquote is
   * pending and `braces` is the brace depth so far.
   */
  function Unbound(s: string, active: bool, braces: int): string
    decreases |s|
  {
    if s == [] then []
    else if active then [s[0]] + Unbound(s[1..], false, braces)
    else if s[0] == '`' then [s[0]] + Unbound(s[1..], true, braces)
    else if (s[0] == '[' || s[0] == ']') && braces > 0 then Unbound(s[1..], false, braces)
    else if s[0] == '{' then [s[0]] + Unbound(s[1..], false, braces + 1)
    else if s[0] == '}' then [s[0]] + Unbound(s[1..], false, braces - 1)
    else [s[0]] + Unbound(s[1..], false, braces)
  }

  /** removeBoundParameterBrackets */
  method RemoveBoundParameterBrackets(name: string) returns (newName: string)
    ensures newName == Unbound(name, false, 0)
  {
    newName := [];
    var backquoteActive := false;
    var braceCount := 0;
    var i := 0;
    while i < |name|
      invariant 0 <= i <= |name|
      invariant newName + Unbound(name[i..], backquoteActive, braceCount) == Unbound(name, false, 0)
    {
      var c := name[i];
      assert name[i..][1..] == name[i + 1..];
      if backquoteActive {
        backquoteActive := false;
      } else if c == '`' {
        backquoteActive := true;
      } else if c == '[' || c == ']' {
        if braceCount > 0 {
          i := i + 1;
          continue;
        }
      } else if c == '{' {
        braceCount := braceCount + 1;
      } else if c == '}' {
        braceCount := braceCount - 1;
      }
      newName := newName + [c];
      i := i + 1;
    }
  }

  /** The characters other than brackets, in order. */
  function NonBrackets(s: string): string
  {
    if s == [] then [] else (if s[0] == '[' || s[0] == ']' then [] else [s[0]]) + NonBrackets(s[1..])
  }

  /** Only brackets are ever removed: every other character is kept, in order. */
  lemma {:induction false} UnboundKeepsNonBrackets(s: string, active: bool, braces: int)
    ensures NonBrackets(Unbound(s, active, braces)) == NonBrackets(s)
    decreases |s|
  {
    if s != [] {
      var r := Unbound(s, active, braces);
      if active {
        UnboundKeepsNonBrackets(s[1..], false, braces);
        assert r[1..] == Unbound(s[1..], false, braces);
      } else if s[0] == '`' {
        UnboundKeepsNonBrackets(s[1..], true, braces);
        assert r[1..] == Unbound(s[1..], true, braces);
      } else if (s[0] == '[' || s[0] == ']') && braces > 0 {
        UnboundKeepsNonBrackets(s[1..], false, braces);
      } else if s[0] == '{' {
        UnboundKeepsNonBrackets(s[1..], false, braces + 1);
        assert r[1..] == Unbound(s[1..], false, braces + 1);
      } else if s[0] == '}' {
        UnboundKeepsNonBrackets(s[1..], false, braces - 1);
        assert r[1..] == Unbound(s[1..], false, braces - 1);
      } else {
        UnboundKeepsNonBrackets(s[1..], false, braces);
        assert r[1..] == Unbound(s[1..], false, braces);
      }
    }
  }

  /** A name without `{` keeps every bracket: it comes back unchanged. */
  lemma {:induction false} NoBracesUnchanged(s: string, active: bool, braces: int)
    requires braces <= 0
    requires forall k :: 0 <= k < |s| ==> s[k] != '{'
    ensures Unbound(s, active, braces) == s
    decreases |s|
  {
    if s != [] {
      var b := if !active && s[0] == '}' then braces - 1 else braces;
      NoBracesUnchanged(s[1..], !active && s[0] == '`', b);
      assert [s[0]] + s[1..] == s;
    }
  }

  /** Brackets inside braces go. */
  lemma UnboundExample()
    ensures Unbound("M{[X]}", false, 0) == "M{X}"
  {
    assert Unbound("}", false, 1) == "}";
    assert Unbound("]}", false, 1) == "}";
    assert Unbound("X]}", false, 1) == "X}";
    assert Unbound("[X]}", false, 1) == "X}";
    assert Unbound("{[X]}", false, 0) == "{X}";
  }

  /** A backquoted bracket inside braces stays. */
  lemma UnboundQuotedExample()
    ensures Unbound("M{`[X]}", false, 0) == "M{`[X}"
  {
    assert Unbound("}", false, 1) == "}";
    assert Unbound("]}", false, 1) == "}";
    assert Unbound("X]}", false, 1) == "X}";
    assert Unbound("[X]}", true, 1) == "[X}";
    assert Unbound("`[X]}", false, 1) == "`[X}";
    assert Unbound("{`[X]}", false, 0) == "{`[X}";
  }

  /** Brackets outside braces stay. */
  lemma UnboundOutsideExample()
    ensures Unbound("[X]{Y}", false, 0) == "[X]{Y}"
  {
    assert Unbound("}", false, 1) == "}";
    assert Unbound("Y}", false, 1) == "Y}";
    assert Unbound("{Y}", false, 0) == "{Y}";
    assert Unbound("]{Y}", false, 0) == "]{Y}";
    assert Unbound("X]{Y}", false, 0) == "X]{Y}";
  }
}
