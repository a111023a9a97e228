/**
 * The binding macros that built-in symbols use to attach their operators and
 * helper symbols (BuiltIn/bindingMacros.hh).
 *
 * Each macro compares a `purpose` string with a name and, when they agree,
 * performs a write-once update of a caller-owned variable and makes the
 * enclosing function return. When they disagree, control falls through to
 * the next macro. The caller-owned variable is passed in and its new value
 * handed back; `Verdict` says whether the macro returned and with what.
 */
module BindingMacros {

  /** The source's `NONE` sentinel: an operator code that is not yet bound. */
  const NONE: int := -1

  /** What a binding macro does to its enclosing function. */
  datatype Verdict = FallThrough | Return(value: bool)

  datatype Option<T> = None | Some(value: T)

  /** Reading a C string: the terminating NUL is seen past the last character. */
  function CharAt(s: string, i: nat): int
  {
    if i < |s| then s[i] as int else 0
  }

  /**
   * CODE(c1, c2): two characters packed into one int, the first in the low
   * byte. The shift by 8 is a multiplication by 256.
   */
  function Code(c1: int, c2: int): int
  {
    c1 + c2 * 256
  }

  /**
   * CODE can be undone: the low byte gives back the first character and the
   * rest the second, whenever the first character lies in some window of 256
   * consecutive values (0..255 for unsigned char, -128..127 for signed char).
   */
  lemma CodeDecodes(lo: int, c1: int, c2: int)
    requires lo <= c1 < lo + 256
    ensures (Code(c1, c2) - lo) % 256 == c1 - lo
    ensures (Code(c1, c2) - lo) / 256 == c2
  {
    var x := c1 - lo;
    assert Code(c1, c2) - lo == x + c2 * 256;
    assert 0 <= x < 256;
  }

  /** Hence CODE is injective on such characters. */
  lemma CodeInjective(lo: int, c1: int, c2: int, d1: int, d2: int)
    requires lo <= c1 < lo + 256 && lo <= d1 < lo + 256
    ensures Code(c1, c2) == Code(d1, d2) <==> c1 == d1 && c2 == d2
  {
    if Code(c1, c2) == Code(d1, d2) {
      CodeDecodes(lo, c1, c2);
      CodeDecodes(lo, d1, d2);
    }
  }

  /** The code BIND_OP derives from an operator name: its first two characters. */
  function OpNameCode(opName: string): int
    requires opName != ""
  {
    Code(opName[0] as int, CharAt(opName, 1))
  }

  /** The data BIND_OP can use: exactly one entry, and that entry non-empty. */
  predicate UsableOpData(data: seq<string>)
  {
    |data| == 1 && data[0] != ""
  }

  /**
   * BIND_OP(purpose, className, op, data): bind `op` to the code of the single
   * datum the first time, afterwards only check that the datum agrees.
   */
  method BindOp(purpose: string, className: string, op: int, data: seq<string>)
    returns (verdict: Verdict, op': int)
    ensures purpose != className ==> verdict == FallThrough && op' == op
    ensures purpose == className ==> verdict.Return?
    ensures purpose == className && !UsableOpData(data) ==> verdict == Return(false) && op' == op
    ensures purpose == className && UsableOpData(data) && op == NONE ==>
              verdict == Return(true) && op' == OpNameCode(data[0])
    ensures op != NONE ==> op' == op
    ensures op != NONE && purpose == className && UsableOpData(data) ==>
              verdict == Return(op == OpNameCode(data[0]))
  {
    op' := op;
    if purpose == className {
      if |data| == 1 {
        var opName := data[0];
        if opName != "" {
          var t := Code(opName[0] as int, CharAt(opName, 1));
          if op == NONE {
            op' := t;
            return Return(true), op';
          }
          if op == t {
            return Return(true), op';
          }
        }
      }
      return Return(false), op';
    }
    verdict := FallThrough;
  }

  /** NULL_DATA(purpose, className, data): succeed exactly when there is no data. */
  method NullData(purpose: string, className: string, data: seq<string>) returns (verdict: Verdict)
    ensures purpose != className ==> verdict == FallThrough
    ensures purpose == className ==> verdict.Return? && (verdict.value <==> data == [])
  {
    if purpose == className {
      return Return(|data| == 0);
    }
    verdict := FallThrough;
  }

  /**
   * BIND_SYMBOL(purpose, symbol, name, type): `name` is a pointer variable
   * whose own identifier is compared with `purpose` (`nameText` here). Once
   * bound it only accepts the same symbol; unbound, it takes `symbol` if the
   * dynamic cast to `type` (`isType`) succeeds. A null pointer is `None`.
   */
  method BindSymbol<S(==)>(purpose: string, symbol: Option<S>, nameText: string, name: Option<S>,
                           isType: S -> bool)
    returns (verdict: Verdict, name': Option<S>)
    ensures purpose != nameText ==> verdict == FallThrough && name' == name
    ensures purpose == nameText && name.Some? ==> name' == name && verdict == Return(name == symbol)
    ensures purpose == nameText && name.None? ==>
              verdict == Return(name'.Some?) &&
              (name'.Some? <==> symbol.Some? && isType(symbol.value)) &&
              (name'.Some? ==> name' == symbol)
  {
    name' := name;
    if purpose == nameText {
      if name.Some? {
        return Return(name == symbol), name';
      }
      name' := if symbol.Some? && isType(symbol.value) then symbol else None;
      return Return(name'.Some?), name';
    }
    verdict := FallThrough;
  }

  /**
   * COPY_SYMBOL(original, name, mapping, type): when `name` is still null,
   * copy the original's symbol of the same name, translated through the
   * module mapping when there is one.
   */
  method CopySymbol<S>(originalName: Option<S>, name: Option<S>, mapping: Option<S -> S>)
    returns (name': Option<S>)
    ensures name.Some? ==> name' == name
    ensures name.None? && originalName.None? ==> name' == None
    ensures name.None? && originalName.Some? && mapping.None? ==> name' == originalName
    ensures name.None? && originalName.Some? && mapping.Some? ==>
              name' == Some(mapping.value(originalName.value))
  {
    name' := name;
    if name.None? {
      if originalName.Some? {
        var s := originalName.value;
        name' := Some(if mapping.None? then s else mapping.value(s));
      }
    }
  }
}
