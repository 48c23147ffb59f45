/**
 * Example filters.
 *
 * A value condition looks at one variable of an example and answers 1
 * (accept), 0 (reject), -1 (cannot tell) or, for an unknown value, its own
 * `acceptSpecial` code. A values filter combines a list of such conditions
 * with AND or OR and a `negate` flag, and edits that list by variable
 * position. Filters over whole examples combine sub-filters (conjunction,
 * disjunction) or test one property of the example.
 *
 * An example is the sequence of its values in domain order, the class value
 * last. A value is special (unknown) or a concrete discrete value (an int),
 * continuous value (a real) or string.
 */
module Filters {
  import opened Wrappers

  datatype Value = Special | IntV(n: int) | FloatV(x: real) | StrV(s: string)

  type Example = seq<Value>

  /** TO_BOOL: 1 for true, 0 for false. */
  function ToInt(b: bool): (r: int)
    ensures (r == 1 <==> b) && (r == 0 <==> !b)
  {
    if b then 1 else 0
  }

  // ---------------------------------------------------------------------------
  // Value lists
  // ---------------------------------------------------------------------------

  /** The scan of a value list: 1 on the first entry equal to x, 0 if none is. */
  function Scan<T(==)>(values: seq<T>, x: T): (r: int)
    ensures r == 1 <==> x in values
    ensures r == 0 <==> x !in values
  {
    if values == [] then 0
    else if values[0] == x then 1
    else Scan(values[1..], x)
  }

  /** ValueFilter_discrete: acceptSpecial for an unknown value, else whether the value is listed. */
  function DiscreteVerdict(values: seq<int>, acceptSpecial: int, val: Value): (r: int)
    requires val.Special? || val.IntV?
    ensures val.Special? ==> r == acceptSpecial
    ensures val.IntV? ==> (r == 1 <==> val.n in values) && (r == 0 <==> val.n !in values)
  {
    if val.Special? then acceptSpecial else Scan(values, val.n)
  }

  /** ValueFilter_stringList: acceptSpecial for an unknown value, else whether the string is listed. */
  function StringListVerdict(strings: seq<string>, acceptSpecial: int, val: Value): (r: int)
    requires val.Special? || val.StrV?
    ensures val.Special? ==> r == acceptSpecial
    ensures val.StrV? ==> (r == 1 <==> val.s in strings) && (r == 0 <==> val.s !in strings)
  {
    if val.Special? then acceptSpecial else Scan(strings, val.s)
  }

  // ---------------------------------------------------------------------------
  // Strings
  // ---------------------------------------------------------------------------

  /** a < b for std::string: lexicographic by character, a proper prefix first; irreflexive. */
  predicate LexLess(a: string, b: string): (r: bool)
    ensures r ==> a != b
  {
    if a == [] then b != []
    else if b == [] then false
    else if a[0] != b[0] then a[0] < b[0]
    else LexLess(a[1..], b[1..])
  }

  lemma {:induction false} LexLessTransitive(a: string, b: string, c: string)
    requires LexLess(a, b) && LexLess(b, c)
    ensures LexLess(a, c)
  {
    if a != [] && a[0] == b[0] && b[0] == c[0] {
      LexLessTransitive(a[1..], b[1..], c[1..]);
    }
  }

  lemma {:induction false} LexLessTotal(a: string, b: string)
    ensures LexLess(a, b) || a == b || LexLess(b, a)
  {
    if a != [] && b != [] && a[0] == b[0] {
      LexLessTotal(a[1..], b[1..]);
      if a[1..] == b[1..] {
        assert a == [a[0]] + a[1..] && b == [b[0]] + b[1..];
      }
    }
  }

  /**
   * The textbook definition of a < b: a is a proper prefix of b, or at the
   * first position where they differ a has the smaller character.
   */
  predicate LexBefore(a: string, b: string) {
    (|a| < |b| && a == b[..|a|]) ||
    exists k :: 0 <= k < |a| && k < |b| && a[..k] == b[..k] && a[k] < b[k]
  }

  lemma {:induction false} LexLessSound(a: string, b: string)
    requires LexLess(a, b)
    ensures LexBefore(a, b)
  {
    if a == [] {
      assert a == b[..0];
    } else if a[0] != b[0] {
      assert a[..0] == b[..0];
    } else {
      LexLessSound(a[1..], b[1..]);
      if |a| - 1 < |b| - 1 && a[1..] == b[1..][..|a| - 1] {
        assert a == [a[0]] + a[1..];
        assert b[..|a|] == [b[0]] + b[1..][..|a| - 1];
      } else {
        var k :| 0 <= k < |a| - 1 && k < |b| - 1 && a[1..][..k] == b[1..][..k] && a[1..][k] < b[1..][k];
        assert a[..k + 1] == [a[0]] + a[1..][..k];
        assert b[..k + 1] == [b[0]] + b[1..][..k];
      }
    }
  }

  /** A textbook-ordered pair of non-empty strings is decided by the first character or by the tails. */
  lemma LexBeforeHead(a: string, b: string)
    requires LexBefore(a, b) && a != [] && b != []
    ensures a[0] < b[0] || (a[0] == b[0] && LexBefore(a[1..], b[1..]))
  {
    if |a| < |b| && a == b[..|a|] {
      assert a[0] == b[..|a|][0];
      assert a[1..] == b[1..][..|a| - 1];
    } else {
      var k :| 0 <= k < |a| && k < |b| && a[..k] == b[..k] && a[k] < b[k];
      if k > 0 {
        assert a[0] == a[..k][0] && b[0] == b[..k][0];
        assert a[1..][..k - 1] == a[..k][1..] && b[1..][..k - 1] == b[..k][1..];
        assert a[1..][k - 1] < b[1..][k - 1];
      }
    }
  }

  lemma {:induction false} LexLessComplete(a: string, b: string)
    requires LexBefore(a, b)
    ensures LexLess(a, b)
  {
    if a != [] && b != [] {
      LexBeforeHead(a, b);
      if a[0] == b[0] {
        LexLessComplete(a[1..], b[1..]);
      }
    }
  }

  /** LexLess, the order std::string uses, agrees with the textbook definition. */
  lemma LexLessMeaning(a: string, b: string)
    ensures LexLess(a, b) <==> LexBefore(a, b)
  {
    if LexLess(a, b) {
      LexLessSound(a, b);
    }
    if LexBefore(a, b) {
      LexLessComplete(a, b);
    }
  }

  /** `ref` occurs in `value` starting at offset i. */
  predicate OccursAt(ref: string, value: string, i: int)
    requires 0 <= i <= |value| - |ref|
  {
    value[i..i + |ref|] == ref
  }

  /** `ref` occurs in `value` at some offset: string::find does not return npos. */
  predicate IsSubstring(ref: string, value: string) {
    exists i :: 0 <= i <= |value| - |ref| && OccursAt(ref, value, i)
  }

  predicate NulFree(s: string) {
    forall k :: 0 <= k < |s| ==> s[k] != '\0'
  }

  /** What a C routine sees through c_str(): the characters before the first NUL. */
  function CStr(s: string): (r: string)
    ensures |r| <= |s| && r == s[..|r|] && NulFree(r)
    ensures |r| < |s| ==> s[|r|] == '\0'
  {
    if s == [] || s[0] == '\0' then []
    else
      var rest := CStr(s[1..]);
      assert s[..|rest| + 1] == [s[0]] + s[1..][..|rest|];
      [s[0]] + rest
  }

  lemma {:induction false} CStrOfNulFree(s: string)
    requires NulFree(s)
    ensures CStr(s) == s
  {
    if s != [] {
      CStrOfNulFree(s[1..]);
    }
  }

  /** At most the first n characters of s. */
  function Take(s: string, n: nat): (r: string)
    ensures |r| == (if |s| <= n then |s| else n) && r == s[..|r|]
  {
    if |s| <= n then s else s[..n]
  }

  /** strncmp(a, b, n) == 0 */
  predicate StrnEqual(a: string, b: string, n: nat) {
    Take(CStr(a), n) == Take(CStr(b), n)
  }

  /** strcmp(a, b) == 0 */
  predicate StrEqual(a: string, b: string) {
    CStr(a) == CStr(b)
  }

  /** The operators of a string or continuous condition; any other code is Unknown. */
  datatype Op = None | Equal | NotEqual | Less | LessEqual | Greater | GreaterEqual
              | Between | Outside | Contains | NotContains | BeginsWith | EndsWith
              | Unknown(code: int)

  /** The operators a string condition evaluates; the others give -1. */
  predicate StringOp(oper: Op) {
    !(oper == Op.None || oper.Unknown?)
  }

  /**
   * ValueFilter_string. The reference string is `min`; `max` only bounds
   * Between and Outside. `<=` and `>=` are the negations of `>` and `<`, as
   * for std::string; BeginsWith and EndsWith go through C strings.
   */
  function StringVerdict(oper: Op, min: string, max: string, acceptSpecial: int, val: Value): (r: int)
    requires val.Special? || val.StrV?
    ensures val.Special? ==> r == acceptSpecial
    ensures val.StrV? ==> (r == -1 <==> !StringOp(oper)) && -1 <= r <= 1
  {
    if val.Special? then acceptSpecial
    else
      var value, ref := val.s, min;
      match oper
      case Equal => ToInt(value == ref)
      case NotEqual => ToInt(value != ref)
      case Less => ToInt(LexLess(value, ref))
      case LessEqual => ToInt(!LexLess(ref, value))
      case Greater => ToInt(LexLess(ref, value))
      case GreaterEqual => ToInt(!LexLess(value, ref))
      case Contains => ToInt(IsSubstring(ref, value))
      case NotContains => ToInt(!IsSubstring(ref, value))
      case BeginsWith => ToInt(StrnEqual(value, ref, |ref|))
      case Between => ToInt(!LexLess(value, min) && !LexLess(max, value))
      case Outside => ToInt(LexLess(value, min) && LexLess(max, value))
      case EndsWith => ToInt(|value| >= |ref| && StrEqual(value[|value| - |ref|..], ref))
      case _ => -1
  }

  /** For strings without NUL characters, BeginsWith accepts exactly the strings starting with ref. */
  lemma BeginsWithIsPrefix(ref: string, max: string, acceptSpecial: int, value: string)
    requires NulFree(ref) && NulFree(value)
    ensures StringVerdict(BeginsWith, ref, max, acceptSpecial, StrV(value)) == 1 <==>
      |ref| <= |value| && value[..|ref|] == ref
  {
    CStrOfNulFree(ref);
    CStrOfNulFree(value);
  }

  /** strncmp stops at a NUL: "a\0c" passes BeginsWith "a\0b" although "a\0b" is not a prefix of it. */
  lemma BeginsWithStopsAtNul()
    ensures StringVerdict(BeginsWith, "a\0b", "", 0, StrV("a\0c")) == 1
    ensures "a\0c"[..3] != "a\0b"
  {
    assert CStr("a\0b") == "a" by {
      assert "a\0b"[1..] == "\0b";
    }
    assert CStr("a\0c") == "a" by {
      assert "a\0c"[1..] == "\0c";
    }
    assert "a\0c"[2] != "a\0b"[2];
  }

  /** For strings without NUL characters, EndsWith accepts exactly the strings ending with ref. */
  lemma EndsWithIsSuffix(ref: string, max: string, acceptSpecial: int, value: string)
    requires NulFree(ref) && NulFree(value)
    ensures StringVerdict(EndsWith, ref, max, acceptSpecial, StrV(value)) == 1 <==>
      |ref| <= |value| && value[|value| - |ref|..] == ref
  {
    CStrOfNulFree(ref);
    if |ref| <= |value| {
      CStrOfNulFree(value[|value| - |ref|..]);
    }
  }

  /** Between accepts exactly the strings from min to max, both ends included. */
  lemma BetweenIsInclusive(min: string, max: string, acceptSpecial: int, value: string)
    ensures StringVerdict(Between, min, max, acceptSpecial, StrV(value)) == 1 <==>
      (LexLess(min, value) || min == value) && (LexLess(value, max) || value == max)
  {
    LexLessTotal(min, value);
    LexLessTotal(value, max);
    if min == value {
      assert !LexLess(value, value);
    }
    if value == max {
      assert !LexLess(value, value);
    }
    if LexLess(min, value) && LexLess(value, min) {
      LexLessTransitive(min, value, min);
    }
    if LexLess(value, max) && LexLess(max, value) {
      LexLessTransitive(value, max, value);
    }
  }

  /**
   * Outside requires value < min AND value > max, so whenever min <= max it
   * accepts no string at all.
   */
  lemma OutsideAcceptsNothing(min: string, max: string, acceptSpecial: int, value: string)
    requires LexLess(min, max) || min == max
    ensures StringVerdict(Outside, min, max, acceptSpecial, StrV(value)) == 0
  {
    if LexLess(value, min) && LexLess(max, value) {
      if min == max {
        LexLessTransitive(max, value, min);
      } else {
        LexLessTransitive(value, min, max);
        LexLessTransitive(value, max, value);
      }
    }
  }

  /** "d" lies beyond the range from "a" to "c", yet Outside as written rejects it. */
  lemma OutsideRejectsOutsider()
    ensures LexLess("c", "d") && !LexLess("d", "a")
    ensures StringVerdict(Outside, "a", "c", 0, StrV("d")) == 0
  {
  }

  /**
   * ValueFilter_string with Outside accepting the strings below min OR above
   * max, the way the continuous condition reads it; every other operator as
   * in StringVerdict.
   */
  function IntendedStringVerdict(oper: Op, min: string, max: string, acceptSpecial: int, val: Value): (r: int)
    requires val.Special? || val.StrV?
    ensures oper != Outside ==> r == StringVerdict(oper, min, max, acceptSpecial, val)
    ensures val.Special? ==> r == acceptSpecial
    ensures val.StrV? ==> (r == -1 <==> !StringOp(oper)) && -1 <= r <= 1
  {
    if oper == Outside && val.StrV? then ToInt(LexLess(val.s, min) || LexLess(max, val.s))
    else StringVerdict(oper, min, max, acceptSpecial, val)
  }

  /**
   * With the intended reading, and min <= max, Outside accepts exactly the
   * strings that Between rejects.
   */
  lemma IntendedOutsideComplementsBetween(min: string, max: string, acceptSpecial: int, value: string)
    requires LexLess(min, max) || min == max
    ensures IntendedStringVerdict(Outside, min, max, acceptSpecial, StrV(value)) == 1 <==>
      !((LexLess(min, value) || min == value) && (LexLess(value, max) || value == max))
    ensures IntendedStringVerdict(Outside, min, max, acceptSpecial, StrV(value)) +
            IntendedStringVerdict(Between, min, max, acceptSpecial, StrV(value)) == 1
  {
    BetweenIsInclusive(min, max, acceptSpecial, value);
  }

  /** Less and GreaterEqual, Greater and LessEqual split every string between them. */
  lemma OrderOperatorsComplement(ref: string, max: string, acceptSpecial: int, value: string)
    ensures StringVerdict(Less, ref, max, acceptSpecial, StrV(value)) +
            StringVerdict(GreaterEqual, ref, max, acceptSpecial, StrV(value)) == 1
    ensures StringVerdict(Greater, ref, max, acceptSpecial, StrV(value)) +
            StringVerdict(LessEqual, ref, max, acceptSpecial, StrV(value)) == 1
    ensures StringVerdict(LessEqual, ref, max, acceptSpecial, StrV(value)) == 1 <==>
            LexLess(value, ref) || value == ref
  {
    LexLessTotal(value, ref);
    if LexLess(value, ref) && LexLess(ref, value) {
      LexLessTransitive(value, ref, value);
    }
    if value == ref {
      assert !LexLess(value, value);
    }
  }

  // ---------------------------------------------------------------------------
  // Conditions
  // ---------------------------------------------------------------------------

  /**
   * A value condition on the variable at `position`. Continuous conditions
   * keep their operator and bounds `lo` (min) and `hi` (max).
   */
  datatype Condition =
    | Discrete(position: int, acceptSpecial: int, values: seq<int>)
    | Continuous(position: int, acceptSpecial: int, oper: Op, lo: real, hi: real)
    | Str(position: int, acceptSpecial: int, oper: Op, min: string, max: string)
    | StrList(position: int, acceptSpecial: int, strings: seq<string>)

  /** The value has the kind the condition reads (or is unknown). */
  predicate Fits(c: Condition, val: Value) {
    match c
    case Discrete(_, _, _) => val.Special? || val.IntV?
    case Continuous(_, _, _, _, _) => val.Special? || val.FloatV?
    case Str(_, _, _, _, _) => val.Special? || val.StrV?
    case StrList(_, _, _) => val.Special? || val.StrV?
  }

  /** The condition's position names a value of the example, of the kind it reads. */
  predicate AppliesTo(c: Condition, example: Example) {
    0 <= c.position < |example| && Fits(c, example[c.position])
  }

  predicate AllApply(conds: seq<Condition>, example: Example) {
    forall k :: 0 <= k < |conds| ==> AppliesTo(conds[k], example)
  }

  /**
   * The verdict of one condition on an example. `cont` stands for the
   * tolerance-based comparison of a continuous condition on a known value.
   * An unknown value gets the condition's acceptSpecial code; a known one
   * gets 1 or 0 from a value list, and -1 from a string condition only for
   * an operator it does not evaluate.
   */
  function ConditionVerdict(c: Condition, example: Example, cont: (Condition, real) -> int): (r: int)
    requires AppliesTo(c, example)
    ensures example[c.position].Special? ==> r == c.acceptSpecial
    ensures (c.Discrete? && example[c.position].IntV?) ==>
      (r == 1 <==> example[c.position].n in c.values) && (r == 0 <==> example[c.position].n !in c.values)
    ensures (c.StrList? && example[c.position].StrV?) ==>
      (r == 1 <==> example[c.position].s in c.strings) && (r == 0 <==> example[c.position].s !in c.strings)
    ensures (c.Str? && example[c.position].StrV?) ==> -1 <= r <= 1 && (r == -1 <==> !StringOp(c.oper))
    ensures (c.Continuous? && example[c.position].FloatV?) ==> r == cont(c, example[c.position].x)
  {
    var val := example[c.position];
    match c
    case Discrete(_, accept, values) => DiscreteVerdict(values, accept, val)
    case Continuous(_, accept, _, _, _) => if val.Special? then accept else cont(c, val.x)
    case Str(_, accept, oper, min, max) => StringVerdict(oper, min, max, accept, val)
    case StrList(_, accept, strings) => StringListVerdict(strings, accept, val)
  }

  /**
   * ConditionVerdict with string conditions read through
   * IntendedStringVerdict: only Outside on a known string differs.
   */
  function IntendedConditionVerdict(c: Condition, example: Example, cont: (Condition, real) -> int): (r: int)
    requires AppliesTo(c, example)
    ensures !(c.Str? && c.oper == Outside) ==> r == ConditionVerdict(c, example, cont)
    ensures c.Str? && c.oper == Outside && example[c.position].StrV? ==>
      (r == 1 <==> LexLess(example[c.position].s, c.min) || LexLess(c.max, example[c.position].s))
  {
    match c
    case Str(_, accept, oper, min, max) => IntendedStringVerdict(oper, min, max, accept, example[c.position])
    case _ => ConditionVerdict(c, example, cont)
  }

  /**
   * Filter_values: in conjunction mode the first condition answering 0 gives
   * `negate`, in disjunction mode the first answering 1 gives `!negate`;
   * otherwise the result is `conjunction != negate`.
   */
  function ValuesVerdict(conds: seq<Condition>, conjunction: bool, negate: bool,
                         example: Example, cont: (Condition, real) -> int): (r: bool)
    requires AllApply(conds, example)
    ensures r != (conjunction != negate) ==>
      exists k :: 0 <= k < |conds| && ConditionVerdict(conds[k], example, cont) == (if conjunction then 0 else 1)
  {
    if conds == [] then conjunction != negate
    else
      var r := ConditionVerdict(conds[0], example, cont);
      if r == 0 && conjunction then negate
      else if r == 1 && !conjunction then !negate
      else ValuesVerdict(conds[1..], conjunction, negate, example, cont)
  }

  /** Conjunction mode: `negate` iff some condition answers 0; -1 and other codes are ignored. */
  lemma {:induction false} ConjunctionVerdict(conds: seq<Condition>, negate: bool,
                                              example: Example, cont: (Condition, real) -> int)
    requires AllApply(conds, example)
    ensures ValuesVerdict(conds, true, negate, example, cont) ==
      if exists k :: 0 <= k < |conds| && ConditionVerdict(conds[k], example, cont) == 0
      then negate else !negate
  {
    if conds != [] {
      ConjunctionVerdict(conds[1..], negate, example, cont);
      if exists k :: 0 <= k < |conds| - 1 && ConditionVerdict(conds[1..][k], example, cont) == 0 {
        var k :| 0 <= k < |conds| - 1 && ConditionVerdict(conds[1..][k], example, cont) == 0;
        assert conds[1..][k] == conds[k + 1];
      }
      if exists k :: 0 <= k < |conds| && ConditionVerdict(conds[k], example, cont) == 0 {
        var k :| 0 <= k < |conds| && ConditionVerdict(conds[k], example, cont) == 0;
        if k > 0 {
          assert conds[k] == conds[1..][k - 1];
        }
      }
    }
  }

  /** Disjunction mode: `!negate` iff some condition answers 1; an empty list gives `negate`. */
  lemma {:induction false} DisjunctionVerdict(conds: seq<Condition>, negate: bool,
                                              example: Example, cont: (Condition, real) -> int)
    requires AllApply(conds, example)
    ensures ValuesVerdict(conds, false, negate, example, cont) ==
      if exists k :: 0 <= k < |conds| && ConditionVerdict(conds[k], example, cont) == 1
      then !negate else negate
  {
    if conds != [] {
      DisjunctionVerdict(conds[1..], negate, example, cont);
      if exists k :: 0 <= k < |conds| - 1 && ConditionVerdict(conds[1..][k], example, cont) == 1 {
        var k :| 0 <= k < |conds| - 1 && ConditionVerdict(conds[1..][k], example, cont) == 1;
        assert conds[1..][k] == conds[k + 1];
      }
      if exists k :: 0 <= k < |conds| && ConditionVerdict(conds[k], example, cont) == 1 {
        var k :| 0 <= k < |conds| && ConditionVerdict(conds[k], example, cont) == 1;
        if k > 0 {
          assert conds[k] == conds[1..][k - 1];
        }
      }
    }
  }

  /** Flipping `negate` flips the verdict of a values filter on every example. */
  lemma {:induction false} ValuesNegate(conds: seq<Condition>, conjunction: bool, negate: bool,
                                        example: Example, cont: (Condition, real) -> int)
    requires AllApply(conds, example)
    ensures ValuesVerdict(conds, conjunction, !negate, example, cont) ==
      !ValuesVerdict(conds, conjunction, negate, example, cont)
  {
    if conds != [] {
      ValuesNegate(conds[1..], conjunction, negate, example, cont);
    }
  }

  // ---------------------------------------------------------------------------
  // Filters over whole examples
  // ---------------------------------------------------------------------------

  /** The conversion of an int to `signed char`: the value modulo 256, in -128..127. */
  function SignedChar(x: int): (r: int)
    ensures -128 <= r <= 127 && (x - r) % 256 == 0
    ensures -128 <= x <= 127 ==> r == x
  {
    (x + 128) % 256 - 128
  }

  /** A filter; `present == false` stands for a null sub-filter list. */
  datatype Filter =
    | Values(conditions: seq<Condition>, conjunction: bool, negate: bool)
    | Conjunction(present: bool, filters: seq<Filter>)
    | Disjunction(present: bool, filters: seq<Filter>)
    | SameValue(position: int, value: Value, negate: bool)
    | HasSpecial(negate: bool)
    | HasClassValue(negate: bool)

  /** Every position the filter reads names a value of the example of the kind it reads. */
  predicate Applies(f: Filter, example: Example) {
    match f
    case Values(conds, _, _) => AllApply(conds, example)
    case Conjunction(_, fs) => forall k :: 0 <= k < |fs| ==> Applies(fs[k], example)
    case Disjunction(_, fs) => forall k :: 0 <= k < |fs| ==> Applies(fs[k], example)
    case SameValue(p, _, _) => 0 <= p < |example|
    case HasSpecial(_) => true
    case HasClassValue(_) => |example| > 0
  }

  /** The position of the first unknown value of the example, or its length. */
  function FirstSpecial(example: Example): (i: nat)
    ensures i <= |example|
    ensures forall k :: 0 <= k < i ==> !example[k].Special?
    ensures i < |example| ==> example[i].Special?
  {
    if example == [] || example[0].Special? then 0 else 1 + FirstSpecial(example[1..])
  }

  /**
   * Whether the filter accepts the example. `eq` stands for value equality,
   * which answers -1 when it cannot decide; `cont` as in ConditionVerdict.
   */
  function Accepts(f: Filter, example: Example, eq: (Value, Value) -> int,
                   cont: (Condition, real) -> int): (r: bool)
    requires Applies(f, example)
    ensures f.Conjunction? && (!f.present || f.filters == []) ==> r
    ensures f.Disjunction? && (!f.present || f.filters == []) ==> !r
    ensures f.SameValue? ==> r == if SignedChar(eq(example[f.position], f.value)) == -1 then f.negate
                                  else (SignedChar(eq(example[f.position], f.value)) != 0) != f.negate
  {
    match f
    case Values(conds, conjunction, negate) => ValuesVerdict(conds, conjunction, negate, example, cont)
    case Conjunction(present, fs) => !present || AllAccept(fs, example, eq, cont)
    case Disjunction(present, fs) => present && AnyAccepts(fs, example, eq, cont)
    case SameValue(p, value, negate) =>
      var equ := SignedChar(eq(example[p], value));
      if equ == -1 then negate else (equ != 0) != negate
    case HasSpecial(negate) => (FirstSpecial(example) == |example|) == negate
    case HasClassValue(negate) => example[|example| - 1].Special? == negate
  }

  /** The sub-filters in order, stopping at the first that rejects. */
  function AllAccept(fs: seq<Filter>, example: Example, eq: (Value, Value) -> int,
                     cont: (Condition, real) -> int): (r: bool)
    requires forall k :: 0 <= k < |fs| ==> Applies(fs[k], example)
    ensures r ==> forall k :: 0 <= k < |fs| ==> Accepts(fs[k], example, eq, cont)
  {
    fs == [] || (Accepts(fs[0], example, eq, cont) && AllAccept(fs[1..], example, eq, cont))
  }

  /** The sub-filters in order, stopping at the first that accepts. */
  function AnyAccepts(fs: seq<Filter>, example: Example, eq: (Value, Value) -> int,
                      cont: (Condition, real) -> int): (r: bool)
    requires forall k :: 0 <= k < |fs| ==> Applies(fs[k], example)
    ensures r ==> exists k :: 0 <= k < |fs| && Accepts(fs[k], example, eq, cont)
  {
    fs != [] && (Accepts(fs[0], example, eq, cont) || AnyAccepts(fs[1..], example, eq, cont))
  }

  /** Filter_conjunction accepts iff every sub-filter does; a null or empty list accepts. */
  lemma {:induction false} ConjunctionAcceptsAll(present: bool, fs: seq<Filter>, example: Example,
                                                 eq: (Value, Value) -> int, cont: (Condition, real) -> int)
    requires forall k :: 0 <= k < |fs| ==> Applies(fs[k], example)
    ensures Accepts(Conjunction(present, fs), example, eq, cont) <==>
      !present || forall k :: 0 <= k < |fs| ==> Accepts(fs[k], example, eq, cont)
  {
    AllAcceptMeaning(fs, example, eq, cont);
  }

  lemma {:induction false} AllAcceptMeaning(fs: seq<Filter>, example: Example,
                                            eq: (Value, Value) -> int, cont: (Condition, real) -> int)
    requires forall k :: 0 <= k < |fs| ==> Applies(fs[k], example)
    ensures AllAccept(fs, example, eq, cont) <==> forall k :: 0 <= k < |fs| ==> Accepts(fs[k], example, eq, cont)
  {
    if fs != [] {
      AllAcceptMeaning(fs[1..], example, eq, cont);
      assert forall k :: 1 <= k < |fs| ==> fs[k] == fs[1..][k - 1];
    }
  }

  /** Filter_disjunction accepts iff some sub-filter does; a null or empty list rejects. */
  lemma {:induction false} DisjunctionAcceptsAny(present: bool, fs: seq<Filter>, example: Example,
                                                 eq: (Value, Value) -> int, cont: (Condition, real) -> int)
    requires forall k :: 0 <= k < |fs| ==> Applies(fs[k], example)
    ensures Accepts(Disjunction(present, fs), example, eq, cont) <==>
      present && exists k :: 0 <= k < |fs| && Accepts(fs[k], example, eq, cont)
  {
    AnyAcceptsMeaning(fs, example, eq, cont);
  }

  lemma {:induction false} AnyAcceptsMeaning(fs: seq<Filter>, example: Example,
                                             eq: (Value, Value) -> int, cont: (Condition, real) -> int)
    requires forall k :: 0 <= k < |fs| ==> Applies(fs[k], example)
    ensures AnyAccepts(fs, example, eq, cont) <==> exists k :: 0 <= k < |fs| && Accepts(fs[k], example, eq, cont)
  {
    if fs != [] {
      AnyAcceptsMeaning(fs[1..], example, eq, cont);
      assert forall k :: 1 <= k < |fs| ==> fs[k] == fs[1..][k - 1];
    }
  }

  /** Filter_hasSpecial with negate unset accepts exactly the examples with an unknown value. */
  lemma HasSpecialMeaning(negate: bool, example: Example, eq: (Value, Value) -> int,
                          cont: (Condition, real) -> int)
    ensures Accepts(HasSpecial(negate), example, eq, cont) <==>
      (exists k :: 0 <= k < |example| && example[k].Special?) != negate
  {
    if FirstSpecial(example) < |example| {
      assert example[FirstSpecial(example)].Special?;
    }
  }

  /** Filter_hasClassValue with negate unset accepts exactly the examples whose class is known. */
  lemma HasClassValueMeaning(negate: bool, example: Example, eq: (Value, Value) -> int,
                             cont: (Condition, real) -> int)
    requires |example| > 0
    ensures Accepts(HasClassValue(negate), example, eq, cont) <==>
      (!example[|example| - 1].Special?) != negate
  {
  }

  /**
   * For the filters with a `negate` flag that they apply themselves, flipping
   * it flips the verdict on every example, undecidable comparisons included.
   */
  lemma NegateFlips(f: Filter, example: Example, eq: (Value, Value) -> int, cont: (Condition, real) -> int)
    requires f.Values? || f.SameValue? || f.HasSpecial? || f.HasClassValue?
    requires Applies(f, example)
    ensures Applies(f.(negate := !f.negate), example)
    ensures Accepts(f.(negate := !f.negate), example, eq, cont) == !Accepts(f, example, eq, cont)
  {
    if f.Values? {
      ValuesNegate(f.conditions, f.conjunction, f.negate, example, cont);
    }
  }

  // ---------------------------------------------------------------------------
  // Editing the condition list of a values filter
  // ---------------------------------------------------------------------------

  /** A variable's type; AnyVar stands for the code 0, which findCondition does not check. */
  datatype VarType = AnyVar | IntVar | FloatVar | StringVar | OtherVar(code: int)

  /** A variable with its type and its position in the filter's domain. */
  datatype Variable = Variable(name: string, varType: VarType, position: int)

  datatype FilterError = InvalidVariableType | NotDiscrete | NoCondition(name: string)

  /** The acceptSpecial code given to conditions that addCondition creates. */
  const DefaultAcceptSpecial := 0

  /** The index of the first condition on position pos, or |conds| when there is none. */
  function FirstAt(conds: seq<Condition>, pos: int): (k: nat)
    ensures k <= |conds|
    ensures forall j :: 0 <= j < k ==> conds[j].position != pos
    ensures k < |conds| ==> conds[k].position == pos
  {
    if conds == [] then 0
    else if conds[0].position == pos then 0
    else 1 + FirstAt(conds[1..], pos)
  }

  /** No two conditions share a position. */
  predicate UniquePositions(conds: seq<Condition>) {
    forall i, j :: 0 <= i < j < |conds| ==> conds[i].position != conds[j].position
  }

  /** The condition moved to position pos. */
  function Placed(c: Condition, pos: int): (r: Condition)
    ensures r.position == pos
    ensures c.Discrete? ==> r == Discrete(pos, c.acceptSpecial, c.values)
    ensures c.Continuous? ==> r == Continuous(pos, c.acceptSpecial, c.oper, c.lo, c.hi)
    ensures c.Str? ==> r == Str(pos, c.acceptSpecial, c.oper, c.min, c.max)
    ensures c.StrList? ==> r == StrList(pos, c.acceptSpecial, c.strings)
  {
    match c
    case Discrete(_, accept, values) => Discrete(pos, accept, values)
    case Continuous(_, accept, oper, lo, hi) => Continuous(pos, accept, oper, lo, hi)
    case Str(_, accept, oper, min, max) => Str(pos, accept, oper, min, max)
    case StrList(_, accept, strings) => StrList(pos, accept, strings)
  }

  /**
   * updateCondition on a list: replace the first condition on c's position,
   * or append c. Every other entry keeps its place and the list grows by at
   * most one.
   */
  function Updated(conds: seq<Condition>, c: Condition): (r: seq<Condition>)
    ensures |r| == if FirstAt(conds, c.position) == |conds| then |conds| + 1 else |conds|
    ensures FirstAt(conds, c.position) < |r| && r[FirstAt(conds, c.position)] == c
    ensures forall j :: 0 <= j < |conds| && j != FirstAt(conds, c.position) ==> r[j] == conds[j]
  {
    var k := FirstAt(conds, c.position);
    if k == |conds| then conds + [c] else conds[k := c]
  }

  /** removeCondition on a list: erase the entry at k; the others keep their order. */
  function Removed(conds: seq<Condition>, k: nat): (r: seq<Condition>)
    requires k < |conds|
    ensures |r| == |conds| - 1
    ensures forall j :: 0 <= j < |r| ==> r[j] == if j < k then conds[j] else conds[j + 1]
    ensures multiset(r) + multiset{conds[k]} == multiset(conds)
  {
    assert conds == conds[..k] + [conds[k]] + conds[k + 1..];
    conds[..k] + conds[k + 1..]
  }

  /** After an update, the condition found on c's position is c itself. */
  lemma UpdateThenFind(conds: seq<Condition>, c: Condition)
    ensures FirstAt(Updated(conds, c), c.position) < |Updated(conds, c)|
    ensures Updated(conds, c)[FirstAt(Updated(conds, c), c.position)] == c
  {
    var k := FirstAt(conds, c.position);
    var r := Updated(conds, c);
    assert r[k] == c;
    assert forall j :: 0 <= j < k ==> r[j] == conds[j];
  }

  /** An update keeps the positions of the conditions distinct. */
  lemma UpdateKeepsUnique(conds: seq<Condition>, c: Condition)
    requires UniquePositions(conds)
    ensures UniquePositions(Updated(conds, c))
  {
    var k := FirstAt(conds, c.position);
    var r := Updated(conds, c);
    forall i, j | 0 <= i < j < |r| ensures r[i].position != r[j].position {
      assert r[i] == if i == k then c else conds[i];
      assert r[j] == if j == k then c else conds[j];
    }
  }

  /** Removing the found entry of a list with distinct positions leaves no condition on that position. */
  lemma RemoveThenFind(conds: seq<Condition>, pos: int)
    requires UniquePositions(conds) && FirstAt(conds, pos) < |conds|
    ensures UniquePositions(Removed(conds, FirstAt(conds, pos)))
    ensures FirstAt(Removed(conds, FirstAt(conds, pos)), pos) == |conds| - 1
  {
    var k := FirstAt(conds, pos);
    var r := Removed(conds, k);
    assert forall j :: 0 <= j < |r| ==> r[j] == if j < k then conds[j] else conds[j + 1];
  }

  /** Removing the condition an update appended restores the list. */
  lemma RemoveUndoesAppend(conds: seq<Condition>, c: Condition)
    requires FirstAt(conds, c.position) == |conds|
    ensures FirstAt(Updated(conds, c), c.position) == |conds|
    ensures Removed(Updated(conds, c), FirstAt(Updated(conds, c), c.position)) == conds
  {
    var r := Updated(conds, c);
    assert r == conds + [c];
    var k := FirstAt(r, c.position);
    assert k == |conds| by {
      assert forall j :: 0 <= j < |conds| ==> r[j] == conds[j];
    }
    assert r[..k] == conds;
  }

  /** The first condition on pos, if any, is discrete. */
  predicate DiscreteAt(conds: seq<Condition>, pos: int) {
    var k := FirstAt(conds, pos);
    k == |conds| || conds[k].Discrete?
  }

  /**
   * addCondition(var, val) on one discrete condition: an unknown val makes it
   * accept unknown values, any other val makes it accept exactly val.
   */
  function SetValue(c: Condition, val: Value): (r: Condition)
    requires c.Discrete? && (val.Special? || val.IntV?)
    ensures r.Discrete? && r.position == c.position
    ensures val.Special? ==> r.acceptSpecial == 1 && r.values == c.values
    ensures val.IntV? ==> r.acceptSpecial == c.acceptSpecial
    ensures val.IntV? ==> forall m :: DiscreteVerdict(r.values, r.acceptSpecial, IntV(m)) == ToInt(m == val.n)
  {
    if val.Special? then Discrete(c.position, 1, c.values)
    else Discrete(c.position, c.acceptSpecial, [val.n])
  }

  /** addCondition(var, val) on a list: the discrete condition on pos, created when missing, set to val. */
  function WithValue(conds: seq<Condition>, pos: int, val: Value): (r: seq<Condition>)
    requires DiscreteAt(conds, pos) && (val.Special? || val.IntV?)
    ensures |r| == if FirstAt(conds, pos) == |conds| then |conds| + 1 else |conds|
    ensures forall j :: 0 <= j < |conds| && j != FirstAt(conds, pos) ==> r[j] == conds[j]
  {
    var k := FirstAt(conds, pos);
    if k == |conds| then conds + [SetValue(Discrete(pos, DefaultAcceptSpecial, []), val)]
    else conds[k := SetValue(conds[k], val)]
  }

  /**
   * After addCondition(var, val): an unknown val makes the condition on pos
   * accept unknown values and keeps its list; any other val makes the list
   * exactly [val]. Nothing else changes.
   */
  lemma WithValueEffect(conds: seq<Condition>, pos: int, val: Value)
    requires DiscreteAt(conds, pos) && (val.Special? || val.IntV?)
    ensures var r := WithValue(conds, pos, val);
      var k := FirstAt(conds, pos);
      && FirstAt(r, pos) == k && k < |r| && r[k].Discrete? && r[k].position == pos
      && (val.Special? ==>
            r[k].acceptSpecial == 1 && r[k].values == (if k < |conds| then conds[k].values else []))
      && (val.IntV? ==>
            r[k].values == [val.n] &&
            r[k].acceptSpecial == (if k < |conds| then conds[k].acceptSpecial else DefaultAcceptSpecial))
      && forall j :: 0 <= j < |conds| && j != k ==> r[j] == conds[j]
  {
    var r := WithValue(conds, pos, val);
    var k := FirstAt(conds, pos);
    assert forall j :: 0 <= j < k ==> r[j] == conds[j];
    assert r[k].position == pos;
  }

  /** After addCondition(var, n), the condition on the variable accepts exactly the value n. */
  lemma WithValueAcceptsExactly(conds: seq<Condition>, pos: int, n: int, m: int)
    requires DiscreteAt(conds, pos)
    ensures var r := WithValue(conds, pos, IntV(n));
      FirstAt(r, pos) < |r| && r[FirstAt(r, pos)].Discrete? &&
      DiscreteVerdict(r[FirstAt(r, pos)].values, r[FirstAt(r, pos)].acceptSpecial, IntV(m)) == ToInt(m == n)
  {
    WithValueEffect(conds, pos, IntV(n));
  }

  /** addCondition(var, valueList) on a list: the discrete condition on pos, created when missing, gets the list. */
  function WithValues(conds: seq<Condition>, pos: int, values: seq<int>): (r: seq<Condition>)
    requires DiscreteAt(conds, pos)
    ensures |r| == if FirstAt(conds, pos) == |conds| then |conds| + 1 else |conds|
    ensures forall j :: 0 <= j < |conds| && j != FirstAt(conds, pos) ==> r[j] == conds[j]
  {
    var k := FirstAt(conds, pos);
    if k == |conds| then conds + [Discrete(pos, DefaultAcceptSpecial, values)]
    else conds[k := Discrete(pos, conds[k].acceptSpecial, values)]
  }

  /**
   * After addCondition(var, valueList): the condition on pos has exactly the
   * list, keeps its acceptSpecial (or gets the default when created), and
   * nothing else changes.
   */
  lemma WithValuesEffect(conds: seq<Condition>, pos: int, values: seq<int>)
    requires DiscreteAt(conds, pos)
    ensures var r := WithValues(conds, pos, values);
      var k := FirstAt(conds, pos);
      && FirstAt(r, pos) == k && k < |r|
      && r[k] == Discrete(pos, if k < |conds| then conds[k].acceptSpecial else DefaultAcceptSpecial, values)
      && forall j :: 0 <= j < |conds| && j != k ==> r[j] == conds[j]
  {
    var r := WithValues(conds, pos, values);
    var k := FirstAt(conds, pos);
    assert forall j :: 0 <= j < k ==> r[j] == conds[j];
    assert r[k].position == pos;
  }

  /** After addCondition(var, valueList), the condition on the variable accepts exactly the listed values. */
  lemma WithValuesAcceptsListed(conds: seq<Condition>, pos: int, values: seq<int>, m: int)
    requires DiscreteAt(conds, pos)
    ensures var r := WithValues(conds, pos, values);
      FirstAt(r, pos) < |r| && r[FirstAt(r, pos)].Discrete? &&
      DiscreteVerdict(r[FirstAt(r, pos)].values, r[FirstAt(r, pos)].acceptSpecial, IntV(m)) == ToInt(m in values)
  {
    var r := WithValues(conds, pos, values);
    var k := FirstAt(conds, pos);
    assert forall j :: 0 <= j < k ==> r[j] == conds[j];
    assert r[k].position == pos;
  }

  /** Filter_values with its editable condition list. */
  class ValuesFilter {
    var conditions: seq<Condition>
    var conjunction: bool
    var negate: bool

    constructor (conjunction: bool, negate: bool)
      ensures this.conditions == [] && this.conjunction == conjunction && this.negate == negate
    {
      this.conditions := [];
      this.conjunction := conjunction;
      this.negate := negate;
    }

    /**
     * findCondition: checks the variable's type (unless `expected` is AnyVar)
     * and returns the index of the first condition on its position, or the
     * list's length when there is none.
     */
    method FindCondition(v: Variable, expected: VarType) returns (r: Result<nat, FilterError>)
      ensures r.Failure? <==> expected != AnyVar && v.varType != expected
      ensures r.Failure? ==> r.error == InvalidVariableType
      ensures r.Success? ==> r.value <= |conditions|
      ensures r.Success? ==> forall j :: 0 <= j < r.value ==> conditions[j].position != v.position
      ensures r.Success? && r.value < |conditions| ==> conditions[r.value].position == v.position
      ensures r.Success? ==> r.value == FirstAt(conditions, v.position)
    {
      if expected != AnyVar && v.varType != expected {
        return Failure(InvalidVariableType);
      }
      var k := 0;
      while k < |conditions| && conditions[k].position != v.position
        invariant k <= |conditions|
        invariant forall j :: 0 <= j < k ==> conditions[j].position != v.position
      {
        k := k + 1;
      }
      return Success(k);
    }

    /**
     * updateCondition: the filter takes the variable's position, then
     * replaces the first condition on that position or is appended.
     */
    method UpdateCondition(v: Variable, expected: VarType, filter: Condition) returns (r: Outcome<FilterError>)
      modifies this
      ensures r.Fail? <==> expected != AnyVar && v.varType != expected
      ensures r.Fail? ==> r.error == InvalidVariableType && conditions == old(conditions)
      ensures r.Pass? ==> conditions == Updated(old(conditions), Placed(filter, v.position))
      ensures conjunction == old(conjunction) && negate == old(negate)
    {
      var found := FindCondition(v, expected);
      if found.Failure? {
        return Fail(found.error);
      }
      var c := Placed(filter, v.position);
      if found.value == |conditions| {
        conditions := conditions + [c];
      } else {
        conditions := conditions[found.value := c];
      }
      return Pass;
    }

    /**
     * addCondition(var, val) for a discrete variable: creates the discrete
     * condition when missing, then an unknown val sets acceptSpecial to 1 and
     * any other val makes the value list exactly [val].
     */
    method AddValue(v: Variable, val: Value) returns (r: Outcome<FilterError>)
      requires val.Special? || val.IntV?
      modifies this
      ensures r == if v.varType != IntVar then Fail(InvalidVariableType)
                   else if !DiscreteAt(old(conditions), v.position) then Fail(NotDiscrete)
                   else Pass
      ensures r.Fail? ==> conditions == old(conditions)
      ensures r.Pass? ==> conditions == WithValue(old(conditions), v.position, val)
      ensures conjunction == old(conjunction) && negate == old(negate)
    {
      var found := FindCondition(v, IntVar);
      if found.Failure? {
        return Fail(found.error);
      }
      var k := found.value;
      if k == |conditions| {
        conditions := conditions + [Discrete(v.position, DefaultAcceptSpecial, [])];
      } else if !conditions[k].Discrete? {
        return Fail(NotDiscrete);
      }
      conditions := conditions[k := SetValue(conditions[k], val)];
      return Pass;
    }

    /** addCondition(var, valueList): the discrete condition on the variable gets the list. */
    method AddValues(v: Variable, values: seq<int>) returns (r: Outcome<FilterError>)
      modifies this
      ensures r == if v.varType != IntVar then Fail(InvalidVariableType)
                   else if !DiscreteAt(old(conditions), v.position) then Fail(NotDiscrete)
                   else Pass
      ensures r.Fail? ==> conditions == old(conditions)
      ensures r.Pass? ==> conditions == WithValues(old(conditions), v.position, values)
      ensures conjunction == old(conjunction) && negate == old(negate)
    {
      var found := FindCondition(v, IntVar);
      if found.Failure? {
        return Fail(found.error);
      }
      var k := found.value;
      if k == |conditions| {
        conditions := conditions + [Discrete(v.position, DefaultAcceptSpecial, values)];
      } else if !conditions[k].Discrete? {
        return Fail(NotDiscrete);
      } else {
        conditions := conditions[k := Discrete(v.position, conditions[k].acceptSpecial, values)];
      }
      return Pass;
    }

    /** addCondition(var, oper, min, max) for a continuous variable. */
    method AddContinuous(v: Variable, oper: Op, lo: real, hi: real) returns (r: Outcome<FilterError>)
      modifies this
      ensures r.Fail? <==> v.varType != FloatVar
      ensures r.Fail? ==> conditions == old(conditions)
      ensures r.Pass? ==> conditions == Updated(old(conditions), Continuous(v.position, DefaultAcceptSpecial, oper, lo, hi))
      ensures conjunction == old(conjunction) && negate == old(negate)
    {
      r := UpdateCondition(v, FloatVar, Continuous(-1, DefaultAcceptSpecial, oper, lo, hi));
    }

    /** addCondition(var, oper, min, max) for a string variable. */
    method AddString(v: Variable, oper: Op, min: string, max: string) returns (r: Outcome<FilterError>)
      modifies this
      ensures r.Fail? <==> v.varType != StringVar
      ensures r.Fail? ==> conditions == old(conditions)
      ensures r.Pass? ==> conditions == Updated(old(conditions), Str(v.position, DefaultAcceptSpecial, oper, min, max))
      ensures conjunction == old(conjunction) && negate == old(negate)
    {
      r := UpdateCondition(v, StringVar, Str(-1, DefaultAcceptSpecial, oper, min, max));
    }

    /** addCondition(var, stringList) for a string variable. */
    method AddStringList(v: Variable, strings: seq<string>) returns (r: Outcome<FilterError>)
      modifies this
      ensures r.Fail? <==> v.varType != StringVar
      ensures r.Fail? ==> conditions == old(conditions)
      ensures r.Pass? ==> conditions == Updated(old(conditions), StrList(v.position, DefaultAcceptSpecial, strings))
      ensures conjunction == old(conjunction) && negate == old(negate)
    {
      r := UpdateCondition(v, StringVar, StrList(-1, DefaultAcceptSpecial, strings));
    }

    /** removeCondition: erases the first condition on the variable; an error when there is none. */
    method RemoveCondition(v: Variable) returns (r: Outcome<FilterError>)
      modifies this
      ensures r.Fail? <==> FirstAt(old(conditions), v.position) == |old(conditions)|
      ensures r.Fail? ==> r.error == NoCondition(v.name) && conditions == old(conditions)
      ensures r.Pass? ==> conditions == Removed(old(conditions), FirstAt(old(conditions), v.position))
      ensures conjunction == old(conjunction) && negate == old(negate)
    {
      var found := FindCondition(v, AnyVar);
      var k := found.value;
      if k == |conditions| {
        return Fail(NoCondition(v.name));
      }
      conditions := conditions[..k] + conditions[k + 1..];
      return Pass;
    }
  }
}
