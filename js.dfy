/**
 * The JavaScript values the backend reads out of request bodies, tokens and
 * route parameters, and the coercions its handlers apply to them: `Number`,
 * truthiness, and the e-mail regular expression `/.+@.+\..+/`.
 */
module Js {
  import opened Strings
  import opened Money

  /**
   * A value parsed from a JSON body (or carried in a token payload). Objects
   * and arrays are one case.
   */
  datatype JsValue =
    | Undefined
    | Null
    | Bool(b: bool)
    | Number(n: real)
    | Str(s: string)
    | Object

  /**
   * `Number(v)`: `undefined` and objects are NaN. `Number(n)` holds the value
   * of a JSON numeral, which `JSON.parse` reads as Infinity when it is too
   * large for a double. Every finite result is within the range of a double.
   */
  function ToNumber(v: JsValue): (r: Num)
    ensures r.Finite? ==> Abs(r.v) < InfinityBound
  {
    match v
    case Undefined => NonFinite
    case Null => Finite(0.0)
    case Bool(b) => Finite(if b then 1.0 else 0.0)
    case Number(n) => NumberOf(n)
    case Str(s) => ParseNumber(s)
    case Object => NonFinite
  }

  /**
   * An amount sent as a decimal string ("12.50", "-3", "0.005") and the same
   * amount sent as a JSON number are the same number to the handlers.
   */
  lemma NumeralStringIsNumber(negative: bool, n: nat, f: nat)
    ensures ToNumber(Str(FixedString(negative, n, f))) == ToNumber(Number(Decimal(negative, n, f).Value()))
  {
    ParseNumberFixedString(negative, n, f);
    ToNumberStr(FixedString(negative, n, f));
    ToNumberNumber(Decimal(negative, n, f).Value());
  }

  /** `Number` of a string is what `ParseNumber` reads from it. */
  lemma ToNumberStr(s: string)
    ensures ToNumber(Str(s)) == ParseNumber(s)
  {
  }

  /** `Number` of a JSON number is its value, or Infinity beyond the largest double. */
  lemma ToNumberNumber(x: real)
    ensures ToNumber(Number(x)) == NumberOf(x)
  {
  }

  /** What `if (v)` and `!v` test. */
  predicate Truthy(v: JsValue)
  {
    match v
    case Undefined => false
    case Null => false
    case Bool(b) => b
    case Number(n) => n != 0.0
    case Str(s) => s != []
    case Object => true
  }

  // ---------------------------------------------------------------------------
  // The e-mail pattern /.+@.+\..+/ (unanchored, `.` excludes line terminators)
  // ---------------------------------------------------------------------------

  /**
   * A match of `/.+@.+\..+/` with its "@" at `at` and its "." at `dot`:
   * at least one character before the "@", at least one between the "@"
   * and the ".", and at least one after the ".", none of them a line
   * terminator. The longer runs `.+` could cover are not needed: one
   * character on each side is already a match.
   */
  predicate EmailMatchAt(s: string, at: int, dot: int)
  {
    && 1 <= at && at + 2 <= dot && dot + 1 < |s|
    && s[at] == '@' && s[dot] == '.'
    && !IsLineTerminator(s[at - 1]) && !IsLineTerminator(s[dot + 1])
    && forall k :: at < k < dot ==> !IsLineTerminator(s[k])
  }

  /** `/.+@.+\..+/.test(s)`. */
  predicate MatchesEmailPattern(s: string)
  {
    exists at, dot | 0 <= at < |s| && 0 <= dot < |s| :: EmailMatchAt(s, at, dot)
  }

  /** A matching string holds an "@". */
  lemma MatchHasAt(s: string)
    requires MatchesEmailPattern(s)
    ensures '@' in s
  {
    var at, dot :| 0 <= at < |s| && 0 <= dot < |s| && EmailMatchAt(s, at, dot);
    assert s[at] == '@';
  }

  /** The "@" and "." must sit on one line: a line break between them breaks the match. */
  lemma LineBreakBreaksMatch(a: string, b: string)
    requires '.' !in a && '@' !in b
    ensures !MatchesEmailPattern(a + "\n" + b)
  {
    var s := a + "\n" + b;
    forall at, dot | 0 <= at < |s| && 0 <= dot < |s|
      ensures !EmailMatchAt(s, at, dot)
    {
      if at < |a| {
        if dot < |a| {
          assert s[dot] == a[dot];
        } else if dot > |a| {
          assert IsLineTerminator(s[|a|]);
        }
      } else if at > |a| {
        assert s[at] == b[at - |a| - 1];
      }
    }
  }

  /** A few strings the pattern accepts and rejects. */
  lemma EmailPatternExamples()
    ensures MatchesEmailPattern("a@b.c")
    ensures MatchesEmailPattern(" @ . ")
    ensures !MatchesEmailPattern("a@b.")
    ensures !MatchesEmailPattern("@b.c")
    ensures !MatchesEmailPattern("a@.c")
  {
    assert EmailMatchAt("a@b.c", 1, 3);
    assert EmailMatchAt(" @ . ", 1, 3);
    var r1, r2, r3 := "a@b.", "@b.c", "a@.c";
    forall at, dot | 0 <= at < |r1| && 0 <= dot < |r1| ensures !EmailMatchAt(r1, at, dot) {
      assert dot + 1 < |r1| ==> r1[dot] != '.';
    }
    forall at, dot | 0 <= at < |r2| && 0 <= dot < |r2| ensures !EmailMatchAt(r2, at, dot) {
      assert 1 <= at ==> r2[at] != '@';
    }
    forall at, dot | 0 <= at < |r3| && 0 <= dot < |r3| ensures !EmailMatchAt(r3, at, dot) {
      assert r3[1] == '@' && r3[2] == '.';
    }
  }
}
