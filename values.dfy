/**
 * JavaScript values as the set classes see them, and `Set._v2s`, the function
 * that turns every value into the string key under which the hash-based `Set`
 * stores it.
 */
module Values {

  /** The JavaScript values a set can hold. Numbers are modelled as integers;
      an object or function is known only by its identity. */
  datatype Value =
    | Undefined
    | Null
    | Bool(b: bool)
    | Num(n: int)
    | Str(s: string)
    | Obj(id: nat)

  /** `x == null` in JavaScript: true for null and undefined only. */
  predicate IsNullish(v: Value) {
    v.Null? || v.Undefined?
  }

  function DigitChar(d: nat): (c: char)
    requires d < 10
    ensures '0' <= c <= '9'
  {
    "0123456789"[d]
  }

  /** Decimal digits of a natural number, most significant first. */
  function NatDigits(n: nat): (s: string)
    ensures |s| > 0
    ensures forall i :: 0 <= i < |s| ==> '0' <= s[i] <= '9'
    ensures n >= 10 ==> |s| >= 2
  {
    if n < 10 then [DigitChar(n)] else NatDigits(n / 10) + [DigitChar(n % 10)]
  }

  /** JavaScript's `String(x)` for an integer `x` of magnitude below 1e21. */
  function Numeral(x: int): (s: string)
    ensures |s| > 0
    ensures s[0] == '-' <==> x < 0
  {
    if x < 0 then "-" + NatDigits(-x) else NatDigits(x)
  }

  /** `Set._v2s`: each primitive gets a one-letter code or a tag character in
      front of its text; objects and functions get '@' and their identity.
      The first character of a key tells which kind of value it stands for. */
  function Key(v: Value): (k: string)
    ensures |k| > 0
    ensures k[0] == match v
                    case Undefined => 'u'
                    case Null => 'n'
                    case Bool(b) => if b then 't' else 'f'
                    case Num(_) => '#'
                    case Str(_) => '"'
                    case Obj(_) => '@'
  {
    match v
    case Undefined => "u"
    case Null => "n"
    case Bool(b) => if b then "t" else "f"
    case Num(x) => "#" + Numeral(x)
    case Str(s) => "\"" + s
    case Obj(id) => "@" + NatDigits(id)
  }

  lemma {:induction false} NatDigitsInjective(a: nat, b: nat)
    requires NatDigits(a) == NatDigits(b)
    ensures a == b
  {
    var s := NatDigits(a);
    if a < 10 && b < 10 {
      assert DigitChar(a) == s[0] == DigitChar(b);
    } else if a >= 10 && b >= 10 {
      var n := |s|;
      assert s[..n - 1] == NatDigits(a / 10) && s[..n - 1] == NatDigits(b / 10);
      NatDigitsInjective(a / 10, b / 10);
      assert DigitChar(a % 10) == s[n - 1] == DigitChar(b % 10);
      assert a % 10 == b % 10;
    }
  }

  lemma NumeralInjective(x: int, y: int)
    requires Numeral(x) == Numeral(y)
    ensures x == y
  {
    if x < 0 && y < 0 {
      NegativeNumeral(x);
      NegativeNumeral(y);
      NatDigitsInjective(-x, -y);
    } else if x >= 0 && y >= 0 {
      NatDigitsInjective(x, y);
    } else {
      assert false;
    }
  }

  lemma NegativeNumeral(x: int)
    requires x < 0
    ensures Numeral(x)[1..] == NatDigits(-x)
  {
  }

  /** Distinct values never share a key: in particular 5 and "5" do not
      collide, and neither do true and "t". */
  lemma KeyInjective(v: Value, w: Value)
    requires Key(v) == Key(w)
    ensures v == w
  {
    match v
    case Num(x) =>
      assert Key(v)[1..] == Numeral(x) && Key(w)[1..] == Numeral(w.n);
      NumeralInjective(x, w.n);
    case Str(s) =>
      assert Key(v)[1..] == s && Key(w)[1..] == w.s;
    case Obj(id) =>
      assert Key(v)[1..] == NatDigits(id) && Key(w)[1..] == NatDigits(w.id);
      NatDigitsInjective(id, w.id);
    case _ =>
  }

  /** `Set._v2s` as the repository has it: `objectId` reads the counter
      `Set._v2s.next`, which nothing initialises, so `next++` yields NaN and
      every object receives the same identifier. */
  function KeyAsWritten(v: Value): (k: string)
    ensures !v.Obj? ==> k == Key(v)
    ensures v.Obj? ==> k == "@NaN"
  {
    if v.Obj? then "@NaN" else Key(v)
  }

  /** Two different objects collide under the key function as written. */
  lemma KeyAsWrittenCollides()
    ensures Obj(1) != Obj(2) && KeyAsWritten(Obj(1)) == KeyAsWritten(Obj(2))
  {
  }

  /** JavaScript's string conversion `"" + v`, used by `toString`. Objects use
      the default `Object.prototype.toString`. */
  function Display(v: Value): (s: string)
    ensures v.Str? ==> s == v.s
    ensures v.Num? ==> s == Numeral(v.n)
  {
    match v
    case Undefined => "undefined"
    case Null => "null"
    case Bool(b) => if b then "true" else "false"
    case Num(x) => Numeral(x)
    case Str(s) => s
    case Obj(_) => "[object Object]"
  }
}
