/** The fragment of JavaScript value semantics the data layer and the prompt
    flow rely on: truthiness, `a ? a : b`, string conversion by `+` and
    template literals, and loose equality `==`. */
module Js {
  import opened Nullable

  /** A value as it reaches the data layer: an answer from a prompt, a column
      of a result row, or a field of a payload object. */
  datatype Value =
    | Null
    | Undefined
    | Num(n: int)
    | Str(s: string)

  /** JavaScript truthiness: `null`, `undefined`, `0` and `""` are falsy. */
  predicate Truthy(v: Value) {
    match v
    case Null => false
    case Undefined => false
    case Num(n) => n != 0
    case Str(s) => s != ""
  }

  /** `answer ? answer : fallback`, the "blank keeps the old value" idiom. */
  function OrElse(answer: Value, fallback: Value): (r: Value)
    ensures Truthy(answer) ==> r == answer
    ensures !Truthy(answer) ==> r == fallback
  {
    if Truthy(answer) then answer else fallback
  }

  // ---------------------------------------------------------------- decimal

  function DigitChar(d: nat): char
    requires d < 10
  {
    "0123456789"[d]
  }

  function DigitValue(c: char): Option<nat> {
    if '0' <= c <= '9' then Some(c as int - '0' as int) else None
  }

  /** Decimal digits of `n`, most significant first, no leading zeros. */
  function NatToText(n: nat): (s: string)
    ensures |s| > 0
    ensures forall i :: 0 <= i < |s| ==> DigitValue(s[i]).Some?
    decreases n
  {
    if n < 10 then [DigitChar(n)] else NatToText(n / 10) + [DigitChar(n % 10)]
  }

  /** `String(n)` for an integer `n`. */
  function IntToText(n: int): string {
    if n < 0 then "-" + NatToText(-n) else NatToText(n)
  }

  /** A non-empty string of decimal digits read as a number. */
  function ParseNat(s: string): Option<nat>
    decreases |s|
  {
    if s == [] then None
    else
      var last := DigitValue(s[|s| - 1]);
      if last.None? then None
      else if |s| == 1 then last
      else
        match ParseNat(s[..|s| - 1])
        case None => None
        case Some(high) => Some(high * 10 + last.value)
  }

  /** Decimal integer text with an optional leading minus sign. */
  function ParseInt(s: string): Option<int> {
    var negative := |s| > 0 && s[0] == '-';
    match ParseNat(if negative then s[1..] else s)
    case None => None
    case Some(m) => Some((if negative then -1 else 1) * m)
  }

  lemma {:induction false} ParseNatToText(n: nat)
    ensures ParseNat(NatToText(n)) == Some(n)
  {
    var s := NatToText(n);
    if n < 10 {
      assert s == [DigitChar(n)];
    } else {
      ParseNatToText(n / 10);
      assert s[..|s| - 1] == NatToText(n / 10);
      assert s[|s| - 1] == DigitChar(n % 10);
    }
  }

  /** Reading back the decimal text of an integer gives the integer. */
  lemma IntTextRoundTrip(n: int)
    ensures ParseInt(IntToText(n)) == Some(n)
  {
    var s := IntToText(n);
    if n < 0 {
      var t := NatToText(-n);
      ParseNatToText(-n);
      assert s == "-" + t;
      assert s[0] == '-' && s[1..] == t;
    } else {
      ParseNatToText(n);
      assert DigitValue(s[0]).Some?;
      assert s[0] != '-';
    }
  }

  /** Only strings of decimal digits are read as natural numbers. */
  lemma {:induction false} ParseNatDigits(s: string, i: int)
    requires 0 <= i < |s| && DigitValue(s[i]).None?
    ensures ParseNat(s) == None
    decreases |s|
  {
    if i < |s| - 1 {
      ParseNatDigits(s[..|s| - 1], i);
    }
  }

  /** Digits grouped in threes from the right with `,`, as MySQL's `FORMAT`
      writes the integer part. */
  function Thousands(digits: string): (r: string)
    ensures |r| >= |digits|
    ensures |digits| > 0 ==> |r| > 0 && r[0] == digits[0]
    decreases |digits|
  {
    if |digits| <= 3 then digits
    else Thousands(digits[..|digits| - 3]) + "," + digits[|digits| - 3..]
  }

  /** `CONCAT('$', FORMAT(amount, 2))` for a whole-number amount, the text of
      every `Salary` column. */
  function Money(amount: int): (r: string)
    ensures |r| > 0 && r[0] == '$'
  {
    "$" + (if amount < 0 then "-" else "") + Thousands(NatToText(if amount < 0 then -amount else amount)) + ".00"
  }

  /** A formatted salary is never read back as an integer. */
  lemma MoneyIsNoInt(amount: int)
    ensures ParseInt(Money(amount)) == None
  {
    var s := Money(amount);
    assert s[0] == '$' && s[0] != '-';
    ParseNatDigits(s, 0);
  }

  // ------------------------------------------------------------ conversions

  /** `String(v)`, as `"..." + v` and `${v}` produce it. */
  function ToText(v: Value): string {
    match v
    case Null => "null"
    case Undefined => "undefined"
    case Num(n) => IntToText(n)
    case Str(s) => s
  }

  /** Loose equality `a == b`. A number and a string compare by reading the
      string as a decimal integer; `null` and `undefined` equal each other
      and nothing else. */
  predicate LooseEq(a: Value, b: Value) {
    match (a, b)
    case (Null, Null) => true
    case (Null, Undefined) => true
    case (Undefined, Null) => true
    case (Undefined, Undefined) => true
    case (Num(x), Num(y)) => x == y
    case (Str(x), Str(y)) => x == y
    case (Num(x), Str(y)) => ParseInt(y) == Some(x)
    case (Str(x), Num(y)) => ParseInt(x) == Some(y)
    case _ => false
  }

  /** The `Go back` sentinel never equals a numeric id. */
  lemma ExitIsNoId(n: int)
    ensures !LooseEq(Num(n), Str("exit"))
  {
    assert DigitValue('t').None?;
    assert ParseNat("exit") == None;
  }

  /** Loose equality against a number is the same as equality with that
      number's own value or its decimal text. */
  lemma LooseEqNum(n: int, v: Value)
    ensures LooseEq(Num(n), v) <==> v == Num(n) || (v.Str? && ParseInt(v.s) == Some(n))
  {
  }
}
