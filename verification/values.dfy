/** JavaScript-like values as they reach the decoder, the validator and the middlewares,
    plus the small helpers every other module shares. */
module Values {

  /** `undefined` is modelled by `None`. */
  datatype Option<+T> = None | Some(value: T) {
    /** The `??` operator. */
    function GetOr(default: T): T {
      match this
      case Some(v) => v
      case None => default
    }
  }

  /** A JSON-ish runtime value. Numbers are integers (see README, "Left out").
      Object entries keep their enumeration order, as `Object.entries` does. */
  datatype Value =
    | Undefined
    | Null
    | Bool(b: bool)
    | Num(n: int)
    | Str(s: string)
    | Arr(items: seq<Value>)
    | Obj(entries: seq<(string, Value)>)

  function DigitChar(d: nat): char
    requires d < 10
  {
    "0123456789"[d]
  }

  function DigitValue(c: char): nat
  {
    if '0' <= c <= '9' then (c - '0') as nat else 0
  }

  /** Decimal rendering of a natural number, as `Number.prototype.toString` gives it. */
  function NatToString(n: nat): (s: string)
    ensures |s| > 0
    ensures forall i :: 0 <= i < |s| ==> '0' <= s[i] <= '9'
    decreases n
  {
    if n < 10 then [DigitChar(n)] else NatToString(n / 10) + [DigitChar(n % 10)]
  }

  function IntToString(i: int): (s: string)
  {
    if i < 0 then "-" + NatToString(-i) else NatToString(i)
  }

  /** Reads a string of decimal digits back. */
  function ParseDigits(s: string): nat
  {
    if s == [] then 0 else ParseDigits(s[..|s| - 1]) * 10 + DigitValue(s[|s| - 1])
  }

  /** The rendering of a number is unambiguous: its digits read back as the number. */
  lemma {:induction false} NatToStringRoundTrip(n: nat)
    ensures ParseDigits(NatToString(n)) == n
    decreases n
  {
    var s := NatToString(n);
    if n < 10 {
      assert s == [DigitChar(n)];
      assert s[..0] == [];
    } else {
      NatToStringRoundTrip(n / 10);
      assert s[..|s| - 1] == NatToString(n / 10);
      assert s[|s| - 1] == DigitChar(n % 10);
    }
  }

  /** The `??` operator on a value that may be left out: both `undefined` and `null` give the
      default. */
  function Coalesce(v: Option<Value>, default: Value): (r: Value)
    ensures (v.None? || v.value.Undefined? || v.value.Null?) ==> r == default
    ensures v.Some? && !v.value.Undefined? && !v.value.Null? ==> r == v.value
  {
    if v.None? || v.value.Undefined? || v.value.Null? then default else v.value
  }

  // ---------------------------------------------------------------------------------------
  // String length

  /** How many UTF-16 code units a character takes: two for a character outside the Basic
      Multilingual Plane (a surrogate pair), one otherwise. */
  function Utf16Units(c: char): nat
  {
    if c as int > 0xFFFF then 2 else 1
  }

  /** `String.prototype.length`: the number of UTF-16 code units, which is at least the number
      of characters and at most twice it. */
  function Utf16Length(s: string): (n: nat)
    ensures |s| <= n <= 2 * |s|
  {
    if s == [] then 0 else Utf16Length(s[..|s| - 1]) + Utf16Units(s[|s| - 1])
  }

  /** On text within the Basic Multilingual Plane the length is the number of characters. */
  lemma {:induction false} Utf16LengthOfBasicText(s: string)
    requires forall i :: 0 <= i < |s| ==> s[i] as int <= 0xFFFF
    ensures Utf16Length(s) == |s|
  {
    if s != [] {
      Utf16LengthOfBasicText(s[..|s| - 1]);
    }
  }

  /** A character outside the Basic Multilingual Plane counts twice: an emoji has length 2. */
  lemma EmojiLength()
    ensures Utf16Length("\U{1F600}") == 2
  {
    var s := "\U{1F600}";
    assert s[..0] == [];
  }
}
