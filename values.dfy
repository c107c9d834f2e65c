/** The values a form record can hold, and the small facts about them that
    the validation rules rely on. */
module Values {

  /** One field value, as a form collaborator hands it over. `Absent` is a
      key that is missing from the record (JavaScript's `undefined`). */
  datatype Value =
    | Absent
    | Str(s: string)
    | Num(n: int)
    | Bool(b: bool)
    | List(items: seq<Value>)
    | Object(fields: map<string, Value>)
    | FileRef(mime: string)

  /** A form record: field name to value. */
  type Record = map<string, Value>

  /** Outcome of a check or a lookup: no message, or one message. */
  datatype Outcome = Pass | Fail(message: string)

  /** The value stored under `key`, or `Absent` when the key is missing. */
  function Get(rec: Record, key: string): Value
  {
    if key in rec then rec[key] else Absent
  }

  /** The runtime shapes a schema can demand of a present value. */
  datatype Kind = StringKind | NumberKind | BooleanKind | ArrayKind | ObjectKind

  function KindName(k: Kind): string
  {
    match k
    case StringKind => "string"
    case NumberKind => "number"
    case BooleanKind => "boolean"
    case ArrayKind => "array"
    case ObjectKind => "object"
  }

  /** An absent value has every kind: a type check only looks at present values. */
  predicate HasKind(v: Value, k: Kind)
  {
    match v
    case Absent => true
    case Str(_) => k == StringKind
    case Num(_) => k == NumberKind
    case Bool(_) => k == BooleanKind
    case List(_) => k == ArrayKind
    case Object(_) => k == ObjectKind
    case FileRef(_) => false
  }

  /** What a `required` rule treats as missing. */
  predicate IsMissing(v: Value)
  {
    v == Absent || v == Str("") || v == List([])
  }

  predicate IsAsciiDigit(c: char)
  {
    '0' <= c <= '9'
  }

  function DigitChar(d: nat): (c: char)
    requires d < 10
    ensures IsAsciiDigit(c)
  {
    ('0' as int + d) as char
  }

  /** JavaScript's `.length` of a string: its count of UTF-16 code units,
      in which a character beyond U+FFFF (a surrogate pair) counts twice. */
  function Utf16Length(s: string): (n: nat)
    ensures |s| <= n <= 2 * |s|
    ensures (forall i :: 0 <= i < |s| ==> s[i] as int <= 0xFFFF) ==> n == |s|
    ensures (forall i :: 0 <= i < |s| ==> s[i] as int > 0xFFFF) ==> n == 2 * |s|
    decreases |s|
  {
    if |s| == 0 then 0
    else
      assert forall i :: 0 <= i < |s[1..]| ==> s[1..][i] == s[i + 1];
      (if s[0] as int > 0xFFFF then 2 else 1) + Utf16Length(s[1..])
  }

  /** Decimal rendering of an array index, as a template literal prints it:
      a non-empty run of decimal digits, two or more from ten on. */
  function NatToString(n: nat): (r: string)
    ensures |r| >= 1
    ensures n >= 10 ==> |r| >= 2
    ensures forall i :: 0 <= i < |r| ==> IsAsciiDigit(r[i])
    decreases n
  {
    if n < 10 then [DigitChar(n)]
    else
      var front := NatToString(n / 10);
      assert forall i :: 0 <= i < |front| ==> (front + [DigitChar(n % 10)])[i] == front[i];
      front + [DigitChar(n % 10)]
  }

  /** Distinct indices render differently, so index paths never collide. */
  lemma {:induction false} NatToStringInjective(m: nat, n: nat)
    requires NatToString(m) == NatToString(n)
    ensures m == n
    decreases m
  {
    var sm, sn := NatToString(m), NatToString(n);
    if m < 10 && n < 10 {
      assert sm[0] == DigitChar(m) && sn[0] == DigitChar(n);
    } else if m >= 10 && n >= 10 {
      var pm, pn := NatToString(m / 10), NatToString(n / 10);
      assert sm == pm + [DigitChar(m % 10)];
      assert sn == pn + [DigitChar(n % 10)];
      assert sm[|sm| - 1] == DigitChar(m % 10);
      assert sn[|sn| - 1] == DigitChar(n % 10);
      assert pm == sm[..|sm| - 1];
      assert pn == sn[..|sn| - 1];
      NatToStringInjective(m / 10, n / 10);
    }
  }
}
