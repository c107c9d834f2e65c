/** Atomic validation rules and the short-circuiting rule chain. */
module Rules {
  import opened Values

  /** One declared constraint. Every rule except `Required` and `MimeIn`
      lets an absent value through, as yup's `skipAbsent` tests do and as
      `oneOf` does for `undefined`. */
  datatype Rule =
    | Required(message: string)                 // `.required(msg)`
    | TypeOf(kind: Kind)                        // the schema's own type: `string()`, `number()`, ...
    | DigitRun(count: nat, message: string)     // `.matches(/^\d{count}$/, msg)`
    | Min(bound: int, message: string)          // `number().min(bound)`
    | Max(bound: int, message: string)          // `number().max(bound)`
    | MaxLength(limit: nat, message: string)    // `string().max(limit, msg)`, on `.length`
    | MinItems(count: nat, message: string)     // `array().min(count, msg)`
    | OneOfTrue(message: string)                // `.oneOf([true], msg)`
    | MimeIn(accepted: seq<string>, message: string)  // the custom `fileFormat` test
    | Url(message: string)                      // `.url(msg)`
    | Email(message: string)                    // `.email(msg)`

  /** yup's URL and e-mail recognisers are library code outside this model:
      they are parameters, and nothing proved here depends on what they accept. */
  datatype Recognisers = Recognisers(isUrl: string -> bool, isEmail: string -> bool)

  /** The message of a failed type check on the value at `path`. */
  function TypeMessage(path: string, k: Kind): string
  {
    path + " must be a `" + KindName(k) + "` type"
  }

  /** The regular expression `^\d{n}$`, consumed one character at a time:
      `\d` is exactly the ASCII digits. */
  predicate MatchesDigitRun(s: string, n: nat)
    ensures MatchesDigitRun(s, n) ==> |s| == n
    decreases n
  {
    if n == 0 then s == [] else |s| > 0 && IsAsciiDigit(s[0]) && MatchesDigitRun(s[1..], n - 1)
  }

  /** The pattern accepts exactly the strings of `n` decimal digits: no
      leading or trailing content, no sign, no spaces. */
  lemma {:induction false} DigitRunIff(s: string, n: nat)
    ensures MatchesDigitRun(s, n) <==> |s| == n && forall i :: 0 <= i < |s| ==> IsAsciiDigit(s[i])
    decreases n
  {
    if n > 0 && |s| > 0 {
      DigitRunIff(s[1..], n - 1);
      if forall i :: 0 <= i < |s| ==> IsAsciiDigit(s[i]) {
        assert forall i :: 0 <= i < |s[1..]| ==> IsAsciiDigit(s[1..][i]) by {
          forall i | 0 <= i < |s[1..]| ensures IsAsciiDigit(s[1..][i]) {
            assert s[1..][i] == s[i + 1];
          }
        }
      }
      if IsAsciiDigit(s[0]) && forall i :: 0 <= i < |s[1..]| ==> IsAsciiDigit(s[1..][i]) {
        forall i | 0 <= i < |s| ensures IsAsciiDigit(s[i]) {
          if i > 0 { assert s[i] == s[1..][i - 1]; }
        }
      }
    }
  }

  /** What one rule says about the value `v` found at `path`. */
  function Check(rule: Rule, path: string, v: Value, rc: Recognisers): (r: Outcome)
    ensures v == Absent ==> (r.Fail? <==> rule.Required? || rule.MimeIn?)
    ensures r.Fail? ==> r.message == if rule.TypeOf? then TypeMessage(path, rule.kind) else rule.message
  {
    match rule
    case Required(m) => if IsMissing(v) then Fail(m) else Pass
    case TypeOf(k) => if HasKind(v, k) then Pass else Fail(TypeMessage(path, k))
    case DigitRun(n, m) =>
      if v.Str? && !MatchesDigitRun(v.s, n) then Fail(m) else Pass
    case Min(b, m) => if v.Num? && v.n < b then Fail(m) else Pass
    case Max(b, m) => if v.Num? && v.n > b then Fail(m) else Pass
    case MaxLength(l, m) => if v.Str? && Utf16Length(v.s) > l then Fail(m) else Pass
    case MinItems(c, m) => if v.List? && |v.items| < c then Fail(m) else Pass
    case OneOfTrue(m) => if v == Absent || v == Bool(true) then Pass else Fail(m)
    case MimeIn(acc, m) => if v.FileRef? && v.mime in acc then Pass else Fail(m)
    case Url(m) => if v.Str? && v.s != "" && !rc.isUrl(v.s) then Fail(m) else Pass
    case Email(m) => if v.Str? && v.s != "" && !rc.isEmail(v.s) then Fail(m) else Pass
  }

  /** Runs a chain in declared order and stops at the first failure: the
      result is `Pass` exactly when every rule passes, and otherwise the
      message of the first rule that fails. */
  function RunChain(chain: seq<Rule>, path: string, v: Value, rc: Recognisers): (r: Outcome)
    ensures r.Pass? <==> forall i :: 0 <= i < |chain| ==> Check(chain[i], path, v, rc).Pass?
    ensures r.Fail? ==> exists i :: 0 <= i < |chain| && Check(chain[i], path, v, rc) == r
                          && forall j :: 0 <= j < i ==> Check(chain[j], path, v, rc).Pass?
    decreases |chain|
  {
    if |chain| == 0 then Pass
    else
      var head := Check(chain[0], path, v, rc);
      if head.Fail? then head
      else
        var rest := RunChain(chain[1..], path, v, rc);
        assert forall i :: 1 <= i < |chain| ==> chain[i] == chain[1..][i - 1];
        rest
  }
}
