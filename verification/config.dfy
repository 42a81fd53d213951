/** The decoded configuration both content-style linters receive: a rule
    set and an addendum. Missing keys are `None`; `Get` plays the part of
    Ruby's `Hash#fetch(key, default)`. */
module Config {
  import opened Base

  /** A configuration scalar. The case flag is compared with the string
      `'true'`, so a YAML boolean and a string are kept apart. */
  datatype Scalar = Str(text: string) | Bool(flag: bool)

  /** A rule's `violation` value: one pattern, or a list of patterns. */
  datatype ViolationField = One(pattern: string) | Many(patterns: seq<string>)

  datatype RuleDef = RuleDef(
    violation: Option<ViolationField>,
    suggestion: Option<string>,
    caseInsensitive: Option<Scalar>)

  datatype LinterConfig = LinterConfig(ruleSet: Option<seq<RuleDef>>, addendum: Option<string>)

  /** `fetch(key, default)` on a possibly missing key. */
  function Get<T>(o: Option<T>, default: T): (r: T) {
    match o
    case Some(x) => x
    case None => default
  }
}
