/**
 * One entry of `data.matchRules`, already parsed from JSON: the key under
 * which it is stored (also its priority) and the rule object.
 */
module Rules {
  import opened Options

  /**
   * The rule's `matchURL` as the handler sees it: JSON `null`, a missing
   * field (`undefined`), or a string.
   */
  datatype MatchUrl = NullUrl | Undefined | Url(path: string)

  /** The text a template literal gives for a table-path `matchURL`. */
  function UrlText(u: MatchUrl): string
  {
    match u
    case NullUrl => "null"
    case Undefined => "undefined"
    case Url(p) => p
  }

  /**
   * `matchType` of one matcher. `Unknown(name)` stands for any other value,
   * so `name` is none of `regex`, `query`, `hostname`, `path`, `cookie` and
   * `extension`: those are the six cases of the `switch`.
   */
  datatype MatchType = Regex | Query | Hostname | Path | Cookie | Extension | Unknown(name: string)

  datatype Matcher = Matcher(matchType: MatchType, matchValue: string, negate: bool)

  /**
   * A rule: `type`, `matchURL`, `statusCode` (as the text a template literal
   * gives for it, `None` when absent), `useIncomingQueryString` (`None` when
   * absent), `redirectURL` and `matches`.
   */
  datatype Rule = Rule(
    ruleType: string,
    matchURL: MatchUrl,
    statusCode: Option<string>,
    useIncomingQueryString: Option<bool>,
    redirectURL: string,
    matches: seq<Matcher>)

  datatype Entry = Entry(key: string, rule: Rule)

  /** The only rule type that is compiled. */
  const EdgeRedirect: string := "erMatchRule"

  /** `status_code`: the given status, or `'301'` when it is absent. */
  function StatusText(r: Rule): string
  {
    match r.statusCode
    case None => "301"
    case Some(s) => s
  }

  /** `cust_use_query_string`: `useQS` only for an explicit `true`. */
  function QsFlag(r: Rule): string
  {
    if r.useIncomingQueryString == Some(true) then "useQS" else "noQS"
  }

  /** An edge redirect whose `matchURL` is not `null` goes to the table. */
  predicate IsTableRule(r: Rule)
  {
    r.ruleType == EdgeRedirect && !r.matchURL.NullUrl?
  }

  /** An edge redirect whose `matchURL` is `null` becomes a condition block. */
  predicate IsConditionRule(r: Rule)
  {
    r.ruleType == EdgeRedirect && r.matchURL.NullUrl?
  }
}
