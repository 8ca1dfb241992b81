/**
 * The choice the epilogue makes at request time, between the condition
 * block that matched (if any) and the `path_redirect` record of the
 * request path (if any): decode the record with the pattern
 * `^(\d+)\|(\d+)\|(useQS|noQS)\|(.*)`, let the lower priority number win
 * with ties going to the table, and append the query string when asked.
 */
module Resolution {
  import opened Options
  import opened Strings
  import opened Rules
  import opened CompileSpec

  /** What one side offers: priority, status code, query-string flag, location. */
  datatype Candidate = Candidate(priority: string, status: string, useQS: bool, location: string)

  /** The outcome: `error 777` with a location and a status, or no redirect. */
  datatype Decision = Redirect(location: string, status: string) | NoRedirect

  predicate IsDigit(c: char)
  {
    '0' <= c <= '9'
  }

  /** What `\d+` matches in full. */
  predicate IsNumber(s: string)
  {
    |s| >= 1 && forall i :: 0 <= i < |s| ==> IsDigit(s[i])
  }

  /** What `(.*)` captures: everything up to the first line break. */
  function Line(s: string): (r: string)
    ensures '\n' !in s ==> r == s
  {
    match SplitFirst(s, '\n')
    case None => s
    case Some(p) => p.0
  }

  /** What `(useQS|noQS)\|` takes off the front of the text, and whether it said `useQS`. */
  function DecodeFlag(s: string): Option<(bool, string)>
  {
    if StartsWith(s, "useQS|") then Some((true, s[6..]))
    else if StartsWith(s, "noQS|") then Some((false, s[5..]))
    else None
  }

  /**
   * The dictionary value matched against `^(\d+)\|(\d+)\|(useQS|noQS)\|(.*)`.
   * Digits contain no `|`, so each `\d+` is the whole text before the next `|`.
   */
  function DecodeRecord(v: string): Option<Candidate>
  {
    match SplitFirst(v, '|')
    case None => None
    case Some(p) =>
      if !IsNumber(p.0) then None
      else match SplitFirst(p.1, '|')
        case None => None
        case Some(q) =>
          if !IsNumber(q.0) then None
          else match DecodeFlag(q.1)
            case None => None
            case Some(f) => Some(Candidate(p.0, q.0, f.0, Line(f.1)))
  }

  lemma NumberHasNoBar(s: string)
    requires IsNumber(s)
    ensures '|' !in s
  {
  }

  /** The flag the compiler writes is read back, and the rest is left as it was. */
  lemma DecodeFlagOf(r: Rule, url: string)
    ensures DecodeFlag(QsFlag(r) + "|" + url) == Some((QsFlag(r) == "useQS", url))
  {
    var t := QsFlag(r) + "|" + url;
    if QsFlag(r) == "useQS" {
      assert t[..6] == "useQS|" && t[6..] == url;
    } else {
      assert t[0] == 'n';
      assert t[..5] == "noQS|" && t[5..] == url;
    }
  }

  /** The pieces of a record value, cut at its first two `|`. */
  lemma RecordValuePieces(e: Entry)
    ensures RecordValue(e) ==
      e.key + ['|'] + (StatusText(e.rule) + ['|'] + (QsFlag(e.rule) + "|" + e.rule.redirectURL))
  {
  }

  /**
   * A record the compiler writes decodes to the rule's own key, status,
   * flag and redirect URL, when the key and the status are numbers and the
   * URL has no line break.
   */
  lemma DecodeRecordValue(e: Entry)
    requires IsNumber(e.key) && IsNumber(StatusText(e.rule)) && '\n' !in e.rule.redirectURL
    ensures DecodeRecord(RecordValue(e)) ==
      Some(Candidate(e.key, StatusText(e.rule), QsFlag(e.rule) == "useQS", e.rule.redirectURL))
  {
    var st := StatusText(e.rule);
    var tail := QsFlag(e.rule) + "|" + e.rule.redirectURL;
    NumberHasNoBar(e.key);
    NumberHasNoBar(st);
    RecordValuePieces(e);
    SplitFirstAt(e.key, '|', st + ['|'] + tail);
    SplitFirstAt(st, '|', tail);
    DecodeFlagOf(e.rule, e.rule.redirectURL);
  }

  /** A record whose key is not a number never matches the pattern. */
  lemma NonNumericKey(e: Entry)
    requires '|' !in e.key && !IsNumber(e.key)
    ensures DecodeRecord(RecordValue(e)) == None
  {
    RecordValuePieces(e);
    SplitFirstAt(e.key, '|', StatusText(e.rule) + ['|'] + (QsFlag(e.rule) + "|" + e.rule.redirectURL));
  }

  /** `std.atoi`: the value of the leading decimal digits, 0 when there are none. */
  function Atoi(s: string): nat
  {
    DigitsValue(LeadingDigits(s))
  }

  function LeadingDigits(s: string): (d: string)
    ensures |d| <= |s| && d == s[..|d|]
    ensures forall i :: 0 <= i < |d| ==> IsDigit(d[i])
    ensures |d| < |s| ==> !IsDigit(s[|d|])
  {
    if s == [] || !IsDigit(s[0]) then [] else [s[0]] + LeadingDigits(s[1..])
  }

  function DigitsValue(d: string): nat
    requires forall i :: 0 <= i < |d| ==> IsDigit(d[i])
    decreases |d|
  {
    if d == [] then 0
    else
      var c := d[|d| - 1];
      assert IsDigit(c);
      10 * DigitsValue(d[..|d| - 1]) + (c as int - '0' as int)
  }

  /** The redirect one side asks for: its location, with `?` and the query string when wanted. */
  function Target(c: Candidate, qs: string): (d: Decision)
    ensures d.Redirect? && d.status == c.status
    ensures StartsWith(d.location, c.location)
    ensures d.location == c.location <==> !c.useQS || qs == ""
    ensures d.location != c.location ==> d.location[|c.location|..] == "?" + qs
  {
    var loc := if c.useQS && qs != "" then c.location + "?" + qs else c.location;
    assert loc[..|c.location|] == c.location;
    Redirect(loc, c.status)
  }

  /**
   * The side whose redirect is taken: the one with the lower priority
   * number, the table record on a tie, the only one when just one matched.
   */
  function Winner(cust: Option<Candidate>, dict: Option<Candidate>): (w: Option<Candidate>)
    ensures w.None? <==> cust.None? && dict.None?
    ensures w.Some? ==> w == cust || w == dict
    ensures cust.Some? && dict.Some? ==>
      Atoi(w.value.priority) <= Atoi(cust.value.priority) && Atoi(w.value.priority) <= Atoi(dict.value.priority)
    ensures dict.Some? && (cust.Some? ==> Atoi(dict.value.priority) <= Atoi(cust.value.priority)) ==> w == dict
  {
    match (cust, dict)
    case (Some(c), Some(t)) => if Atoi(c.priority) < Atoi(t.priority) then cust else dict
    case (Some(_), None) => cust
    case (None, _) => dict
  }

  /**
   * The four cases of the epilogue: both sides matched (the strictly lower
   * priority number of the condition block wins, otherwise the table), only
   * the condition block, only the table, nothing.
   */
  function Resolve(cust: Option<Candidate>, dict: Option<Candidate>, qs: string): (d: Decision)
    ensures d.NoRedirect? <==> cust.None? && dict.None?
    ensures cust.Some? && (dict.None? || Atoi(cust.value.priority) < Atoi(dict.value.priority)) ==>
      d == Target(cust.value, qs)
    ensures dict.Some? && (cust.None? || Atoi(dict.value.priority) <= Atoi(cust.value.priority)) ==>
      d == Target(dict.value, qs)
  {
    match Winner(cust, dict)
    case None => NoRedirect
    case Some(w) => Target(w, qs)
  }

  /**
   * When both sides matched, the redirect taken is one side's, that side has
   * the smallest priority number, and it is the condition block's only when
   * the condition block's number is strictly smaller.
   */
  lemma ResolveMinimal(c: Candidate, t: Candidate, qs: string)
    ensures var d := Resolve(Some(c), Some(t), qs);
      (d == Target(c, qs) && Atoi(c.priority) <= Atoi(t.priority)) ||
      (d == Target(t, qs) && Atoi(t.priority) <= Atoi(c.priority))
    ensures Target(c, qs) != Target(t, qs) && Resolve(Some(c), Some(t), qs) == Target(c, qs) ==>
      Atoi(c.priority) < Atoi(t.priority)
  {
    var w := Winner(Some(c), Some(t));
    assert Resolve(Some(c), Some(t), qs) == Target(w.value, qs);
  }

  /**
   * A request path that only the table knows is redirected to the rule's
   * `redirectURL`, with the rule's status code and, for
   * `useIncomingQueryString: true`, the request's query string: the record
   * the compiler writes is read back by the epilogue.
   */
  lemma TableRecordRedirect(e: Entry, qs: string)
    requires IsNumber(e.key) && IsNumber(StatusText(e.rule)) && '\n' !in e.rule.redirectURL
    ensures Resolve(None, DecodeRecord(RecordValue(e)), qs) ==
      Redirect(e.rule.redirectURL + (if e.rule.useIncomingQueryString == Some(true) && qs != "" then "?" + qs else ""),
               StatusText(e.rule))
  {
    DecodeRecordValue(e);
    var c := Candidate(e.key, StatusText(e.rule), QsFlag(e.rule) == "useQS", e.rule.redirectURL);
    assert (QsFlag(e.rule) == "useQS") == (e.rule.useIncomingQueryString == Some(true));
    assert Resolve(None, Some(c), qs) == Target(c, qs);
    if !(c.useQS && qs != "") {
      assert e.rule.redirectURL + "" == e.rule.redirectURL;
    }
  }

  /** With equal priority numbers the table record wins. */
  lemma TieGoesToTable(c: Candidate, t: Candidate, qs: string)
    requires Atoi(c.priority) == Atoi(t.priority)
    ensures Resolve(Some(c), Some(t), qs) == Target(t, qs)
  {
  }

  /** A condition block of priority 2 beats a table record of priority 5. */
  lemma ConditionTwoBeatsTableFive(loc: string, url: string)
    ensures Resolve(Some(Candidate("2", "301", false, loc)), Some(Candidate("5", "302", true, url)), "a=1") ==
      Redirect(loc, "301")
  {
    assert LeadingDigits("2") == "2" by {
      assert "2"[1..] == [];
    }
    assert LeadingDigits("5") == "5" by {
      assert "5"[1..] == [];
    }
    assert "2"[..0] == [] && "5"[..0] == [];
  }
}
