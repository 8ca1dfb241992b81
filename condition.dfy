/**
 * The guard of a condition block: `build_condition` for one matcher's
 * space-separated alternatives, the per-matcher `switch` of the rule loop,
 * and the guard of a whole rule (N `(`, the clauses, N `)`).
 */
module Condition {
  import opened Options
  import opened Strings
  import opened Rules

  predicate IsWildcard(c: char)
  {
    c == '?' || c == '*'
  }

  /** `/([?*])/.test(s)` */
  predicate HasWildcard(s: string)
  {
    '?' in s || '*' in s
  }

  /** `s.replace(/([?*])/g, ".$1")`: a `.` goes in front of every wildcard. */
  function Promote(s: string): (r: string)
    ensures |r| == |s| + Count('?', s) + Count('*', s)
    ensures r == s <==> !HasWildcard(s)
  {
    if s == [] then []
    else
      assert s == [s[0]] + s[1..];
      (if IsWildcard(s[0]) then ['.', s[0]] else [s[0]]) + Promote(s[1..])
  }

  /** Drops the `.` in front of every wildcard again. */
  function Unpromote(t: string): string
    decreases |t|
  {
    if t == [] then []
    else if |t| >= 2 && t[0] == '.' && IsWildcard(t[1]) then [t[1]] + Unpromote(t[2..])
    else [t[0]] + Unpromote(t[1..])
  }

  lemma PromoteStart(s: string)
    ensures Promote(s) == [] || !IsWildcard(Promote(s)[0])
  {
  }

  /** Promotion keeps the alternative recoverable. */
  lemma {:induction false} PromoteRoundTrip(s: string)
    ensures Unpromote(Promote(s)) == s
  {
    if s != [] {
      var rest := Promote(s[1..]);
      PromoteRoundTrip(s[1..]);
      if IsWildcard(s[0]) {
        assert Promote(s) == ['.', s[0]] + rest;
        assert (['.', s[0]] + rest)[2..] == rest;
      } else {
        PromoteStart(s[1..]);
        assert Promote(s) == [s[0]] + rest;
        assert ([s[0]] + rest)[1..] == rest;
      }
    }
  }

  /** Promotion adds only dots: every other character keeps its count. */
  lemma {:induction false} PromoteCount(c: char, s: string)
    requires c != '.'
    ensures Count(c, Promote(s)) == Count(c, s)
  {
    if s != [] {
      PromoteCount(c, s[1..]);
      var head := if IsWildcard(s[0]) then ['.', s[0]] else [s[0]];
      assert Promote(s) == head + Promote(s[1..]);
      CountConcat(c, head, Promote(s[1..]));
      CountOne(c, s[0]);
      if IsWildcard(s[0]) {
        CountConcat(c, ['.'], [s[0]]);
        CountOne(c, '.');
        assert head == ['.'] + [s[0]];
      }
    }
  }

  /** `eval_operator`: a wildcard turns the comparison into a regex match. */
  function Operator(alt: string, negate: bool): (op: string)
    ensures op == "~" || op == "!~" || op == "==" || op == "!="
    ensures (op == "~" || op == "!~") <==> HasWildcard(alt)
    ensures (op == "!~" || op == "!=") <==> negate
  {
    if HasWildcard(alt) then (if negate then "!~" else "~")
    else (if negate then "!=" else "==")
  }

  /** `eval_matchURL`: the promoted alternative, or the alternative verbatim. */
  function MatchText(alt: string): (t: string)
    ensures !HasWildcard(alt) ==> t == alt
    ensures HasWildcard(alt) ==> t == Promote(alt)
    ensures Unpromote(t) == alt
  {
    PromoteRoundTrip(alt);
    if HasWildcard(alt) then Promote(alt) else alt
  }

  /** The template `${operand} ${op} "${text}"`. */
  function Format(operand: string, op: string, text: string): string
  {
    operand + " " + op + " \"" + text + "\""
  }

  /** One comparison `operand op "value"`. */
  function Comparison(operand: string, alt: string, negate: bool): string
  {
    Format(operand, Operator(alt, negate), MatchText(alt))
  }

  /** The comparisons of all alternatives, joined by ` || `. */
  function Disjunction(operand: string, alts: seq<string>, negate: bool): string
    decreases |alts|
  {
    if alts == [] then ""
    else if |alts| == 1 then Comparison(operand, alts[0], negate)
    else Disjunction(operand, alts[..|alts| - 1], negate) + " || " + Comparison(operand, alts[|alts| - 1], negate)
  }

  /** The separator that makes a matcher after the first one a new AND group. */
  function AndSeparator(idx: nat): string
  {
    if idx > 0 then ") && (" else ""
  }

  /** The text `build_condition(alts, idx, operand, negate)` appends. */
  function ConditionText(alts: seq<string>, idx: nat, operand: string, negate: bool): string
  {
    if alts == [] then "" else AndSeparator(idx) + Disjunction(operand, alts, negate)
  }

  /** The characters whose occurrences in a guard are counted below. */
  predicate Tracked(c: char)
  {
    c == '(' || c == ')' || c == '&' || c == '|'
  }

  /** How often the fixed separators hold each tracked character. */
  lemma SeparatorCounts(c: char)
    requires Tracked(c)
    ensures Count(c, ") && (") == if c == '&' then 2 else if c == '|' then 0 else 1
    ensures Count(c, " || ") == if c == '|' then 2 else 0
  {
  }

  /** Besides the operand, a comparison holds the tracked characters of its alternative. */
  lemma ComparisonCount(c: char, operand: string, alt: string, negate: bool)
    requires Tracked(c)
    ensures Count(c, Comparison(operand, alt, negate)) == Count(c, operand) + Count(c, alt)
  {
    var op := Operator(alt, negate);
    var v := MatchText(alt);
    if HasWildcard(alt) {
      PromoteCount(c, alt);
    }
    assert c !in op && c !in " " && c !in " \"" && c !in "\"";
    CountConcat(c, operand, " ");
    CountConcat(c, operand + " ", op);
    CountConcat(c, operand + " " + op, " \"");
    CountConcat(c, operand + " " + op + " \"", v);
    CountConcat(c, operand + " " + op + " \"" + v, "\"");
  }

  /**
   * k alternatives give k comparisons joined by k - 1 ` || `: a tracked
   * character occurs k times per occurrence in the operand, once per
   * occurrence in the alternatives, and `|` twice more per join.
   */
  lemma {:induction false} DisjunctionCount(c: char, operand: string, alts: seq<string>, negate: bool)
    requires Tracked(c)
    ensures Count(c, Disjunction(operand, alts, negate)) ==
      |alts| * Count(c, operand) + CountAll(c, alts) + (if c == '|' && alts != [] then 2 * (|alts| - 1) else 0)
    decreases |alts|
  {
    if |alts| == 1 {
      ComparisonCount(c, operand, alts[0], negate);
      assert alts[1..] == [];
    } else if |alts| > 1 {
      var n := |alts|;
      var init := alts[..n - 1];
      var d := Disjunction(operand, init, negate);
      var cmp := Comparison(operand, alts[n - 1], negate);
      assert Disjunction(operand, alts, negate) == d + " || " + cmp;
      DisjunctionCount(c, operand, init, negate);
      ComparisonCount(c, operand, alts[n - 1], negate);
      CountAllLast(c, alts);
      JoinCount(c, d, cmp);
      DisjunctionStep(n, Count(c, operand), CountAll(c, init), Count(c, alts[n - 1]), c == '|');
    }
  }

  lemma JoinCount(c: char, d: string, e: string)
    requires Tracked(c)
    ensures Count(c, d + " || " + e) == Count(c, d) + Count(c, e) + (if c == '|' then 2 else 0)
  {
    CountConcat(c, d, " || ");
    CountConcat(c, d + " || ", e);
    SeparatorCounts(c);
  }

  /** The arithmetic of one more alternative. */
  lemma DisjunctionStep(n: int, x: int, a: int, l: int, bar: bool)
    requires n >= 2
    ensures (n - 1) * x + a + (if bar then 2 * (n - 1 - 1) else 0) + (x + l) + (if bar then 2 else 0) ==
      n * x + (a + l) + (if bar then 2 * (n - 1) else 0)
  {
  }

  /** Alternatives free of `|` are joined by exactly |alts| - 1 ` || `. */
  lemma DisjunctionBars(operand: string, alts: seq<string>, negate: bool)
    requires |alts| >= 1
    requires '|' !in operand
    requires forall i :: 0 <= i < |alts| ==> '|' !in alts[i]
    ensures Count('|', Disjunction(operand, alts, negate)) == 2 * (|alts| - 1)
  {
    DisjunctionCount('|', operand, alts, negate);
    CountAllAbsent('|', alts);
    assert Count('|', operand) == 0;
    MulZero(|alts|);
  }

  lemma {:induction false} CountAllAbsent(c: char, parts: seq<string>)
    requires forall i :: 0 <= i < |parts| ==> c !in parts[i]
    ensures CountAll(c, parts) == 0
  {
    if parts != [] {
      CountAllAbsent(c, parts[1..]);
    }
  }

  /** The operand of a `query` matcher. */
  function QueryOperand(name: string): string
  {
    "querystring.get" + "(" + "req.url, \"" + name + "\"" + ")"
  }

  /** The operand of a `cookie` matcher. */
  function CookieOperand(name: string): string
  {
    "req.http.cookie:" + name
  }

  /** The operand of a `regex` matcher is always the full request URL. */
  function RegexClause(value: string, idx: nat, negate: bool): string
  {
    AndSeparator(idx) + "var.cust_full_path " + (if negate then "!~" else "~") + " \"" + value + "\""
  }

  lemma RegexClauseSplit(value: string, idx: nat, negate: bool)
    ensures RegexClause(value, idx, negate) ==
      AndSeparator(idx) + ("var.cust_full_path " + (if negate then "!~" else "~") + " \"" + value + "\"")
  {
  }

  /**
   * The text one matcher at index `idx` adds to the guard, or `None` when
   * the handler throws on it: a `query` or `cookie` value without `=`
   * leaves the second destructured name `undefined`, and `.split` on it
   * raises a TypeError. An unknown type adds nothing.
   */
  function MatcherClause(m: Matcher, idx: nat): Option<string>
  {
    match m.matchType
    case Regex => Some(RegexClause(m.matchValue, idx, m.negate))
    case Query =>
      (match SplitFirst(m.matchValue, '=')
       case None => None
       case Some(p) => Some(ConditionText(SplitOn(p.1, ' '), idx, QueryOperand(p.0), m.negate)))
    case Hostname => Some(ConditionText(SplitOn(m.matchValue, ' '), idx, "req.http.host", m.negate))
    case Path => Some(ConditionText(SplitOn(m.matchValue, ' '), idx, "req.url.path", m.negate))
    case Cookie =>
      (match SplitFirst(m.matchValue, '=')
       case None => None
       case Some(p) => Some(ConditionText(SplitOn(p.1, ' '), idx, CookieOperand(p.0), m.negate)))
    case Extension => Some(ConditionText(SplitOn(m.matchValue, ' '), idx, "req.url.ext", m.negate))
    case Unknown(_) => Some("")
  }

  /** A matcher the handler can compile without throwing. */
  predicate Splittable(m: Matcher)
  {
    (m.matchType.Query? || m.matchType.Cookie?) ==> '=' in m.matchValue
  }

  lemma MatcherThrowsIff(m: Matcher, idx: nat)
    ensures MatcherClause(m, idx).None? <==> !Splittable(m)
  {
  }

  /** The text the matchers add to a guard, and whether the handler threw. */
  datatype Emitted = Emitted(text: string, threw: bool)

  /** The matchers of `ms` in order, stopping at the first one that throws. */
  function Clauses(ms: seq<Matcher>): Emitted
    decreases |ms|
  {
    if ms == [] then Emitted("", false)
    else
      var prev := Clauses(ms[..|ms| - 1]);
      if prev.threw then prev
      else match MatcherClause(ms[|ms| - 1], |ms| - 1)
        case None => Emitted(prev.text, true)
        case Some(c) => Emitted(prev.text + c, false)
  }

  /** A rule's compilation throws exactly when one of its matchers does. */
  lemma {:induction false} ClausesThrowIff(ms: seq<Matcher>)
    ensures Clauses(ms).threw <==> exists i :: 0 <= i < |ms| && !Splittable(ms[i])
    decreases |ms|
  {
    if ms != [] {
      var init := ms[..|ms| - 1];
      ClausesThrowIff(init);
      MatcherThrowsIff(ms[|ms| - 1], |ms| - 1);
      if exists i :: 0 <= i < |init| && !Splittable(init[i]) {
        var i :| 0 <= i < |init| && !Splittable(init[i]);
        assert ms[i] == init[i];
      }
      if exists i :: 0 <= i < |ms| && !Splittable(ms[i]) {
        var i :| 0 <= i < |ms| && !Splittable(ms[i]);
        if i < |init| {
          assert init[i] == ms[i];
        }
      }
    }
  }

  /** `build_condition` appends one separator and one comparison per alternative. */
  lemma ConditionTextStep(alts: seq<string>, i: nat, idx: nat, operand: string, negate: bool)
    requires i < |alts|
    ensures ConditionText(alts[..i + 1], idx, operand, negate) ==
      ConditionText(alts[..i], idx, operand, negate) + (if i == 0 then AndSeparator(idx) else " || ") +
      Comparison(operand, alts[i], negate)
  {
    assert alts[..i + 1][..i] == alts[..i];
    if i == 0 {
      assert alts[..1] == [alts[0]];
    } else {
      var d := Disjunction(operand, alts[..i], negate);
      assert AndSeparator(idx) + (d + " || " + Comparison(operand, alts[i], negate)) ==
        AndSeparator(idx) + d + " || " + Comparison(operand, alts[i], negate);
    }
  }

  /** The loop of `build_condition`, one alternative further, on the buffer it appends to. */
  lemma ConditionTextAppend(pre: string, cur: string, alts: seq<string>, i: nat, idx: nat, operand: string,
                            negate: bool, sep: string, op: string, text: string)
    requires i < |alts|
    requires cur == pre + ConditionText(alts[..i], idx, operand, negate)
    requires sep == (if i == 0 then AndSeparator(idx) else " || ")
    requires op == Operator(alts[i], negate) && text == MatchText(alts[i])
    ensures cur + (sep + Format(operand, op, text)) ==
      pre + ConditionText(alts[..i + 1], idx, operand, negate)
  {
    var comparison := Format(operand, op, text);
    ConditionTextStep(alts, i, idx, operand, negate);
    var x := ConditionText(alts[..i], idx, operand, negate);
    AppendAssoc(pre + x, sep, comparison);
    AppendAssoc(pre, x + sep, comparison);
    AppendAssoc(pre, x, sep);
  }

  /** The loop over the matchers, one matcher further. */
  lemma ClausesStep(ms: seq<Matcher>, k: nat)
    requires k < |ms| && !Clauses(ms[..k]).threw
    ensures Clauses(ms[..k + 1]).threw <==> MatcherClause(ms[k], k).None?
    ensures !Clauses(ms[..k + 1]).threw ==>
      Clauses(ms[..k + 1]).text == Clauses(ms[..k]).text + MatcherClause(ms[k], k).value
    ensures Clauses(ms[..k + 1]).threw ==> Clauses(ms[..k + 1]).text == Clauses(ms[..k]).text
  {
    assert ms[..k + 1][..k] == ms[..k];
  }

  /** Once a matcher throws, the matchers after it add nothing. */
  lemma {:induction false} ClausesStop(ms: seq<Matcher>, j: nat)
    requires j <= |ms| && Clauses(ms[..j]).threw
    ensures Clauses(ms) == Clauses(ms[..j])
    decreases |ms| - j
  {
    if j < |ms| {
      assert ms[..j + 1][..j] == ms[..j];
      ClausesStop(ms, j + 1);
    } else {
      assert ms[..j] == ms;
    }
  }

  /** The guard: one `(` per matcher, the clauses, one `)` per matcher. */
  function Guard(ms: seq<Matcher>): string
  {
    Repeat('(', |ms|) + Clauses(ms).text + Repeat(')', |ms|)
  }

  /** As many `(` as `)`. */
  predicate Balanced(s: string)
  {
    Count('(', s) == Count(')', s)
  }

  /** The fixed text around the name of a `query` operand. */
  lemma QueryOperandPieces(c: char)
    requires Tracked(c)
    ensures Count(c, "querystring.get") == 0 && Count(c, "req.url, \"") == 0 && Count(c, "\"") == 0
    ensures Count(c, "(") == (if c == '(' then 1 else 0) && Count(c, ")") == (if c == ')' then 1 else 0)
  {
    QueryHeadCount(c);
    QueryMidCount(c);
    QuoteCount(c);
    CountOne(c, '(');
    CountOne(c, ')');
  }

  lemma QueryHeadCount(c: char)
    requires Tracked(c)
    ensures Count(c, "querystring.get") == 0
  {
    assert c !in "querystring.get";
  }

  lemma QueryMidCount(c: char)
    requires Tracked(c)
    ensures Count(c, "req.url, \"") == 0
  {
    assert c !in "req.url, \"";
  }

  lemma QuoteCount(c: char)
    requires Tracked(c)
    ensures Count(c, "\"") == 0
  {
  }

  lemma CountOne(c: char, d: char)
    ensures Count(c, [d]) == if c == d then 1 else 0
  {
    assert [d][1..] == [];
  }

  lemma ConcatCount5(c: char, a: string, b: string, d: string, e: string, f: string, g: string)
    ensures Count(c, a + b + d + e + f + g) ==
      Count(c, a) + Count(c, b) + Count(c, d) + Count(c, e) + Count(c, f) + Count(c, g)
  {
    CountConcat(c, a, b);
    CountConcat(c, a + b, d);
    CountConcat(c, a + b + d, e);
    CountConcat(c, a + b + d + e, f);
    CountConcat(c, a + b + d + e + f, g);
  }

  /** A `query` operand holds one `(` and one `)` besides those of its name. */
  lemma QueryOperandCount(c: char, name: string)
    requires Tracked(c)
    ensures Count(c, QueryOperand(name)) == Count(c, name) + if c == '(' || c == ')' then 1 else 0
  {
    QueryOperandPieces(c);
    ConcatCount5(c, "querystring.get", "(", "req.url, \"", name, "\"", ")");
  }

  /** A `cookie` operand holds the tracked characters of its name and no others. */
  lemma CookieOperandCount(c: char, name: string)
    requires Tracked(c)
    ensures Count(c, CookieOperand(name)) == Count(c, name)
  {
    CookieHeadCount(c);
    CountConcat(c, "req.http.cookie:", name);
  }

  lemma CookieHeadCount(c: char)
    requires Tracked(c)
    ensures Count(c, "req.http.cookie:") == 0
  {
    assert c !in "req.http.cookie:";
  }

  lemma AndSeparatorCount(c: char, idx: nat)
    requires Tracked(c)
    ensures Count(c, AndSeparator(idx)) ==
      if idx == 0 || c == '|' then 0 else if c == '&' then 2 else 1
  {
    SeparatorCounts(c);
  }

  lemma ConditionTextCount(c: char, alts: seq<string>, idx: nat, operand: string, negate: bool)
    requires Tracked(c) && c != '|' && |alts| >= 1
    ensures Count(c, ConditionText(alts, idx, operand, negate)) ==
      Count(c, AndSeparator(idx)) + |alts| * Count(c, operand) + CountAll(c, alts)
  {
    DisjunctionCount(c, operand, alts, negate);
    CountConcat(c, AndSeparator(idx), Disjunction(operand, alts, negate));
  }

  /**
   * The text of `build_condition` for alternatives that together are
   * balanced in `(` and `)` and a balanced operand: balanced too, and
   * without `&` in alternatives and operand, with `&&` only in its AND
   * separator.
   */
  lemma ConditionTextCounts(alts: seq<string>, idx: nat, operand: string, negate: bool)
    requires |alts| >= 1
    requires CountAll('(', alts) == CountAll(')', alts) && Balanced(operand)
    ensures Balanced(ConditionText(alts, idx, operand, negate))
    ensures CountAll('&', alts) == 0 && '&' !in operand ==>
      Count('&', ConditionText(alts, idx, operand, negate)) == if idx > 0 then 2 else 0
  {
    ConditionTextBalanced(alts, idx, operand, negate);
    if CountAll('&', alts) == 0 && '&' !in operand {
      ConditionTextAmps(alts, idx, operand, negate);
    }
  }

  lemma ConditionTextBalanced(alts: seq<string>, idx: nat, operand: string, negate: bool)
    requires |alts| >= 1
    requires CountAll('(', alts) == CountAll(')', alts) && Balanced(operand)
    ensures Balanced(ConditionText(alts, idx, operand, negate))
  {
    AndSeparatorCount('(', idx);
    AndSeparatorCount(')', idx);
    ConditionTextCount('(', alts, idx, operand, negate);
    ConditionTextCount(')', alts, idx, operand, negate);
    SameProduct(|alts|, Count('(', operand), Count(')', operand));
  }

  lemma SameProduct(k: int, x: int, y: int)
    requires x == y
    ensures k * x == k * y
  {
  }

  lemma ConditionTextAmps(alts: seq<string>, idx: nat, operand: string, negate: bool)
    requires |alts| >= 1
    requires CountAll('&', alts) == 0 && '&' !in operand
    ensures Count('&', ConditionText(alts, idx, operand, negate)) == if idx > 0 then 2 else 0
  {
    AndSeparatorCount('&', idx);
    ConditionTextCount('&', alts, idx, operand, negate);
    assert Count('&', operand) == 0;
    MulZero(|alts|);
  }

  lemma MulZero(n: int)
    ensures n * 0 == 0
  {
  }

  /** The fixed text around the value of a `regex` clause. */
  lemma RegexClausePieces(c: char, negate: bool)
    requires Tracked(c)
    ensures Count(c, "var.cust_full_path ") == 0 && Count(c, if negate then "!~" else "~") == 0
    ensures Count(c, " \"") == 0 && Count(c, "\"") == 0
  {
    assert c !in "var.cust_full_path " && c !in " \"" && c !in "\"";
    assert c !in "!~" && c !in "~";
  }

  /** Besides its AND separator, a `regex` clause holds the tracked characters of its value. */
  lemma RegexClauseCount(c: char, value: string, idx: nat, negate: bool)
    requires Tracked(c)
    ensures Count(c, RegexClause(value, idx, negate)) == Count(c, AndSeparator(idx)) + Count(c, value)
  {
    RegexClausePieces(c, negate);
    ConcatCount5(c, AndSeparator(idx), "var.cust_full_path ", if negate then "!~" else "~", " \"", value, "\"");
  }

  /** A balanced regex, capture groups included, gives a balanced clause. */
  lemma RegexClauseCounts(value: string, idx: nat, negate: bool)
    requires Balanced(value)
    ensures Balanced(RegexClause(value, idx, negate))
    ensures '&' !in value ==> Count('&', RegexClause(value, idx, negate)) == if idx > 0 then 2 else 0
  {
    AndSeparatorCount('(', idx);
    AndSeparatorCount(')', idx);
    AndSeparatorCount('&', idx);
    RegexClauseCount('(', value, idx, negate);
    RegexClauseCount(')', value, idx, negate);
    RegexClauseCount('&', value, idx, negate);
  }

  /**
   * The brackets of a matcher's value are balanced where the clause repeats
   * them: in the whole value, and for `query` and `cookie` in the name and
   * in the rest on either side of the first `=`.
   */
  predicate BalancedMatcher(m: Matcher)
  {
    match m.matchType
    case Query | Cookie =>
      (match SplitFirst(m.matchValue, '=')
       case None => true
       case Some(p) => Balanced(p.0) && Balanced(p.1))
    case Unknown(_) => true
    case _ => Balanced(m.matchValue)
  }

  /** The alternatives split off a value hold all its tracked characters. */
  lemma SplitListCounts(s: string)
    ensures CountAll('(', SplitOn(s, ' ')) == Count('(', s)
    ensures CountAll(')', SplitOn(s, ' ')) == Count(')', s)
    ensures CountAll('&', SplitOn(s, ' ')) == Count('&', s)
  {
    SplitOnCount(s, ' ', '(');
    SplitOnCount(s, ' ', ')');
    SplitOnCount(s, ' ', '&');
  }

  /** The clause of a `query` matcher whose value splits at `=`. */
  lemma QueryClauseCounts(value: string, idx: nat, negate: bool)
    requires SplitFirst(value, '=').Some?
    requires Balanced(SplitFirst(value, '=').value.0) && Balanced(SplitFirst(value, '=').value.1)
    ensures var p := SplitFirst(value, '=').value;
      Balanced(ConditionText(SplitOn(p.1, ' '), idx, QueryOperand(p.0), negate))
    ensures var p := SplitFirst(value, '=').value;
      '&' !in value ==>
        Count('&', ConditionText(SplitOn(p.1, ' '), idx, QueryOperand(p.0), negate)) == if idx > 0 then 2 else 0
  {
    var p := SplitFirst(value, '=').value;
    SplitListCounts(p.1);
    QueryOperandCount('(', p.0);
    QueryOperandCount(')', p.0);
    QueryOperandCount('&', p.0);
    SplitFirstCount(value, '=', '&');
    ConditionTextCounts(SplitOn(p.1, ' '), idx, QueryOperand(p.0), negate);
  }

  /** The clause of a `cookie` matcher whose value splits at `=`. */
  lemma CookieClauseCounts(value: string, idx: nat, negate: bool)
    requires SplitFirst(value, '=').Some?
    requires Balanced(SplitFirst(value, '=').value.0) && Balanced(SplitFirst(value, '=').value.1)
    ensures var p := SplitFirst(value, '=').value;
      Balanced(ConditionText(SplitOn(p.1, ' '), idx, CookieOperand(p.0), negate))
    ensures var p := SplitFirst(value, '=').value;
      '&' !in value ==>
        Count('&', ConditionText(SplitOn(p.1, ' '), idx, CookieOperand(p.0), negate)) == if idx > 0 then 2 else 0
  {
    var p := SplitFirst(value, '=').value;
    SplitListCounts(p.1);
    CookieOperandCount('(', p.0);
    CookieOperandCount(')', p.0);
    CookieOperandCount('&', p.0);
    SplitFirstCount(value, '=', '&');
    ConditionTextCounts(SplitOn(p.1, ' '), idx, CookieOperand(p.0), negate);
  }

  /** The clause of a `hostname`, `path` or `extension` matcher. */
  lemma AttributeClauseCounts(value: string, idx: nat, operand: string, negate: bool)
    requires Balanced(value)
    requires operand == "req.http.host" || operand == "req.url.path" || operand == "req.url.ext"
    ensures Balanced(ConditionText(SplitOn(value, ' '), idx, operand, negate))
    ensures '&' !in value ==>
      Count('&', ConditionText(SplitOn(value, ' '), idx, operand, negate)) == if idx > 0 then 2 else 0
  {
    SplitListCounts(value);
    AttributeOperandPlain(operand);
    ConditionTextCounts(SplitOn(value, ' '), idx, operand, negate);
  }

  lemma AttributeOperandPlain(operand: string)
    requires operand == "req.http.host" || operand == "req.url.path" || operand == "req.url.ext"
    ensures Count('(', operand) == 0 && Count(')', operand) == 0 && '&' !in operand
  {
    if operand == "req.http.host" {
      assert '(' !in "req.http.host" && ')' !in "req.http.host" && '&' !in "req.http.host";
    } else if operand == "req.url.path" {
      assert '(' !in "req.url.path" && ')' !in "req.url.path" && '&' !in "req.url.path";
    } else {
      assert '(' !in "req.url.ext" && ')' !in "req.url.ext" && '&' !in "req.url.ext";
    }
  }

  /** Every clause is balanced in `(` and `)` and holds `&&` only as its separator. */
  lemma ClauseCounts(m: Matcher, idx: nat)
    requires BalancedMatcher(m) && MatcherClause(m, idx).Some?
    ensures Balanced(MatcherClause(m, idx).value)
    ensures '&' !in m.matchValue ==>
      Count('&', MatcherClause(m, idx).value) == if idx > 0 && !m.matchType.Unknown? then 2 else 0
  {
    match m.matchType
    case Regex => RegexClauseCounts(m.matchValue, idx, m.negate);
    case Query => QueryClauseCounts(m.matchValue, idx, m.negate);
    case Cookie => CookieClauseCounts(m.matchValue, idx, m.negate);
    case Hostname => AttributeClauseCounts(m.matchValue, idx, "req.http.host", m.negate);
    case Path => AttributeClauseCounts(m.matchValue, idx, "req.url.path", m.negate);
    case Extension => AttributeClauseCounts(m.matchValue, idx, "req.url.ext", m.negate);
    case Unknown(_) =>
  }

  /** Matchers at index > 0 of a known type: each is joined to the guard by `) && (`. */
  function AndJoins(ms: seq<Matcher>): nat
    decreases |ms|
  {
    if ms == [] then 0
    else AndJoins(ms[..|ms| - 1]) + (if |ms| > 1 && !ms[|ms| - 1].matchType.Unknown? then 1 else 0)
  }

  lemma {:induction false} AllKnownAndJoins(ms: seq<Matcher>)
    requires |ms| >= 1
    requires forall i :: 0 <= i < |ms| ==> !ms[i].matchType.Unknown?
    ensures AndJoins(ms) == |ms| - 1
    decreases |ms|
  {
    if |ms| > 1 {
      var init := ms[..|ms| - 1];
      assert forall i :: 0 <= i < |init| ==> init[i] == ms[i];
      AllKnownAndJoins(init);
    }
  }

  lemma {:induction false} ClausesCounts(ms: seq<Matcher>)
    requires forall i :: 0 <= i < |ms| ==> BalancedMatcher(ms[i])
    ensures Balanced(Clauses(ms).text)
    ensures (forall i :: 0 <= i < |ms| ==> '&' !in ms[i].matchValue) && !Clauses(ms).threw ==>
      Count('&', Clauses(ms).text) == 2 * AndJoins(ms)
    decreases |ms|
  {
    if ms != [] {
      var init := ms[..|ms| - 1];
      var last := ms[|ms| - 1];
      assert forall i :: 0 <= i < |init| ==> init[i] == ms[i];
      ClausesCounts(init);
      var prev := Clauses(init);
      if !prev.threw && MatcherClause(last, |ms| - 1).Some? {
        var t := MatcherClause(last, |ms| - 1).value;
        ClauseCounts(last, |ms| - 1);
        CountConcat('(', prev.text, t);
        CountConcat(')', prev.text, t);
        CountConcat('&', prev.text, t);
      }
    }
  }

  /**
   * With balanced matchers a guard is balanced, and when no value holds `&`
   * and every matcher is of a known type, the N matchers are joined by
   * N - 1 `&&`.
   */
  lemma GuardCounts(ms: seq<Matcher>)
    requires forall i :: 0 <= i < |ms| ==> BalancedMatcher(ms[i])
    ensures Balanced(Guard(ms))
    ensures ((forall i :: 0 <= i < |ms| ==> '&' !in ms[i].matchValue) && !Clauses(ms).threw && |ms| >= 1 &&
             (forall i :: 0 <= i < |ms| ==> !ms[i].matchType.Unknown?)) ==>
      Count('&', Guard(ms)) == 2 * (|ms| - 1)
  {
    var n := |ms|;
    ClausesCounts(ms);
    GuardCount('(', ms);
    GuardCount(')', ms);
    GuardCount('&', ms);
    CountRepeat('(', '(', n);
    CountRepeat('(', ')', n);
    CountRepeat(')', '(', n);
    CountRepeat(')', ')', n);
    CountRepeat('&', '(', n);
    CountRepeat('&', ')', n);
    if |ms| >= 1 && forall i :: 0 <= i < |ms| ==> !ms[i].matchType.Unknown? {
      AllKnownAndJoins(ms);
    }
  }

  lemma GuardCount(c: char, ms: seq<Matcher>)
    ensures Count(c, Guard(ms)) ==
      Count(c, Repeat('(', |ms|)) + Count(c, Clauses(ms).text) + Count(c, Repeat(')', |ms|))
  {
    CountConcat(c, Repeat('(', |ms|), Clauses(ms).text);
    CountConcat(c, Repeat('(', |ms|) + Clauses(ms).text, Repeat(')', |ms|));
  }

  /** Past index 0, the clause of a known matcher opens with `) && (`. */
  lemma KnownClauseOpens(m: Matcher, idx: nat)
    requires idx > 0 && !m.matchType.Unknown? && MatcherClause(m, idx).Some?
    ensures StartsWith(MatcherClause(m, idx).value, ") && (")
  {
    var t := MatcherClause(m, idx).value;
    if m.matchType.Regex? {
      var op := if m.negate then "!~" else "~";
      assert t == ") && (" + ("var.cust_full_path " + op + " \"" + m.matchValue + "\"");
      PrefixOfConcat(") && (", "var.cust_full_path " + op + " \"" + m.matchValue + "\"");
    } else {
      var alts := if m.matchType.Query? || m.matchType.Cookie? then
        SplitOn(SplitFirst(m.matchValue, '=').value.1, ' ') else SplitOn(m.matchValue, ' ');
      assert |alts| >= 1;
      assert exists d :: t == ") && (" + d;
      var d :| t == ") && (" + d;
      PrefixOfConcat(") && (", d);
    }
  }

  /**
   * A matcher of unknown type at index 0 still counts in the `(` repeat,
   * while the next known matcher opens with `) && (`: the guard starts
   * with an empty group `()`.
   */
  lemma UnknownFirstMatcher(u: Matcher, m: Matcher)
    requires u.matchType.Unknown? && !m.matchType.Unknown? && Splittable(m)
    ensures StartsWith(Guard([u, m]), "(()")
  {
    MatcherThrowsIff(m, 1);
    var t := MatcherClause(m, 1).value;
    TwoClauses(u, m);
    KnownClauseOpens(m, 1);
    assert t[0] == ')';
    var g := Guard([u, m]);
    assert Repeat('(', 2) == "((";
    assert g == "((" + t + Repeat(')', 2);
    assert g[0] == '(' && g[1] == '(' && g[2] == ')';
  }

  /** Behind an unknown matcher, the clauses are those of the second matcher. */
  lemma TwoClauses(u: Matcher, m: Matcher)
    requires u.matchType.Unknown? && MatcherClause(m, 1).Some?
    ensures Clauses([u, m]).text == MatcherClause(m, 1).value
  {
    assert [u, m][..1] == [u];
    assert [u][..0] == [];
    assert Clauses([u]) == Emitted("", false);
  }
}
