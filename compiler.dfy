/**
 * The POST handler's compiler as the source runs it: module-level buffers
 * that are set up once and only ever appended to, per-call locals reset at
 * the start of every call, a loop over the rules, a loop over each rule's
 * matchers, and `build_condition`'s loop over the alternatives.
 */
module Compiler {
  import opened Options
  import opened Strings
  import opened Rules
  import opened Condition
  import opened CompileSpec
  import opened CompileFacts
  import opened Snippets

  /** What the handler answers: the `response` text, or a TypeError out of the loop. */
  datatype Reply = Sent(body: string) | TypeError

  class RedirectCompiler {
    /** The module-level `cloudlet_redirect_table` buffer. */
    var table: string
    /** The module-level `cloudlet_redirect_logic` buffer. */
    var logic: string
    /** The module-level `cloudlet_redirect_handler` text, which nothing changes. */
    const handler: string
    /** The `vcl` texts of the `init`, `recv` and `error` snippets in `vcl_snippets`. */
    var tableSnippet: string
    var logicSnippet: string
    var handlerSnippet: string
    /** The handler's locals `strict_redirects`, `response` and `first_if`. */
    var strictRedirects: seq<MatchUrl>
    var response: string
    var firstIf: nat

    /** The part of the object the rule loop works on. */
    function State(): Acc
      reads this
    {
      Acc(table, logic, strictRedirects, response, firstIf)
    }

    /** The module as it is loaded: the buffers hold their opening text, the snippets are empty. */
    constructor()
      ensures table == TableInit && logic == LogicInit && handler == HandlerText
      ensures tableSnippet == "" && logicSnippet == "" && handlerSnippet == ""
      ensures strictRedirects == [] && response == "" && firstIf == 0
    {
      table := TableInit;
      logic := LogicInit;
      handler := HandlerText;
      tableSnippet := "";
      logicSnippet := "";
      handlerSnippet := "";
      strictRedirects := [];
      response := "";
      firstIf := 0;
    }

    /**
     * `build_condition`: one comparison per alternative, the first preceded
     * by `) && (` past the first matcher, the others by ` || `.
     */
    method BuildCondition(alts: seq<string>, idx: nat, operand: string, negate: bool)
      modifies this
      ensures logic == old(logic) + ConditionText(alts, idx, operand, negate)
      ensures table == old(table) && strictRedirects == old(strictRedirects)
      ensures response == old(response) && firstIf == old(firstIf)
      ensures tableSnippet == old(tableSnippet) && logicSnippet == old(logicSnippet)
      ensures handlerSnippet == old(handlerSnippet)
    {
      var i := 0;
      while i < |alts|
        invariant 0 <= i <= |alts|
        invariant logic == old(logic) + ConditionText(alts[..i], idx, operand, negate)
        invariant table == old(table) && strictRedirects == old(strictRedirects)
        invariant response == old(response) && firstIf == old(firstIf)
        invariant tableSnippet == old(tableSnippet) && logicSnippet == old(logicSnippet)
        invariant handlerSnippet == old(handlerSnippet)
      {
        var alt := alts[i];
        var text := MatchText(alt);
        var op := Operator(alt, negate);
        var sep := if i == 0 then AndSeparator(idx) else " || ";
        ConditionTextAppend(old(logic), logic, alts, i, idx, operand, negate, sep, op, text);
        logic := logic + (sep + Format(operand, op, text));
        i := i + 1;
      }
      assert alts[..i] == alts;
    }

    /** The `switch` on one matcher; `threw` when `.split` meets `undefined`. */
    method EmitMatcher(m: Matcher, idx: nat) returns (threw: bool)
      modifies this
      ensures threw <==> MatcherClause(m, idx).None?
      ensures !threw ==> logic == old(logic) + MatcherClause(m, idx).value
      ensures threw ==> logic == old(logic)
      ensures table == old(table) && strictRedirects == old(strictRedirects)
      ensures response == old(response) && firstIf == old(firstIf)
      ensures tableSnippet == old(tableSnippet) && logicSnippet == old(logicSnippet)
      ensures handlerSnippet == old(handlerSnippet)
    {
      threw := false;
      match m.matchType {
        case Regex =>
          var before := logic;
          if idx > 0 {
            logic := logic + ") && (";
          }
          assert logic == before + AndSeparator(idx);
          var clause;
          if m.negate {
            clause := "var.cust_full_path " + "!~" + " \"" + m.matchValue + "\"";
          } else {
            clause := "var.cust_full_path " + "~" + " \"" + m.matchValue + "\"";
          }
          RegexClauseSplit(m.matchValue, idx, m.negate);
          AppendAssoc(before, AndSeparator(idx), clause);
          logic := logic + clause;
        case Query =>
          var parts := SplitFirst(m.matchValue, '=');
          if parts.None? {
            threw := true;
            return;
          }
          BuildCondition(SplitOn(parts.value.1, ' '), idx, QueryOperand(parts.value.0), m.negate);
        case Hostname =>
          BuildCondition(SplitOn(m.matchValue, ' '), idx, "req.http.host", m.negate);
        case Path =>
          BuildCondition(SplitOn(m.matchValue, ' '), idx, "req.url.path", m.negate);
        case Cookie =>
          var parts := SplitFirst(m.matchValue, '=');
          if parts.None? {
            threw := true;
            return;
          }
          BuildCondition(SplitOn(parts.value.1, ' '), idx, CookieOperand(parts.value.0), m.negate);
        case Extension =>
          BuildCondition(SplitOn(m.matchValue, ' '), idx, "req.url.ext", m.negate);
        case Unknown(_) =>
      }
    }

    /** One iteration of the rule loop. */
    method CompileRule(e: Entry) returns (threw: bool)
      modifies this
      ensures Outcome(State(), threw) == Step(old(State()), e)
      ensures tableSnippet == old(tableSnippet) && logicSnippet == old(logicSnippet)
      ensures handlerSnippet == old(handlerSnippet)
    {
      threw := false;
      var r := e.rule;
      if r.ruleType != EdgeRedirect {
        return;
      }
      if !r.matchURL.NullUrl? {
        if r.matchURL in strictRedirects {
          response := response + DuplicateLine(e);
        } else {
          strictRedirects := strictRedirects + [r.matchURL];
          table := table + RecordLine(e);
        }
        return;
      }
      var ms := r.matches;
      var start := logic;
      logic := logic + Header(firstIf);
      firstIf := firstIf + 1;
      logic := logic + Repeat('(', |ms|);
      var opening := logic;
      var k := 0;
      while k < |ms|
        invariant 0 <= k <= |ms|
        invariant !Clauses(ms[..k]).threw
        invariant logic == opening + Clauses(ms[..k]).text
        invariant firstIf == old(firstIf) + 1
        invariant table == old(table) && strictRedirects == old(strictRedirects) && response == old(response)
        invariant tableSnippet == old(tableSnippet) && logicSnippet == old(logicSnippet)
        invariant handlerSnippet == old(handlerSnippet)
      {
        ClausesStep(ms, k);
        var before := Clauses(ms[..k]).text;
        var t := EmitMatcher(ms[k], k);
        if t {
          threw := true;
          ClausesStop(ms, k + 1);
          AppendAssoc(start, Header(old(firstIf)) + Repeat('(', |ms|), Clauses(ms).text);
          AppendAssoc(start, Header(old(firstIf)), Repeat('(', |ms|));
          return;
        }
        AppendAssoc(opening, before, MatcherClause(ms[k], k).value);
        k := k + 1;
      }
      assert ms[..k] == ms;
      AppendAssoc(start, Header(old(firstIf)), Repeat('(', |ms|));
      AppendAssoc(start, Header(old(firstIf)) + Repeat('(', |ms|), Clauses(ms).text);
      AppendAssoc(start, Opening(old(firstIf), ms), Closing(e));
      logic := logic + Closing(e);
    }

    /** The three buffers, escaped, become the snippets' code. */
    method StoreSnippets()
      modifies this
      ensures tableSnippet == table && logicSnippet == logic && handlerSnippet == handler
      ensures table == old(table) && logic == old(logic)
      ensures strictRedirects == old(strictRedirects) && response == old(response) && firstIf == old(firstIf)
    {
      tableSnippet := EscapeSpecialChars(table);
      logicSnippet := EscapeSpecialChars(logic);
      handlerSnippet := EscapeSpecialChars(handler);
    }

    /** After the loop: close the table, append the epilogue, store the snippets. */
    method Finish()
      modifies this
      ensures table == old(table) + TableClose && logic == old(logic) + Epilogue
      ensures tableSnippet == table && logicSnippet == logic && handlerSnippet == handler
      ensures strictRedirects == old(strictRedirects) && response == old(response) && firstIf == old(firstIf)
    {
      table := table + TableClose;
      logic := logic + Epilogue;
      StoreSnippets();
    }

    /**
     * The handler after `req.json()`: reset the per-call locals, compile the
     * rules in order and finish; a TypeError in the loop skips everything
     * after it.
     */
    method Handle(es: seq<Entry>) returns (reply: Reply)
      modifies this
      ensures var out := Run(Start(old(table), old(logic)), es);
        strictRedirects == out.acc.strict && response == out.acc.response && firstIf == out.acc.firstIf
      ensures var out := Run(Start(old(table), old(logic)), es);
        out.threw ==> (reply == TypeError && table == out.acc.table && logic == out.acc.logic &&
          tableSnippet == old(tableSnippet) && logicSnippet == old(logicSnippet) &&
          handlerSnippet == old(handlerSnippet))
      ensures var out := Run(Start(old(table), old(logic)), es);
        !out.threw ==> (reply == Sent(out.acc.response) &&
          table == out.acc.table + TableClose && logic == out.acc.logic + Epilogue &&
          tableSnippet == table && logicSnippet == logic && handlerSnippet == handler)
      ensures reply == TypeError <==> Throws(es)
      ensures !Throws(es) ==> (reply == Sent(Reports(es)) &&
        table == old(table) + TableEntries(es) + TableClose &&
        logic == old(logic) + LogicEntries(es) + Epilogue &&
        strictRedirects == TableUrls(es) && firstIf == ConditionCount(es))
    {
      strictRedirects := [];
      response := "";
      firstIf := 0;
      var start := Start(table, logic);
      RunThrowsIff(start, es);
      var i := 0;
      while i < |es|
        invariant 0 <= i <= |es|
        invariant Run(start, es[..i]) == Outcome(State(), false)
        invariant tableSnippet == old(tableSnippet) && logicSnippet == old(logicSnippet)
        invariant handlerSnippet == old(handlerSnippet)
      {
        RunStep(start, es, i);
        var threw := CompileRule(es[i]);
        if threw {
          RunStops(start, es, i + 1);
          reply := TypeError;
          return;
        }
        i := i + 1;
      }
      assert es[..i] == es;
      if !Throws(es) {
        RunMatchesReference(start.table, start.logic, es);
      }
      Finish();
      reply := Sent(response);
    }
  }
}
