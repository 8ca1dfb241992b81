/**
 * The rule loop of the POST handler as a function on values: what one rule
 * does to the two text buffers, the list of table paths seen so far, the
 * `response` text and the `first_if` counter, and what a whole sequence of
 * rules does. Beside it, a reference description of the result that does
 * not replay the loop: which rules reach the table, which are reported as
 * duplicates, which open a condition block, and when the handler throws.
 */
module CompileSpec {
  import opened Options
  import opened Strings
  import opened Rules
  import opened Condition
  import opened RedirectLocation

  /**
   * The compiler's state: the `cloudlet_redirect_table` and
   * `cloudlet_redirect_logic` buffers, `strict_redirects`, `response` and
   * `first_if`.
   */
  datatype Acc = Acc(table: string, logic: string, strict: seq<MatchUrl>, response: string, firstIf: nat)

  /** The state after some rules, and whether the handler threw on the last one. */
  datatype Outcome = Outcome(acc: Acc, threw: bool)

  /** The state at the start of a call: the buffers as earlier calls left them. */
  function Start(table: string, logic: string): Acc
  {
    Acc(table, logic, [], "", 0)
  }

  /** The dictionary value of a table record: `key|status|flag|redirectURL`. */
  function RecordValue(e: Entry): string
  {
    e.key + "|" + StatusText(e.rule) + "|" + QsFlag(e.rule) + "|" + e.rule.redirectURL
  }

  /** One record of `table path_redirect`. */
  function RecordLine(e: Entry): string
  {
    "  \"" + UrlText(e.rule.matchURL) + "\" : \"" + RecordValue(e) + "\",\n"
  }

  /** The line `response` gets for a table path that was already taken. */
  function DuplicateLine(e: Entry): string
  {
    "Entry " + e.key + " - " + UrlText(e.rule.matchURL) + " is a duplicate, ignored.\n"
  }

  /** The first condition block opens with `if`, every later one with `elseif`. */
  function Header(firstIf: nat): string
  {
    if firstIf == 0 then "\n  if " else " elseif "
  }

  /** The body of a condition block, after its guard. */
  function Body(e: Entry): string
  {
    " {\n    set var.cust_location = " + Location(e.rule.redirectURL) +
    "\n    set var.cust_priority = \"" + e.key +
    "\";\n    set var.cust_status_code = \"" + StatusText(e.rule) +
    "\";\n    set var.cust_use_query_string = \"" + QsFlag(e.rule) + "\";\n  }"
  }

  /** A whole condition block, when none of its matchers throws. */
  function Block(e: Entry, firstIf: nat): string
  {
    Header(firstIf) + Guard(e.rule.matches) + Body(e)
  }

  /** What a condition rule appends before its matchers are all done: header, `(`s, clauses. */
  function Opening(firstIf: nat, ms: seq<Matcher>): string
  {
    Header(firstIf) + Repeat('(', |ms|) + Clauses(ms).text
  }

  /** What closes a condition block: the `)`s and the body. */
  function Closing(e: Entry): string
  {
    Repeat(')', |e.rule.matches|) + Body(e)
  }

  /** One iteration of the rule loop. */
  function Step(acc: Acc, e: Entry): Outcome
  {
    var r := e.rule;
    if r.ruleType != EdgeRedirect then Outcome(acc, false)
    else if !r.matchURL.NullUrl? then
      if r.matchURL in acc.strict then
        Outcome(acc.(response := acc.response + DuplicateLine(e)), false)
      else
        Outcome(acc.(table := acc.table + RecordLine(e), strict := acc.strict + [r.matchURL]), false)
    else if Clauses(r.matches).threw then
      Outcome(acc.(logic := acc.logic + Opening(acc.firstIf, r.matches), firstIf := acc.firstIf + 1), true)
    else
      Outcome(acc.(logic := acc.logic + (Opening(acc.firstIf, r.matches) + Closing(e)), firstIf := acc.firstIf + 1), false)
  }

  /** The rule loop over `es`, which stops at the first rule that throws. */
  function Run(acc: Acc, es: seq<Entry>): Outcome
    decreases |es|
  {
    if es == [] then Outcome(acc, false)
    else
      var prev := Run(acc, es[..|es| - 1]);
      if prev.threw then prev else Step(prev.acc, es[|es| - 1])
  }

  // ---------------------------------------------------------------------
  // The reference description.

  /** An earlier table rule of `es` has the same `matchURL` as rule `i`. */
  predicate SeenBefore(es: seq<Entry>, i: int)
    requires 0 <= i < |es|
  {
    exists j :: 0 <= j < i && IsTableRule(es[j].rule) && es[j].rule.matchURL == es[i].rule.matchURL
  }

  /** Rule `i` of `es` is a table rule whose path is not yet taken. */
  predicate FirstOccurrence(es: seq<Entry>, i: int)
    requires 0 <= i < |es|
  {
    IsTableRule(es[i].rule) && !SeenBefore(es, i)
  }

  /** The paths of the first occurrences, in order. */
  function TableUrls(es: seq<Entry>): seq<MatchUrl>
    decreases |es|
  {
    if es == [] then []
    else TableUrls(es[..|es| - 1]) + (if FirstOccurrence(es, |es| - 1) then [es[|es| - 1].rule.matchURL] else [])
  }

  /** The records of the first occurrences, in order. */
  function TableEntries(es: seq<Entry>): string
    decreases |es|
  {
    if es == [] then ""
    else TableEntries(es[..|es| - 1]) + (if FirstOccurrence(es, |es| - 1) then RecordLine(es[|es| - 1]) else "")
  }

  /** The duplicate reports of the later occurrences, in order. */
  function Reports(es: seq<Entry>): string
    decreases |es|
  {
    if es == [] then ""
    else
      var i := |es| - 1;
      Reports(es[..i]) + (if IsTableRule(es[i].rule) && SeenBefore(es, i) then DuplicateLine(es[i]) else "")
  }

  /** The number of condition rules. */
  function ConditionCount(es: seq<Entry>): nat
    decreases |es|
  {
    if es == [] then 0
    else ConditionCount(es[..|es| - 1]) + (if IsConditionRule(es[|es| - 1].rule) then 1 else 0)
  }

  /** The condition blocks, each headed by `if` only when no condition rule came before. */
  function LogicEntries(es: seq<Entry>): string
    decreases |es|
  {
    if es == [] then ""
    else
      var i := |es| - 1;
      LogicEntries(es[..i]) + (if IsConditionRule(es[i].rule) then Block(es[i], ConditionCount(es[..i])) else "")
  }

  /** A condition rule has a `query` or `cookie` matcher whose value has no `=`. */
  predicate ThrowsAt(es: seq<Entry>, i: int)
    requires 0 <= i < |es|
  {
    IsConditionRule(es[i].rule) && exists k :: 0 <= k < |es[i].rule.matches| && !Splittable(es[i].rule.matches[k])
  }

  predicate Throws(es: seq<Entry>)
  {
    exists i :: 0 <= i < |es| && ThrowsAt(es, i)
  }
}

/** What the rule loop promises, proved about the functions of `CompileSpec`. */
module CompileFacts {
  import opened Options
  import opened Strings
  import opened Rules
  import opened Condition
  import opened CompileSpec

  /** The loop reads `es[..|es| - 1]` where the reference reads `es`. */
  lemma InitAgrees(es: seq<Entry>)
    requires es != []
    ensures forall j :: 0 <= j < |es| - 1 ==> es[..|es| - 1][j] == es[j]
  {
  }

  /** One rule throws exactly when it is a condition rule with a matcher that cannot be split. */
  lemma StepThrowsIff(acc: Acc, e: Entry)
    ensures Step(acc, e).threw <==>
      IsConditionRule(e.rule) && exists k :: 0 <= k < |e.rule.matches| && !Splittable(e.rule.matches[k])
  {
    ClausesThrowIff(e.rule.matches);
  }

  /** A rule that throws still throws once more rules follow it. */
  lemma ThrowsOfInit(es: seq<Entry>)
    requires es != []
    ensures Throws(es[..|es| - 1]) ==> Throws(es)
  {
    var init := es[..|es| - 1];
    if Throws(init) {
      var i :| 0 <= i < |init| && ThrowsAt(init, i);
      assert init[i] == es[i];
      assert ThrowsAt(es, i);
    }
  }

  /** The loop throws exactly when some rule throws. */
  lemma {:induction false} RunThrowsIff(acc: Acc, es: seq<Entry>)
    ensures Run(acc, es).threw <==> Throws(es)
    decreases |es|
  {
    if es != [] {
      var n := |es| - 1;
      var init := es[..n];
      InitAgrees(es);
      RunThrowsIff(acc, init);
      var prev := Run(acc, init);
      StepThrowsIff(prev.acc, es[n]);
      assert Run(acc, es).threw == (prev.threw || Step(prev.acc, es[n]).threw);
      ThrowsOfInit(es);
      assert ThrowsAt(es, n) ==> Throws(es);
      assert Throws(es) ==> Throws(init) || ThrowsAt(es, n) by {
        if Throws(es) {
          var i :| 0 <= i < |es| && ThrowsAt(es, i);
          if i < n {
            assert ThrowsAt(init, i);
          }
        }
      }
    }
  }

  /** One rule only appends: to the buffers, to `strict_redirects` and to `response`. */
  lemma StepAppends(acc: Acc, e: Entry)
    ensures var a := Step(acc, e).acc;
      acc.table <= a.table && acc.logic <= a.logic && acc.strict <= a.strict && acc.response <= a.response
  {
    var r := e.rule;
    var a := Step(acc, e).acc;
    if r.ruleType != EdgeRedirect {
    } else if !r.matchURL.NullUrl? {
      PrefixOfConcat(acc.response, DuplicateLine(e));
      PrefixOfConcat(acc.table, RecordLine(e));
      PrefixOfConcat(acc.strict, [r.matchURL]);
    } else {
      var o := Opening(acc.firstIf, r.matches);
      PrefixOfConcat(acc.logic, o);
      PrefixOfConcat(acc.logic, o + Closing(e));
    }
  }

  /** A sequence of rules only appends, whether or not the handler throws. */
  lemma {:induction false} RunAppends(acc: Acc, es: seq<Entry>)
    ensures var a := Run(acc, es).acc;
      acc.table <= a.table && acc.logic <= a.logic && acc.strict <= a.strict && acc.response <= a.response
    decreases |es|
  {
    if es != [] {
      var prev := Run(acc, es[..|es| - 1]);
      RunAppends(acc, es[..|es| - 1]);
      if !prev.threw {
        StepAppends(prev.acc, es[|es| - 1]);
      }
    }
  }

  /** The loop, one rule further. */
  lemma RunStep(acc: Acc, es: seq<Entry>, i: nat)
    requires i < |es| && !Run(acc, es[..i]).threw
    ensures Run(acc, es[..i + 1]) == Step(Run(acc, es[..i]).acc, es[i])
  {
    assert es[..i + 1][..i] == es[..i];
  }

  /** Once a rule throws, the rules after it are not compiled. */
  lemma {:induction false} RunStops(acc: Acc, es: seq<Entry>, j: nat)
    requires j <= |es| && Run(acc, es[..j]).threw
    ensures Run(acc, es) == Run(acc, es[..j])
    decreases |es| - j
  {
    if j < |es| {
      assert es[..j + 1][..j] == es[..j];
      RunStops(acc, es, j + 1);
    } else {
      assert es[..j] == es;
    }
  }

  /** A rule whose type is not `erMatchRule` leaves everything as it was. */
  lemma OtherTypeIgnored(acc: Acc, es: seq<Entry>, e: Entry)
    requires e.rule.ruleType != EdgeRedirect
    ensures Run(acc, es + [e]) == Run(acc, es)
  {
    assert (es + [e])[..|es|] == es;
  }

  /** A path is in `TableUrls` exactly when some table rule has it. */
  lemma {:induction false} TableUrlsMembers(es: seq<Entry>, u: MatchUrl)
    ensures u in TableUrls(es) <==> exists j :: 0 <= j < |es| && IsTableRule(es[j].rule) && es[j].rule.matchURL == u
    decreases |es|
  {
    if es != [] {
      var n := |es| - 1;
      var init := es[..n];
      InitAgrees(es);
      TableUrlsMembers(init, u);
      if exists j :: 0 <= j < |init| && IsTableRule(init[j].rule) && init[j].rule.matchURL == u {
        var j :| 0 <= j < |init| && IsTableRule(init[j].rule) && init[j].rule.matchURL == u;
        assert IsTableRule(es[j].rule) && es[j].rule.matchURL == u;
      }
      if exists j :: 0 <= j < |es| && IsTableRule(es[j].rule) && es[j].rule.matchURL == u {
        var j :| 0 <= j < |es| && IsTableRule(es[j].rule) && es[j].rule.matchURL == u;
        if j < n {
          assert IsTableRule(init[j].rule) && init[j].rule.matchURL == u;
        } else if SeenBefore(es, n) {
          var k :| 0 <= k < n && IsTableRule(es[k].rule) && es[k].rule.matchURL == es[n].rule.matchURL;
          assert IsTableRule(init[k].rule) && init[k].rule.matchURL == u;
        }
      }
    }
  }

  /** The last rule's path was seen before exactly when the earlier rules put it in the table. */
  lemma SeenBeforeIff(es: seq<Entry>)
    requires es != []
    ensures SeenBefore(es, |es| - 1) <==> es[|es| - 1].rule.matchURL in TableUrls(es[..|es| - 1])
  {
    var n := |es| - 1;
    var init := es[..n];
    var u := es[n].rule.matchURL;
    InitAgrees(es);
    TableUrlsMembers(init, u);
    if SeenBefore(es, n) {
      var j :| 0 <= j < n && IsTableRule(es[j].rule) && es[j].rule.matchURL == u;
      assert IsTableRule(init[j].rule) && init[j].rule.matchURL == u;
    }
  }

  /** `strict_redirects` never holds a path twice. */
  lemma {:induction false} TableUrlsDistinct(es: seq<Entry>)
    ensures forall i, j :: 0 <= i < j < |TableUrls(es)| ==> TableUrls(es)[i] != TableUrls(es)[j]
    decreases |es|
  {
    if es != [] {
      var n := |es| - 1;
      TableUrlsDistinct(es[..n]);
      SeenBeforeIff(es);
    }
  }

  /** The state the reference description gives after `es`. */
  function Reference(table: string, logic: string, es: seq<Entry>): Acc
  {
    Acc(table + TableEntries(es), logic + LogicEntries(es), TableUrls(es), Reports(es), ConditionCount(es))
  }

  /** The table rule that comes last is recorded or reported as the reference says. */
  lemma TableStep(table: string, logic: string, es: seq<Entry>)
    requires es != [] && IsTableRule(es[|es| - 1].rule)
    ensures Step(Reference(table, logic, es[..|es| - 1]), es[|es| - 1]) == Outcome(Reference(table, logic, es), false)
  {
    var n := |es| - 1;
    var init := es[..n];
    var e := es[n];
    SeenBeforeIff(es);
    assert ConditionCount(es) == ConditionCount(init);
    assert LogicEntries(es) == LogicEntries(init) + "";
    if SeenBefore(es, n) {
      assert TableEntries(es) == TableEntries(init) + "";
      assert TableUrls(es) == TableUrls(init) + [];
    } else {
      AppendAssoc(table, TableEntries(init), RecordLine(e));
      assert Reports(es) == Reports(init) + "";
    }
  }

  /** The condition rule that comes last appends its block as the reference says. */
  lemma ConditionStep(table: string, logic: string, es: seq<Entry>)
    requires es != [] && IsConditionRule(es[|es| - 1].rule) && !ThrowsAt(es, |es| - 1)
    ensures Step(Reference(table, logic, es[..|es| - 1]), es[|es| - 1]) == Outcome(Reference(table, logic, es), false)
  {
    var n := |es| - 1;
    var init := es[..n];
    var e := es[n];
    ClausesThrowIff(e.rule.matches);
    var acc := Reference(table, logic, init);
    ConditionBlock(acc, e);
    AppendAssoc(logic, LogicEntries(init), Block(e, ConditionCount(init)));
    assert TableEntries(es) == TableEntries(init) + "";
    assert TableUrls(es) == TableUrls(init) + [];
    assert Reports(es) == Reports(init) + "";
  }

  /** A rule of another type leaves the reference state as it was. */
  lemma OtherStep(table: string, logic: string, es: seq<Entry>)
    requires es != [] && es[|es| - 1].rule.ruleType != EdgeRedirect
    ensures Step(Reference(table, logic, es[..|es| - 1]), es[|es| - 1]) == Outcome(Reference(table, logic, es), false)
  {
    var init := es[..|es| - 1];
    assert TableEntries(es) == TableEntries(init) + "";
    assert TableUrls(es) == TableUrls(init) + [];
    assert Reports(es) == Reports(init) + "";
    assert LogicEntries(es) == LogicEntries(init) + "";
  }

  /**
   * Without a throw, the loop from the state a call starts in ends with the
   * buffers extended by the first occurrences' records and the condition
   * blocks, `strict_redirects` holding the first occurrences' paths, the
   * duplicate reports in `response`, and `first_if` counting the blocks.
   */
  lemma {:induction false} RunMatchesReference(table: string, logic: string, es: seq<Entry>)
    requires !Throws(es)
    ensures Run(Start(table, logic), es) == Outcome(Reference(table, logic, es), false)
    decreases |es|
  {
    if es == [] {
      assert table + "" == table && logic + "" == logic;
    } else {
      var n := |es| - 1;
      var init := es[..n];
      InitAgrees(es);
      ThrowsOfInit(es);
      RunMatchesReference(table, logic, init);
      var r := es[n].rule;
      if r.ruleType != EdgeRedirect {
        OtherStep(table, logic, es);
      } else if IsTableRule(r) {
        TableStep(table, logic, es);
      } else {
        assert !ThrowsAt(es, n);
        ConditionStep(table, logic, es);
      }
    }
  }

  /** A condition rule that does not throw appends one whole block. */
  lemma ConditionBlock(acc: Acc, e: Entry)
    requires IsConditionRule(e.rule) && !Clauses(e.rule.matches).threw
    ensures Step(acc, e) == Outcome(acc.(logic := acc.logic + Block(e, acc.firstIf), firstIf := acc.firstIf + 1), false)
  {
    var ms := e.rule.matches;
    var h := Header(acc.firstIf);
    var o := Repeat('(', |ms|);
    var x := Repeat(')', |ms|);
    var t := Clauses(ms).text;
    assert h + o + t + (x + Body(e)) == h + (o + t + x) + Body(e);
  }

  /** The first condition block is an `if` exactly when no condition rule came before it. */
  lemma {:induction false} NoConditionBefore(es: seq<Entry>)
    ensures ConditionCount(es) == 0 <==> forall i :: 0 <= i < |es| ==> !IsConditionRule(es[i].rule)
    decreases |es|
  {
    if es != [] {
      var n := |es| - 1;
      InitAgrees(es);
      NoConditionBefore(es[..n]);
      if ConditionCount(es) == 0 {
        forall i | 0 <= i < |es|
          ensures !IsConditionRule(es[i].rule)
        {
          if i < n {
            assert es[..n][i] == es[i];
          }
        }
      }
    }
  }
}
