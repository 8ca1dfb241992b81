/**
 * The redirect location of a condition block: `redirectURL` wrapped in a
 * VCL long string `{"…"}`, with every regex backreference `\N` (N in 1..9)
 * turned into a concatenation with `re.group.N`, and a trailing empty long
 * string cleaned up.
 */
module RedirectLocation {
  import opened Strings

  predicate IsGroupDigit(c: char)
  {
    '1' <= c <= '9'
  }

  /** A backreference `\N` starts at position `i` of `s`. */
  predicate BackrefAt(s: string, i: int)
  {
    0 <= i && i + 1 < |s| && s[i] == '\\' && IsGroupDigit(s[i + 1])
  }

  /** The pieces of VCL text the location is made of. */
  const Open: string := "{\""
  const Close: string := "\"};"
  const GroupHead: string := "\"} + re.group."
  const GroupTail: string := " + {\""

  /** The empty long string that a trailing backreference leaves behind. */
  const EmptyTail: string := GroupTail + Close

  /** The text that replaces the backreference to group `d`. */
  function GroupRef(d: char): string
  {
    GroupHead + [d] + GroupTail
  }

  /**
   * `s.replace(/\\([1-9])/g, '"} + re.group.$1 + {"')`: left to right,
   * every backslash followed by a digit 1..9 is replaced.
   */
  function ReplaceBackrefs(s: string): string
    decreases |s|
  {
    if s == [] then []
    else if BackrefAt(s, 0) then GroupRef(s[1]) + ReplaceBackrefs(s[2..])
    else [s[0]] + ReplaceBackrefs(s[1..])
  }

  /** The number of backreferences the global replace finds. */
  function Backrefs(s: string): nat
    decreases |s|
  {
    if s == [] then 0
    else if BackrefAt(s, 0) then 1 + Backrefs(s[2..])
    else Backrefs(s[1..])
  }

  /** `replace(/ \+ {\"\"};$/, ';')`: only an empty long string at the very end goes. */
  function Cleanup(raw: string): string
  {
    if EndsWith(raw, EmptyTail) then raw[..|raw| - |EmptyTail|] + ";" else raw
  }

  /** `location`: the rewritten URL as one long string, cleaned up. */
  function Location(url: string): (r: string)
    ensures |r| >= 2 && r[0] == '{' && r[|r| - 1] == ';'
  {
    var raw := Open + ReplaceBackrefs(url) + Close;
    assert raw[0] == '{' && raw[|raw| - 1] == ';';
    assert EndsWith(raw, EmptyTail) ==> |raw| > |EmptyTail| by {
      assert EmptyTail[0] == ' ';
    }
    Cleanup(raw)
  }

  /** Each backreference grows the text by 18 characters. */
  lemma {:induction false} ReplaceBackrefsLength(s: string)
    ensures |ReplaceBackrefs(s)| == |s| + 18 * Backrefs(s)
    decreases |s|
  {
    if s != [] {
      if BackrefAt(s, 0) {
        ReplaceBackrefsLength(s[2..]);
      } else {
        ReplaceBackrefsLength(s[1..]);
      }
    }
  }

  /** A text without backreferences is left as it is, and only such a text. */
  lemma {:induction false} ReplaceBackrefsIdentity(s: string)
    ensures ReplaceBackrefs(s) == s <==> Backrefs(s) == 0
    decreases |s|
  {
    ReplaceBackrefsLength(s);
    if s != [] && !BackrefAt(s, 0) {
      ReplaceBackrefsIdentity(s[1..]);
      assert [s[0]] + s[1..] == s;
    }
  }

  /**
   * The replace works piece by piece, as long as no backreference straddles
   * the cut: the first piece does not end with a backslash before a digit.
   */
  lemma {:induction false} ReplaceBackrefsConcat(a: string, b: string)
    requires !(a != [] && a[|a| - 1] == '\\' && b != [] && IsGroupDigit(b[0]))
    ensures ReplaceBackrefs(a + b) == ReplaceBackrefs(a) + ReplaceBackrefs(b)
    decreases |a|
  {
    if a == [] {
      assert a + b == b;
    } else if BackrefAt(a, 0) {
      assert BackrefAt(a + b, 0) && (a + b)[1] == a[1];
      assert (a + b)[2..] == a[2..] + b;
      ReplaceBackrefsConcat(a[2..], b);
      AppendAssoc(GroupRef(a[1]), ReplaceBackrefs(a[2..]), ReplaceBackrefs(b));
    } else {
      assert !BackrefAt(a + b, 0) && (a + b)[0] == a[0];
      assert (a + b)[1..] == a[1..] + b;
      ReplaceBackrefsConcat(a[1..], b);
      AppendAssoc([a[0]], ReplaceBackrefs(a[1..]), ReplaceBackrefs(b));
    }
  }

  /** A common suffix does not change whether one text ends with another. */
  lemma {:induction false} SuffixCancel(x: string, t: string, c: string)
    ensures EndsWith(x + c, t + c) <==> EndsWith(x, t)
    ensures EndsWith(x, t) ==> (x + c)[..|x + c| - |t + c|] == x[..|x| - |t|]
  {
    if EndsWith(x + c, t + c) {
      assert (x + c)[|x + c| - |t + c|..] == x[|x| - |t|..] + c;
      assert x[|x| - |t|..] == ((x + c)[|x + c| - |t + c|..])[..|t|];
    }
    if EndsWith(x, t) {
      assert (x + c)[|x + c| - |t + c|..] == x[|x| - |t|..] + c;
    }
  }

  /** `{"` in front of a URL adds nothing to what it ends with. */
  lemma OpenEnds(u: string)
    ensures EndsWith(Open + u, GroupTail) <==> EndsWith(u, GroupTail)
    ensures EndsWith(u, GroupTail) ==> (Open + u)[..|Open + u| - |GroupTail|] == Open + u[..|u| - |GroupTail|]
  {
    var x := Open + u;
    if |u| >= 5 {
      assert x[|x| - 5..] == u[|u| - 5..];
    } else if |u| == 4 {
      assert x[|x| - 5] == '"' && GroupTail[0] == ' ';
    } else if |u| == 3 {
      assert x[|x| - 5] == '{' && GroupTail[0] == ' ';
    }
  }

  /**
   * Without backreferences the location is `{"url"};`, unless the URL
   * itself ends with ` + {"`, which the clean-up then cuts off as well.
   */
  lemma PlainLocation(url: string)
    requires Backrefs(url) == 0
    ensures !EndsWith(url, GroupTail) ==> Location(url) == Open + url + Close
    ensures EndsWith(url, GroupTail) ==> Location(url) == Open + url[..|url| - |GroupTail|] + ";"
  {
    ReplaceBackrefsIdentity(url);
    assert Location(url) == Cleanup(Open + url + Close);
    SuffixCancel(Open + url, GroupTail, Close);
    OpenEnds(url);
  }

  lemma CutSuffix(h: string, t: string)
    ensures EndsWith(h + t, t) && (h + t)[..|h + t| - |t|] == h
  {
    assert (h + t)[|h + t| - |t|..] == t;
  }

  lemma SingleBackref(d: char)
    requires IsGroupDigit(d)
    ensures ReplaceBackrefs(['\\', d]) == GroupRef(d)
  {
    var tail := ['\\', d];
    assert BackrefAt(tail, 0);
    assert tail[2..] == [];
  }

  lemma Regroup(o: string, x: string, h: string, d: char, t: string, c: string)
    ensures o + (x + (h + [d] + t)) + c == (o + x + h + [d]) + (t + c)
  {
  }

  /**
   * A URL that ends with a backreference ends its location with a bare
   * `re.group.N;`: the empty long string after it is cleaned away.
   */
  lemma TrailingBackref(p: string, d: char)
    requires IsGroupDigit(d)
    ensures Location(p + ['\\', d]) == Open + ReplaceBackrefs(p) + GroupHead + [d] + ";"
  {
    var tail := ['\\', d];
    SingleBackref(d);
    ReplaceBackrefsConcat(p, tail);
    var head := Open + ReplaceBackrefs(p) + GroupHead + [d];
    Regroup(Open, ReplaceBackrefs(p), GroupHead, d, GroupTail, Close);
    assert Location(p + tail) == Cleanup(head + EmptyTail);
    CutSuffix(head, EmptyTail);
  }

  /** The location of `/go\1`. */
  lemma GoLocation()
    ensures Location("/go\\1") == "{\"/go\"} + re.group.1;"
  {
    var p := "/go";
    assert Backrefs(p) == 0 by {
      assert !BackrefAt(p, 0) && !BackrefAt(p[1..], 0) && !BackrefAt(p[2..], 0);
      assert p[1..][1..] == p[2..] && p[2..][1..] == [];
    }
    ReplaceBackrefsIdentity(p);
    TrailingBackref(p, '1');
    assert p + ['\\', '1'] == "/go\\1";
  }
}
