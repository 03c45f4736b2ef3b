/**
  The query language: a query is one condition, or conditions joined by
  " AND ", optionally preceded by "WHERE ". A condition is a field name, one
  of the operators '=', '<' or '>', and a value, optionally in quotes.
*/
module QueryParser {
  import opened Wrappers
  import opened Text

  /** The comparison operators. */
  datatype Op = Eq | Lt | Gt

  function OpChar(op: Op): char
  {
    match op
    case Eq => '='
    case Lt => '<'
    case Gt => '>'
  }

  datatype QueryCondition = QueryCondition(field: string, op: Op, value: string)

  /** The parsed conditions and the operator joining them ("AND", or "" for a
      single condition). */
  datatype QueryInfo = QueryInfo(conditions: seq<QueryCondition>, operator: string)

  const AndSeparator: string := " AND "
  const WherePrefix: string := "WHERE "

  // ---------------------------------------------------------------------------
  // Conditions
  // ---------------------------------------------------------------------------

  /** Split s in two at position i, the first occurrence of the operator:
      the field is the left part trimmed, the value the right part trimmed
      of white space and then of quotes. */
  function SplitAt(s: string, op: Op, i: nat): QueryCondition
    requires i < |s|
  {
    QueryCondition(Trim(s[..i]), op, TrimChars(Trim(s[i + 1..]), Quotes))
  }

  /** ParseCondition: the operators are tried in the order '=', '<', '>';
      the first one s contains splits it at its first occurrence. None when
      s holds none of them. */
  function ParseCondition(s: string): (r: Option<QueryCondition>)
    ensures r.None? <==> '=' !in s && '<' !in s && '>' !in s
    ensures r.Some? ==> |r.value.field| + |r.value.value| < |s|
  {
    match IndexOf(s, '=')
    case Some(i) => Some(SplitAt(s, Eq, i))
    case None =>
      match IndexOf(s, '<')
      case Some(i) => Some(SplitAt(s, Lt, i))
      case None =>
        match IndexOf(s, '>')
        case Some(i) => Some(SplitAt(s, Gt, i))
        case None => None
  }

  /** The operator is the first of '=', '<', '>' that the text holds, and the
      text is split at that operator's first occurrence: the field holds no
      operator character tried before it or equal to it. */
  lemma ParseConditionSplit(s: string)
    requires ParseCondition(s).Some?
    ensures var c := ParseCondition(s).value;
      && (c.op == Eq <==> '=' in s)
      && (c.op == Lt <==> '=' !in s && '<' in s)
      && (c.op == Gt <==> '=' !in s && '<' !in s && '>' in s)
      && exists i :: 0 <= i < |s| && s[i] == OpChar(c.op) && OpChar(c.op) !in s[..i] && c == SplitAt(s, c.op, i)
  {
    var c := ParseCondition(s).value;
    var i := IndexOf(s, OpChar(c.op)).value;
    assert c == SplitAt(s, c.op, i);
  }

  /** The field comes out without surrounding white space and the value
      without surrounding quotes. */
  lemma ParseConditionTrims(s: string)
    requires ParseCondition(s).Some?
    ensures Trimmed(ParseCondition(s).value.field, WhiteSpace)
    ensures Trimmed(ParseCondition(s).value.value, Quotes)
  {
    match IndexOf(s, '=')
    case Some(i) => SplitAtTrims(s, Eq, i);
    case None =>
      match IndexOf(s, '<')
      case Some(i) => SplitAtTrims(s, Lt, i);
      case None =>
        match IndexOf(s, '>')
        case Some(i) => SplitAtTrims(s, Gt, i);
        case None =>
  }

  /** Wherever the text is split, the field and value come out trimmed. */
  lemma SplitAtTrims(s: string, op: Op, i: nat)
    requires i < |s|
    ensures Trimmed(SplitAt(s, op, i).field, WhiteSpace)
    ensures Trimmed(SplitAt(s, op, i).value, Quotes)
  {
    TrimCharsSlice(s[..i], WhiteSpace);
    TrimCharsSlice(Trim(s[i + 1..]), Quotes);
  }

  /** A condition as text: field, operator, value. */
  function Render(c: QueryCondition): string
  {
    c.field + [OpChar(c.op)] + c.value
  }

  /** The conditions the text form round-trips: the field and the value
      carry no surrounding white space, the value no surrounding quotes,
      the field no operator character up to its own, and the value none
      tried before its own. */
  predicate WellFormed(c: QueryCondition)
  {
    && Trimmed(c.field, WhiteSpace)
    && Trimmed(c.value, WhiteSpace)
    && Trimmed(c.value, Quotes)
    && '=' !in c.field
    && (c.op != Eq ==> '<' !in c.field && '=' !in c.value)
    && (c.op == Gt ==> '>' !in c.field && '<' !in c.value)
  }

  /** The rendered text is the field, the operator and the value. */
  lemma RenderSlices(c: QueryCondition)
    ensures |c.field| < |Render(c)| && Render(c)[|c.field|] == OpChar(c.op)
    ensures Render(c)[..|c.field|] == c.field
    ensures Render(c)[|c.field| + 1..] == c.value
  {
    var s, i := Render(c), |c.field|;
    assert s[..i] == c.field;
    assert s[i + 1..] == c.value;
  }

  /** Splitting the rendered text at the operator gives the condition back. */
  lemma SplitAtRender(c: QueryCondition)
    requires WellFormed(c)
    ensures |c.field| < |Render(c)| && Render(c)[|c.field|] == OpChar(c.op)
    ensures c.field == Render(c)[..|c.field|]
    ensures SplitAt(Render(c), c.op, |c.field|) == c
  {
    RenderSlices(c);
    TrimCharsFixed(c.field, WhiteSpace);
    TrimCharsFixed(c.value, WhiteSpace);
    TrimCharsFixed(c.value, Quotes);
  }

  /** Rendering a well-formed condition and parsing it back gives it again. */
  lemma ParseConditionRender(c: QueryCondition)
    requires WellFormed(c)
    ensures ParseCondition(Render(c)) == Some(c)
  {
    var s, i := Render(c), |c.field|;
    SplitAtRender(c);
    IndexOfIs(s, OpChar(c.op), i);
    if c.op != Eq {
      assert '=' !in s;
    }
    if c.op == Gt {
      assert '<' !in s;
    }
  }

  // ---------------------------------------------------------------------------
  // Queries
  // ---------------------------------------------------------------------------

  /** The query text with surrounding white space and every "WHERE "
      removed. */
  function Normalize(q: string): string
  {
    Trim(RemoveAll(Trim(q), WherePrefix))
  }

  /** A part of a query joined by " AND " parses after trimming. */
  function PartCondition(p: string): Option<QueryCondition>
  {
    ParseCondition(Trim(p))
  }

  /** The conditions of the parts that parse, in order. */
  function ParsedParts(parts: seq<string>, parse: string -> Option<QueryCondition>): (cs: seq<QueryCondition>)
    ensures |cs| <= |parts|
  {
    if parts == [] then []
    else
      var last := parse(parts[|parts| - 1]);
      ParsedParts(parts[..|parts| - 1], parse) + if last.Some? then [last.value] else []
  }

  /** Taking one more part keeps its condition when it parses. */
  lemma ParsedPartsSnoc(parts: seq<string>, parse: string -> Option<QueryCondition>, j: nat)
    requires j < |parts|
    ensures ParsedParts(parts[..j + 1], parse) ==
      ParsedParts(parts[..j], parse) + if parse(parts[j]).Some? then [parse(parts[j]).value] else []
  {
    assert parts[..j + 1][..j] == parts[..j];
  }

  /** A condition is kept exactly when some part parses to it. */
  lemma {:induction false} ParsedPartsMember(parts: seq<string>, parse: string -> Option<QueryCondition>, c: QueryCondition)
    ensures c in ParsedParts(parts, parse) <==> exists p :: p in parts && parse(p) == Some(c)
  {
    if parts != [] {
      var init, last := parts[..|parts| - 1], parts[|parts| - 1];
      ParsedPartsMember(init, parse, c);
      assert parts == init + [last];
      if exists p :: p in parts && parse(p) == Some(c) {
        var p :| p in parts && parse(p) == Some(c);
        if p != last {
          assert p in init;
        }
      }
    }
  }

  /** No condition is kept exactly when no part parses. */
  lemma {:induction false} ParsedPartsEmpty(parts: seq<string>, parse: string -> Option<QueryCondition>)
    ensures ParsedParts(parts, parse) == [] <==> forall p :: p in parts ==> parse(p).None?
  {
    if parts != [] {
      var init := parts[..|parts| - 1];
      ParsedPartsEmpty(init, parse);
      assert parts == init + [parts[|parts| - 1]];
    }
  }

  /** What ParseQuery gives: with " AND " the conditions of the parts that
      parse and operator "AND"; without it the single condition; None when no
      condition parses. */
  function QueryOf(q: string): Option<QueryInfo>
  {
    var n := Normalize(q);
    if Contains(n, AndSeparator) then
      var conditions := ParsedParts(SplitOn(n, AndSeparator), PartCondition);
      if conditions == [] then None else Some(QueryInfo(conditions, "AND"))
    else
      match ParseCondition(n)
      case Some(c) => Some(QueryInfo([c], ""))
      case None => None
  }

  /** The loop over the parts of a query joined by " AND ": each part is
      trimmed and parsed, and the conditions that parse are collected. */
  method CollectConditions(parts: seq<string>) returns (conditions: seq<QueryCondition>)
    ensures conditions == ParsedParts(parts, PartCondition)
  {
    conditions := [];
    for j := 0 to |parts|
      invariant conditions == ParsedParts(parts[..j], PartCondition)
    {
      ParsedPartsSnoc(parts, PartCondition, j);
      var condition := ParseCondition(Trim(parts[j]));
      assert condition == PartCondition(parts[j]);
      if condition.Some? {
        conditions := conditions + [condition.value];
      }
    }
    assert parts[..|parts|] == parts;
  }

  /** QueryOf, one case at a time. */
  lemma QueryOfCases(q: string)
    ensures var n := Normalize(q);
      Contains(n, AndSeparator) ==>
        QueryOf(q) == var cs := ParsedParts(SplitOn(n, AndSeparator), PartCondition);
          if cs == [] then None else Some(QueryInfo(cs, "AND"))
    ensures var n := Normalize(q);
      !Contains(n, AndSeparator) ==>
        QueryOf(q) == if ParseCondition(n).Some? then Some(QueryInfo([ParseCondition(n).value], "")) else None
  {
  }

  /** ParseQuery: normalise the text, split it at " AND " when present, and
      collect the conditions of the parts that parse. */
  method ParseQuery(queryString: string) returns (r: Option<QueryInfo>)
    ensures r == QueryOf(queryString)
  {
    var text := Normalize(queryString);
    QueryOfCases(queryString);
    if Contains(text, AndSeparator) {
      var conditions := CollectConditions(SplitOn(text, AndSeparator));
      r := if |conditions| > 0 then Some(QueryInfo(conditions, "AND")) else None;
      assert conditions == [] <==> |conditions| == 0;
    } else {
      var conditions: seq<QueryCondition> := [];
      var condition := ParseCondition(text);
      if condition.Some? {
        conditions := conditions + [condition.value];
        assert conditions == [condition.value];
      }
      r := if |conditions| > 0 then Some(QueryInfo(conditions, "")) else None;
    }
  }

  /** A query is rejected exactly when none of its conditions parses. */
  lemma QueryOfNone(q: string)
    ensures var n := Normalize(q);
      QueryOf(q).None? <==>
        if Contains(n, AndSeparator) then forall p :: p in SplitOn(n, AndSeparator) ==> PartCondition(p).None?
        else ParseCondition(n).None?
  {
    ParsedPartsEmpty(SplitOn(Normalize(q), AndSeparator), PartCondition);
  }

  /** The operator is "AND" exactly when the text holds " AND "; without it
      there is exactly one condition; with it, at most one per part, each
      from some part. */
  lemma QueryOfShape(q: string)
    requires QueryOf(q).Some?
    ensures var n, r := Normalize(q), QueryOf(q).value;
      && |r.conditions| >= 1
      && (r.operator == "AND" <==> Contains(n, AndSeparator))
      && (!Contains(n, AndSeparator) ==> r.conditions == [ParseCondition(n).value])
      && (Contains(n, AndSeparator) ==>
            && |r.conditions| <= |SplitOn(n, AndSeparator)|
            && forall c :: c in r.conditions <==>
                 exists p :: p in SplitOn(n, AndSeparator) && PartCondition(p) == Some(c))
  {
    var n := Normalize(q);
    if Contains(n, AndSeparator) {
      var parts := SplitOn(n, AndSeparator);
      var conditions := ParsedParts(parts, PartCondition);
      assert QueryOf(q) == Some(QueryInfo(conditions, "AND"));
      forall c ensures c in conditions <==> exists p :: p in parts && PartCondition(p) == Some(c)
      {
        ParsedPartsMember(parts, PartCondition, c);
      }
    } else {
      assert QueryOf(q) == Some(QueryInfo([ParseCondition(n).value], ""));
    }
  }

  /** A single well-formed condition written out without "WHERE " or
      " AND " in it parses back to a query of that one condition. */
  lemma QueryOfRender(c: QueryCondition)
    requires WellFormed(c)
    requires !Contains(Render(c), WherePrefix) && !Contains(Render(c), AndSeparator)
    ensures QueryOf(Render(c)) == Some(QueryInfo([c], ""))
  {
    var s := Render(c);
    assert s[0] == if c.field == [] then OpChar(c.op) else c.field[0];
    assert s[|s| - 1] == if c.value == [] then OpChar(c.op) else c.value[|c.value| - 1];
    TrimCharsFixed(s, WhiteSpace);
    assert Normalize(s) == s;
    ParseConditionRender(c);
  }
}
