/** Ingestion (`GraphIngestor` in src/nlp_to_graph.py): the language model's reply
    is cut into triples, and each triple becomes one `MERGE` statement sent to the
    graph store. The reply is an input here; the session is a log of the
    statement texts it was asked to run. */
module NlpToGraph {
  import opened Text
  import opened Optional

  /** The separator the prompt asks the model to put between the three fields. */
  const SEPARATOR := " | "

  // ---------------------------------------------------------------------------
  // extract_triples

  /** The reply's lines: `response.strip().split("\n")`. */
  function Lines(reply: string): (lines: seq<string>)
    ensures |lines| >= 1
  {
    Split(Strip(reply), "\n")
  }

  /** The lines, joined again, are the stripped reply. */
  lemma LinesRoundTrip(reply: string)
    ensures Join(Lines(reply), "\n") == Strip(reply)
  {
    SplitJoin(Strip(reply), "\n");
  }

  /** The list comprehension `[line.split(" | ") for line in lines if " | " in line]`. */
  function ParseLines(lines: seq<string>): seq<seq<string>>
    decreases |lines|
  {
    if lines == [] then []
    else
      var line := lines[|lines| - 1];
      ParseLines(lines[..|lines| - 1])
        + (if Contains(line, SEPARATOR) then [Split(line, SEPARATOR)] else [])
  }

  /** `GraphIngestor.extract_triples`, given the model's reply. */
  function ExtractTriples(reply: string): seq<seq<string>> {
    ParseLines(Lines(reply))
  }

  /** The positions of the lines that produce a triple, in the order the
      comprehension visits them. */
  ghost function PickedLines(lines: seq<string>): seq<nat>
    decreases |lines|
  {
    if lines == [] then []
    else
      PickedLines(lines[..|lines| - 1])
        + (if Contains(lines[|lines| - 1], SEPARATOR) then [|lines| - 1] else [])
  }

  /** Line `i` exists and contains the separator. */
  predicate Qualifies(lines: seq<string>, i: int) {
    0 <= i < |lines| && Contains(lines[i], SEPARATOR)
  }

  /** The positions of all lines that contain the separator. */
  ghost function QualifyingLines(lines: seq<string>): set<nat> {
    set i: nat | i < |lines| && Qualifies(lines, i)
  }

  /** Each picked position holds a line that contains the separator, and the
      positions increase: the kept lines keep their order. */
  lemma {:induction false} PickedLinesQualifyInOrder(lines: seq<string>)
    ensures forall k :: 0 <= k < |PickedLines(lines)| ==> Qualifies(lines, PickedLines(lines)[k])
    ensures forall k, m :: 0 <= k < m < |PickedLines(lines)| ==> PickedLines(lines)[k] < PickedLines(lines)[m]
    decreases |lines|
  {
    if lines != [] {
      var n := |lines| - 1;
      var init := lines[..n];
      PickedLinesQualifyInOrder(init);
      var picked0 := PickedLines(init);
      forall k | 0 <= k < |picked0| ensures Qualifies(lines, picked0[k]) {
        assert Qualifies(init, picked0[k]);
        assert lines[picked0[k]] == init[picked0[k]];
      }
    }
  }

  /** Every line that contains the separator is picked: no such line is dropped. */
  lemma {:induction false} PickedLinesComplete(lines: seq<string>, i: int)
    requires Qualifies(lines, i)
    ensures i in PickedLines(lines)
    decreases |lines|
  {
    var n := |lines| - 1;
    if i < n {
      var init := lines[..n];
      assert init[i] == lines[i];
      PickedLinesComplete(init, i);
    }
  }

  /** The k-th triple is the split of the k-th picked line. */
  lemma {:induction false} ParseLinesSplitsPickedLines(lines: seq<string>)
    ensures var triples, picked := ParseLines(lines), PickedLines(lines);
      && |picked| == |triples|
      && forall k :: 0 <= k < |picked| ==>
           picked[k] < |lines| && triples[k] == Split(lines[picked[k]], SEPARATOR)
    decreases |lines|
  {
    if lines != [] {
      var n := |lines| - 1;
      var init := lines[..n];
      ParseLinesSplitsPickedLines(init);
      var triples0, picked0 := ParseLines(init), PickedLines(init);
      var triples, picked := ParseLines(lines), PickedLines(lines);
      assert forall k :: 0 <= k < |picked0| ==> lines[picked0[k]] == init[picked0[k]];
      if Contains(lines[n], SEPARATOR) {
        assert triples == triples0 + [Split(lines[n], SEPARATOR)];
        assert picked == picked0 + [n];
      } else {
        assert triples == triples0 && picked == picked0;
      }
    }
  }

  /** There are as many triples as lines containing the separator. */
  lemma {:induction false} ParseLinesCount(lines: seq<string>)
    ensures |ParseLines(lines)| == |QualifyingLines(lines)|
    decreases |lines|
  {
    if lines != [] {
      var n := |lines| - 1;
      var init := lines[..n];
      ParseLinesCount(init);
      var before := QualifyingLines(init);
      var now := QualifyingLines(lines);
      if Contains(lines[n], SEPARATOR) {
        assert now == before + {n};
        assert n !in before;
      } else {
        assert now == before;
      }
    }
  }

  /** Each triple has at least two fields, no field contains the separator, and
      joining the fields with the separator gives back the line it came from. */
  lemma ParsedFieldsRoundTrip(lines: seq<string>)
    ensures var triples := ParseLines(lines); var picked := PickedLines(lines);
      && |picked| == |triples|
      && forall k :: 0 <= k < |triples| ==>
           && |triples[k]| >= 2
           && picked[k] < |lines|
           && Join(triples[k], SEPARATOR) == lines[picked[k]]
           && forall j :: 0 <= j < |triples[k]| ==> !Contains(triples[k][j], SEPARATOR)
  {
    var triples := ParseLines(lines);
    var picked := PickedLines(lines);
    ParseLinesSplitsPickedLines(lines);
    forall k | 0 <= k < |triples|
      ensures |triples[k]| >= 2
      ensures picked[k] < |lines|
      ensures Join(triples[k], SEPARATOR) == lines[picked[k]]
      ensures forall j :: 0 <= j < |triples[k]| ==> !Contains(triples[k][j], SEPARATOR)
    {
      SplitJoin(lines[picked[k]], SEPARATOR);
      SplitPartsAvoidSeparator(lines[picked[k]], SEPARATOR);
    }
  }

  // ---------------------------------------------------------------------------
  // push_to_neo4j: statement text

  /** The relationship type a relation becomes: `rel.strip().replace(' ', '_')`. */
  function RelType(rel: string): string {
    ReplaceChar(Strip(rel), ' ', '_')
  }

  /** The relationship type has no spaces left and is as long as the stripped
      relation: every space became `_`, every other character is in place. */
  lemma RelTypeShape(rel: string)
    ensures var t, r := RelType(rel), Strip(rel);
      && |t| == |r|
      && ' ' !in t
      && (forall i :: 0 <= i < |t| && r[i] == ' ' ==> t[i] == '_')
      && forall i :: 0 <= i < |t| && r[i] != ' ' ==> t[i] == r[i]
  {
  }

  /** The fields a statement text carries. */
  datatype Merge = Merge(subjectName: string, relType: string, objectName: string)

  /** The fixed text around the three fields of a statement. */
  datatype Template = Template(opening: string, beforeObject: string, beforeRelType: string, closing: string)

  /** The three f-strings of `push_to_neo4j`, one after the other. */
  const MERGE := Template("MERGE (s:Entity {name: '", "'}) MERGE (o:Entity {name: '", "'}) MERGE (s)-[:", "]->(o)")

  /** A name ends where a quote opens the fixed text that follows it. */
  predicate QuoteDelimited(t: Template) {
    && t.beforeObject != [] && t.beforeObject[0] == '\''
    && t.beforeRelType != [] && t.beforeRelType[0] == '\''
  }

  /** The text a template gives for already normalised fields. */
  function Fill(t: Template, m: Merge): string {
    t.opening + (m.subjectName + (t.beforeObject + (m.objectName + (t.beforeRelType + (m.relType + t.closing)))))
  }

  /** The statement issued for the triple `(sub, rel, obj)`. */
  function MergeStatement(sub: string, rel: string, obj: string): string {
    Fill(MERGE, Merge(Strip(sub), RelType(rel), Strip(obj)))
  }

  /** Cuts `s` at its first quote, provided the fixed text `delim` starts
      there: the part before the quote and the part after `delim`. */
  function CutAtQuote(s: string, delim: string): Option<(string, string)> {
    var i := FindChar(s, '\'');
    if i < 0 || |s| - i < |delim| || s[i..i + |delim|] != delim then None
    else Some((s[..i], s[i + |delim|..]))
  }

  /** A quote-free name followed by its quote-led delimiter is cut back off. */
  lemma CutAtQuoteOfJoined(x: string, delim: string, rest: string)
    requires '\'' !in x && delim != [] && delim[0] == '\''
    ensures CutAtQuote(x + (delim + rest), delim) == Some((x, rest))
  {
    var s := x + (delim + rest);
    FirstQuoteAfter(x, delim + rest);
    assert s[|x|..] == delim + rest;
    assert s[..|x|] == x;
    assert s[|x| + |delim|..] == rest;
  }

  /** Whatever is cut is a quote-free name, the delimiter and the rest. */
  lemma CutAtQuoteSound(s: string, delim: string)
    requires CutAtQuote(s, delim).Some?
    ensures '\'' !in CutAtQuote(s, delim).value.0
    ensures CutAtQuote(s, delim).value.0 + (delim + CutAtQuote(s, delim).value.1) == s
  {
    var i := FindChar(s, '\'');
    var x, r := s[..i], s[i + |delim|..];
    assert s[i..] == delim + r;
    assert s == x + s[i..];
  }

  /** Cuts the closing text off the end of `c`: the part before it. */
  function CutClosing(c: string, closing: string): Option<string> {
    if |c| < |closing| || c[|c| - |closing|..] != closing then None
    else Some(c[..|c| - |closing|])
  }

  /** Whatever is cut is the part before the closing text, then the closing text. */
  lemma CutClosingSound(c: string, closing: string)
    requires CutClosing(c, closing).Some?
    ensures c == CutClosing(c, closing).value + closing
  {
    assert c == c[..|c| - |closing|] + c[|c| - |closing|..];
  }

  /** Reads the fields out of the text after the opening: the subject and the
      object end at the first quote after their start, the relationship type is
      what stands between the text before it and the closing text. */
  function ParseFields(t: Template, a: string): Option<Merge> {
    var first := CutAtQuote(a, t.beforeObject);
    if first.None? then None
    else
      var second := CutAtQuote(first.value.1, t.beforeRelType);
      if second.None? then None
      else
        var rel := CutClosing(second.value.1, t.closing);
        if rel.None? then None
        else Some(Merge(first.value.0, rel.value, second.value.0))
  }

  /** Reads the fields back out of a statement text. */
  function Parse(t: Template, q: string): Option<Merge> {
    if |q| < |t.opening| || q[..|t.opening|] != t.opening then None
    else ParseFields(t, q[|t.opening|..])
  }

  /** Where `s` has no quote, the first quote of `s + t` is the first of `t`. */
  lemma FirstQuoteAfter(s: string, t: string)
    requires '\'' !in s && t != [] && t[0] == '\''
    ensures FindChar(s + t, '\'') == |s|
  {
    var u := s + t;
    assert u[|s|] == '\'';
    assert forall j :: 0 <= j < |s| ==> u[j] == s[j];
  }

  /** The closing text is cut back off whatever precedes it. */
  lemma CutClosingOfJoined(rel: string, closing: string)
    ensures CutClosing(rel + closing, closing) == Some(rel)
  {
    var c := rel + closing;
    assert c[|c| - |closing|..] == closing;
    assert c[..|c| - |closing|] == rel;
  }

  /** The fields are read back from the text after the opening. */
  lemma ParseFieldsOfFilled(t: Template, m: Merge)
    requires QuoteDelimited(t)
    requires '\'' !in m.subjectName && '\'' !in m.objectName
    ensures ParseFields(t, m.subjectName + (t.beforeObject + (m.objectName + (t.beforeRelType + (m.relType + t.closing)))))
      == Some(m)
  {
    var c := m.relType + t.closing;
    var b := m.objectName + (t.beforeRelType + c);
    CutAtQuoteOfJoined(m.subjectName, t.beforeObject, b);
    CutAtQuoteOfJoined(m.objectName, t.beforeRelType, c);
    CutClosingOfJoined(m.relType, t.closing);
  }

  /** A filled template determines its fields, provided the names hold no quote. */
  lemma ParseFill(t: Template, m: Merge)
    requires QuoteDelimited(t)
    requires '\'' !in m.subjectName && '\'' !in m.objectName
    ensures Parse(t, Fill(t, m)) == Some(m)
  {
    var q := Fill(t, m);
    var a := m.subjectName + (t.beforeObject + (m.objectName + (t.beforeRelType + (m.relType + t.closing))));
    assert q[..|t.opening|] == t.opening;
    assert q[|t.opening|..] == a;
    ParseFieldsOfFilled(t, m);
  }

  /** The text after the opening is the rest of the template, filled. */
  lemma FillParseFields(t: Template, a: string)
    requires ParseFields(t, a).Some?
    ensures '\'' !in ParseFields(t, a).value.subjectName && '\'' !in ParseFields(t, a).value.objectName
    ensures a == ParseFields(t, a).value.subjectName + (t.beforeObject + (ParseFields(t, a).value.objectName
      + (t.beforeRelType + (ParseFields(t, a).value.relType + t.closing))))
  {
    var first := CutAtQuote(a, t.beforeObject);
    var second := CutAtQuote(first.value.1, t.beforeRelType);
    CutAtQuoteSound(a, t.beforeObject);
    CutAtQuoteSound(first.value.1, t.beforeRelType);
    CutClosingSound(second.value.1, t.closing);
  }

  /** Whatever parses is exactly the template filled with the parsed fields, and
      its names hold no quote. */
  lemma FillParse(t: Template, q: string)
    requires Parse(t, q).Some?
    ensures '\'' !in Parse(t, q).value.subjectName && '\'' !in Parse(t, q).value.objectName
    ensures Fill(t, Parse(t, q).value) == q
  {
    var a := q[|t.opening|..];
    FillParseFields(t, a);
    assert q == q[..|t.opening|] + a;
  }

  /** The statement for `(sub, rel, obj)` carries the stripped subject, the
      relationship type and the stripped object, and nothing else. */
  lemma MergeStatementFields(sub: string, rel: string, obj: string)
    requires '\'' !in Strip(sub) && '\'' !in Strip(obj)
    ensures Parse(MERGE, MergeStatement(sub, rel, obj)) == Some(Merge(Strip(sub), RelType(rel), Strip(obj)))
  {
    assert QuoteDelimited(MERGE);
    ParseFill(MERGE, Merge(Strip(sub), RelType(rel), Strip(obj)));
  }

  // ---------------------------------------------------------------------------
  // push_to_neo4j: the loop

  /** The position of the first entry that is not a triple (the tuple unpack
      `sub, rel, obj` fails there), or the length when every entry is one. */
  function FirstMalformed(triples: seq<seq<string>>): (k: nat)
    ensures k <= |triples|
    ensures forall j :: 0 <= j < k ==> |triples[j]| == 3
    ensures k < |triples| ==> |triples[k]| != 3
    decreases |triples|
  {
    if triples == [] || |triples[0]| != 3 then 0
    else 1 + FirstMalformed(triples[1..])
  }

  /** The statements issued for a list of triples. */
  function Statements(triples: seq<seq<string>>): (stmts: seq<string>)
    requires forall j :: 0 <= j < |triples| ==> |triples[j]| == 3
    ensures |stmts| == |triples|
    decreases |triples|
  {
    if triples == [] then []
    else
      var t := triples[|triples| - 1];
      Statements(triples[..|triples| - 1]) + [MergeStatement(t[0], t[1], t[2])]
  }

  /** Statement `j` is the one for triple `j`: one statement per triple, in the
      order of the triples. */
  lemma {:induction false} StatementsInOrder(triples: seq<seq<string>>, j: int)
    requires forall j :: 0 <= j < |triples| ==> |triples[j]| == 3
    requires 0 <= j < |triples|
    ensures Statements(triples)[j] == MergeStatement(triples[j][0], triples[j][1], triples[j][2])
    decreases |triples|
  {
    var n := |triples| - 1;
    if j < n {
      var init := triples[..n];
      StatementsInOrder(init, j);
      assert init[j] == triples[j];
    }
  }

  /** The statements for one more triple are those for the triples before it,
      then its own. */
  lemma StatementsExtend(triples: seq<seq<string>>, i: int)
    requires 0 <= i < |triples|
    requires forall j :: 0 <= j <= i ==> |triples[j]| == 3
    ensures Statements(triples[..i + 1])
      == Statements(triples[..i]) + [MergeStatement(triples[i][0], triples[i][1], triples[i][2])]
  {
    assert triples[..i + 1][..i] == triples[..i];
  }

  /** A database session, reduced to the statements it has been asked to run. */
  class Session {
    var log: seq<string>

    constructor ()
      ensures log == []
    {
      log := [];
    }

    /** `session.run(query)`. */
    method Run(query: string)
      modifies this
      ensures log == old(log) + [query]
    {
      log := log + [query];
    }
  }

  /** How `push_to_neo4j` ends: every triple pushed, or the unpack failed at entry
      `index`, which has `got` fields. */
  datatype PushOutcome = Pushed | UnpackError(index: nat, got: nat)

  /** `GraphIngestor.push_to_neo4j`: one statement per triple, in order. An entry
      without exactly three fields stops the loop; the statements issued before
      it stay issued. */
  method PushToNeo4j(session: Session, triples: seq<seq<string>>) returns (outcome: PushOutcome)
    modifies session
    ensures session.log == old(session.log) + Statements(triples[..FirstMalformed(triples)])
    ensures outcome == if FirstMalformed(triples) == |triples| then Pushed
      else UnpackError(FirstMalformed(triples), |triples[FirstMalformed(triples)]|)
  {
    var i := 0;
    while i < |triples|
      invariant 0 <= i <= FirstMalformed(triples)
      invariant forall j :: 0 <= j < i ==> |triples[j]| == 3
      invariant session.log == old(session.log) + Statements(triples[..i])
    {
      if |triples[i]| != 3 {
        assert FirstMalformed(triples) == i;
        return UnpackError(i, |triples[i]|);
      }
      var sub, rel, obj := triples[i][0], triples[i][1], triples[i][2];
      session.Run(MergeStatement(sub, rel, obj));
      StatementsExtend(triples, i);
      i := i + 1;
    }
    return Pushed;
  }
}
