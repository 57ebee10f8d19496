/** Retrieval (`GraphRAGAgent.get_graph_context` in app.py): the entity names
    stored in the graph that the question mentions are looked up, and every
    relationship on every path found around them becomes one line of context.
    The graph's answers are inputs here: the list of entity names, and a
    function that gives the paths a path query returns for a name. */
module App {
  import opened Text
  import opened Optional

  /** The text returned when the question mentions no entity of the graph. */
  const NO_MATCH := "No matching entities found in the Knowledge Graph."

  /** A relationship on a path, reduced to what the context line shows. */
  datatype Relationship = Relationship(startName: string, relType: string, endName: string)

  /** A path returned by the path query; only its relationships are read. */
  datatype Path = Path(relationships: seq<Relationship>)

  // ---------------------------------------------------------------------------
  // The entity filter

  /** `e.lower() in query_text.lower()`. */
  predicate Mentions(query: string, e: string) {
    Contains(Lower(query), Lower(e))
  }

  /** The comprehension `[e for e in entities_in_graph if e.lower() in query_text.lower()]`. */
  function FoundEntities(entities: seq<string>, query: string): seq<string>
    decreases |entities|
  {
    if entities == [] then []
    else
      var e := entities[|entities| - 1];
      FoundEntities(entities[..|entities| - 1], query) + (if Mentions(query, e) then [e] else [])
  }

  /** Matching ignores case: lower-casing the question or a name beforehand
      changes nothing. */
  lemma MentionsIgnoresCase(query: string, e: string)
    ensures Mentions(Lower(query), e) == Mentions(query, e)
    ensures Mentions(query, Lower(e)) == Mentions(query, e)
  {
    LowerIdempotent(query);
    LowerIdempotent(e);
  }

  /** A name is found exactly when it is in the graph and mentioned, and it is
      found as often as the graph lists it. */
  lemma {:induction false} FoundEntitiesExactly(entities: seq<string>, query: string, e: string)
    ensures e in FoundEntities(entities, query) <==> e in entities && Mentions(query, e)
    ensures multiset(FoundEntities(entities, query))[e]
      == if Mentions(query, e) then multiset(entities)[e] else 0
    decreases |entities|
  {
    if entities != [] {
      var n := |entities| - 1;
      var init := entities[..n];
      FoundEntitiesExactly(init, query, e);
      assert entities == init + [entities[n]];
    }
  }

  /** `xs` is `ys` with some elements left out, the rest in the same order. */
  predicate IsSubsequence<T(==)>(xs: seq<T>, ys: seq<T>)
    decreases |ys|
  {
    if xs == [] then true
    else if ys == [] then false
    else if xs[|xs| - 1] == ys[|ys| - 1] then IsSubsequence(xs[..|xs| - 1], ys[..|ys| - 1])
    else IsSubsequence(xs, ys[..|ys| - 1])
  }

  /** Appending to the longer sequence keeps a subsequence. */
  lemma {:induction false} SubsequenceOfLonger<T>(xs: seq<T>, ys: seq<T>, y: T)
    requires IsSubsequence(xs, ys)
    ensures IsSubsequence(xs, ys + [y])
    decreases |ys|, 1
  {
    var ys' := ys + [y];
    assert ys'[..|ys'| - 1] == ys;
    if xs != [] && xs[|xs| - 1] == y {
      assert xs[..|xs| - 1] + [y] == xs;
      SubsequenceOfPrefix(xs[..|xs| - 1], ys, y);
    }
  }

  /** Dropping the last element of a subsequence keeps a subsequence. */
  lemma {:induction false} SubsequenceOfPrefix<T>(xs0: seq<T>, ys: seq<T>, x: T)
    requires IsSubsequence(xs0 + [x], ys)
    ensures IsSubsequence(xs0, ys)
    decreases |ys|, 0
  {
    var xs := xs0 + [x];
    assert xs[..|xs| - 1] == xs0;
    if xs0 != [] {
      var yi := ys[..|ys| - 1];
      var y := ys[|ys| - 1];
      assert yi + [y] == ys;
      if x != y {
        SubsequenceOfPrefix(xs0, yi, x);
      }
      SubsequenceOfLonger(xs0, yi, y);
    }
  }

  /** The found names keep the graph's order: they are a subsequence of it. */
  lemma {:induction false} FoundEntitiesInGraphOrder(entities: seq<string>, query: string)
    ensures IsSubsequence(FoundEntities(entities, query), entities)
    decreases |entities|
  {
    if entities != [] {
      var n := |entities| - 1;
      var init := entities[..n];
      FoundEntitiesInGraphOrder(init, query);
      assert init + [entities[n]] == entities;
      var found := FoundEntities(entities, query);
      if Mentions(query, entities[n]) {
        assert found == FoundEntities(init, query) + [entities[n]];
        assert found[..|found| - 1] == FoundEntities(init, query);
      } else {
        assert found == FoundEntities(init, query);
        SubsequenceOfLonger(found, init, entities[n]);
      }
    }
  }

  // ---------------------------------------------------------------------------
  // The path query

  /** The path query around the depth: `*1..{depth}` is its hop range. */
  const PATH_QUERY_HEAD := "MATCH path = (n:Entity {name: $name})-[*1.."
  const PATH_QUERY_TAIL := "]-(m) RETURN path LIMIT 20"

  /** The path query for a traversal depth, with the depth in decimal. */
  function PathQuery(depth: int): string {
    PATH_QUERY_HEAD + IntToDecimal(depth) + PATH_QUERY_TAIL
  }

  /** The range of the sidebar's depth slider, and its default. */
  const MIN_DEPTH := 1
  const MAX_DEPTH := 3
  const DEFAULT_DEPTH := 2

  /** Reads a decimal integer, with an optional minus sign. */
  function ReadInt(d: string): Option<int> {
    if d != [] && AllDigits(d) then Some(DecimalValue(d))
    else if |d| >= 2 && d[0] == '-' && AllDigits(d[1..]) then Some(-(DecimalValue(d[1..]) as int))
    else None
  }

  predicate AllDigits(s: string) {
    forall i :: 0 <= i < |s| ==> IsDigit(s[i])
  }

  /** An integer printed in decimal reads back as itself. */
  lemma ReadIntOfDecimal(i: int)
    ensures ReadInt(IntToDecimal(i)) == Some(i)
  {
    var d := IntToDecimal(i);
    if i < 0 {
      DecimalRoundTrip(-i);
      assert d[1..] == NatToDecimal(-i);
      assert !IsDigit(d[0]);
    } else {
      DecimalRoundTrip(i);
    }
  }

  /** Reads the depth back out of a path query's text. */
  function QueryDepth(q: string): Option<int> {
    var h, t := |PATH_QUERY_HEAD|, |PATH_QUERY_TAIL|;
    if |q| < h + t || q[..h] != PATH_QUERY_HEAD || q[|q| - t..] != PATH_QUERY_TAIL then None
    else ReadInt(q[h..|q| - t])
  }

  /** The query carries exactly the depth it was built for, for every depth. */
  lemma QueryDepthOfPathQuery(depth: int)
    ensures QueryDepth(PathQuery(depth)) == Some(depth)
  {
    var q := PathQuery(depth);
    var h, t := |PATH_QUERY_HEAD|, |PATH_QUERY_TAIL|;
    assert q[..h] == PATH_QUERY_HEAD;
    assert q[|q| - t..] == PATH_QUERY_TAIL;
    assert q[h..|q| - t] == IntToDecimal(depth);
    ReadIntOfDecimal(depth);
  }

  /** Every depth the slider offers is a single digit between the dots and the
      bracket. */
  lemma SliderDepthIsOneDigit(depth: int)
    requires MIN_DEPTH <= depth <= MAX_DEPTH
    ensures |PathQuery(depth)| == |PATH_QUERY_HEAD| + 1 + |PATH_QUERY_TAIL|
    ensures PathQuery(depth)[|PATH_QUERY_HEAD|] == DigitChar(depth)
  {
    assert IntToDecimal(depth) == [DigitChar(depth)];
  }

  /** The default depth (the parameter default and the slider's starting value)
      is on the slider, and the query it gives has the hop range `*1..2`. */
  lemma DefaultDepthQuery()
    ensures MIN_DEPTH <= DEFAULT_DEPTH <= MAX_DEPTH
    ensures PathQuery(DEFAULT_DEPTH) == PATH_QUERY_HEAD + "2" + PATH_QUERY_TAIL
  {
    SliderDepthIsOneDigit(DEFAULT_DEPTH);
    assert IntToDecimal(DEFAULT_DEPTH) == [DigitChar(2)] == "2";
  }

  // ---------------------------------------------------------------------------
  // Context lines

  /** `f"{rel.start_node['name']} -[{rel.type}]-> {rel.end_node['name']}"`. */
  function RelationshipLine(r: Relationship): string {
    r.startName + " -[" + r.relType + "]-> " + r.endName
  }

  /** Two relationships give the same line only when they are the same
      relationship, as long as no start name holds `[` and no type holds `]`:
      de-duplicating the lines then de-duplicates the relationships. */
  lemma RelationshipLineInjective(r1: Relationship, r2: Relationship)
    requires '[' !in r1.startName && '[' !in r2.startName
    requires ']' !in r1.relType && ']' !in r2.relType
    requires RelationshipLine(r1) == RelationshipLine(r2)
    ensures r1 == r2
  {
    var l := RelationshipLine(r1);
    var a1, a2 := r1.startName, r2.startName;
    BracketAt(a1, " -[", r1.relType + "]-> " + r1.endName, l);
    BracketAt(a2, " -[", r2.relType + "]-> " + r2.endName, l);
    assert |a1| == |a2| by {
      FirstBracket(l, a1, a2);
    }
    assert a1 == l[..|a1|] == a2;
    var rest1 := r1.relType + "]-> " + r1.endName;
    var rest2 := r2.relType + "]-> " + r2.endName;
    assert l == a1 + " -[" + rest1 == a1 + " -[" + rest2;
    assert rest1 == l[|a1| + 3..] == rest2;
    assert rest1 == r1.relType + ("]-> " + r1.endName);
    assert rest2 == r2.relType + ("]-> " + r2.endName);
    assert |r1.relType| == |r2.relType| by {
      FirstCloser(rest1, r1.relType, r2.relType, r1.endName, r2.endName);
    }
    assert r1.relType == rest1[..|r1.relType|] == r2.relType;
    assert r1.endName == rest1[|r1.relType| + 4..] == r2.endName;
  }

  /** In `a + mid + rest` with `mid` ending in a bracket, the bracket sits at
      `|a| + |mid| - 1`. */
  lemma BracketAt(a: string, mid: string, rest: string, l: string)
    requires mid == " -[" && l == a + mid + rest
    ensures |a| + 2 < |l| && l[|a| + 2] == '[' && l[..|a|] == a
    ensures l[|a|] == ' ' && l[|a| + 1] == '-'
  {
  }

  /** Two bracket-free prefixes both followed by ` -[` in the same line have the
      same length. */
  lemma FirstBracket(l: string, a1: string, a2: string)
    requires '[' !in a1 && '[' !in a2
    requires |a1| + 2 < |l| && l[|a1| + 2] == '[' && l[..|a1|] == a1 && l[|a1|] == ' ' && l[|a1| + 1] == '-'
    requires |a2| + 2 < |l| && l[|a2| + 2] == '[' && l[..|a2|] == a2 && l[|a2|] == ' ' && l[|a2| + 1] == '-'
    ensures |a1| == |a2|
  {
  }

  /** Two `]`-free types both followed by `]-> ` in the same text have the same
      length. */
  lemma FirstCloser(rest: string, t1: string, t2: string, e1: string, e2: string)
    requires ']' !in t1 && ']' !in t2
    requires rest == t1 + ("]-> " + e1) && rest == t2 + ("]-> " + e2)
    ensures |t1| == |t2|
  {
    assert rest[|t1|] == ']' && rest[|t2|] == ']';
    assert forall k :: 0 <= k < |t1| ==> rest[k] == t1[k];
    assert forall k :: 0 <= k < |t2| ==> rest[k] == t2[k];
  }

  /** The lines of a path's relationships, in order. */
  function RelationshipLines(rels: seq<Relationship>): (lines: seq<string>)
    ensures |lines| == |rels|
    decreases |rels|
  {
    if rels == [] then []
    else RelationshipLines(rels[..|rels| - 1]) + [RelationshipLine(rels[|rels| - 1])]
  }

  /** The lines of several paths, one path after the other. */
  function PathLines(paths: seq<Path>): seq<string>
    decreases |paths|
  {
    if paths == [] then []
    else PathLines(paths[..|paths| - 1]) + RelationshipLines(paths[|paths| - 1].relationships)
  }

  /** The lines collected in `context_parts` for the found names, one name after
      the other, each with the paths `retrieve` gives for it. */
  function EntityLines(found: seq<string>, query: string, retrieve: (string, string) -> seq<Path>): seq<string>
    decreases |found|
  {
    if found == [] then []
    else EntityLines(found[..|found| - 1], query, retrieve) + PathLines(retrieve(query, found[|found| - 1]))
  }

  /** `l` is the line of some relationship on some path retrieved for some found name. */
  ghost predicate Retrieved(found: seq<string>, query: string, retrieve: (string, string) -> seq<Path>, l: string) {
    exists e, p, r :: e in found && p in retrieve(query, e) && r in p.relationships && l == RelationshipLine(r)
  }

  /** Every line of a path is the line of one of its relationships, and back. */
  lemma {:induction false} RelationshipLinesExactly(rels: seq<Relationship>, l: string)
    ensures l in RelationshipLines(rels) <==> exists r :: r in rels && l == RelationshipLine(r)
    decreases |rels|
  {
    if rels != [] {
      var n := |rels| - 1;
      RelationshipLinesExactly(rels[..n], l);
      assert rels == rels[..n] + [rels[n]];
      if r :| r in rels && l == RelationshipLine(r) {
        if r != rels[n] {
          assert r in rels[..n];
        }
      }
    }
  }

  /** Every line of several paths is the line of a relationship on one of them, and back. */
  lemma {:induction false} PathLinesExactly(paths: seq<Path>, l: string)
    ensures l in PathLines(paths) <==> exists p, r :: p in paths && r in p.relationships && l == RelationshipLine(r)
    decreases |paths|
  {
    if paths != [] {
      var n := |paths| - 1;
      var last := paths[n];
      PathLinesExactly(paths[..n], l);
      RelationshipLinesExactly(last.relationships, l);
      assert paths == paths[..n] + [last];
      if p, r :| p in paths && r in p.relationships && l == RelationshipLine(r) {
        if p != last {
          assert p in paths[..n];
        }
      }
    }
  }

  /** The collected lines are exactly the retrieved relationships' lines: no
      line comes from elsewhere, and no retrieved relationship is missed. */
  lemma {:induction false} EntityLinesExactly(found: seq<string>, query: string, retrieve: (string, string) -> seq<Path>, l: string)
    ensures l in EntityLines(found, query, retrieve) <==> Retrieved(found, query, retrieve, l)
    decreases |found|
  {
    if found != [] {
      var n := |found| - 1;
      var last := found[n];
      EntityLinesExactly(found[..n], query, retrieve, l);
      PathLinesExactly(retrieve(query, last), l);
      assert found == found[..n] + [last];
      if e, p, r :| e in found && p in retrieve(query, e) && r in p.relationships && l == RelationshipLine(r) {
        if e != last {
          assert e in found[..n];
        }
      }
    }
  }

  // ---------------------------------------------------------------------------
  // get_graph_context

  /** The innermost loop: the lines of a path's relationships are appended. */
  method AppendRelationshipLines(parts: seq<string>, rels: seq<Relationship>) returns (out: seq<string>)
    ensures out == parts + RelationshipLines(rels)
  {
    out := parts;
    var k := 0;
    while k < |rels|
      invariant 0 <= k <= |rels|
      invariant out == parts + RelationshipLines(rels[..k])
    {
      out := out + [RelationshipLine(rels[k])];
      assert rels[..k + 1][..k] == rels[..k];
      k := k + 1;
    }
    assert rels[..k] == rels;
  }

  /** The middle loop: the lines of every path returned for one name are appended. */
  method AppendPathLines(parts: seq<string>, paths: seq<Path>) returns (out: seq<string>)
    ensures out == parts + PathLines(paths)
  {
    out := parts;
    var j := 0;
    while j < |paths|
      invariant 0 <= j <= |paths|
      invariant out == parts + PathLines(paths[..j])
    {
      out := AppendRelationshipLines(out, paths[j].relationships);
      assert paths[..j + 1][..j] == paths[..j];
      j := j + 1;
    }
    assert paths[..j] == paths;
  }

  /** The outer loop that fills `context_parts`: for each found name, the lines
      of the paths the path query returns for it. */
  method CollectLines(found: seq<string>, cypher: string, retrieve: (string, string) -> seq<Path>)
    returns (parts: seq<string>)
    ensures parts == EntityLines(found, cypher, retrieve)
  {
    parts := [];
    var i := 0;
    while i < |found|
      invariant 0 <= i <= |found|
      invariant parts == EntityLines(found[..i], cypher, retrieve)
    {
      parts := AppendPathLines(parts, retrieve(cypher, found[i]));
      assert found[..i + 1][..i] == found[..i];
      i := i + 1;
    }
    assert found[..i] == found;
  }

  /** `list(set(parts))`: every line once, in an order the set decides (any
      order is allowed here). */
  method Deduplicate(parts: seq<string>) returns (unique: seq<string>)
    ensures Distinct(unique)
    ensures forall l :: l in unique <==> l in parts
  {
    var all := set l | l in parts;
    var remaining := all;
    unique := [];
    while remaining != {}
      invariant remaining <= all
      invariant forall l :: l in unique <==> l in all && l !in remaining
      invariant Distinct(unique)
      decreases |remaining|
    {
      var l :| l in remaining;
      unique := unique + [l];
      remaining := remaining - {l};
    }
  }

  /** `GraphRAGAgent.get_graph_context`. The names mentioned in the question are
      looked up in graph order; for each, every relationship of every path the
      path query returns is formatted as a line; the lines go through a set, so
      each appears once, in an order the set decides. `retrieve(q, e)` stands
      for the records of `session.run(q, name=e)`. Besides
      the text, `lines` is the list `list(set(context_parts))` it was joined from.
      When no collected line holds a newline, splitting the text on newlines
      gives exactly that list back. */
  method GetGraphContext(entities: seq<string>, queryText: string, depth: int := DEFAULT_DEPTH, retrieve: (string, string) -> seq<Path>)
    returns (context: string, lines: seq<string>)
    ensures var found := FoundEntities(entities, queryText);
      && (found == [] ==> context == NO_MATCH)
      && (found != [] ==>
           && context == Join(lines, "\n")
           && Distinct(lines)
           && forall l :: l in lines <==> l in EntityLines(found, PathQuery(depth), retrieve))
    ensures var collected := EntityLines(FoundEntities(entities, queryText), PathQuery(depth), retrieve);
      FoundEntities(entities, queryText) != [] && collected != [] && (forall l :: l in collected ==> '\n' !in l)
      ==> Split(context, "\n") == lines
  {
    var found := FoundEntities(entities, queryText);
    if found == [] {
      return NO_MATCH, [];
    }
    var cypher := PathQuery(depth);
    var parts := CollectLines(found, cypher, retrieve);
    var ordered := Deduplicate(parts);
    context, lines := Join(ordered, "\n"), ordered;
    if parts != [] && forall l :: l in parts ==> '\n' !in l {
      assert parts[0] in ordered;
      JoinSplit(ordered, "\n");
    }
  }
}
