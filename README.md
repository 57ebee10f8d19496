# Fraud & UBO graph agent: verified model of the text handling

The repository links a language model, a Neo4j graph and a Streamlit UI. This
project models the deterministic text handling between those parts and proves
what that handling guarantees.

- **Ingestion** (`GraphIngestor` in src/nlp_to_graph.py), module `NlpToGraph`:
  - The model's reply is stripped and split into lines. The lines that contain
    `" | "` are split into triples (`ExtractTriples`, `ParseLines`).
  - Every triple becomes one `MERGE` statement, issued in order against a
    session (`PushToNeo4j`).
  - The session is a `Session` object whose `log` records the statements it was
    asked to run.
  - An entry that does not have exactly three fields stops the loop at the tuple
    unpack. That outcome is reported as `UnpackError(index, got)`.
- **Retrieval** (`GraphRAGAgent.get_graph_context` in app.py), module `App`:
  - The graph's entity names whose lower-cased form occurs in the lower-cased
    question are kept, in graph order (`FoundEntities`).
  - When no name is kept, the result is the fixed no-match message.
  - Otherwise every relationship on every path returned for the kept names
    becomes one line `start -[TYPE]-> end`. Each line appears once, and the lines
    are joined with newlines (`GetGraphContext`).
  - The path query carries the traversal depth as its hop bound `*1..depth`
    (`PathQuery`).
- **Python `str` operations** the code relies on, module `Text`:
  - `in`, `split`, `join`, `strip` (with CPython's `isspace` set), `lower`
    (ASCII letters only), single-character `replace`, and `str(int)`.

The language model's reply, the entity names in the graph and the paths a path
query returns are inputs. `retrieve(query, name)` stands for the records of
`session.run(query, name=name)`.

Files: `option.dfy` (module `Optional`), `text.dfy` (module `Text`),
`nlp_to_graph.dfy` (module `NlpToGraph`) and `app.dfy` (module `App`).

## Model

| member | source | states |
|---|---|---|
| Text.StripIsTrimmedInfix | src/nlp_to_graph.py:27 | `strip()` returns a contiguous slice of its input. Only whitespace lies before and after that slice. The result is empty or starts and ends with a non-whitespace character. |
| Text.SplitJoin | src/nlp_to_graph.py:27 | Joining the pieces of `s.split(sep)` with `sep` gives `s` back, so splitting loses no text. |
| Text.SplitPartsAvoidSeparator | src/nlp_to_graph.py:27 | No piece of `s.split(sep)` contains `sep`. |
| Text.JoinSplit | app.py:48 | For a one-character separator, splitting `sep.join(parts)` gives `parts` back when the list is not empty and no part contains the separator. (An empty list joins to `""`, which splits into `[""]`.) |
| Text.DecimalRoundTrip | app.py:38 | Reading back the decimal text of a natural number gives the number. |
| NlpToGraph.LinesRoundTrip | src/nlp_to_graph.py:27 | The reply's lines, joined with `"\n"`, are exactly the stripped reply. |
| NlpToGraph.PickedLinesQualifyInOrder | src/nlp_to_graph.py:27 | Every line that yields a triple contains `" \| "`. Those lines are taken in strictly increasing positions, so the triples keep the lines' order. |
| NlpToGraph.PickedLinesComplete | src/nlp_to_graph.py:27 | Every line that contains `" \| "` yields a triple. None is dropped. |
| NlpToGraph.ParseLinesSplitsPickedLines | src/nlp_to_graph.py:27 | The k-th triple is the `" \| "`-split of the k-th qualifying line. |
| NlpToGraph.ParseLinesCount | src/nlp_to_graph.py:27 | There are as many triples as lines that contain `" \| "`. |
| NlpToGraph.ParsedFieldsRoundTrip | src/nlp_to_graph.py:27 | Each triple has at least two fields, and no field contains `" \| "`. Joining the fields with `" \| "` gives back exactly the line they came from. |
| NlpToGraph.RelTypeShape | src/nlp_to_graph.py:35 | The relationship type is as long as the stripped relation. Every space of it became `_`, and every other character stays in place, so no space is left. |
| NlpToGraph.ParseFieldsOfFilled | src/nlp_to_graph.py:32-36 | The text after the statement's opening determines the subject, object and relationship type, provided the names hold no quote. |
| NlpToGraph.ParseFill | src/nlp_to_graph.py:32-36 | A statement built from three fields reads back as exactly those fields, provided the names hold no quote. |
| NlpToGraph.FillParse | src/nlp_to_graph.py:32-36 | Every text that reads as a statement is the statement built from the fields read. Its names hold no quote. |
| NlpToGraph.MergeStatementFields | src/nlp_to_graph.py:33-35 | The statement for `(sub, rel, obj)` carries the stripped subject, the stripped object, and the relationship type (stripped, spaces to `_`). It carries nothing else. |
| NlpToGraph.FirstMalformed | src/nlp_to_graph.py:31 | Every entry before the returned position has exactly three fields. The entry at that position, if any, does not. |
| NlpToGraph.StatementsInOrder | src/nlp_to_graph.py:30-37 | Statement j is the statement for triple j: one per triple, in triple order. |
| NlpToGraph.Session.constructor | src/nlp_to_graph.py:30 | A new session has run nothing. |
| NlpToGraph.Session.Run | src/nlp_to_graph.py:37 | Running a query appends exactly that query to the session's log. |
| NlpToGraph.PushToNeo4j | src/nlp_to_graph.py:29-37 | The session receives the statements of the triples before the first entry without exactly three fields, in order, and nothing else. The outcome is `Pushed` when there is no such entry. Otherwise it is `UnpackError` at that entry's position, with its field count. |
| App.MentionsIgnoresCase | app.py:29 | Matching ignores case: lower-casing the question or the name first changes nothing. |
| App.FoundEntitiesExactly | app.py:27-29 | A name is found exactly when it is in the graph and its lower-cased form occurs in the lower-cased question. A found name appears as often as the graph lists it. |
| App.FoundEntitiesInGraphOrder | app.py:27-29 | The found names are a subsequence of the graph's names, in the same order. |
| App.ReadIntOfDecimal | app.py:38 | The decimal text of any integer, negative ones included, reads back as that integer. |
| App.QueryDepthOfPathQuery | app.py:37-40 | The path query's hop bound `*1..` carries exactly the traversal depth it was built for. |
| App.SliderDepthIsOneDigit | app.py:77 | Every depth the sidebar slider offers (1 to 3) appears as one digit in the path query. |
| App.DefaultDepthQuery | app.py:20 | The default depth 2 (the default of `GetGraphContext`'s `depth`, also the slider's starting value at app.py:77) lies in the slider's range 1 to 3, and its path query has the hop range `*1..2`. |
| App.RelationshipLineInjective | app.py:46-48 | Two relationships give the same line only if they are equal, when no start name holds `[` and no type holds `]`. Under that condition, de-duplicating lines de-duplicates relationships. |
| App.RelationshipLinesExactly | app.py:45-46 | The lines of a path are exactly the lines of its relationships. |
| App.PathLinesExactly | app.py:42-46 | The lines of several paths are exactly the lines of the relationships on them. |
| App.EntityLinesExactly | app.py:35-46 | A line is collected exactly when it is the line of a relationship on a path retrieved for a found name. Every collected line has that form, and every such relationship contributes its line. |
| App.AppendRelationshipLines | app.py:45-46 | The innermost loop appends the path's relationship lines, in order, to what was collected. |
| App.AppendPathLines | app.py:42-46 | The middle loop appends the lines of every returned path, in order. |
| App.CollectLines | app.py:34-46 | The outer loop collects, for each found name in order, the lines of the paths the query returns for it. |
| App.Deduplicate | app.py:48 | `list(set(parts))` has no duplicates and holds exactly the lines of `parts`. |
| App.GetGraphContext | app.py:20-48 | With no found name, the result is exactly the no-match message. Otherwise the result is the newline-join of the returned lines. Those lines are distinct, and they are exactly the collected lines for the found names, retrieved with the path query for `depth`. When some line was collected and none holds a newline, splitting the result on `"\n"` gives exactly those distinct lines back. |

## Left out

- The language-model calls (src/nlp_to_graph.py:26, app.py:61) and the prompt templates around them are foreign library calls. The reply is an input.
- `answer_query` (app.py:50-61) is left out: it only formats a prompt and calls the model.
- The Neo4j driver, the session lifetime and the Cypher semantics of `MERGE` and of path matching are database behaviour. The model does not say what the graph looks like after the statements run.
- The session is a log of statement texts. The entity names come as a sequence, and the path records as a function `retrieve`.
- `retrieve` is a pure function of the query and the name. A name the graph lists twice therefore gets the same paths both times, while the source runs the query once per occurrence (app.py:35-41) and the database, with `LIMIT 20` and no `ORDER BY`, may return different paths each time.
- `LIMIT 20` is part of the query text, but the model does not bound how many paths `retrieve` returns.
- The path's `nodes` (app.py:43) are read but never used in the source, so they are not modelled.
- NlpToGraph.MergeStatementFields: holds only for names without a quote. A quote in a name ends the Cypher string literal early, and what the database then does is not modelled.
- NlpToGraph.ParseFill: needs quote-free names for the same reason.
- NlpToGraph.PushToNeo4j: the unpack failure is a returned `UnpackError` instead of a raised `ValueError`. Closing the session on the way out is not modelled.
- Text.Lower: lower-cases ASCII letters only. Python's full Unicode case mapping is not modelled, so `App.Mentions` is case-insensitive for ASCII only.
- App.Deduplicate: the order in which Python iterates a set is not modelled. Any order is allowed, and the contracts speak only of which lines appear.
- App.GetGraphContext: when names are found but no path comes back, the result is the empty string, as in the source.
- App.GetGraphContext: it also returns the de-duplicated list it joined, so its contract can name the lines. The source returns only the joined text.
- App.GetGraphContext: a name or type that holds a newline splits into several lines, so the split-back property is stated for newline-free lines only.
- The Streamlit UI (app.py:13, app.py:63-99) is not modelled. Only the depth slider's bounds appear, as `MIN_DEPTH` and `MAX_DEPTH`.
- Environment configuration (app.py:8-11, src/nlp_to_graph.py:8-10) and the `__main__` file reading (src/nlp_to_graph.py:39-45) are I/O.
- src/gnn_model.py is not part of this model. It is a floating-point neural network built on a foreign library.
- Driver exceptions are not modelled: connection failures and query errors are outside this model.
