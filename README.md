# AI Knowledge Graph Builder: a verified model of its text-handling core

The application is a Streamlit demo. A user types free text. A language
model routes the text either to "generate graph data" or to "answer a
question". On the generation path, a second model reply is turned into
Cypher statements, which are written to a Neo4j store one at a time.

The application itself owns only three pieces of logic, all in `app.py`.
This project models those three and proves what they guarantee:

- **Cypher extraction** (`extract_cypher`): both fence markers are
  deleted, newlines become spaces, and the text is cut at every `;`. Each
  piece is trimmed. Only pieces whose upper-cased form starts with
  `CREATE`, `MERGE` or `MATCH` are kept, in their original order. The
  model is a method with the source's loop, `CypherExtract.ExtractCypher`.
  It is proved equal to a filter specification, `CypherExtract.Extracted`.
- **Intent routing**: the router's reply is lower-cased and trimmed. If it
  contains "generate" the decision is `generate`; otherwise, if it
  contains "answer", the decision is `answer`; otherwise the normalised
  reply is kept as the decision, so neither branch runs.
- **Fail-fast execution**: the statements are sent to the store in order,
  and a counter goes up after each success. The first store error ends
  the batch. The store is an oracle `fails: nat -> bool`; `fails(i)` means
  the store raises an error on statement `i`.

The Python string operations these rely on (`replace`, `split`, `strip`,
`upper`, `lower`, `startswith`, `in`) are modelled in module `Text` on
`seq<char>`. Case mapping and whitespace are restricted to ASCII.
`Text.ReplaceAll` follows `str.replace`: occurrences are found from left
to right without overlapping, and an empty pattern inserts the
replacement around every character.

A worked example is proved stage by stage: a fenced reply holding a MERGE
statement and a DROP statement on separate lines yields only the MERGE
statement (`CypherExtract.MergeDropExample`).

Files: `text.dfy` (module `Text`), `extract.dfy` (`CypherExtract`),
`routing.dfy` (`Routing`), `execution.dfy` (`Execution`), `pipeline.dfy`
(`Pipeline`: extraction followed by execution, as on the generation path).

Points where the code does less than one might expect, which the model follows:

- No separate test drops empty pieces. An empty piece fails the keyword
  test anyway, because every allowed statement is at least five
  characters long (`CypherExtract.AllowedIsLong`).
- The router has no UNKNOWN value. The normalised reply string itself
  becomes the decision. `Routing.Dispatch` maps decisions to the three
  branches of lines 83 and 105.
- When a statement fails, the application shows only the error. It does
  not show how many statements were already written. `Execution.ReportOf`
  follows lines 97-102.
- The caller's empty-input check (line 71) rejects only the empty string.
  Whitespace-only input still reaches the router.

## Model

| member | source | states |
|---|---|---|
| `CypherExtract.ExtractCypher` | app.py:12-20 | the loop that strips each piece and appends the allowed ones returns exactly the filter specification `Extracted(text)` |
| `CypherExtract.Extracted` | app.py:12-20 | the value `extract_cypher(text)` returns: `Filter(IsAllowed, Fragments(text))`, characterised by `ExtractedIsOrderedFilter` and the `Statements…` lemmas below |
| `CypherExtract.Clean` | app.py:13 | the three chained `replace` calls: delete the tagged fence marker, then the bare one, then turn every newline into a space; `CleanHasNoNewline` and `CleanHasNoFence` state what it leaves |
| `CypherExtract.Fragments` | app.py:14-17 | `[q.strip() for q in text.split(";")]` on the cleaned text; `FragmentsAreClean` states its property |
| `CypherExtract.StripAll` | app.py:17 | `q.strip()` applied to every piece; `StripAllFixed` and `StrippedPartsAreClean` state its properties |
| `CypherExtract.IsAllowed` | app.py:18 | `q.upper().startswith(("CREATE", "MERGE", "MATCH"))`; `AllowedMeaning` spells it out and `AllowedIsLong` bounds it |
| `CypherExtract.Filter` | app.py:15-19 | the loop's append-if-passes, as a list comprehension; `FilterMembers`, `FilterAppend`, `FilterCut` and `FilterAll` state its properties |
| `CypherExtract.StatementsAreAllowListed` | app.py:18 | every returned statement, upper-cased, starts with CREATE, MERGE or MATCH |
| `CypherExtract.StatementsHaveNoSeparator` | app.py:14-19 | no returned statement contains `;` |
| `CypherExtract.StatementsHaveNoNewline` | app.py:13-19 | no returned statement contains a newline |
| `CypherExtract.StatementsHaveNoFence` | app.py:13-19 | no returned statement contains three backticks in a row |
| `CypherExtract.StatementsAreTrimmed` | app.py:17-19 | every returned statement is non-empty, begins and ends with a non-space, and equals its own strip |
| `CypherExtract.ExtractedIsOrderedFilter` | app.py:14-20 | a trimmed piece is returned if and only if it passes the keyword test; statements kept from earlier pieces come before those kept from later pieces |
| `CypherExtract.ExtractedEmpty` | app.py:12-20 | the empty reply yields no statements |
| `CypherExtract.ExtractIdempotent` | app.py:12-20 | extracting again from the returned statements joined with `;` returns the same statements |
| `CypherExtract.ExtractJoined` | app.py:12-20 | clean, trimmed, allowed statements that contain no `;`, once joined with `;`, are extracted back exactly |
| `CypherExtract.FragmentsOfJoined` | app.py:13-17 | the trimmed pieces of such a join are the statements themselves |
| `CypherExtract.JoinedStatementsAreClean` | app.py:13 | cleaning a `;`-join of fence-free, newline-free statements changes nothing |
| `CypherExtract.JoinedHasNoFence` | app.py:13 | a `;`-join of fence-free statements contains neither fence marker |
| `CypherExtract.JoinedHasNoNewline` | app.py:13 | a `;`-join of newline-free statements contains no newline |
| `CypherExtract.NoFenceNoTag` | app.py:13 | a text without the bare fence contains no tagged fence |
| `CypherExtract.CleanHasNoNewline` | app.py:13 | after the three replacements no newline is left |
| `CypherExtract.CleanHasNoFence` | app.py:13 | after the three replacements no three backticks in a row are left |
| `CypherExtract.FragmentsAreClean` | app.py:13-17 | every trimmed piece is free of `;`, newlines and fences and equals its own strip |
| `CypherExtract.StrippedPartsAreClean` | app.py:17 | stripping pieces free of `;`, newlines and fences keeps them free and makes each its own strip |
| `CypherExtract.StripAllFixed` | app.py:17 | stripping already-stripped pieces changes nothing |
| `CypherExtract.AllowedMeaning` | app.py:18 | the keyword test holds exactly when the upper-cased piece starts with CREATE, MERGE or MATCH |
| `CypherExtract.AllowedIsLong` | app.py:18 | a piece that passes the keyword test has at least five characters |
| `CypherExtract.FilterMembers` | app.py:15-19 | an element is kept if and only if it is in the input and passes the test |
| `CypherExtract.FilterAppend` | app.py:15-19 | filtering a concatenation is concatenating the filtered parts, so input order is kept |
| `CypherExtract.FilterCut` | app.py:15-19 | cutting the input anywhere cuts the output at the matching point |
| `CypherExtract.FilterAll` | app.py:15-19 | when every element passes, all are kept unchanged |
| `CypherExtract.ReplaceCharAbsent` | app.py:13 | the newline replacement leaves a piece without newlines unchanged |
| `CypherExtract.DeleteTagOfPair` | app.py:13 | on a fenced reply, the first replacement removes the opening tagged fence marker and leaves the closing bare one |
| `CypherExtract.DeleteFenceOfPair` | app.py:13 | the second replacement then removes the closing bare fence marker |
| `CypherExtract.NewlinesOfPair` | app.py:13 | the third replacement turns the reply's three newlines into spaces and changes nothing else |
| `CypherExtract.CleanOfPair` | app.py:13 | line 13 turns the fenced two-statement reply into one line: a space, the first statement, ` ; `, the second statement, `; ` |
| `CypherExtract.SplitOfPair` | app.py:14 | that line splits at `;` into three pieces, the last a lone space |
| `CypherExtract.StripOfPair` | app.py:17 | the three pieces strip to the two statements and an empty piece |
| `CypherExtract.FilterOfPair` | app.py:18-19 | of those, only the allowed statement is kept; the disallowed one and the empty piece are dropped |
| `CypherExtract.ExtractFencedPair` | app.py:12-20 | a fenced reply holding an allowed statement, a line with `;` and a disallowed statement ending in `;` yields exactly the allowed statement |
| `CypherExtract.MergeStatementChars` | app.py:13-14 | the example's MERGE statement contains no backtick, newline or `;`, so cleaning and splitting leave it whole |
| `CypherExtract.DropStatementChars` | app.py:13-14 | the example's DROP statement contains no backtick, newline or `;` |
| `CypherExtract.MergeStatementAllowed` | app.py:18 | `MERGE (a:Person {name:'X'})` passes the keyword test |
| `CypherExtract.DropStatementRejected` | app.py:18 | `DROP INDEX foo` fails the keyword test |
| `CypherExtract.MergeDropExample` | app.py:12-20 | the fenced reply with `MERGE (a:Person {name:'X'})`, a line with `;` and `DROP INDEX foo;` yields exactly `["MERGE (a:Person {name:'X'})"]` |
| `Text.Split` | app.py:14 | `split(";")` returns at least one piece, and no piece contains the separator |
| `Text.JoinSplit` | app.py:14 | joining the pieces of a split with the separator gives back the original string |
| `Text.SplitJoin` | app.py:14 | splitting a join of separator-free strings gives back those strings |
| `Text.Join` | app.py:14 | `";".join(parts)`, the inverse partner of `split`: `JoinSplit` and `SplitJoin` state the two round trips |
| `Text.SplitKeepsAbsence` | app.py:14 | a pattern absent from the text is absent from every piece |
| `Text.JoinKeepsAbsence` | app.py:14 | a separator-free pattern absent from every part is absent from their join |
| `Text.Find` | app.py:14 | the first index of the separator, or the length when there is none |
| `Text.TrimLeft` | app.py:17 | the result is a suffix of the input; everything dropped is whitespace; it is empty or starts with a non-space |
| `Text.TrimRight` | app.py:17 | the result is a prefix of the input; everything dropped is whitespace; it is empty or ends with a non-space |
| `Text.Strip` | app.py:17 | the result is empty or begins and ends with a non-space |
| `Text.StripSlice` | app.py:17 | `strip()` keeps one contiguous slice and drops only whitespace on either side of it |
| `Text.StripFixpoint` | app.py:17 | a string equals its strip exactly when it is empty or begins and ends with a non-space; stripping is idempotent |
| `Text.StripKeepsAbsence` | app.py:17 | a pattern absent from a string is absent from its strip |
| `Text.StripKeepsChar` | app.py:17 | a character absent from a string is absent from its strip |
| `Text.StripKeepsLower` | app.py:77 | stripping a string with no ASCII capitals leaves none |
| `Text.StripPadded` | app.py:17 | `strip()` of a string padded only with whitespace, whose own ends are not whitespace, is that string |
| `Text.ReplaceAbsent` | app.py:13 | replacing a pattern that does not occur changes nothing |
| `Text.ReplaceAll` | app.py:13 | `str.replace`: left-to-right, non-overlapping replacement; `ReplaceAbsent`, `ReplacePrefixFree`, `ReplaceCharPointwise` and `DeleteTriples` state its properties |
| `Text.ReplacePrefixFree` | app.py:13 | a prefix without the pattern's first character is copied unchanged and replacement goes on after it |
| `Text.ReplaceCharConcat` | app.py:13 | replacing one character by another distributes over concatenation |
| `Text.ReplaceCharPointwise` | app.py:13 | replacing `\n` by a space acts character by character and keeps the length |
| `Text.ReplaceCharRemoves` | app.py:13 | after replacing a character by a different one, it no longer occurs |
| `Text.ReplaceCharKeepsAbsence` | app.py:13 | replacing a character cannot create a pattern that does not contain the new character |
| `Text.DeleteTriples` | app.py:13 | deleting the bare fence marker (three backticks) from left to right reduces the leading run of backticks to its length modulo three, and no three backticks in a row remain anywhere |
| `Text.TripleAtFront` | app.py:13 | three backticks start a string exactly when its leading run of backticks has length three or more |
| `Text.LeadingRunDrop3` | app.py:13 | three leading backticks account for three of the leading run |
| `Text.DeleteTriplesMatch` | app.py:13 | when three backticks start the text, deleting them and the rest leaves a leading run that is still the original run modulo three |
| `Text.DeleteTriplesSkip` | app.py:13 | when the text does not start with three backticks, its first character is kept and no three backticks in a row appear at the front |
| `Text.ConsKeepsShortRun` | app.py:13 | a character put in front of two texts whose backtick runs agree gives equal runs, and no triple when the run stays short |
| `Text.LeadingRun` | app.py:13 | the leading run is a prefix of copies of the character, followed by a different character or the end |
| `Text.ContainsWitness` | app.py:78 | `p in s` holds exactly when some slice of `s` equals `p` |
| `Text.ContainsChar` | app.py:78 | a one-character string occurs in `s` exactly when that character is an element of `s` |
| `Text.TooLongToContain` | app.py:78 | a pattern longer than the text does not occur in it |
| `Text.ContainsInPrefix` | app.py:78 | an occurrence in a prefix is an occurrence in the whole |
| `Text.ContainsInSuffix` | app.py:78 | an occurrence in a suffix is an occurrence in the whole |
| `Text.ContainsInSlice` | app.py:78 | an occurrence in a slice is an occurrence in the whole |
| `Text.ContainsLonger` | app.py:13 | a text that contains `p + q` contains `p`, so one containing the tagged fence contains the bare fence |
| `Text.ContainsAcrossBarrier` | app.py:14 | an occurrence of a pattern without the separator lies entirely on one side of a separator |
| `Text.Contains` | app.py:78-79 | Python's `p in s`, by scanning; `ContainsWitness` ties it to the positional definition |
| `Text.StartsWithAny` | app.py:18 | `s.startswith(tuple)`: some prefix in the tuple matches; `CypherExtract.AllowedMeaning` spells it out for the keyword tuple |
| `Text.LowerMeaning` | app.py:77 | after `lower()` no ASCII capital is left, other characters are kept, and lowering is idempotent |
| `Text.Lower` | app.py:77 | `s.lower()` on ASCII; `LowerMeaning` states its property |
| `Text.Upper` | app.py:18 | `s.upper()` on ASCII; `UpperMeaning` and `UpperKeepsPrefix` state its properties |
| `Text.UpperMeaning` | app.py:18 | after `upper()` no ASCII lower-case letter is left, other characters are kept, and upper-casing is idempotent |
| `Text.UpperKeepsPrefix` | app.py:18 | a prefix with no lower-case letter remains a prefix after `upper()`, so a statement written in capitals keeps its keyword |
| `Routing.Normalize` | app.py:77 | `reply.lower().strip()`; `NormalizedIsLowerAndTrimmed` and `NormalizeIdempotent` state its properties |
| `Routing.Decide` | app.py:77-79 | the decision string: "generate" if contained, else "answer" if contained, else the normalised reply; `DecideGenerate`, `DecideAnswer`, `DecideOther` and `DecideIdempotent` state its properties |
| `Routing.Dispatch` | app.py:83-105 | the `if decision == "generate"` / `elif decision == "answer"` branches; `RouteByPriority` states when each runs |
| `Routing.Route` | app.py:77-105 | the branch taken for a router reply; `RouteByPriority` states it |
| `Routing.NormalizedIsLowerAndTrimmed` | app.py:77 | the normalised reply has no ASCII capitals and equals its own strip |
| `Routing.NormalizeFixed` | app.py:77 | a string with no capitals that equals its strip is already normalised |
| `Routing.NormalizeIdempotent` | app.py:77 | normalising twice is normalising once |
| `Routing.DecideGenerate` | app.py:78 | the decision is `generate` exactly when the normalised reply contains "generate", even if it also contains "answer" |
| `Routing.DecideAnswer` | app.py:78-79 | the decision is `answer` exactly when the normalised reply contains "answer" and not "generate" |
| `Routing.DecideOther` | app.py:77-79 | otherwise the decision is the normalised reply, which is then neither `generate` nor `answer` |
| `Routing.RouteByPriority` | app.py:77-105 | the generation branch (line 83) runs exactly when "generate" is present; the answer branch (line 105) exactly when "answer" is present and "generate" is not; otherwise neither runs |
| `Routing.DecideKeyword` | app.py:77-79 | the words `generate` and `answer` each route to themselves |
| `Routing.DecideIdempotent` | app.py:77-79 | routing a decision string again yields the same decision |
| `Execution.ExecuteBatch` | app.py:92-102 | the count is the length of the longest prefix of statements that succeed; an error was raised exactly when that prefix is shorter than the batch; the store is called once more than the count when an error occurs and exactly count times otherwise |
| `Execution.FirstFailureFrom` | app.py:94-96 | the first failing index at or after `i`, or `n`: everything before it succeeds and it fails when below `n` |
| `Execution.SucceededPrefix` | app.py:93-96 | the final value of `count`; `SucceededPrefixMeaning` and `SucceededPrefixIsLongest` state its properties and `ExecuteBatch` is proved to compute it |
| `Execution.ReportOf` | app.py:97-102 | the message chosen from `count` and whether the store raised; `ReportMeaning` states when each message appears |
| `Execution.SucceededPrefixMeaning` | app.py:93-96 | `0 <= count <= n`; the count is `n` when no statement fails, and otherwise the index of the first failing statement |
| `Execution.SucceededPrefixIsLongest` | app.py:93-96 | any all-succeeding prefix is no longer than the count |
| `Execution.FirstFailureExtend` | app.py:94-96 | adding statements cannot lower the count, and once a statement has failed adding statements changes nothing |
| `Execution.ReportMeaning` | app.py:97-102 | the success message appears exactly when the batch is non-empty and nothing fails; "failed to generate" exactly when the batch is empty; the error message exactly when some statement fails |
| `Execution.SecondOfThreeFails` | app.py:94-96 | when the second statement fails, exactly one succeeds, and a third statement changes nothing |
| `Pipeline.GeneratePath` | app.py:86-102 | the statements sent are the extractor's output; the count and the message shown are as above for that batch |

## Left out

- The Streamlit interface (app.py:49-126 outside the parts above): page setup, tabs, buttons, spinners and messages. The warning at lines 89-90 shows a message and changes nothing.
- The Neo4j connection (app.py:53-62) and what `db.query` does to the store (lines 95 and 108). They are network I/O. Statement execution is reduced to the oracle `fails`, and the text of the store's error is not modelled.
- The answer path (app.py:106-115): a fixed read query and a model call, both external.
- `visualize_graph` (app.py:23-46): pyvis rendering and an HTML file write.
- The calls to the language model: the router's reply and the generation reply are inputs to the model (`reply`, `rawResponse`). Prompt loading and chain construction in llm_engine.py are library wiring and are not part of this model.
- query_engine.py is not part of this model. It only forwards a query to the store.
- `Text.Upper`, `Text.Lower`, `Text.IsSpace`: Python's full Unicode `upper()`, `lower()` and `strip()` are not modelled, because case mappings can change a string's length (`'ß'.upper()` is `'SS'`) and the Unicode whitespace table is large. The model maps only ASCII letters and strips only ASCII whitespace; every other character is left unchanged.
- `Text.Find` returns the length of the string, not -1, when the character is absent. It is used only inside `Text.Split`.
- Exceptions raised by the model calls (router or generator) are not modelled. They propagate out of the button handler.
