/** The Cypher extractor `extract_cypher` (app.py:12-20): it turns a raw
    language-model reply into the list of statements that are sent to the
    graph store. Fence markers are deleted and newlines become spaces, the
    text is cut at every `;`, each piece is trimmed, and only the pieces whose
    upper-cased form starts with an allow-listed keyword are kept, in order. */
module CypherExtract {
  import opened Text

  /** The language-tagged fence marker deleted first. */
  const FenceTag: string := "```cypher"

  /** The bare fence marker deleted second. */
  const Fence: string := "```"

  /** The keywords a kept statement may start with, after upper-casing. */
  const AllowedKeywords: seq<string> := ["CREATE", "MERGE", "MATCH"]

  /** Line 13: delete both fence markers, then put the text on one line. */
  function Clean(text: string): string
  {
    ReplaceAll(ReplaceAll(ReplaceAll(text, FenceTag, ""), Fence, ""), "\n", " ")
  }

  /** `[q.strip() for q in parts]` */
  function StripAll(parts: seq<string>): seq<string>
  {
    seq(|parts|, k requires 0 <= k < |parts| => Strip(parts[k]))
  }

  /** Lines 14 and 17: the trimmed pieces between the semicolons. */
  function Fragments(text: string): seq<string>
  {
    StripAll(Split(Clean(text), ';'))
  }

  /** Line 18: the allow-list test on a trimmed piece. */
  predicate IsAllowed(q: string)
  {
    StartsWithAny(Upper(q), AllowedKeywords)
  }

  /** `[x for x in xs if keep(x)]`: the elements that pass `keep`, in order. */
  function Filter<T>(keep: T -> bool, xs: seq<T>): seq<T>
  {
    if xs == [] then []
    else
      var last := xs[|xs| - 1];
      Filter(keep, xs[..|xs| - 1]) + (if keep(last) then [last] else [])
  }

  /** What `extract_cypher(text)` returns. */
  function Extracted(text: string): seq<string>
  {
    Filter(IsAllowed, Fragments(text))
  }

  /** `extract_cypher` as written: one pass over the pieces of the split,
      appending each trimmed piece that passes the test. */
  method ExtractCypher(text: string) returns (validQueries: seq<string>)
    ensures validQueries == Extracted(text)
  {
    var cleaned := Clean(text);
    var rawQueries := Split(cleaned, ';');
    validQueries := [];
    for k := 0 to |rawQueries|
      invariant validQueries == Filter(IsAllowed, StripAll(rawQueries[..k]))
    {
      var q := Strip(rawQueries[k]);
      if IsAllowed(q) {
        validQueries := validQueries + [q];
      }
      assert StripAll(rawQueries[..k + 1])[..k] == StripAll(rawQueries[..k]);
    }
    assert rawQueries[..|rawQueries|] == rawQueries;
  }

  // ---------------------------------------------------------------------
  // The filter
  // ---------------------------------------------------------------------

  /** An allow-listed piece is at least five characters long, so never empty. */
  lemma AllowedIsLong(q: string)
    requires IsAllowed(q)
    ensures |q| >= 5
  {
    var p :| p in AllowedKeywords && StartsWith(Upper(q), p);
  }

  /** The allow-list test spelled out: the upper-cased piece starts with
      CREATE, MERGE or MATCH. */
  lemma AllowedMeaning(q: string)
    ensures IsAllowed(q) <==>
      StartsWith(Upper(q), "CREATE") || StartsWith(Upper(q), "MERGE") || StartsWith(Upper(q), "MATCH")
  {
    if StartsWith(Upper(q), "CREATE") {
      assert AllowedKeywords[0] == "CREATE";
    } else if StartsWith(Upper(q), "MERGE") {
      assert AllowedKeywords[1] == "MERGE";
    } else if StartsWith(Upper(q), "MATCH") {
      assert AllowedKeywords[2] == "MATCH";
    }
  }

  /** An element is kept exactly when it is one of the elements and passes. */
  lemma {:induction false} FilterMembers<T>(keep: T -> bool, xs: seq<T>, x: T)
    ensures x in Filter(keep, xs) <==> x in xs && keep(x)
    decreases |xs|
  {
    if xs != [] {
      var init := xs[..|xs| - 1];
      FilterMembers(keep, init, x);
      assert xs == init + [xs[|xs| - 1]];
    }
  }

  /** Filtering distributes over concatenation: what is kept from earlier
      elements comes before what is kept from later ones. */
  lemma {:induction false} FilterAppend<T>(keep: T -> bool, a: seq<T>, b: seq<T>)
    ensures Filter(keep, a + b) == Filter(keep, a) + Filter(keep, b)
    decreases |b|
  {
    if b == [] {
      assert a + b == a;
    } else {
      var init := b[..|b| - 1];
      FilterAppend(keep, a, init);
      assert (a + b)[..|a + b| - 1] == a + init;
    }
  }

  /** Cutting the elements anywhere cuts the kept elements at the same place. */
  lemma FilterCut<T>(keep: T -> bool, xs: seq<T>, cut: nat)
    requires cut <= |xs|
    ensures Filter(keep, xs) == Filter(keep, xs[..cut]) + Filter(keep, xs[cut..])
  {
    var front, back := xs[..cut], xs[cut..];
    assert front + back == xs;
    FilterAppend(keep, front, back);
  }

  /** Elements that all pass are all kept. */
  lemma {:induction false} FilterAll<T>(keep: T -> bool, xs: seq<T>)
    requires forall k :: 0 <= k < |xs| ==> keep(xs[k])
    ensures Filter(keep, xs) == xs
    decreases |xs|
  {
    if xs != [] {
      FilterAll(keep, xs[..|xs| - 1]);
    }
  }

  // ---------------------------------------------------------------------
  // Cleaning and splitting
  // ---------------------------------------------------------------------

  /** After line 13 no newline is left. */
  lemma CleanHasNoNewline(text: string)
    ensures '\n' !in Clean(text)
  {
    var b := ReplaceAll(ReplaceAll(text, FenceTag, ""), Fence, "");
    ReplaceCharRemoves(b, '\n', ' ');
  }

  /** After line 13 no fence marker is left: deleting "```" from left to
      right leaves no three backticks in a row, and turning newlines into
      spaces cannot create any. */
  lemma CleanHasNoFence(text: string)
    ensures !Contains(Clean(text), Fence)
  {
    var a := ReplaceAll(text, FenceTag, "");
    DeleteTriples(a, '`');
    var b := ReplaceAll(a, Fence, "");
    ReplaceCharKeepsAbsence(b, '\n', ' ', Fence);
  }

  /** Trimming pieces that are free of separators, newlines and fences
      gives pieces that are still free of them and are their own trim. */
  lemma StrippedPartsAreClean(parts: seq<string>)
    requires forall k :: 0 <= k < |parts| ==>
      ';' !in parts[k] && !Contains(parts[k], "\n") && !Contains(parts[k], Fence)
    ensures forall q :: q in StripAll(parts) ==>
      ';' !in q && '\n' !in q && !Contains(q, Fence) && Strip(q) == q
  {
    forall q | q in StripAll(parts)
      ensures ';' !in q && '\n' !in q && !Contains(q, Fence) && Strip(q) == q
    {
      var k :| 0 <= k < |parts| && q == Strip(parts[k]);
      StripKeepsChar(parts[k], ';');
      ContainsChar(parts[k], '\n');
      StripKeepsChar(parts[k], '\n');
      StripKeepsAbsence(parts[k], Fence);
      StripFixpoint(parts[k]);
    }
  }

  /** Every trimmed piece is free of separators, newlines and fences and is
      its own trim. */
  lemma FragmentsAreClean(text: string)
    ensures forall q :: q in Fragments(text) ==>
      ';' !in q && '\n' !in q && !Contains(q, Fence) && Strip(q) == q
  {
    var c := Clean(text);
    CleanHasNoNewline(text);
    CleanHasNoFence(text);
    ContainsChar(c, '\n');
    SplitKeepsAbsence(c, ';', Fence);
    SplitKeepsAbsence(c, ';', "\n");
    StrippedPartsAreClean(Split(c, ';'));
  }

  // ---------------------------------------------------------------------
  // What extract_cypher promises
  // ---------------------------------------------------------------------

  /** Every returned statement, upper-cased, starts with CREATE, MERGE or MATCH. */
  lemma StatementsAreAllowListed(text: string)
    ensures forall q :: q in Extracted(text) ==>
      StartsWith(Upper(q), "CREATE") || StartsWith(Upper(q), "MERGE") || StartsWith(Upper(q), "MATCH")
  {
    forall q | q in Extracted(text)
      ensures StartsWith(Upper(q), "CREATE") || StartsWith(Upper(q), "MERGE") || StartsWith(Upper(q), "MATCH")
    {
      FilterMembers(IsAllowed, Fragments(text), q);
      AllowedMeaning(q);
    }
  }

  /** No returned statement contains the separator `;`. */
  lemma StatementsHaveNoSeparator(text: string)
    ensures forall q :: q in Extracted(text) ==> ';' !in q
  {
    FragmentsAreClean(text);
    forall q | q in Extracted(text) ensures ';' !in q {
      FilterMembers(IsAllowed, Fragments(text), q);
    }
  }

  /** No returned statement contains a newline. */
  lemma StatementsHaveNoNewline(text: string)
    ensures forall q :: q in Extracted(text) ==> '\n' !in q
  {
    FragmentsAreClean(text);
    forall q | q in Extracted(text) ensures '\n' !in q {
      FilterMembers(IsAllowed, Fragments(text), q);
    }
  }

  /** No returned statement contains the fence marker "```". */
  lemma StatementsHaveNoFence(text: string)
    ensures forall q :: q in Extracted(text) ==> !Contains(q, Fence)
  {
    FragmentsAreClean(text);
    forall q | q in Extracted(text) ensures !Contains(q, Fence) {
      FilterMembers(IsAllowed, Fragments(text), q);
    }
  }

  /** Every returned statement is non-empty, starts and ends with a
      non-space, and is its own trim. */
  lemma StatementsAreTrimmed(text: string)
    ensures forall q :: q in Extracted(text) ==>
      q != [] && !IsSpace(q[0]) && !IsSpace(q[|q| - 1]) && Strip(q) == q
  {
    FragmentsAreClean(text);
    forall q | q in Extracted(text)
      ensures q != [] && !IsSpace(q[0]) && !IsSpace(q[|q| - 1]) && Strip(q) == q
    {
      FilterMembers(IsAllowed, Fragments(text), q);
      AllowedIsLong(q);
      StripFixpoint(q);
    }
  }

  /** The result is exactly the trimmed pieces that pass the test: a piece
      is returned if and only if it passes, and for any cut of the pieces,
      what is kept before the cut comes first. */
  lemma ExtractedIsOrderedFilter(text: string, q: string, cut: nat)
    requires cut <= |Fragments(text)|
    ensures q in Extracted(text) <==> q in Fragments(text) && IsAllowed(q)
    ensures Extracted(text) ==
      Filter(IsAllowed, Fragments(text)[..cut]) + Filter(IsAllowed, Fragments(text)[cut..])
  {
    FilterMembers(IsAllowed, Fragments(text), q);
    FilterCut(IsAllowed, Fragments(text), cut);
  }

  /** The empty reply yields no statements. */
  lemma ExtractedEmpty()
    ensures Extracted("") == []
  {
    assert Clean("") == "";
    assert Split("", ';') == [""];
    assert Fragments("") == [""];
    assert !IsAllowed("") by {
      if IsAllowed("") { AllowedIsLong(""); }
    }
  }

  /** A text without the bare fence has no tagged fence either. */
  lemma NoFenceNoTag(s: string)
    requires !Contains(s, Fence)
    ensures !Contains(s, FenceTag)
  {
    assert FenceTag == Fence + "cypher";
    if Contains(s, Fence + "cypher") {
      ContainsLonger(s, Fence, "cypher");
    }
  }

  /** Joining fence-free statements with `;` creates no fence, tagged or bare. */
  lemma JoinedHasNoFence(qs: seq<string>)
    requires forall k :: 0 <= k < |qs| ==> !Contains(qs[k], Fence)
    ensures !Contains(Join(qs, ';'), Fence)
    ensures !Contains(Join(qs, ';'), FenceTag)
  {
    JoinKeepsAbsence(qs, ';', Fence);
    NoFenceNoTag(Join(qs, ';'));
  }

  /** Joining newline-free statements with `;` creates no newline. */
  lemma JoinedHasNoNewline(qs: seq<string>)
    requires forall k :: 0 <= k < |qs| ==> '\n' !in qs[k]
    ensures !Contains(Join(qs, ';'), "\n")
  {
    forall k | 0 <= k < |qs| ensures !Contains(qs[k], "\n") {
      ContainsChar(qs[k], '\n');
    }
    JoinKeepsAbsence(qs, ';', "\n");
  }

  /** Statements that are already clean survive cleaning unchanged once
      joined with `;`. */
  lemma JoinedStatementsAreClean(qs: seq<string>)
    requires forall k :: 0 <= k < |qs| ==> '\n' !in qs[k] && !Contains(qs[k], Fence)
    ensures Clean(Join(qs, ';')) == Join(qs, ';')
  {
    var j := Join(qs, ';');
    JoinedHasNoFence(qs);
    JoinedHasNoNewline(qs);
    ReplaceAbsent(j, FenceTag, "");
    ReplaceAbsent(j, Fence, "");
    ReplaceAbsent(j, "\n", " ");
  }

  /** Trimming pieces that are already trimmed changes nothing. */
  lemma StripAllFixed(qs: seq<string>)
    requires forall k :: 0 <= k < |qs| ==> Strip(qs[k]) == qs[k]
    ensures StripAll(qs) == qs
  {
  }

  /** Clean, trimmed statements joined with `;` come back as the trimmed
      pieces of the join. */
  lemma FragmentsOfJoined(qs: seq<string>)
    requires |qs| >= 1
    requires forall k :: 0 <= k < |qs| ==>
      ';' !in qs[k] && '\n' !in qs[k] && !Contains(qs[k], Fence) && Strip(qs[k]) == qs[k]
    ensures Fragments(Join(qs, ';')) == qs
  {
    JoinedStatementsAreClean(qs);
    SplitJoin(qs, ';');
    StripAllFixed(qs);
  }

  /** Clean, trimmed, allow-listed statements joined with `;` are extracted
      back exactly. */
  lemma ExtractJoined(qs: seq<string>)
    requires |qs| >= 1
    requires forall k :: 0 <= k < |qs| ==>
      ';' !in qs[k] && '\n' !in qs[k] && !Contains(qs[k], Fence) && Strip(qs[k]) == qs[k]
    requires forall k :: 0 <= k < |qs| ==> IsAllowed(qs[k])
    ensures Extracted(Join(qs, ';')) == qs
  {
    FragmentsOfJoined(qs);
    FilterAll(IsAllowed, qs);
  }

  /** Re-extracting from the returned statements joined with `;` gives the
      same statements back. */
  lemma ExtractIdempotent(text: string)
    ensures Extracted(Join(Extracted(text), ';')) == Extracted(text)
  {
    var qs := Extracted(text);
    StatementsHaveNoSeparator(text);
    StatementsHaveNoNewline(text);
    StatementsHaveNoFence(text);
    StatementsAreTrimmed(text);
    if qs == [] {
      ExtractedEmpty();
    } else {
      forall k | 0 <= k < |qs| ensures IsAllowed(qs[k]) {
        FilterMembers(IsAllowed, Fragments(text), qs[k]);
      }
      ExtractJoined(qs);
    }
  }

  // ---------------------------------------------------------------------
  // The worked example: a fenced reply with a MERGE and a DROP statement
  // ---------------------------------------------------------------------

  /** A reply whose statement `a` sits on its own line inside a `cypher`
      fence, followed by a line holding only `;` and a line holding `b;`. */
  function FencedPair(a: string, b: string): string
  {
    FenceTag + "\n" + a + "\n;\n" + b + ";\n" + Fence
  }

  /** The body of that reply between the two fence markers. */
  function PairBody(a: string, b: string): string
  {
    "\n" + a + "\n;\n" + b + ";\n"
  }

  /** The first replacement of line 13 removes the opening marker and
      leaves the bare closing one. */
  lemma DeleteTagOfPair(a: string, b: string)
    requires '`' !in a && '`' !in b
    ensures ReplaceAll(FencedPair(a, b), FenceTag, "") == PairBody(a, b) + Fence
  {
    var body := PairBody(a, b);
    var s := FencedPair(a, b);
    assert s == FenceTag + (body + Fence);
    assert s[..|FenceTag|] == FenceTag;
    ReplaceAtMatch(s, FenceTag, "");
    assert s[|FenceTag|..] == body + Fence;
    ReplacePrefixFree(body, Fence, FenceTag, "");
    TooLongToContain(Fence, FenceTag);
    ReplaceAbsent(Fence, FenceTag, "");
  }

  /** The second replacement of line 13 removes the closing marker. */
  lemma DeleteFenceOfPair(a: string, b: string)
    requires '`' !in a && '`' !in b
    ensures ReplaceAll(PairBody(a, b) + Fence, Fence, "") == PairBody(a, b)
  {
    var body := PairBody(a, b);
    ReplacePrefixFree(body, Fence, Fence, "");
    ReplaceAtMatch(Fence, Fence, "");
    assert Fence[|Fence|..] == [];
    assert body + [] == body;
  }

  /** A character-for-character replacement leaves a piece without the
      replaced character unchanged. */
  lemma ReplaceCharAbsent(s: string, oldC: char, newC: char)
    requires oldC !in s
    ensures ReplaceAll(s, [oldC], [newC]) == s
  {
    ContainsChar(s, oldC);
    ReplaceAbsent(s, [oldC], [newC]);
  }

  /** The third replacement of line 13 turns the three newlines into spaces. */
  lemma NewlinesOfPair(a: string, b: string)
    requires '\n' !in a && '\n' !in b
    ensures ReplaceAll(PairBody(a, b), "\n", " ") == " " + a + " ; " + b + "; "
  {
    var nl := "\n";
    assert nl == ['\n'];
    ReplaceCharConcat("\n" + a + "\n;\n" + b, ";\n", '\n', ' ');
    ReplaceCharConcat("\n" + a + "\n;\n", b, '\n', ' ');
    ReplaceCharConcat("\n" + a, "\n;\n", '\n', ' ');
    ReplaceCharConcat("\n", a, '\n', ' ');
    ReplaceCharAbsent(a, '\n', ' ');
    ReplaceCharAbsent(b, '\n', ' ');
    ReplaceCharPointwise("\n", '\n', ' ');
    ReplaceCharPointwise("\n;\n", '\n', ' ');
    ReplaceCharPointwise(";\n", '\n', ' ');
    assert ReplaceAll("\n", nl, " ") == " ";
    assert ReplaceAll("\n;\n", nl, " ") == " ; ";
    assert ReplaceAll(";\n", nl, " ") == "; ";
  }

  /** Line 13 on the example's shape. */
  lemma CleanOfPair(a: string, b: string)
    requires '`' !in a && '`' !in b && '\n' !in a && '\n' !in b
    ensures Clean(FencedPair(a, b)) == " " + a + " ; " + b + "; "
  {
    DeleteTagOfPair(a, b);
    DeleteFenceOfPair(a, b);
    NewlinesOfPair(a, b);
  }

  /** Line 14 on the cleaned example: three pieces, the last one a lone space. */
  lemma SplitOfPair(a: string, b: string)
    requires ';' !in a && ';' !in b
    ensures Split(" " + a + " ; " + b + "; ", ';') == [" " + a + " ", " " + b, " "]
  {
    var parts := [" " + a + " ", " " + b, " "];
    assert parts[1..] == [" " + b, " "];
    assert parts[1..][1..] == [" "];
    assert Join(parts[1..][1..], ';') == " ";
    assert Join(parts[1..], ';') == (" " + b) + [';'] + " ";
    assert Join(parts, ';') == (" " + a + " ") + [';'] + ((" " + b) + [';'] + " ");
    assert " " + a + " ; " + b + "; " == Join(parts, ';');
    SplitJoin(parts, ';');
  }

  /** A lone space strips to the empty piece. */
  lemma StripSpace()
    ensures Strip(" ") == ""
  {
    assert TrimLeft(" ") == TrimLeft(" "[1..]);
  }

  /** Line 17 on those pieces: the two statements and an empty piece. */
  lemma StripOfPair(a: string, b: string)
    requires a != [] && !IsSpace(a[0]) && !IsSpace(a[|a| - 1])
    requires b != [] && !IsSpace(b[0]) && !IsSpace(b[|b| - 1])
    ensures StripAll([" " + a + " ", " " + b, " "]) == [a, b, ""]
  {
    var parts := [" " + a + " ", " " + b, " "];
    StripPadded(" ", a, " ");
    StripPadded(" ", b, "");
    assert " " + b + "" == " " + b;
    StripSpace();
    var r := StripAll(parts);
    assert r[0] == a && r[1] == b && r[2] == "";
  }

  /** Line 18 on the stripped pieces: only the allowed statement is kept. */
  lemma FilterOfPair(a: string, b: string)
    requires IsAllowed(a) && !IsAllowed(b)
    ensures Filter(IsAllowed, [a, b, ""]) == [a]
  {
    var xs := [a, b, ""];
    assert xs[..2] == [a, b];
    assert [a, b][..1] == [a];
    assert [a][..0] == [];
    assert Filter(IsAllowed, [a]) == [a];
    assert Filter(IsAllowed, [a, b]) == [a];
    assert Upper("") == "";
    AllowedMeaning("");
  }

  /** A fenced reply with an allowed statement `a` followed by a statement
      `b` that is not allowed yields exactly `[a]`. */
  lemma ExtractFencedPair(a: string, b: string)
    requires '`' !in a && '\n' !in a && ';' !in a
    requires '`' !in b && '\n' !in b && ';' !in b
    requires a != [] && !IsSpace(a[0]) && !IsSpace(a[|a| - 1])
    requires b != [] && !IsSpace(b[0]) && !IsSpace(b[|b| - 1])
    requires IsAllowed(a) && !IsAllowed(b)
    ensures Extracted(FencedPair(a, b)) == [a]
  {
    CleanOfPair(a, b);
    SplitOfPair(a, b);
    StripOfPair(a, b);
    FilterOfPair(a, b);
  }

  /** The statement of the example contains no fence, newline or `;`. */
  lemma MergeStatementChars()
    ensures var q := "MERGE (a:Person {name:'X'})";
      '`' !in q && '\n' !in q && ';' !in q
  {
  }

  /** The statement of the example is allowed: it starts with MERGE. */
  lemma MergeStatementAllowed()
    ensures IsAllowed("MERGE (a:Person {name:'X'})")
  {
    var q := "MERGE (a:Person {name:'X'})";
    UpperKeepsPrefix(q, "MERGE");
    AllowedMeaning(q);
  }

  /** The second statement of the example contains no fence, newline or `;`. */
  lemma DropStatementChars()
    ensures var q := "DROP INDEX foo";
      '`' !in q && '\n' !in q && ';' !in q
  {
  }

  /** The second statement of the example is not allowed: it starts with DROP. */
  lemma DropStatementRejected()
    ensures !IsAllowed("DROP INDEX foo")
  {
    var q := "DROP INDEX foo";
    UpperMeaning(q);
    assert Upper(q)[0] == 'D';
    AllowedMeaning(q);
  }

  /** The fenced reply holding `MERGE (a:Person {name:'X'})` on its first
      line, a lone `;` on the next and `DROP INDEX foo;` on the third yields
      only the MERGE statement. */
  lemma MergeDropExample()
    ensures Extracted(FencedPair("MERGE (a:Person {name:'X'})", "DROP INDEX foo"))
      == ["MERGE (a:Person {name:'X'})"]
  {
    MergeStatementChars();
    MergeStatementAllowed();
    DropStatementChars();
    DropStatementRejected();
    ExtractFencedPair("MERGE (a:Person {name:'X'})", "DROP INDEX foo");
  }
}
