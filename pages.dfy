/**
  The pages that put the pieces together: creating a Set from the text a
  user typed, showing a Set's definitions, exporting a Set as flashcard
  import text, and counting the terms of a user's Sets.
 */
module Pages {
  import opened Wrappers
  import opened PyStr
  import opened TermCodec
  import opened BlankWords
  import opened Suggestions
  import opened Resolver

  /** A stored Set: its owner, its title and its encoded terms. */
  datatype SetRow = SetRow(userId: int, title: string, terms: string)

  /** The Set table: rows are only ever added here. */
  class SetTable {
    var rows: seq<SetRow>

    constructor (rows: seq<SetRow>)
      ensures this.rows == rows
    {
      this.rows := rows;
    }

    /** `db.session.add(set)` followed by a commit. */
    method Add(row: SetRow)
      modifies this
      ensures rows == old(rows) + [row]
    {
      rows := rows + [row];
    }
  }

  // ---------------------------------------------------------------------
  // The create page
  // ---------------------------------------------------------------------

  const EmptyTermsError: string := "Please enter terms to define."
  const ReplaceTermError: string := " has multiple definitions. Replace it with the term most closely relating to yours: "

  /** What the create page shows. */
  datatype CreatePage =
    | SignIn
    | CreateForm(formError: Option<string>)
    | Disambiguation(settitle: string, words: seq<string>, errorWord: string, error: string, suggestions: seq<string>)
    | SetDefined(created: SetRow, words: seq<string>, lenwords: nat, definitions: map<string, string>)

  /** The terms the create page works with: the lines of the text after `remove_blank_words`. */
  function CreateWords(terms: string): seq<string>
  {
    Scan(Split(terms, "\n"), 0)
  }

  /**
    The create page. The form's terms are split into lines, blank lines are
    removed as `remove_blank_words` does, and the remaining words are
    encoded. Empty text gives an error. Otherwise the words are resolved
    while the Definition table is filled; an ambiguous word shows at most
    three suggestions and creates no Set, and otherwise one Set holding the
    encoded words is created.
   */
  method Create(loggedIn: bool, isPost: bool, userId: int, settitle: string, terms: string,
                wiki: string -> Summary, cache: DefinitionTable, sets: SetTable)
    returns (page: CreatePage)
    modifies cache, sets
    ensures !loggedIn ==> page == SignIn
    ensures loggedIn && !isPost ==> page == CreateForm(None)
    ensures loggedIn && isPost && terms == [] ==> page == CreateForm(Some(EmptyTermsError))
    ensures !(loggedIn && isPost && terms != []) ==> cache.rows == old(cache.rows) && sets.rows == old(sets.rows)
    ensures loggedIn && isPost && terms != [] ==>
      var words := CreateWords(terms);
      var run := ResolveCaching(old(cache.rows), words, wiki, map[]);
      && cache.rows == run.cache
      && match run.outcome
         case Complete(definitions) =>
           var row := SetRow(userId, settitle, Encoded(words));
           && sets.rows == old(sets.rows) + [row]
           && page == SetDefined(row, words, |words|, definitions)
         case Ambiguity(word, options) =>
           && sets.rows == old(sets.rows)
           && page == Disambiguation(settitle, words, word, word + ReplaceTermError,
                                     ShownSuggestions(SuggestionText(options)))
  {
    if !loggedIn {
      return SignIn;
    }
    if !isPost {
      return CreateForm(None);
    }
    var lines := new WordList(Split(terms, "\n"));
    var wordlist := RemoveBlankWords(lines);
    var words := wordlist.items;
    var dbwords := EncodeTerms(words);
    var lenwords := |words|;
    if |terms| != 0 {
      var outcome := ResolveForCreate(cache, words, wiki);
      match outcome {
        case Complete(definitions) =>
          var row := SetRow(userId, settitle, dbwords);
          sets.Add(row);
          return SetDefined(row, words, lenwords, definitions);
        case Ambiguity(word, options) =>
          var suggestions := ReturnSuggestions(options);
          var shown := ShownSuggestions(suggestions);
          return Disambiguation(settitle, words, word, word + ReplaceTermError, shown);
      }
    }
    return CreateForm(Some(EmptyTermsError));
  }

  /**
    The Set the create page stores reads back as the non-blank lines of the
    text, in order, provided no line contains the delimiter.
   */
  lemma CreatedSetReadsBack(terms: string)
    requires forall i :: 0 <= i < |Split(terms, "\n")| ==> !Contains(Split(terms, "\n")[i], Delimiter)
    ensures Decoded(Encoded(CreateWords(terms))) == NonEmpty(Split(terms, "\n"))
  {
    var lines := Split(terms, "\n");
    var words := CreateWords(terms);
    ScanKeepsNonBlanks(lines, 0);
    forall i | 0 <= i < |words|
      ensures !Contains(words[i], Delimiter)
    {
      assert words[i] in multiset(words);
      assert words[i] in multiset(lines);
      var j :| 0 <= j < |lines| && lines[j] == words[i];
    }
    DecodeEncode(words);
    assert NonEmpty(words) == NonEmpty(lines);
  }

  /**
    Text made of one newline is not empty, so it passes the create page's
    check, yet its only word is "": the blank survives `remove_blank_words`
    and the Set it would store reads back with no terms at all.
   */
  lemma NewlineOnlyInput()
    ensures CreateWords("\n") == [""]
    ensures Encoded(CreateWords("\n")) == Delimiter
    ensures Decoded(Encoded(CreateWords("\n"))) == []
  {
    assert "\n"[..1] == "\n" && "\n"[1..] == [];
    assert SplitFrom("\n", "\n", []) == [[]] + SplitFrom([], "\n", []);
    AdjacentBlanksSurvive();
    assert Encoded([""]) == Delimiter;
    ShortNotContains("", Delimiter);
    DecodeEncode([""]);
  }

  // ---------------------------------------------------------------------
  // The definitions page
  // ---------------------------------------------------------------------

  /** The definitions page: the Set's terms with what `define_terms` returned, or the error page. */
  datatype DefinitionsView =
    | DefinitionsShown(shown: SetRow, definitions: TermsPage, words: seq<string>)
    | ErrorPage
    | ServerError

  /**
    The definitions page for the Set `found` (None when no Set has the id)
    and the signed-in user (None when nobody is signed in). Only the owner
    sees the definitions; `define_terms` reads the Definition table.
   */
  method ShowDefinitions(found: Option<SetRow>, userId: Option<int>, table: DefinitionTable, wiki: string -> Summary)
    returns (view: DefinitionsView)
    ensures found.None? || userId.None? ==> view == ServerError
    ensures found.Some? && userId.Some? && found.value.userId != userId.value ==> view == ErrorPage
    ensures view.DefinitionsShown? ==>
      && found.Some? && userId.Some? && found.value.userId == userId.value
      && view.shown == found.value
      && view.words == Decoded(found.value.terms)
      && (var r := ResolveReadOnly(table.rows, view.words, wiki, map[]);
          view.definitions == if r.Complete? then Defined(r.definitions)
                              else ChooseTerm(view.words, AmbiguityMessage(r.word, r.options)))
      && (view.definitions.Defined? ==>
            && view.definitions.definitions.Keys == (set w | w in view.words)
            && forall w :: w in view.words ==>
                 w in view.definitions.definitions && Some(view.definitions.definitions[w]) == Expected(table.rows, wiki, w))
    ensures found.Some? && userId.Some? && found.value.userId == userId.value ==> view.DefinitionsShown?
  {
    if found.None? || userId.None? {
      return ServerError;
    }
    if found.value.userId == userId.value {
      var terms := DecodeTerms(found.value.terms);
      var definitions := DefineTerms(table, terms, wiki);
      ResolveReadOnlySpec(table.rows, terms, wiki);
      return DefinitionsShown(found.value, definitions, terms);
    }
    return ErrorPage;
  }

  // ---------------------------------------------------------------------
  // The flashcard import page
  // ---------------------------------------------------------------------

  /** One flashcard: the term, a tab, the definition. */
  function ImportLine(term: string, definition: string): string
  {
    term + "\t" + definition
  }

  /** The lines of the import text, one per term, in the Set's order. */
  function ImportLines(terms: seq<string>, definitions: map<string, string>): (lines: seq<string>)
    requires forall i :: 0 <= i < |terms| ==> terms[i] in definitions
    ensures |lines| == |terms|
    ensures forall i :: 0 <= i < |terms| ==> lines[i] == ImportLine(terms[i], definitions[terms[i]])
  {
    seq(|terms|, i requires 0 <= i < |terms| => ImportLine(terms[i], definitions[terms[i]]))
  }

  /** The import text: every line followed by a newline. */
  function ImportCode(terms: seq<string>, definitions: map<string, string>): string
    requires forall i :: 0 <= i < |terms| ==> terms[i] in definitions
  {
    Terminated(ImportLines(terms, definitions), "\n")
  }

  /** The `import_code += term + '\t' + definitions[term] + '\n'` loop. */
  method BuildImportCode(terms: seq<string>, definitions: map<string, string>) returns (importCode: string)
    requires forall i :: 0 <= i < |terms| ==> terms[i] in definitions
    ensures importCode == ImportCode(terms, definitions)
  {
    importCode := "";
    for i := 0 to |terms|
      invariant importCode == ImportCode(terms[..i], definitions)
    {
      var line := ImportLine(terms[i], definitions[terms[i]]);
      assert ImportLines(terms[..i + 1], definitions) == ImportLines(terms[..i], definitions) + [line];
      TerminatedSnoc(ImportLines(terms[..i], definitions), line, "\n");
      importCode := importCode + (terms[i] + "\t" + definitions[terms[i]] + "\n");
    }
    assert terms[..|terms|] == terms;
  }

  /**
    The import text parses back: split on newlines it gives one line per
    term and an empty remainder, and each line split on the tab gives the
    term and its definition, provided neither holds a tab or a newline.
   */
  lemma ImportCodeParses(terms: seq<string>, definitions: map<string, string>)
    requires forall i :: 0 <= i < |terms| ==> terms[i] in definitions
    requires forall i :: 0 <= i < |terms| ==> '\n' !in terms[i] && '\t' !in terms[i]
    requires forall i :: 0 <= i < |terms| ==> '\n' !in definitions[terms[i]] && '\t' !in definitions[terms[i]]
    ensures var lines := Split(ImportCode(terms, definitions), "\n");
      && |lines| == |terms| + 1
      && lines[|terms|] == ""
      && forall i :: 0 <= i < |terms| ==> Split(lines[i], "\t") == [terms[i], definitions[terms[i]]]
  {
    var lines := ImportLines(terms, definitions);
    SingleBorderFree('\n');
    SingleBorderFree('\t');
    forall i | 0 <= i < |lines|
      ensures !Contains(lines[i], "\n")
    {
      ContainsSingle(lines[i], '\n');
    }
    ContainsSingle("", '\n');
    SplitTerminated(lines, "", "\n");
    assert Terminated(lines, "\n") + "" == ImportCode(terms, definitions);
    forall i | 0 <= i < |terms|
      ensures Split(lines[i], "\t") == [terms[i], definitions[terms[i]]]
    {
      var term, definition := terms[i], definitions[terms[i]];
      ContainsSingle(term, '\t');
      ContainsSingle(definition, '\t');
      assert Terminated([term], "\t") == term + "\t";
      SplitTerminated([term], definition, "\t");
      assert lines[i] == Terminated([term], "\t") + definition;
    }
  }

  /** What the flashcard import page returns. */
  datatype ImportView =
    | ImportPage(importCode: string)
    | ImportServerError

  /**
    The flashcard import page. Only the owner gets the import text, built
    from the Set's terms in stored order and `quizlet_definitions`; any
    other user, a missing Set or user, and an ambiguous term (which
    `quizlet_definitions` does not catch) end in a server error.
   */
  method CreateQuizletSet(found: Option<SetRow>, userId: Option<int>, wiki: string -> Summary)
    returns (view: ImportView)
    ensures view.ImportPage? <==>
      && found.Some? && userId.Some? && found.value.userId == userId.value
      && ResolveUncached(Decoded(found.value.terms), wiki, map[]).Complete?
    ensures view.ImportPage? ==>
      var terms := Decoded(found.value.terms);
      var definitions := ResolveUncached(terms, wiki, map[]).definitions;
      && (forall i :: 0 <= i < |terms| ==> terms[i] in definitions)
      && view.importCode == ImportCode(terms, definitions)
  {
    if found.None? || userId.None? || found.value.userId != userId.value {
      return ImportServerError;
    }
    var terms := DecodeTerms(found.value.terms);
    var resolution := QuizletDefinitions(terms, wiki);
    if resolution.Ambiguity? {
      return ImportServerError;
    }
    var importCode := BuildImportCode(terms, resolution.definitions);
    return ImportPage(importCode);
  }

  // ---------------------------------------------------------------------
  // The review page
  // ---------------------------------------------------------------------

  /** `Set.query.filter_by(user_id=...).all()`: the user's Sets in table order. */
  function OwnedBy(rows: seq<SetRow>, userId: int): (owned: seq<SetRow>)
    ensures forall i :: 0 <= i < |owned| ==> owned[i].userId == userId && owned[i] in rows
    ensures forall i :: 0 <= i < |rows| && rows[i].userId == userId ==> rows[i] in owned
    ensures forall r :: multiset(owned)[r] == if r.userId == userId then multiset(rows)[r] else 0
    decreases |rows|
  {
    if rows == [] then []
    else
      assert rows == [rows[0]] + rows[1..];
      var head := if rows[0].userId == userId then [rows[0]] else [];
      var rest := OwnedBy(rows[1..], userId);
      assert multiset(rows) == multiset{rows[0]} + multiset(rows[1..]);
      assert multiset(head + rest) == multiset(head) + multiset(rest);
      head + rest
  }

  /** The review and delete pages' count of each Set's terms. */
  method TermCounts(sets: seq<SetRow>) returns (counts: seq<nat>)
    ensures |counts| == |sets|
    ensures forall i :: 0 <= i < |sets| ==> counts[i] == |Decoded(sets[i].terms)|
  {
    counts := [];
    for i := 0 to |sets|
      invariant |counts| == i
      invariant forall j :: 0 <= j < i ==> counts[j] == |Decoded(sets[j].terms)|
    {
      var count := CountTerms(sets[i].terms);
      counts := counts + [count];
    }
  }

  /** The review page: the signed-in user's Sets, how many there are, and each one's term count. */
  datatype ReviewView =
    | ReviewPage(sets: seq<SetRow>, setsLength: nat, counts: seq<nat>)
    | ReviewSignIn

  method Review(loggedIn: bool, userId: int, table: SetTable) returns (view: ReviewView)
    ensures !loggedIn ==> view == ReviewSignIn
    ensures loggedIn ==>
      && view.ReviewPage?
      && view.sets == OwnedBy(table.rows, userId)
      && view.setsLength == |view.sets|
      && |view.counts| == |view.sets|
      && forall i :: 0 <= i < |view.sets| ==> view.counts[i] == |Decoded(view.sets[i].terms)|
  {
    if !loggedIn {
      return ReviewSignIn;
    }
    var sets := OwnedBy(table.rows, userId);
    var counts := TermCounts(sets);
    return ReviewPage(sets, |sets|, counts);
  }

  /** A stored Set's count is the number of terms it was created from, when none was empty or held the delimiter. */
  lemma CountOfCreatedSet(words: seq<string>)
    requires forall i :: 0 <= i < |words| ==> words[i] != [] && !Contains(words[i], Delimiter)
    ensures |Decoded(Encoded(words))| == |words|
  {
    DecodeEncode(words);
  }
}
