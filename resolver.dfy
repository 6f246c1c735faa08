/**
  Resolving terms to definitions. The Definition table is a read-through
  cache: a sequence of (term, definition) rows where a query returns the
  first row for the term. The encyclopedia lookup is an oracle that either
  finds a summary, reports that the term is ambiguous (with the options it
  offers), or finds no page. Three loops in the application use them:

  - the create page caches every summary it finds and stops at the first
    ambiguous term;
  - `define_terms` reads the cache but never writes it, and turns an
    ambiguous term into a page;
  - `quizlet_definitions` ignores the cache and lets an ambiguity escape.
 */
module Resolver {
  import opened Wrappers
  import opened PyStr
  import Suggestions

  datatype Definition = Definition(term: string, definition: string)

  /** What the encyclopedia lookup answers for one term. */
  datatype Summary = Found(text: string) | Ambiguous(options: seq<string>) | NoPage

  /** The outcome of one pass over the terms: every term defined, or stopped at an ambiguous one. */
  datatype Resolution =
    | Complete(definitions: map<string, string>)
    | Ambiguity(word: string, options: seq<string>)

  /** The definition stored for a term that has no page. */
  const NoDefinitionFound: string := "No definition found."

  /** `Definition.query.filter_by(term=word).first()`. */
  function CachedDefinition(rows: seq<Definition>, term: string): (r: Option<string>)
    ensures r.None? <==> forall i :: 0 <= i < |rows| ==> rows[i].term != term
    ensures r.Some? ==> Definition(term, r.value) in rows
    ensures r.Some? ==> exists i :: 0 <= i < |rows| && rows[i] == Definition(term, r.value)
                                    && forall j :: 0 <= j < i ==> rows[j].term != term
  {
    if rows == [] then None
    else if rows[0].term == term then
      assert rows[0] == Definition(term, rows[0].definition);
      Some(rows[0].definition)
    else
      var rest := CachedDefinition(rows[1..], term);
      if rest.Some? then
        var i :| 0 <= i < |rows[1..]| && rows[1..][i] == Definition(term, rest.value)
                 && forall j :: 0 <= j < i ==> rows[1..][j].term != term;
        assert rows[i + 1] == Definition(term, rest.value);
        assert forall j :: 0 <= j < i + 1 ==> rows[j].term != term by {
          forall j | 0 <= j < i + 1
            ensures rows[j].term != term
          {
            if j > 0 {
              assert rows[j] == rows[1..][j - 1];
            }
          }
        }
        rest
      else
        rest
  }

  /** Rows added later never shadow an earlier row for the same term: the first writer wins. */
  lemma {:induction false} CachedAppend(rows: seq<Definition>, more: seq<Definition>, term: string)
    ensures CachedDefinition(rows + more, term)
         == if CachedDefinition(rows, term).Some? then CachedDefinition(rows, term) else CachedDefinition(more, term)
    decreases |rows|
  {
    if rows == [] {
      assert rows + more == more;
    } else {
      assert (rows + more)[0] == rows[0];
      assert (rows + more)[1..] == rows[1..] + more;
      CachedAppend(rows[1..], more, term);
    }
  }

  /**
    What a term resolves to against the cache `cache`: the cached definition,
    else the summary found, else the no-page sentinel; None when the lookup
    reports ambiguity.
   */
  function Expected(cache: seq<Definition>, wiki: string -> Summary, word: string): Option<string>
  {
    match CachedDefinition(cache, word)
    case Some(d) => Some(d)
    case None =>
      match wiki(word)
      case Found(d) => Some(d)
      case NoPage => Some(NoDefinitionFound)
      case Ambiguous(_) => None
  }

  /** The position of the first term that does not resolve, or the number of terms. */
  function StopIndex(cache: seq<Definition>, wiki: string -> Summary, words: seq<string>): (k: nat)
    ensures k <= |words|
    ensures forall i :: 0 <= i < k ==> Expected(cache, wiki, words[i]).Some?
    ensures k < |words| ==> Expected(cache, wiki, words[k]).None?
  {
    if words == [] || Expected(cache, wiki, words[0]).None? then 0
    else 1 + StopIndex(cache, wiki, words[1..])
  }

  /** One term further on: a term that resolves moves the stopping point by one. */
  lemma StopCons(cache: seq<Definition>, wiki: string -> Summary, words: seq<string>)
    requires words != []
    ensures StopIndex(cache, wiki, words)
      == if Expected(cache, wiki, words[0]).None? then 0 else 1 + StopIndex(cache, wiki, words[1..])
  {
  }

  // ---------------------------------------------------------------------
  // The create page's loop: read through the cache, write what is found.
  // ---------------------------------------------------------------------

  datatype CacheRun = CacheRun(outcome: Resolution, cache: seq<Definition>)

  /** The create page's loop from the cache `cache` on, with the definitions gathered so far. */
  function ResolveCaching(cache: seq<Definition>, words: seq<string>, wiki: string -> Summary,
                          definitions: map<string, string>): CacheRun
    decreases |words|
  {
    if words == [] then CacheRun(Complete(definitions), cache)
    else
      var word := words[0];
      match CachedDefinition(cache, word)
      case Some(d) => ResolveCaching(cache, words[1..], wiki, definitions[word := d])
      case None =>
        match wiki(word)
        case Found(d) => ResolveCaching(cache + [Definition(word, d)], words[1..], wiki, definitions[word := d])
        case NoPage => ResolveCaching(cache, words[1..], wiki, definitions[word := NoDefinitionFound])
        case Ambiguous(options) => CacheRun(Ambiguity(word, options), cache)
  }

  /**
    `cache` is `cache0` followed by rows that each record a summary the lookup
    found for a term that no earlier row held.
   */
  ghost predicate Extends(cache0: seq<Definition>, cache: seq<Definition>, wiki: string -> Summary)
    decreases |cache|
  {
    if |cache| <= |cache0| then cache == cache0
    else
      var n := |cache| - 1;
      && Extends(cache0, cache[..n], wiki)
      && CachedDefinition(cache[..n], cache[n].term).None?
      && wiki(cache[n].term) == Found(cache[n].definition)
  }

  /** Rows written by the create page never change what any term resolves to. */
  lemma {:induction false} ExpectedStable(cache0: seq<Definition>, cache: seq<Definition>,
                                          wiki: string -> Summary, word: string)
    requires Extends(cache0, cache, wiki)
    ensures Expected(cache, wiki, word) == Expected(cache0, wiki, word)
    decreases |cache|
  {
    if |cache| > |cache0| {
      var n := |cache| - 1;
      var prior, row := cache[..n], cache[n];
      assert cache == prior + [row];
      ExpectedStable(cache0, prior, wiki, word);
      CachedAppend(prior, [row], word);
    }
  }

  lemma ExtendsStep(cache0: seq<Definition>, cache: seq<Definition>, wiki: string -> Summary, word: string, d: string)
    requires Extends(cache0, cache, wiki)
    requires CachedDefinition(cache, word).None? && wiki(word) == Found(d)
    ensures Extends(cache0, cache + [Definition(word, d)], wiki)
  {
    var next := cache + [Definition(word, d)];
    assert next[..|cache|] == cache;
    if |cache| < |cache0| {
      assert false;
    }
  }

  /**
    Where the create page's loop ends, from any cache that extends `cache0`:
    it completes exactly when every term resolves against `cache0`, and
    otherwise stops at the first term that does not, an ambiguous one, with
    the options the lookup offered.
   */
  lemma {:induction false} CachingStops(cache0: seq<Definition>, cache: seq<Definition>, words: seq<string>,
                                        wiki: string -> Summary, definitions: map<string, string>)
    requires Extends(cache0, cache, wiki)
    ensures var r := ResolveCaching(cache, words, wiki, definitions).outcome;
      var stop := StopIndex(cache0, wiki, words);
      && (r.Complete? <==> stop == |words|)
      && (r.Ambiguity? ==> stop < |words| && r.word == words[stop] && wiki(r.word) == Ambiguous(r.options))
    decreases |words|
  {
    if words != [] {
      var word := words[0];
      ExpectedStable(cache0, cache, wiki, word);
      StopCons(cache0, wiki, words);
      var hit := CachedDefinition(cache, word);
      var r := ResolveCaching(cache, words, wiki, definitions).outcome;
      if hit.Some? {
        CachingStops(cache0, cache, words[1..], wiki, definitions[word := hit.value]);
        assert r == ResolveCaching(cache, words[1..], wiki, definitions[word := hit.value]).outcome;
      } else if wiki(word).Found? {
        var d := wiki(word).text;
        ExtendsStep(cache0, cache, wiki, word, d);
        CachingStops(cache0, cache + [Definition(word, d)], words[1..], wiki, definitions[word := d]);
        assert r == ResolveCaching(cache + [Definition(word, d)], words[1..], wiki, definitions[word := d]).outcome;
      } else if wiki(word).NoPage? {
        CachingStops(cache0, cache, words[1..], wiki, definitions[word := NoDefinitionFound]);
        assert r == ResolveCaching(cache, words[1..], wiki, definitions[word := NoDefinitionFound]).outcome;
      } else {
        assert r == Ambiguity(word, wiki(word).options);
      }
    }
  }

  /**
    `r` defines every word as it resolves against `cache0`, keeps every
    earlier definition of another key, and defines nothing else.
   */
  ghost predicate DefinesAll(r: map<string, string>, definitions: map<string, string>, words: seq<string>,
                       cache0: seq<Definition>, wiki: string -> Summary)
  {
    && (forall w :: w in r <==> w in definitions || w in words)
    && (forall w :: w in words ==> w in r && Some(r[w]) == Expected(cache0, wiki, w))
    && (forall w :: w in definitions && w !in words ==> w in r && r[w] == definitions[w])
  }

  /** Defining the first word and then the rest defines them all. */
  lemma DefinesAllCons(r: map<string, string>, definitions: map<string, string>, words: seq<string>,
                       cache0: seq<Definition>, wiki: string -> Summary, d: string)
    requires words != [] && Expected(cache0, wiki, words[0]) == Some(d)
    requires DefinesAll(r, definitions[words[0] := d], words[1..], cache0, wiki)
    ensures DefinesAll(r, definitions, words, cache0, wiki)
  {
    assert words == [words[0]] + words[1..];
  }

  /**
    What the create page's loop defines when it completes, from any cache
    that extends `cache0`: every term, as it resolves against `cache0`, on
    top of the definitions gathered before.
   */
  lemma {:induction false} CachingDefinitions(cache0: seq<Definition>, cache: seq<Definition>, words: seq<string>,
                                              wiki: string -> Summary, definitions: map<string, string>)
    requires Extends(cache0, cache, wiki)
    ensures var r := ResolveCaching(cache, words, wiki, definitions).outcome;
      r.Complete? ==> DefinesAll(r.definitions, definitions, words, cache0, wiki)
    decreases |words|
  {
    var r := ResolveCaching(cache, words, wiki, definitions).outcome;
    if words != [] {
      var word := words[0];
      ExpectedStable(cache0, cache, wiki, word);
      var hit := CachedDefinition(cache, word);
      if hit.Some? {
        CachingDefinitions(cache0, cache, words[1..], wiki, definitions[word := hit.value]);
        assert r == ResolveCaching(cache, words[1..], wiki, definitions[word := hit.value]).outcome;
        if r.Complete? {
          DefinesAllCons(r.definitions, definitions, words, cache0, wiki, hit.value);
        }
      } else if wiki(word).Found? {
        var d := wiki(word).text;
        ExtendsStep(cache0, cache, wiki, word, d);
        CachingDefinitions(cache0, cache + [Definition(word, d)], words[1..], wiki, definitions[word := d]);
        assert r == ResolveCaching(cache + [Definition(word, d)], words[1..], wiki, definitions[word := d]).outcome;
        if r.Complete? {
          DefinesAllCons(r.definitions, definitions, words, cache0, wiki, d);
        }
      } else if wiki(word).NoPage? {
        CachingDefinitions(cache0, cache, words[1..], wiki, definitions[word := NoDefinitionFound]);
        assert r == ResolveCaching(cache, words[1..], wiki, definitions[word := NoDefinitionFound]).outcome;
        if r.Complete? {
          DefinesAllCons(r.definitions, definitions, words, cache0, wiki, NoDefinitionFound);
        }
      } else {
        assert r == Ambiguity(word, wiki(word).options);
      }
    }
  }


  /** The create page's loop only ever appends to the cache. */
  lemma {:induction false} CachingPrefix(cache: seq<Definition>, words: seq<string>,
                                         wiki: string -> Summary, definitions: map<string, string>)
    ensures var c := ResolveCaching(cache, words, wiki, definitions).cache;
      |cache| <= |c| && c[..|cache|] == cache
    decreases |words|
  {
    var c := ResolveCaching(cache, words, wiki, definitions).cache;
    if words == [] {
      assert c[..|cache|] == cache;
    } else {
      var word := words[0];
      var hit := CachedDefinition(cache, word);
      if hit.Some? {
        CachingPrefix(cache, words[1..], wiki, definitions[word := hit.value]);
      } else if wiki(word).Found? {
        var d := wiki(word).text;
        var next := cache + [Definition(word, d)];
        CachingPrefix(next, words[1..], wiki, definitions[word := d]);
        assert c[..|cache|] == c[..|next|][..|cache|];
      } else if wiki(word).NoPage? {
        CachingPrefix(cache, words[1..], wiki, definitions[word := NoDefinitionFound]);
      } else {
        assert c[..|cache|] == cache;
      }
    }
  }

  /** The rows the create page's loop writes keep extending `cache0`. */
  lemma {:induction false} CachingExtends(cache0: seq<Definition>, cache: seq<Definition>, words: seq<string>,
                                          wiki: string -> Summary, definitions: map<string, string>)
    requires Extends(cache0, cache, wiki)
    ensures Extends(cache0, ResolveCaching(cache, words, wiki, definitions).cache, wiki)
    decreases |words|
  {
    if words != [] {
      var word := words[0];
      var hit := CachedDefinition(cache, word);
      if hit.Some? {
        CachingExtends(cache0, cache, words[1..], wiki, definitions[word := hit.value]);
      } else if wiki(word).Found? {
        var d := wiki(word).text;
        ExtendsStep(cache0, cache, wiki, word, d);
        CachingExtends(cache0, cache + [Definition(word, d)], words[1..], wiki, definitions[word := d]);
      } else if wiki(word).NoPage? {
        CachingExtends(cache0, cache, words[1..], wiki, definitions[word := NoDefinitionFound]);
      }
    }
  }

  /** Every row of `c` from position `from` on is for one of `terms`. */
  predicate RowsFor(c: seq<Definition>, from: nat, terms: seq<string>)
  {
    forall i :: from <= i < |c| ==> c[i].term in terms
  }

  lemma RowsForCons(c: seq<Definition>, from: nat, word: string, before: seq<string>)
    requires RowsFor(c, from, before)
    ensures RowsFor(c, from, [word] + before)
  {
  }

  lemma RowsForWritten(c: seq<Definition>, from: nat, word: string, before: seq<string>)
    requires from < |c| && c[from].term == word && RowsFor(c, from + 1, before)
    ensures RowsFor(c, from, [word] + before)
  {
  }

  /**
    Every one of `terms` that `cache0` does not hold and whose summary was
    found is cached in `c` with that summary.
   */
  predicate CachesFound(c: seq<Definition>, cache0: seq<Definition>, terms: seq<string>, wiki: string -> Summary)
  {
    forall w :: w in terms && CachedDefinition(cache0, w).None? && wiki(w).Found? ==>
      CachedDefinition(c, w) == Some(wiki(w).text)
  }

  lemma CachesFoundCons(c: seq<Definition>, cache0: seq<Definition>, word: string, before: seq<string>,
                        wiki: string -> Summary)
    requires CachesFound(c, cache0, before, wiki)
    requires CachedDefinition(cache0, word).None? && wiki(word).Found? ==> CachedDefinition(c, word) == Some(wiki(word).text)
    ensures CachesFound(c, cache0, [word] + before, wiki)
  {
  }

  /** A term that resolves moves the stopping point one term on. */
  lemma StopSlice(cache0: seq<Definition>, wiki: string -> Summary, words: seq<string>)
    requires words != [] && Expected(cache0, wiki, words[0]).Some?
    ensures words[..StopIndex(cache0, wiki, words)] == [words[0]] + words[1..][..StopIndex(cache0, wiki, words[1..])]
  {
    var k := StopIndex(cache0, wiki, words[1..]);
    StopCons(cache0, wiki, words);
    assert words[..k + 1] == [words[0]] + words[1..][..k];
  }

  /** Every row the create page's loop writes is for a term before the stopping point. */
  lemma {:induction false} CachingRowTerms(cache0: seq<Definition>, cache: seq<Definition>, words: seq<string>,
                                           wiki: string -> Summary, definitions: map<string, string>)
    requires Extends(cache0, cache, wiki)
    ensures RowsFor(ResolveCaching(cache, words, wiki, definitions).cache, |cache|, words[..StopIndex(cache0, wiki, words)])
    decreases |words|
  {
    if words != [] {
      var word := words[0];
      var c := ResolveCaching(cache, words, wiki, definitions).cache;
      var before := words[1..][..StopIndex(cache0, wiki, words[1..])];
      ExpectedStable(cache0, cache, wiki, word);
      var hit := CachedDefinition(cache, word);
      if hit.Some? {
        assert c == ResolveCaching(cache, words[1..], wiki, definitions[word := hit.value]).cache;
        CachingRowTerms(cache0, cache, words[1..], wiki, definitions[word := hit.value]);
        StopSlice(cache0, wiki, words);
        RowsForCons(c, |cache|, word, before);
      } else if wiki(word).Found? {
        var d := wiki(word).text;
        var next := cache + [Definition(word, d)];
        assert c == ResolveCaching(next, words[1..], wiki, definitions[word := d]).cache;
        ExtendsStep(cache0, cache, wiki, word, d);
        CachingRowTerms(cache0, next, words[1..], wiki, definitions[word := d]);
        CachingPrefix(next, words[1..], wiki, definitions[word := d]);
        assert c[|cache|] == c[..|next|][|cache|];
        StopSlice(cache0, wiki, words);
        RowsForWritten(c, |cache|, word, before);
      } else if wiki(word).NoPage? {
        assert c == ResolveCaching(cache, words[1..], wiki, definitions[word := NoDefinitionFound]).cache;
        CachingRowTerms(cache0, cache, words[1..], wiki, definitions[word := NoDefinitionFound]);
        StopSlice(cache0, wiki, words);
        RowsForCons(c, |cache|, word, before);
      } else {
        assert c == cache;
      }
    }
  }

  /**
    Every term before the stopping point whose summary was found, and that
    `cache0` did not hold, is cached afterwards with that summary.
   */
  lemma {:induction false} CachingKeepsFound(cache0: seq<Definition>, cache: seq<Definition>, words: seq<string>,
                                             wiki: string -> Summary, definitions: map<string, string>)
    requires Extends(cache0, cache, wiki)
    ensures CachesFound(ResolveCaching(cache, words, wiki, definitions).cache, cache0,
                        words[..StopIndex(cache0, wiki, words)], wiki)
    decreases |words|
  {
    var c := ResolveCaching(cache, words, wiki, definitions).cache;
    if words != [] {
      var word := words[0];
      var before := words[1..][..StopIndex(cache0, wiki, words[1..])];
      ExpectedStable(cache0, cache, wiki, word);
      var hit := CachedDefinition(cache, word);
      if hit.Some? {
        assert c == ResolveCaching(cache, words[1..], wiki, definitions[word := hit.value]).cache;
        CachingKeepsFound(cache0, cache, words[1..], wiki, definitions[word := hit.value]);
        CachingPrefix(cache, words[1..], wiki, definitions[word := hit.value]);
        assert c == cache + c[|cache|..];
        CachedAppend(cache, c[|cache|..], word);
        StopSlice(cache0, wiki, words);
        CachesFoundCons(c, cache0, word, before, wiki);
      } else if wiki(word).Found? {
        var d := wiki(word).text;
        var next := cache + [Definition(word, d)];
        assert c == ResolveCaching(next, words[1..], wiki, definitions[word := d]).cache;
        ExtendsStep(cache0, cache, wiki, word, d);
        CachingKeepsFound(cache0, next, words[1..], wiki, definitions[word := d]);
        CachingPrefix(next, words[1..], wiki, definitions[word := d]);
        assert c == next + c[|next|..];
        CachedAppend(cache, [Definition(word, d)], word);
        CachedAppend(next, c[|next|..], word);
        StopSlice(cache0, wiki, words);
        CachesFoundCons(c, cache0, word, before, wiki);
      } else if wiki(word).NoPage? {
        assert c == ResolveCaching(cache, words[1..], wiki, definitions[word := NoDefinitionFound]).cache;
        CachingKeepsFound(cache0, cache, words[1..], wiki, definitions[word := NoDefinitionFound]);
        StopSlice(cache0, wiki, words);
        CachesFoundCons(c, cache0, word, before, wiki);
      }
    }
  }

  /**
    The create page's loop from the table as it is:
    - it completes exactly when every term resolves: each term is then
      defined by its first cached row verbatim, else by the summary found,
      else by "No definition found.";
    - otherwise it stops at the first ambiguous term, carrying the options;
    - the table only gains rows recording found summaries of terms that had
      none, for terms before the stopping point (rows
      written before an ambiguous term stay), and every such term is cached.
   */
  lemma CreateResolution(cache0: seq<Definition>, words: seq<string>, wiki: string -> Summary)
    ensures var run := ResolveCaching(cache0, words, wiki, map[]);
      var stop := StopIndex(cache0, wiki, words);
      && (run.outcome.Complete? <==> stop == |words|)
      && (run.outcome.Complete? ==>
            && run.outcome.definitions.Keys == (set w | w in words)
            && forall w :: w in words ==> w in run.outcome.definitions && Some(run.outcome.definitions[w]) == Expected(cache0, wiki, w))
      && (run.outcome.Ambiguity? ==>
            && stop < |words| && run.outcome.word == words[stop]
            && CachedDefinition(cache0, run.outcome.word).None? && wiki(run.outcome.word) == Ambiguous(run.outcome.options))
      && Extends(cache0, run.cache, wiki)
      && |cache0| <= |run.cache| && run.cache[..|cache0|] == cache0
      && (forall i :: |cache0| <= i < |run.cache| ==> run.cache[i].term in words[..stop])
      && (forall w :: w in words[..stop] && CachedDefinition(cache0, w).None? && wiki(w).Found? ==>
            CachedDefinition(run.cache, w) == Some(wiki(w).text))
  {
    assert Extends(cache0, cache0, wiki);
    CachingStops(cache0, cache0, words, wiki, map[]);
    CachingDefinitions(cache0, cache0, words, wiki, map[]);
    CachingExtends(cache0, cache0, words, wiki, map[]);
    CachingPrefix(cache0, words, wiki, map[]);
    CachingRowTerms(cache0, cache0, words, wiki, map[]);
    CachingKeepsFound(cache0, cache0, words, wiki, map[]);
  }

  /**
    Re-running the create page's loop after it completed changes nothing: it
    gives the same definitions and writes no row, since every summary it
    found is now a cache hit. This holds for a lookup that answers as it did
    the first time: a term without a page is not cached, so the second run
    looks it up again.
   */
  lemma ResolveCachingIdempotent(cache0: seq<Definition>, words: seq<string>, wiki: string -> Summary)
    requires ResolveCaching(cache0, words, wiki, map[]).outcome.Complete?
    ensures var run := ResolveCaching(cache0, words, wiki, map[]);
      ResolveCaching(run.cache, words, wiki, map[]) == run
  {
    var run := ResolveCaching(cache0, words, wiki, map[]);
    CreateResolution(cache0, words, wiki);
    assert words[..|words|] == words;
    NoNewRows(run.cache, words, wiki, map[]);
    ReadOnlyAgreesWithCaching(cache0, run.cache, words, wiki, map[]);
    assert Extends(cache0, cache0, wiki);
    ReadOnlyAgreesWithCaching(cache0, cache0, words, wiki, map[]);
  }

  /** When every term is cached or has no page, the create page's loop writes nothing. */
  lemma {:induction false} NoNewRows(cache: seq<Definition>, words: seq<string>, wiki: string -> Summary,
                                     definitions: map<string, string>)
    requires forall w :: w in words ==> CachedDefinition(cache, w).Some? || wiki(w) == NoPage
    ensures ResolveCaching(cache, words, wiki, definitions).cache == cache
    decreases |words|
  {
    if words != [] {
      var word := words[0];
      match CachedDefinition(cache, word)
      case Some(d) => NoNewRows(cache, words[1..], wiki, definitions[word := d]);
      case None => NoNewRows(cache, words[1..], wiki, definitions[word := NoDefinitionFound]);
    }
  }

  /** The Definition table: rows are only ever added. */
  class DefinitionTable {
    var rows: seq<Definition>

    constructor (rows: seq<Definition>)
      ensures this.rows == rows
    {
      this.rows := rows;
    }

    /** `db.session.add(Definition(term, definition))` followed by a commit. */
    method Add(term: string, definition: string)
      modifies this
      ensures rows == old(rows) + [Definition(term, definition)]
    {
      rows := rows + [Definition(term, definition)];
    }
  }

  /**
    The create page's loop over the words: cache hits are used verbatim, a
    summary found is written to the table, a term without a page gets the
    sentinel, and the first ambiguous term ends the loop.
   */
  method ResolveForCreate(table: DefinitionTable, words: seq<string>, wiki: string -> Summary)
    returns (outcome: Resolution)
    modifies table
    ensures var run := ResolveCaching(old(table.rows), words, wiki, map[]);
      outcome == run.outcome && table.rows == run.cache
  {
    var definitions: map<string, string> := map[];
    var i := 0;
    while i < |words|
      invariant 0 <= i <= |words|
      invariant ResolveCaching(table.rows, words[i..], wiki, definitions)
             == ResolveCaching(old(table.rows), words, wiki, map[])
    {
      var word := words[i];
      assert words[i..][0] == word && words[i..][1..] == words[i + 1..];
      var cached := CachedDefinition(table.rows, word);
      if cached.Some? {
        definitions := definitions[word := cached.value];
      } else {
        match wiki(word)
        case Found(d) => {
          definitions := definitions[word := d];
          table.Add(word, d);
        }
        case Ambiguous(options) => {
          return Ambiguity(word, options);
        }
        case NoPage => {
          definitions := definitions[word := NoDefinitionFound];
        }
      }
      i := i + 1;
    }
    outcome := Complete(definitions);
  }

  // ---------------------------------------------------------------------
  // define_terms: reads the cache, never writes it.
  // ---------------------------------------------------------------------

  /** `define_terms`'s loop against the fixed cache `cache`. */
  function ResolveReadOnly(cache: seq<Definition>, words: seq<string>, wiki: string -> Summary,
                           definitions: map<string, string>): Resolution
    decreases |words|
  {
    if words == [] then Complete(definitions)
    else
      var word := words[0];
      match CachedDefinition(cache, word)
      case Some(d) => ResolveReadOnly(cache, words[1..], wiki, definitions[word := d])
      case None =>
        match wiki(word)
        case Found(d) => ResolveReadOnly(cache, words[1..], wiki, definitions[word := d])
        case NoPage => ResolveReadOnly(cache, words[1..], wiki, definitions[word := NoDefinitionFound])
        case Ambiguous(options) => Ambiguity(word, options)
  }

  /**
    Against the cache the create page started from, `define_terms` computes
    the same outcome as the create page's loop does while it writes rows.
   */
  lemma {:induction false} ReadOnlyAgreesWithCaching(cache0: seq<Definition>, cache: seq<Definition>, words: seq<string>,
                                                     wiki: string -> Summary, definitions: map<string, string>)
    requires Extends(cache0, cache, wiki)
    ensures ResolveReadOnly(cache0, words, wiki, definitions) == ResolveCaching(cache, words, wiki, definitions).outcome
    decreases |words|
  {
    if words != [] {
      var word := words[0];
      ExpectedStable(cache0, cache, wiki, word);
      match Expected(cache0, wiki, word)
      case Some(d) => {
        match CachedDefinition(cache, word)
        case Some(_) =>
          ReadOnlyAgreesWithCaching(cache0, cache, words[1..], wiki, definitions[word := d]);
        case None => {
          match wiki(word)
          case Found(_) => {
            ExtendsStep(cache0, cache, wiki, word, d);
            ReadOnlyAgreesWithCaching(cache0, cache + [Definition(word, d)], words[1..], wiki, definitions[word := d]);
          }
          case NoPage =>
            ReadOnlyAgreesWithCaching(cache0, cache, words[1..], wiki, definitions[word := d]);
        }
      }
      case None =>
    }
  }

  /**
    `define_terms` defines every term exactly as Expected when no term is
    ambiguous, and otherwise reports the first ambiguous term.
   */
  lemma ResolveReadOnlySpec(cache: seq<Definition>, words: seq<string>, wiki: string -> Summary)
    ensures var r := ResolveReadOnly(cache, words, wiki, map[]);
      var stop := StopIndex(cache, wiki, words);
      && (r.Complete? <==> stop == |words|)
      && (r.Complete? ==>
            && r.definitions.Keys == (set w | w in words)
            && forall w :: w in words ==> w in r.definitions && Some(r.definitions[w]) == Expected(cache, wiki, w))
      && (r.Ambiguity? ==>
            stop < |words| && r.word == words[stop] && CachedDefinition(cache, r.word).None?
            && wiki(r.word) == Ambiguous(r.options))
  {
    assert Extends(cache, cache, wiki);
    ReadOnlyAgreesWithCaching(cache, cache, words, wiki, map[]);
    CreateResolution(cache, words, wiki);
  }

  /** The page `define_terms` returns instead of definitions when a term is ambiguous. */
  datatype TermsPage =
    | Defined(definitions: map<string, string>)
    | ChooseTerm(words: seq<string>, error: string)

  function AmbiguityMessage(word: string, options: seq<string>): string
  {
    word + " has multiple definitions. Please type one of these: " + Suggestions.SuggestionText(options)
  }

  /** `define_terms`: the loop reads the table and leaves it unchanged. */
  method DefineTerms(table: DefinitionTable, words: seq<string>, wiki: string -> Summary) returns (page: TermsPage)
    ensures page.Defined? <==> ResolveReadOnly(table.rows, words, wiki, map[]).Complete?
    ensures page.Defined? ==> page.definitions == ResolveReadOnly(table.rows, words, wiki, map[]).definitions
    ensures page.ChooseTerm? ==>
      var r := ResolveReadOnly(table.rows, words, wiki, map[]);
      page == ChooseTerm(words, AmbiguityMessage(r.word, r.options))
    ensures page.Defined? ==> forall w :: w in words ==>
      w in page.definitions && Some(page.definitions[w]) == Expected(table.rows, wiki, w)
  {
    var definitions: map<string, string> := map[];
    var i := 0;
    while i < |words|
      invariant 0 <= i <= |words|
      invariant ResolveReadOnly(table.rows, words[i..], wiki, definitions)
             == ResolveReadOnly(table.rows, words, wiki, map[])
    {
      var word := words[i];
      assert words[i..][0] == word && words[i..][1..] == words[i + 1..];
      var cached := CachedDefinition(table.rows, word);
      if cached.Some? {
        definitions := definitions[word := cached.value];
      } else {
        match wiki(word)
        case Found(d) => {
          definitions := definitions[word := d];
        }
        case Ambiguous(options) => {
          var suggestions := Suggestions.ReturnSuggestions(options);
          var error := word + " has multiple definitions. Please type one of these: " + suggestions;
          return ChooseTerm(words, error);
        }
        case NoPage => {
          definitions := definitions[word := NoDefinitionFound];
        }
      }
      i := i + 1;
    }
    assert words[i..] == [];
    ResolveReadOnlySpec(table.rows, words, wiki);
    page := Defined(definitions);
  }

  // ---------------------------------------------------------------------
  // quizlet_definitions: no cache at all.
  // ---------------------------------------------------------------------

  /**
    `quizlet_definitions`'s loop. It catches only the no-page condition; an
    ambiguous term raises out of the loop, shown here as Ambiguity.
   */
  function ResolveUncached(words: seq<string>, wiki: string -> Summary, definitions: map<string, string>): Resolution
    decreases |words|
  {
    if words == [] then Complete(definitions)
    else
      var word := words[0];
      match wiki(word)
      case Found(d) => ResolveUncached(words[1..], wiki, definitions[word := d])
      case NoPage => ResolveUncached(words[1..], wiki, definitions[word := NoDefinitionFound])
      case Ambiguous(options) => Ambiguity(word, options)
  }

  /** `quizlet_definitions` behaves as `define_terms` would with an empty cache, whatever the cache holds. */
  lemma {:induction false} UncachedIsEmptyCache(words: seq<string>, wiki: string -> Summary, definitions: map<string, string>)
    ensures ResolveUncached(words, wiki, definitions) == ResolveReadOnly([], words, wiki, definitions)
    decreases |words|
  {
    if words != [] {
      var word := words[0];
      match wiki(word)
      case Found(d) => UncachedIsEmptyCache(words[1..], wiki, definitions[word := d]);
      case NoPage => UncachedIsEmptyCache(words[1..], wiki, definitions[word := NoDefinitionFound]);
      case Ambiguous(_) =>
    }
  }

  /**
    `quizlet_definitions`: every term gets the summary found or the sentinel;
    the first ambiguous term ends it. It takes no table, so it can neither
    read nor write the cache.
   */
  method QuizletDefinitions(words: seq<string>, wiki: string -> Summary) returns (r: Resolution)
    ensures r == ResolveUncached(words, wiki, map[])
    ensures r.Complete? ==> forall w :: w in words ==>
      w in r.definitions && r.definitions[w] == (if wiki(w).Found? then wiki(w).text else NoDefinitionFound)
    ensures r.Ambiguity? ==> r.word in words && wiki(r.word) == Ambiguous(r.options)
  {
    UncachedIsEmptyCache(words, wiki, map[]);
    ResolveReadOnlySpec([], words, wiki);
    assert forall w :: CachedDefinition([], w) == None;
    var definitions: map<string, string> := map[];
    var i := 0;
    while i < |words|
      invariant 0 <= i <= |words|
      invariant ResolveUncached(words[i..], wiki, definitions) == ResolveUncached(words, wiki, map[])
    {
      var word := words[i];
      assert words[i..][0] == word && words[i..][1..] == words[i + 1..];
      match wiki(word) {
        case Found(d) =>
          definitions := definitions[word := d];
        case NoPage =>
          definitions := definitions[word := NoDefinitionFound];
        case Ambiguous(options) =>
          return Ambiguity(word, options);
      }
      i := i + 1;
    }
    assert words[i..] == [];
    assert ResolveReadOnly([], words, wiki, map[]) == Complete(definitions);
    forall w | w in words
      ensures w in definitions && definitions[w] == (if wiki(w).Found? then wiki(w).text else NoDefinitionFound)
    {
      assert CachedDefinition([], w) == None;
    }
    r := Complete(definitions);
  }
}
