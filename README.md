# terml.io term pipeline in Dafny

This project models the core of terml.io. terml.io is a small Flask application. A signed-in user types a list of
terms, one per line. Each term gets a short encyclopedia summary. The list is stored as a "Set". Later the Set can be
shown, exported as flashcard import text, or counted on the review page. The model covers the
following pieces of `termlio.py`:

- **Term codec** (`term_codec.dfy`). A Set stores its terms as one string, with every term followed by the
  delimiter `>><<`. Readers split on the delimiter and skip empty segments.
- **`remove_blank_words`** (`blank_words.dfy`). This function deletes `""` from a Python list while iterating over
  that same list. Python's list iterator keeps an index into the list. `list.remove` deletes the first match. The
  model keeps both behaviours: the entry that slides into the visited slot is skipped, so adjacent blanks are not
  all removed (`["", ""]` keeps one, `BlankWords.AdjacentBlanksSurvive`).
- **Suggestions** (`suggestions.dfy`). `return_suggestions` formats the options of an ambiguous term. The create
  page then splits that text again with `split(', ')[:3]`.
- **Resolver** (`resolver.dfy`). The Definition table is a read-through cache: a sequence of rows, where a query
  returns the first row for a term. The encyclopedia lookup is a parameter of type `string -> Summary`, which answers
  `Found`, `Ambiguous` or `NoPage`. The three resolving loops are modelled:
  - the create page's loop writes every summary it finds;
  - `define_terms` only reads the table;
  - `quizlet_definitions` does not use the table.
- **Accounts** (`accounts.dfy`):
  - `valid_email`, modelled as a matcher for its regular expression. Python's `$` lets one final newline through,
    and the model keeps that. The matcher is proved equal to a plain description of the address shape.
  - The session username derived at sign-in and sign-up.
  - `generate_random_password`, with the random draws passed in.
  - The decision order of `changepassword`.
- **Pages** (`pages.dfy`). These put the pieces together:
  - the create page, which splits the text, removes blanks, encodes, resolves and stores the Set;
  - the definitions page;
  - the flashcard import page;
  - the review page's term counts.

`pystr.dfy` defines Python's `str.split` once, as a left-to-right scan that takes each leftmost separator and never
overlaps two matches. It also defines the joins the code builds with `+=`. `wrappers.dfy` holds `Option`.

Loops in the source are methods whose `while`/`for` loops are proved against a specification function. Objects the
source mutates are classes: the list given to `remove_blank_words`, the Definition table and the Set table. The
encyclopedia, the password library, the database's row ids and the session are parameters.

In three places the code does less than its own names and checks suggest, and the model follows the code:

- Blank lines can reach the resolver. The create page calls `remove_blank_words` (termlio.py:220, 299) and rejects
  empty text (termlio.py:307), which suggests that no empty term is ever looked up. In the code, two adjacent blank
  lines leave one `""`, and whitespace-only lines are never filtered. For example, the text
  `"\n"` is not empty, so it passes the create page's check. Its only word is `""`, and the Set it would store reads
  back with no terms (`Pages.NewlineOnlyInput`).
- A second resolution does not skip every earlier lookup. Only summaries that were found are cached. A term without
  a page is looked up again on every resolution. What holds is that a second resolution gives the same definitions
  and writes no row (`Resolver.ResolveCachingIdempotent`).
- An ambiguous term does not undo earlier cache writes. The Set is not stored, but the Definition rows written for
  the terms before that term stay (`Resolver.CreateResolution`).

## Model

| member | source | states |
|---|---|---|
| TermCodec.EncodeTerms | termlio.py:303-305 | the stored string is every word, in order, each followed by `>><<` |
| TermCodec.DecodeTerms | termlio.py:364-367 | the terms read back are the non-empty segments of the stored string split on `>><<`, in order, and none is empty |
| TermCodec.CountTerms | termlio.py:350-354 | the review count equals the number of terms a reader recovers from the stored string |
| TermCodec.DecodeEncode | termlio.py:303-305 | reading back an encoded list gives its non-empty words in order, and exactly the list when no word is empty, provided no word contains the delimiter |
| TermCodec.DecodeExample | termlio.py:365-367 | `"cat>><<dog>><<"` reads back as `["cat", "dog"]` |
| BlankWords.WordList.Remove | termlio.py:224 | `list.remove` deletes the first equal entry and nothing else |
| BlankWords.RemoveBlankWords | termlio.py:220-225 | the list given is mutated in place and returned, and its final contents are those of the index-based scan `Scan` over the original list |
| BlankWords.RemoveFirstKeepsNonBlanks | termlio.py:224 | removing a `""` keeps the non-blank entries in order and adds nothing |
| BlankWords.ScanKeepsNonBlanks | termlio.py:220-225 | the loop deletes only blanks: the non-blank entries come out unchanged and in order, and no entry is added |
| BlankWords.ScanClearsIsolatedBlanks | termlio.py:222-224 | once the visited prefix is blank-free, a list without adjacent blanks loses every blank from the cursor on |
| BlankWords.IsolatedBlanksRemoved | termlio.py:220-225 | with no two blanks adjacent, the result holds no `""` and equals the list's non-blank entries |
| BlankWords.OneBlankRemoved | termlio.py:220-225 | `["a", "", "b"]` becomes `["a", "b"]` |
| BlankWords.AdjacentBlanksSurvive | termlio.py:220-225 | `["", ""]` becomes `[""]`: the blank that slides into the visited slot is skipped |
| Suggestions.ReturnSuggestions | termlio.py:210-217 | the options joined by `", "` and closed by `"."`, except that the closing is `", "` when the last option also occurs earlier, because `list.index` finds the earlier one |
| Suggestions.ShownSuggestions | termlio.py:322-323 | one to three pieces: the first pieces of the text split on `", "`, and all of them when there are fewer than three |
| Suggestions.SplitSuggestionText | termlio.py:321-323 | provided no option holds `", "`, re-splitting the text gives back the options in order, the last carrying its `"."`, or followed by an empty piece when it repeats an earlier option; no options give `[""]` |
| Resolver.CachedDefinition | termlio.py:194 | the cache answers nothing exactly when no row has the term, and otherwise the definition of the first row for that term |
| Resolver.CachedAppend | termlio.py:317-319 | rows added later never shadow an earlier row for the same term |
| Resolver.StopIndex | termlio.py:309-326 | the stopping point is the first term that does not resolve, and every term before it resolves |
| Resolver.ExpectedStable | termlio.py:310-319 | rows the create page writes never change what any term resolves to |
| Resolver.CachingStops | termlio.py:309-326 | the create loop completes exactly when every term resolves, and otherwise stops at the first ambiguous term with the options the lookup gave |
| Resolver.CachingDefinitions | termlio.py:309-328 | on completion, every term is defined as it resolves against the original table, and earlier definitions of other keys are kept |
| Resolver.CachingPrefix | termlio.py:317-319 | the create loop only appends rows to the table |
| Resolver.CachingExtends | termlio.py:310-319 | every row written records a found summary for a term the table did not hold |
| Resolver.CachingRowTerms | termlio.py:309-319 | every row written is for a term before the stopping point |
| Resolver.CachingKeepsFound | termlio.py:314-319 | every term before the stopping point whose summary was found, and that the table lacked, is cached with that summary afterwards |
| Resolver.CreateResolution | termlio.py:309-328 | the create loop from an existing table completes exactly when every term resolves, and then defines exactly the words as they resolve; otherwise it stops at the first ambiguous term; the table only gains rows for found summaries of earlier terms, and every such term ends up cached |
| Resolver.ResolveCachingIdempotent | termlio.py:309-328 | running the create loop again after it completed, with a lookup that answers as before, gives the same definitions and writes nothing |
| Resolver.NoNewRows | termlio.py:310-319 | when every term is cached or has no page, the create loop writes no row |
| Resolver.DefinitionTable.Add | termlio.py:317-319 | `db.session.add` plus commit appends one row |
| Resolver.ResolveForCreate | termlio.py:309-328 | the loop's outcome and the table's new rows are those of `ResolveCaching` on the table as it was |
| Resolver.ReadOnlyAgreesWithCaching | termlio.py:191-207 | against the table the create page started from, `define_terms` computes the create loop's outcome |
| Resolver.ResolveReadOnlySpec | termlio.py:191-207 | `define_terms` completes exactly when no term is ambiguous, and then defines exactly the words, each as it resolves; otherwise it reports the first ambiguous term |
| Resolver.DefineTerms | termlio.py:191-207 | the table is only read; every word is defined as it resolves, or the create form comes back with the ambiguity message |
| Resolver.UncachedIsEmptyCache | termlio.py:171-179 | `quizlet_definitions` behaves as `define_terms` would with an empty table |
| Resolver.QuizletDefinitions | termlio.py:171-179 | every term gets the summary found or `"No definition found."`; an ambiguous term escapes, and it is one of the words |
| Accounts.DomainRun | termlio.py:186 | after `@`, the matcher accepts the rest exactly when, without one final newline, it splits on `.` into non-empty labels |
| Accounts.LocalRun | termlio.py:186 | inside the local part, the matcher accepts the rest exactly when it is local characters, `@`, then a domain |
| Accounts.ValidEmail | termlio.py:184-188 | `valid_email` returns the verdict of a left-to-right matcher for the pattern, in which `$` accepts one final newline, and that verdict is true exactly for the address shape: a non-empty local part, `@`, dot-separated non-empty labels, optionally one newline |
| Accounts.ValidEmailIff | termlio.py:184-188 | the matcher accepts exactly a non-empty local part of allowed characters, `@`, and dot-separated non-empty labels, optionally followed by one newline |
| Accounts.ShapeOneAt | termlio.py:186 | an address of that shape has exactly one `@`, and it is not the first character |
| Accounts.ValidEmailOneAt | termlio.py:184-188 | every accepted address has exactly one `@`, and it is not the first character |
| Accounts.TrailingNewline | termlio.py:186 | one final newline is accepted, two are not |
| Accounts.DoubledDot | termlio.py:186 | `a@b.c` is accepted and `a@b..c` is not |
| Accounts.Username | termlio.py:466-470 | the username is the longest prefix of the address without `@`: the next character, if any, is the `@` |
| Accounts.GenerateRandomPassword | termlio.py:242-260 | the password has eight characters, each the table entry at its draw |
| Accounts.EveryPasswordReachable | termlio.py:246-257 | every eight-character text over the table is produced by some choice of draws in 0..61 |
| Accounts.ChangePassword | termlio.py:437-444 | a wrong current password is reported first, then mismatched new passwords; the hash changes, to the new password's hash, exactly when both checks pass, with the success message |
| Pages.SetTable.Add | termlio.py:329-331 | storing a Set appends one row |
| Pages.Create | termlio.py:295-337 | sign-in page when signed out; empty text gives the error; otherwise the table and the page follow the create loop: a completed run stores one Set with the encoded words, and an ambiguous run stores no Set and offers at most three suggestions |
| Pages.CreatedSetReadsBack | termlio.py:298-305 | provided no line holds `>><<`, the Set the create page stores reads back as the non-blank lines of the text, in order |
| Pages.NewlineOnlyInput | termlio.py:298-307 | the text `"\n"` passes the empty check, resolves the word `""`, and the Set it would store reads back empty |
| Pages.ShowDefinitions | termlio.py:359-370 | only the owner sees the Set's decoded terms with `define_terms`'s result: exactly the words' definitions, each as it resolves, or the create form with the words and the ambiguity message; another user gets the error page |
| Pages.ImportLines | termlio.py:166-167 | one line per term, in order, holding the term, a tab and its definition |
| Pages.BuildImportCode | termlio.py:165-167 | the import text is every line followed by a newline |
| Pages.ImportCodeParses | termlio.py:165-167 | provided no term or definition holds a tab or a newline, split on newlines the import text gives one line per term and an empty remainder, and each line split on the tab gives the term and its definition |
| Pages.CreateQuizletSet | termlio.py:155-168 | the import page appears exactly for the owner when no term is ambiguous, and its text is the import code of the decoded terms |
| Pages.OwnedBy | termlio.py:346 | the review page lists exactly the user's Sets, each as many times as the table holds it, so `sets_length` is the number of the user's rows |
| Pages.TermCounts | termlio.py:349-354 | one count per Set, each the number of terms the Set reads back as |
| Pages.Review | termlio.py:343-356 | the signed-in user's Sets, their number, and each one's term count |
| Pages.CountOfCreatedSet | termlio.py:350-354 | a stored Set counts as many terms as it was created from, when none was empty or held the delimiter |

## Left out

- The Flask routing, the templates, the session and the redirects are left out. Each page is a method that returns
  the data its template receives.
- The database (SQLAlchemy) is left out. The Set and Definition tables are sequences of rows in classes. Row ids,
  `setid` and the column length limits (`db.String(5000)`) are not modelled.
- The encyclopedia lookup is a total function parameter. The network, the two-sentence truncation and any other
  exception the lookup might raise are left out.
- `create_pdf` (termlio.py:139-152) is not a separate member. Its logic is the same as the definitions page's, which
  `Pages.ShowDefinitions` models, and only the template differs.
- `delete_set` and the deletion itself (termlio.py:228-231, 374-379) are left out, as is `user_owns_set`. The delete
  page's counting loop (termlio.py:383-388) is the review page's and is modelled by `Pages.TermCounts`.
- A missing Set, or a missing user, raises in the source. The definitions and import pages model that as a server
  error. The source's view functions that return nothing (`create_quizlet_set` for another user, `changepassword`
  when signed out) are a server error or are not modelled.
- `Accounts.GenerateRandomPassword`: states each character as the table entry and as a member of the 62-character
  table. It does not restate per character that the table holds only ASCII letters and digits.
- `Accounts.ChangePassword` is the decision for a signed-in user. The user lookup and the commit are left out. The
  hashing and its check are parameters.
- Sign-in, sign-up, change-e-mail and forgotten-password flows are left out. Two pieces of them are modelled: the
  username that sign-in and sign-up derive (`Accounts.Username`), and `valid_email` (`Accounts.ValidEmail`), which
  change-e-mail calls (termlio.py:414). Sign-up validates with the form library's e-mail validator
  (forms.py:6), which is not part of this model. The mail these flows send is left out.
- `session['words']`, `session['title']`, and the review page passing the `definitions` view function to its
  template are left out.
- The commented-out query-string code in the create page is left out. So is `forms.py`, the sign-up form validation.
- Randomness is left out. The eight `random.randint(0, 61)` results are an input.
