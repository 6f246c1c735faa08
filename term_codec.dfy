/**
  How a Set row stores its terms: one string in which every term is followed
  by the four-character delimiter ">><<". Readers split on the delimiter and
  skip empty segments; the review and delete pages count those segments.
 */
module TermCodec {
  import opened PyStr

  const Delimiter: string := ">><<"

  /** The stored form of a list of terms. */
  function Encoded(words: seq<string>): string
  {
    Terminated(words, Delimiter)
  }

  /** The terms a reader recovers from a stored string. */
  function Decoded(stored: string): seq<string>
  {
    NonEmpty(Split(stored, Delimiter))
  }

  lemma DelimiterBorderFree()
    ensures BorderFree(Delimiter)
  {
    forall k | 0 < k < |Delimiter|
      ensures Delimiter[..k] != Delimiter[|Delimiter| - k..]
    {
      assert Delimiter[..k][0] == '>';
      assert Delimiter[|Delimiter| - k..][0] == Delimiter[4 - k];
      if k == 3 {
        assert Delimiter[..k][1] == '>';
        assert Delimiter[|Delimiter| - k..][1] == '<';
      }
    }
  }

  /**
    Decoding what was encoded gives back the non-empty terms in order, and
    exactly the terms when none is empty, provided no term contains the
    delimiter itself.
   */
  lemma DecodeEncode(words: seq<string>)
    requires forall i :: 0 <= i < |words| ==> !Contains(words[i], Delimiter)
    ensures Decoded(Encoded(words)) == NonEmpty(words)
    ensures (forall i :: 0 <= i < |words| ==> words[i] != []) ==> Decoded(Encoded(words)) == words
  {
    DelimiterBorderFree();
    ShortNotContains([], Delimiter);
    SplitTerminated(words, [], Delimiter);
    assert Encoded(words) + [] == Encoded(words);
    NonEmptyAppend(words, [[]]);
    if forall i :: 0 <= i < |words| ==> words[i] != [] {
      NonEmptyOfNonEmpty(words);
    }
  }

  /** The stored string "cat>><<dog>><<" reads back as the two terms "cat" and "dog". */
  lemma DecodeExample()
    ensures Decoded("cat>><<dog>><<") == ["cat", "dog"]
  {
    var words := ["cat", "dog"];
    ShortNotContains("cat", Delimiter);
    ShortNotContains("dog", Delimiter);
    assert Encoded(words) == "cat>><<dog>><<";
    DecodeEncode(words);
  }

  /** The `dbwords += word + '>><<'` loop of the create page. */
  method EncodeTerms(words: seq<string>) returns (dbwords: string)
    ensures dbwords == Encoded(words)
  {
    dbwords := "";
    for i := 0 to |words|
      invariant dbwords == Encoded(words[..i])
    {
      TerminatedSnoc(words[..i], words[i], Delimiter);
      assert words[..i + 1] == words[..i] + [words[i]];
      dbwords := dbwords + (words[i] + Delimiter);
    }
    assert words[..|words|] == words;
  }

  /** The split-and-filter loop that turns a stored Set back into its terms. */
  method DecodeTerms(stored: string) returns (terms: seq<string>)
    ensures terms == Decoded(stored)
    ensures forall i :: 0 <= i < |terms| ==> terms[i] != []
  {
    var segments := Split(stored, Delimiter);
    terms := [];
    for i := 0 to |segments|
      invariant terms == NonEmpty(segments[..i])
    {
      NonEmptyAppend(segments[..i], [segments[i]]);
      assert segments[..i + 1] == segments[..i] + [segments[i]];
      if segments[i] != "" {
        terms := terms + [segments[i]];
      }
    }
    assert segments[..|segments|] == segments;
  }

  /** The counting loop of the review page: how many non-empty segments a stored Set has. */
  method CountTerms(stored: string) returns (count: nat)
    ensures count == |Decoded(stored)|
  {
    var segments := Split(stored, Delimiter);
    count := 0;
    for i := 0 to |segments|
      invariant count == |NonEmpty(segments[..i])|
    {
      NonEmptyAppend(segments[..i], [segments[i]]);
      assert segments[..i + 1] == segments[..i] + [segments[i]];
      if segments[i] != "" {
        count := count + 1;
      }
    }
    assert segments[..|segments|] == segments;
  }
}
