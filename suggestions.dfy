/**
  Formatting of the options a disambiguation error carries
  (`return_suggestions`), and the create page's re-split of that text into at
  most three suggestions.
 */
module Suggestions {
  import opened PyStr

  const OptionSeparator: string := ", "

  /**
    The sentence built from the options: joined by ", " and closed by "." when
    the last option does not occur earlier in the list; when it does, its
    `list.index` is not the last position and it is followed by ", " instead.
   */
  function SuggestionText(options: seq<string>): string
  {
    if options == [] then ""
    else
      JoinWith(options, OptionSeparator)
      + (if options[|options| - 1] in options[..|options| - 1] then OptionSeparator else ".")
  }

  /** `return_suggestions`: the loop appending each option with "." or ", ". */
  method ReturnSuggestions(options: seq<string>) returns (suggestions: string)
    ensures suggestions == SuggestionText(options)
  {
    suggestions := "";
    for k := 0 to |options|
      invariant k < |options| ==> suggestions == Terminated(options[..k], OptionSeparator)
      invariant k == |options| ==> suggestions == SuggestionText(options)
    {
      var sug := options[k];
      var first := IndexOf(options, sug);
      TerminatedSnoc(options[..k], sug, OptionSeparator);
      assert options[..k + 1] == options[..k] + [sug];
      IndexOfAtMost(options, k);
      if k == |options| - 1 {
        JoinTerminated(options, OptionSeparator);
        IndexOfLast(options);
      }
      if first == |options| - 1 {
        suggestions := suggestions + (sug + ".");
      } else {
        suggestions := suggestions + (sug + OptionSeparator);
      }
    }
  }

  /** The create page's `suggestions.split(', ')[:3]`. */
  function ShownSuggestions(text: string): (shown: seq<string>)
    ensures 1 <= |shown| <= 3 && |shown| <= |Split(text, OptionSeparator)|
    ensures shown == Split(text, OptionSeparator)[..|shown|]
    ensures |shown| < 3 ==> shown == Split(text, OptionSeparator)
  {
    var all := Split(text, OptionSeparator);
    if |all| <= 3 then all else all[..3]
  }

  lemma SeparatorBorderFree()
    ensures BorderFree(OptionSeparator)
  {
    forall k | 0 < k < |OptionSeparator|
      ensures OptionSeparator[..k] != OptionSeparator[|OptionSeparator| - k..]
    {
      assert OptionSeparator[..k][0] == ',';
      assert OptionSeparator[|OptionSeparator| - k..][0] == ' ';
    }
  }

  /**
    Re-splitting the sentence on ", " gives the options back in order as long
    as no option itself contains ", ": the last one carries the closing ".",
    or, when it repeats an earlier option, is followed by an empty piece. No
    options give the single empty suggestion.
   */
  lemma SplitSuggestionText(options: seq<string>)
    requires forall i :: 0 <= i < |options| ==> !Contains(options[i], OptionSeparator)
    ensures options == [] ==> Split(SuggestionText(options), OptionSeparator) == [""]
    ensures options != [] && options[|options| - 1] !in options[..|options| - 1] ==>
      Split(SuggestionText(options), OptionSeparator)
        == options[..|options| - 1] + [options[|options| - 1] + "."]
    ensures options != [] && options[|options| - 1] in options[..|options| - 1] ==>
      Split(SuggestionText(options), OptionSeparator) == options + [""]
  {
    SeparatorBorderFree();
    if options == [] {
      SplitFromNoSep("", OptionSeparator, "");
    } else {
      var n := |options|;
      var init, last := options[..n - 1], options[n - 1];
      JoinTerminated(options, OptionSeparator);
      if last in init {
        TerminatedSnoc(init, last, OptionSeparator);
        assert init + [last] == options;
        ShortNotContains("", OptionSeparator);
        SplitTerminated(options, "", OptionSeparator);
        assert SuggestionText(options) == Terminated(options, OptionSeparator) + "";
      } else {
        AppendNotContains(last, '.', OptionSeparator);
        assert SuggestionText(options) == Terminated(init, OptionSeparator) + (last + ".");
        SplitTerminated(init, last + ".", OptionSeparator);
      }
    }
  }
}
