/**
  `remove_blank_words`: deletes "" entries from a Python list while iterating
  over that same list. Python's list iterator keeps an index into the list as
  it currently is, and `list.remove("")` deletes the FIRST "" of the list; the
  element that slides into the current slot is skipped at that step, so
  adjacent blanks are not all removed (["", ""] keeps one).
 */
module BlankWords {
  import opened PyStr

  /** Python's `list.remove(x)` when `x` is present: the first entry equal to `x` is deleted. */
  function RemoveFirst(s: seq<string>, x: string): (r: seq<string>)
    requires x in s
    ensures |r| == |s| - 1
  {
    var k := IndexOf(s, x);
    s[..k] + s[k + 1..]
  }

  /**
    The list after a `for word in wordlist` loop has run from iterator
    index `i` on, removing the first "" whenever the visited word is "".
   */
  function Scan(s: seq<string>, i: nat): seq<string>
    decreases |s| - i
  {
    if i >= |s| then s
    else if s[i] == "" then Scan(RemoveFirst(s, ""), i + 1)
    else Scan(s, i + 1)
  }

  /** A Python list of strings, mutated in place. */
  class WordList {
    var items: seq<string>

    constructor (items: seq<string>)
      ensures this.items == items
    {
      this.items := items;
    }

    /** `list.remove(x)`. */
    method Remove(x: string)
      requires x in items
      modifies this
      ensures items == RemoveFirst(old(items), x)
    {
      items := RemoveFirst(items, x);
    }
  }

  /** `remove_blank_words(termlist)`: mutates the list it is given and returns that same list. */
  method RemoveBlankWords(termlist: WordList) returns (wordlist: WordList)
    modifies termlist
    ensures wordlist == termlist
    ensures wordlist.items == Scan(old(termlist.items), 0)
  {
    wordlist := termlist;
    var index := 0;
    while index < |wordlist.items|
      invariant wordlist == termlist
      invariant Scan(wordlist.items, index) == Scan(old(termlist.items), 0)
      decreases |wordlist.items| - index
    {
      var word := wordlist.items[index];
      index := index + 1;
      if word == "" {
        wordlist.Remove(word);
      }
    }
  }

  lemma {:induction false} RemoveFirstKeepsNonBlanks(s: seq<string>)
    requires "" in s
    ensures NonEmpty(RemoveFirst(s, "")) == NonEmpty(s)
    ensures multiset(RemoveFirst(s, "")) <= multiset(s)
  {
    var j := IndexOf(s, "");
    assert s == s[..j] + [s[j]] + s[j + 1..];
    assert multiset(s) == multiset(s[..j]) + multiset{s[j]} + multiset(s[j + 1..]);
    NonEmptyAppend(s[..j] + [s[j]], s[j + 1..]);
    NonEmptyAppend(s[..j], [s[j]]);
    NonEmptyAppend(s[..j], s[j + 1..]);
  }

  /**
    The loop only ever deletes "" entries: the non-blank entries come out
    unchanged and in their original order, and no entry is added.
   */
  lemma {:induction false} ScanKeepsNonBlanks(s: seq<string>, i: nat)
    ensures NonEmpty(Scan(s, i)) == NonEmpty(s)
    ensures multiset(Scan(s, i)) <= multiset(s)
    decreases |s| - i
  {
    if i >= |s| {
    } else if s[i] == "" {
      var r := RemoveFirst(s, "");
      RemoveFirstKeepsNonBlanks(s);
      ScanKeepsNonBlanks(r, i + 1);
    } else {
      ScanKeepsNonBlanks(s, i + 1);
    }
  }

  /** No two "" entries are next to each other. */
  predicate NoAdjacentBlanks(s: seq<string>)
  {
    forall k :: 0 <= k < |s| - 1 ==> !(s[k] == "" && s[k + 1] == "")
  }

  /**
    Removing the visited blank, when it is the first one and has no blank
    neighbour: the entry that slides into its slot is not blank, and no two
    blanks become adjacent.
   */
  lemma RemoveVisitedBlank(s: seq<string>, i: nat)
    requires NoAdjacentBlanks(s)
    requires i < |s| && s[i] == "" && "" !in s[..i]
    ensures NoAdjacentBlanks(RemoveFirst(s, ""))
    ensures "" !in RemoveFirst(s, "")[..if i + 1 < |s| then i + 1 else |s| - 1]
  {
    var r := RemoveFirst(s, "");
    assert IndexOf(s, "") == i by {
      forall k | 0 <= k < i
        ensures s[k] != ""
      {
        assert s[..i][k] == s[k];
      }
    }
    assert r == s[..i] + s[i + 1..];
    forall k | 0 <= k < |r| - 1
      ensures !(r[k] == "" && r[k + 1] == "")
    {
      if k < i - 1 {
        assert r[k] == s[k] && r[k + 1] == s[k + 1];
      } else if k == i - 1 {
        assert r[k] == s[..i][k];
      } else {
        assert r[k] == s[k + 1] && r[k + 1] == s[k + 2];
      }
    }
    if i + 1 < |s| {
      assert r[..i + 1] == s[..i] + [s[i + 1]];
    } else {
      assert r[..|s| - 1] == s[..i];
    }
  }

  /**
    When no two blanks are adjacent, every blank is removed: the loop has
    visited a blank-free prefix, the first blank is the visited one, and the
    word that slides into its slot is not blank.
   */
  lemma {:induction false} ScanClearsIsolatedBlanks(s: seq<string>, i: nat)
    requires NoAdjacentBlanks(s)
    requires "" !in s[..if i < |s| then i else |s|]
    ensures "" !in Scan(s, i)
    decreases |s| - i
  {
    if i >= |s| {
      assert s[..|s|] == s;
    } else if s[i] == "" {
      RemoveVisitedBlank(s, i);
      ScanClearsIsolatedBlanks(RemoveFirst(s, ""), i + 1);
    } else {
      assert s[..i + 1] == s[..i] + [s[i]];
      ScanClearsIsolatedBlanks(s, i + 1);
    }
  }

  /** The whole list: with no two blanks adjacent, the result holds no "". */
  lemma IsolatedBlanksRemoved(s: seq<string>)
    requires NoAdjacentBlanks(s)
    ensures "" !in Scan(s, 0)
    ensures Scan(s, 0) == NonEmpty(s)
  {
    ScanClearsIsolatedBlanks(s, 0);
    ScanKeepsNonBlanks(s, 0);
    var r := Scan(s, 0);
    assert forall k :: 0 <= k < |r| ==> r[k] != "";
    NonEmptyOfNonEmpty(r);
  }

  /** ["a", "", "b"] loses its blank. */
  lemma OneBlankRemoved()
    ensures Scan(["a", "", "b"], 0) == ["a", "b"]
  {
    IsolatedBlanksRemoved(["a", "", "b"]);
    assert NonEmpty(["a", "", "b"]) == ["a", "b"];
  }

  /** Two adjacent blanks: the second slides into the visited slot and is skipped, so one "" survives. */
  lemma AdjacentBlanksSurvive()
    ensures Scan(["", ""], 0) == [""]
  {
    assert RemoveFirst(["", ""], "") == [""];
    assert Scan([""], 1) == [""];
  }
}
