/**
  The few Python string and list primitives the application relies on:
  `s.split(sep)` for a non-empty separator, `sep.join(ws)`, appending a
  terminator after every element (the `+=` loops of the application), and
  dropping empty strings (the `if term != ''` filters).
 */
module PyStr {

  /** `sep` occurs in `s` starting at index `i`. */
  predicate OccursAt(s: string, sep: string, i: int)
  {
    0 <= i && i + |sep| <= |s| && s[i..i + |sep|] == sep
  }

  predicate Contains(s: string, sep: string)
  {
    exists i | 0 <= i <= |s| :: OccursAt(s, sep, i)
  }

  /** No proper prefix of `sep` is also a suffix of it, so two occurrences can never overlap. */
  predicate BorderFree(sep: string)
  {
    forall k :: 0 < k < |sep| ==> sep[..k] != sep[|sep| - k..]
  }

  /**
    Python's `s.split(sep)`: scan left to right; wherever `sep` starts, the
    current segment `cur` ends and scanning resumes after the separator.
   */
  function SplitFrom(s: string, sep: string, cur: string): (r: seq<string>)
    requires sep != []
    ensures |r| >= 1
    decreases |s|
  {
    if s == [] then [cur]
    else if |sep| <= |s| && s[..|sep|] == sep then [cur] + SplitFrom(s[|sep|..], sep, [])
    else SplitFrom(s[1..], sep, cur + [s[0]])
  }

  function Split(s: string, sep: string): seq<string>
    requires sep != []
  {
    SplitFrom(s, sep, [])
  }

  /** Every element followed by `t`: the result of `for w in ws: acc += w + t`. */
  function Terminated(ws: seq<string>, t: string): string
  {
    if ws == [] then [] else ws[0] + t + Terminated(ws[1..], t)
  }

  /** Python's `sep.join(ws)`. */
  function JoinWith(ws: seq<string>, sep: string): string
  {
    if ws == [] then []
    else if |ws| == 1 then ws[0]
    else ws[0] + sep + JoinWith(ws[1..], sep)
  }

  /** Python's `list.index(x)` and `str.index(x)`: the position of the first entry equal to `x`. */
  function IndexOf<T(==)>(s: seq<T>, x: T): (k: nat)
    requires x in s
    ensures k < |s| && s[k] == x
    ensures forall j :: 0 <= j < k ==> s[j] != x
  {
    if s[0] == x then 0 else 1 + IndexOf(s[1..], x)
  }

  /** An entry is found no later than where it sits. */
  lemma IndexOfAtMost<T>(s: seq<T>, i: nat)
    requires i < |s|
    ensures IndexOf(s, s[i]) <= i
  {
  }

  /** The last entry is found at the end exactly when it does not occur earlier. */
  lemma IndexOfLast<T>(s: seq<T>)
    requires s != []
    ensures IndexOf(s, s[|s| - 1]) == |s| - 1 <==> s[|s| - 1] !in s[..|s| - 1]
  {
    var n := |s| - 1;
    if s[n] in s[..n] {
      var j :| 0 <= j < n && s[..n][j] == s[n];
      IndexOfAtMost(s, j);
    }
  }

  /** The elements that are not the empty string, in order. */
  function NonEmpty(ws: seq<string>): (r: seq<string>)
    ensures forall i :: 0 <= i < |r| ==> r[i] != []
  {
    if ws == [] then []
    else (if ws[0] == [] then [] else [ws[0]]) + NonEmpty(ws[1..])
  }

  lemma {:induction false} NonEmptyAppend(a: seq<string>, b: seq<string>)
    ensures NonEmpty(a + b) == NonEmpty(a) + NonEmpty(b)
    decreases |a|
  {
    if a == [] {
      assert a + b == b;
    } else {
      assert (a + b)[0] == a[0];
      assert (a + b)[1..] == a[1..] + b;
      NonEmptyAppend(a[1..], b);
    }
  }

  /** Filtering a list with no empty strings changes nothing. */
  lemma {:induction false} NonEmptyOfNonEmpty(ws: seq<string>)
    requires forall i :: 0 <= i < |ws| ==> ws[i] != []
    ensures NonEmpty(ws) == ws
    decreases |ws|
  {
    if ws != [] {
      NonEmptyOfNonEmpty(ws[1..]);
      assert [ws[0]] + ws[1..] == ws;
    }
  }

  lemma {:induction false} TerminatedSnoc(ws: seq<string>, w: string, t: string)
    ensures Terminated(ws + [w], t) == Terminated(ws, t) + w + t
    decreases |ws|
  {
    if ws == [] {
      assert ws + [w] == [w];
      assert [w][1..] == [];
    } else {
      assert (ws + [w])[0] == ws[0];
      assert (ws + [w])[1..] == ws[1..] + [w];
      TerminatedSnoc(ws[1..], w, t);
    }
  }

  /** `sep.join(ws)` is every element but the last followed by `sep`, then the last. */
  lemma {:induction false} JoinTerminated(ws: seq<string>, sep: string)
    requires ws != []
    ensures JoinWith(ws, sep) == Terminated(ws[..|ws| - 1], sep) + ws[|ws| - 1]
    decreases |ws|
  {
    var n := |ws|;
    if n == 1 {
      assert ws[..0] == [];
    } else {
      var init, rest, last := ws[..n - 1], ws[1..], ws[n - 1];
      JoinTerminated(rest, sep);
      assert rest[..|rest| - 1] == init[1..];
      assert rest[|rest| - 1] == last;
      assert init[0] == ws[0];
      calc {
        JoinWith(ws, sep);
        ws[0] + sep + JoinWith(rest, sep);
        ws[0] + sep + (Terminated(init[1..], sep) + last);
        { assert ws[0] + sep + (Terminated(init[1..], sep) + last) == (ws[0] + sep + Terminated(init[1..], sep)) + last; }
        (ws[0] + sep + Terminated(init[1..], sep)) + last;
        Terminated(init, sep) + last;
      }
    }
  }

  lemma {:induction false} NotContainsTail(s: string, sep: string)
    requires s != [] && !Contains(s, sep)
    ensures !Contains(s[1..], sep)
  {
    forall i | OccursAt(s[1..], sep, i)
      ensures OccursAt(s, sep, i + 1)
    {
      assert s[1..][i..i + |sep|] == s[i + 1..i + 1 + |sep|];
    }
  }

  /** A one-character separator occurs exactly when the character does. */
  lemma ContainsSingle(s: string, c: char)
    ensures Contains(s, [c]) <==> c in s
  {
    if c in s {
      var i :| 0 <= i < |s| && s[i] == c;
      assert s[i..i + 1] == [c];
      assert OccursAt(s, [c], i);
    }
    if Contains(s, [c]) {
      var i :| 0 <= i <= |s| && OccursAt(s, [c], i);
      assert s[i..i + 1][0] == s[i];
    }
  }

  /** A one-character separator has no proper prefix at all. */
  lemma SingleBorderFree(c: char)
    ensures BorderFree([c])
  {
  }

  lemma ShortNotContains(s: string, sep: string)
    requires |s| < |sep|
    ensures !Contains(s, sep)
  {
  }

  /** Appending a character that cannot end `sep` creates no new occurrence of it. */
  lemma AppendNotContains(s: string, c: char, sep: string)
    requires sep != [] && !Contains(s, sep) && c != sep[|sep| - 1]
    ensures !Contains(s + [c], sep)
  {
    forall i | 0 <= i <= |s| + 1
      ensures !OccursAt(s + [c], sep, i)
    {
      if i + |sep| <= |s| {
        assert (s + [c])[i..i + |sep|] == s[i..i + |sep|];
        assert !OccursAt(s, sep, i);
      } else if i + |sep| == |s| + 1 {
        assert (s + [c])[i..i + |sep|][|sep| - 1] == c;
      }
    }
  }

  /** The first segment produced by SplitFrom starts with the pending segment `cur`. */
  lemma {:induction false} SplitFromHead(s: string, sep: string, cur: string)
    requires sep != []
    ensures |cur| <= |SplitFrom(s, sep, cur)[0]|
    ensures SplitFrom(s, sep, cur)[0][..|cur|] == cur
    decreases |s|
  {
    if s == [] || (|sep| <= |s| && s[..|sep|] == sep) {
    } else {
      SplitFromHead(s[1..], sep, cur + [s[0]]);
      assert (cur + [s[0]])[..|cur|] == cur;
    }
  }

  /** Without an occurrence of `sep`, the rest of the text joins the pending segment. */
  lemma {:induction false} SplitFromNoSep(s: string, sep: string, cur: string)
    requires sep != [] && !Contains(s, sep)
    ensures SplitFrom(s, sep, cur) == [cur + s]
    decreases |s|
  {
    if s == [] {
      assert cur + s == cur;
    } else {
      assert !OccursAt(s, sep, 0);
      NotContainsTail(s, sep);
      SplitFromNoSep(s[1..], sep, cur + [s[0]]);
      assert cur + [s[0]] + s[1..] == cur + s;
    }
  }

  /**
    A word without `sep`, followed by `sep`, is split off as one segment: with a
    border-free separator no occurrence can straddle the word and the separator.
   */
  lemma {:induction false} SplitFromPast(w: string, rest: string, sep: string, cur: string)
    requires sep != [] && BorderFree(sep) && !Contains(w, sep)
    ensures SplitFrom(w + sep + rest, sep, cur) == [cur + w] + SplitFrom(rest, sep, [])
    decreases |w|
  {
    var s := w + sep + rest;
    if w == [] {
      assert s == sep + rest;
      assert s[..|sep|] == sep;
      assert s[|sep|..] == rest;
      assert cur + w == cur;
    } else {
      assert s[..|sep|] != sep by {
        if |w| >= |sep| {
          assert s[..|sep|] == w[0..0 + |sep|];
          assert !OccursAt(w, sep, 0);
        } else {
          var k := |sep| - |w|;
          assert s[..|sep|] == w + sep[..k];
          assert sep[..k] != sep[|sep| - k..];
          assert s[..|sep|][|w|..] == sep[..k];
        }
      }
      assert s[1..] == w[1..] + sep + rest;
      NotContainsTail(w, sep);
      SplitFromPast(w[1..], rest, sep, cur + [w[0]]);
      assert cur + [w[0]] + w[1..] == cur + w;
    }
  }

  /**
    Splitting words that were each followed by a border-free separator gives the
    words back, followed by whatever came after the last separator.
   */
  lemma {:induction false} SplitTerminated(ws: seq<string>, tail: string, sep: string)
    requires sep != [] && BorderFree(sep)
    requires forall i :: 0 <= i < |ws| ==> !Contains(ws[i], sep)
    requires !Contains(tail, sep)
    ensures Split(Terminated(ws, sep) + tail, sep) == ws + [tail]
    decreases |ws|
  {
    if ws == [] {
      SplitFromNoSep(tail, sep, []);
      assert Terminated(ws, sep) + tail == tail;
    } else {
      assert Terminated(ws, sep) + tail == ws[0] + sep + (Terminated(ws[1..], sep) + tail);
      SplitFromPast(ws[0], Terminated(ws[1..], sep) + tail, sep, []);
      SplitTerminated(ws[1..], tail, sep);
      assert [] + ws[0] == ws[0];
      assert [ws[0]] + (ws[1..] + [tail]) == ws + [tail];
    }
  }
}
