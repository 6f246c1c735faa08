/**
  The account helpers: the e-mail check, the session username, the temporary
  password of the forgotten-password page and the password-change decision.
 */
module Accounts {
  import opened Wrappers
  import opened PyStr

  // ---------------------------------------------------------------------
  // valid_email
  // ---------------------------------------------------------------------

  /** A character the local part may use: letters, digits and .!#$%&'*+/=?^_`{|}~- */
  predicate LocalChar(c: char)
  {
    ('a' <= c <= 'z') || ('A' <= c <= 'Z') || ('0' <= c <= '9') || c in ".!#$%&'*+/=?^_`{|}~-"
  }

  /** A character a domain label may use: letters, digits and '-'. */
  predicate LabelChar(c: char)
  {
    ('a' <= c <= 'z') || ('A' <= c <= 'Z') || ('0' <= c <= '9') || c == '-'
  }

  predicate LabelText(s: string)
  {
    forall i :: 0 <= i < |s| ==> LabelChar(s[i])
  }

  /**
    The states of a matcher for the pattern: before the first character,
    inside the local part, after '@' or '.' (a label must start), inside a
    label, after the one newline Python's `$` lets through, and failed.
   */
  datatype MatchState = Start | Local | NeedLabel | InLabel | AtNewline | Fail

  function Step(q: MatchState, c: char): MatchState
  {
    match q
    case Start => if LocalChar(c) then Local else Fail
    case Local => if c == '@' then NeedLabel else if LocalChar(c) then Local else Fail
    case NeedLabel => if LabelChar(c) then InLabel else Fail
    case InLabel => if LabelChar(c) then InLabel else if c == '.' then NeedLabel else if c == '\n' then AtNewline else Fail
    case AtNewline => Fail
    case Fail => Fail
  }

  function Run(q: MatchState, s: string): MatchState
    decreases |s|
  {
    if s == [] then q else Run(Step(q, s[0]), s[1..])
  }

  /** `$` matches at the end of the text or just before one final newline. */
  predicate Accepting(q: MatchState)
  {
    q == InLabel || q == AtNewline
  }

  /** `re.match` of the whole pattern from the first character: the matcher run over the text. */
  predicate Matches(email: string)
  {
    Accepting(Run(Start, email))
  }

  /** The text with one final newline removed, if it has one. */
  function StripNewline(s: string): (r: string)
    ensures s == r || s == r + "\n"
  {
    if s != [] && s[|s| - 1] == '\n' then s[..|s| - 1] else s
  }

  /** Every segment is a non-empty label. */
  predicate AllLabels(segments: seq<string>)
  {
    forall i :: 0 <= i < |segments| ==> segments[i] != [] && LabelText(segments[i])
  }

  /**
    The domain: after dropping one final newline, a dot-separated list of
    non-empty labels (so no leading, trailing or doubled dot).
   */
  predicate DomainShape(d: string)
  {
    AllLabels(Split(StripNewline(d), "."))
  }

  lemma IndexOfCons(c: char, t: string, x: char)
    requires c != x && x in t
    ensures IndexOf([c] + t, x) == IndexOf(t, x) + 1
  {
    assert ([c] + t)[1..] == t;
  }

  predicate LocalText(s: string)
  {
    forall i :: 0 <= i < |s| ==> LocalChar(s[i])
  }

  /** Local characters up to the first '@', then a domain. */
  predicate AddressFrom(t: string)
  {
    '@' in t && LocalText(t[..IndexOf(t, '@')]) && DomainShape(t[IndexOf(t, '@') + 1..])
  }

  /** The address as a description rather than a matcher: a non-empty local part, '@', a domain. */
  predicate EmailShape(s: string)
  {
    AddressFrom(s) && IndexOf(s, '@') > 0
  }

  lemma {:induction false} FailStays(s: string)
    ensures Run(Fail, s) == Fail
    decreases |s|
  {
    if s != [] {
      FailStays(s[1..]);
    }
  }

  /** The state the domain matcher is in while the pending label is `cur`. */
  function LabelState(cur: string): MatchState
  {
    if cur == [] then NeedLabel else InLabel
  }

  lemma StripCons(d: string)
    requires d != [] && d != "\n"
    ensures StripNewline(d) == [d[0]] + StripNewline(d[1..])
  {
    if d[|d| - 1] == '\n' {
      assert d[1..][..|d[1..]| - 1] == d[..|d| - 1][1..];
    }
  }

  lemma AllLabelsCons(segment: string, tail: seq<string>)
    ensures AllLabels([segment] + tail) <==> segment != [] && LabelText(segment) && AllLabels(tail)
  {
    var all := [segment] + tail;
    assert all[0] == segment;
    if AllLabels(tail) && segment != [] && LabelText(segment) {
      forall i | 0 < i < |all|
        ensures all[i] != [] && LabelText(all[i])
      {
        assert all[i] == tail[i - 1];
      }
    }
    if AllLabels(all) {
      forall i | 0 <= i < |tail|
        ensures tail[i] != [] && LabelText(tail[i])
      {
        assert all[i + 1] == tail[i];
      }
    }
  }

  /** A dot ends the pending label; any other character joins it. */
  lemma SplitDotStep(c: char, x: string, cur: string)
    ensures c == '.' ==> SplitFrom([c] + x, ".", cur) == [cur] + SplitFrom(x, ".", [])
    ensures c != '.' ==> SplitFrom([c] + x, ".", cur) == SplitFrom(x, ".", cur + [c])
  {
    var s := [c] + x;
    assert s[..1] == [c] && s[1..] == x && s[0] == c;
  }

  /**
    From the label state of a pending label `cur`, the rest of the domain is
    matched exactly when splitting it (minus a final newline) on ".", with
    `cur` as the pending first segment, gives only non-empty labels.
   */
  lemma {:induction false} DomainRun(cur: string, d: string)
    requires LabelText(cur)
    ensures Accepting(Run(LabelState(cur), d)) <==> AllLabels(SplitFrom(StripNewline(d), ".", cur))
    decreases |d|
  {
    var q := LabelState(cur);
    if d == [] || d == "\n" {
      DomainEnd(cur, d);
    } else {
      var c, rest := d[0], d[1..];
      StripCons(d);
      var restBody := StripNewline(rest);
      assert Run(q, d) == Run(Step(q, c), rest);
      SplitDotStep(c, restBody, cur);
      if c == '.' {
        AllLabelsCons(cur, SplitFrom(restBody, ".", []));
        if cur == [] {
          FailStays(rest);
        } else {
          DomainRun([], rest);
        }
      } else if LabelChar(c) {
        assert Step(q, c) == LabelState(cur + [c]);
        assert LabelText(cur + [c]);
        DomainRun(cur + [c], rest);
      } else {
        assert c == '\n' ==> rest != [] by {
          assert |d| == 1 + |rest|;
        }
        DomainBadChar(cur, c, rest);
      }
    }
  }

  /** At the end of the domain, or at its one final newline, the pending label must be non-empty. */
  lemma DomainEnd(cur: string, d: string)
    requires LabelText(cur)
    requires d == [] || d == "\n"
    ensures Accepting(Run(LabelState(cur), d)) <==> AllLabels(SplitFrom(StripNewline(d), ".", cur))
  {
    assert StripNewline(d) == [];
    assert SplitFrom([], ".", cur) == [cur];
    AllLabelsCons(cur, []);
    if d == "\n" {
      assert Run(LabelState(cur), d) == Step(LabelState(cur), '\n');
    }
  }

  /**
    A character that is neither a label character nor a dot, other than a
    final newline, makes the domain fail on both sides.
   */
  lemma DomainBadChar(cur: string, c: char, rest: string)
    requires c != '.' && !LabelChar(c) && (c != '\n' || rest != [])
    ensures !Accepting(Run(LabelState(cur), [c] + rest))
    ensures !AllLabels(SplitFrom(StripNewline(rest), ".", cur + [c]))
  {
    var d := [c] + rest;
    var q := LabelState(cur);
    assert d[0] == c && d[1..] == rest;
    assert Run(q, d) == Run(Step(q, c), rest);
    if c == '\n' && cur != [] {
      assert Step(q, c) == AtNewline;
      assert Run(AtNewline, rest) == Run(Fail, rest[1..]);
      FailStays(rest[1..]);
    } else {
      FailStays(rest);
    }
    var segments := SplitFrom(StripNewline(rest), ".", cur + [c]);
    SplitFromHead(StripNewline(rest), ".", cur + [c]);
    assert segments[0][|cur|] == (cur + [c])[|cur|];
    assert !LabelText(segments[0]);
  }

  lemma LocalTextCons(c: char, t: string)
    ensures LocalText([c] + t) <==> LocalChar(c) && LocalText(t)
  {
    var s := [c] + t;
    assert s[0] == c;
    if LocalText(t) && LocalChar(c) {
      forall i | 0 < i < |s|
        ensures LocalChar(s[i])
      {
        assert s[i] == t[i - 1];
      }
    }
    if LocalText(s) {
      forall i | 0 <= i < |t|
        ensures LocalChar(t[i])
      {
        assert s[i + 1] == t[i];
      }
    }
  }

  /** A local character in front moves the first '@' one position on and changes nothing else. */
  lemma AddressFromCons(c: char, t: string)
    requires LocalChar(c)
    ensures AddressFrom([c] + t) <==> AddressFrom(t)
    ensures '@' in t ==> IndexOf([c] + t, '@') == IndexOf(t, '@') + 1
  {
    var s := [c] + t;
    AtNotLocal();
    if '@' in t {
      var k := IndexOf(t, '@');
      IndexOfCons(c, t, '@');
      assert s[..k + 1] == [c] + t[..k];
      assert s[k + 2..] == t[k + 1..];
      LocalTextCons(c, t[..k]);
    } else {
      forall i | 0 <= i < |s|
        ensures s[i] != '@'
      {
        if i > 0 {
          assert s[i] == t[i - 1];
        }
      }
    }
  }

  lemma AtNotLocal()
    ensures !LocalChar('@')
  {
  }

  /** From inside the local part, the rest is matched exactly when it is "local characters, '@', domain". */
  lemma {:induction false} LocalRun(t: string)
    ensures Accepting(Run(Local, t)) <==> AddressFrom(t)
    decreases |t|
  {
    if t != [] {
      var c, rest := t[0], t[1..];
      assert t == [c] + rest;
      assert Run(Local, t) == Run(Step(Local, c), rest);
      if c == '@' {
        DomainRun([], rest);
        assert IndexOf(t, '@') == 0;
        assert t[..0] == [];
      } else if LocalChar(c) {
        LocalRun(rest);
        AddressFromCons(c, rest);
      } else {
        FailStays(rest);
        if '@' in t {
          var k := IndexOf(t, '@');
          assert t[..k][0] == c;
        }
      }
    }
  }

  /**
    `valid_email` accepts exactly the texts made of a non-empty local part
    drawn from the allowed characters, one '@', and a domain of non-empty
    labels separated by single dots, optionally followed by one newline.
   */
  lemma ValidEmailIff(email: string)
    ensures Matches(email) <==> EmailShape(email)
  {
    if email != [] {
      var c, t := email[0], email[1..];
      assert email == [c] + t;
      assert Run(Start, email) == Run(Step(Start, c), t);
      if LocalChar(c) {
        LocalRun(t);
        AddressFromCons(c, t);
      } else {
        FailStays(t);
        if '@' in email && IndexOf(email, '@') > 0 {
          assert email[..IndexOf(email, '@')][0] == c;
        }
      }
    }
  }

  /** Once in the domain, an '@' can never be matched. */
  lemma {:induction false} NoAtInDomain(q: MatchState, d: string)
    requires q == NeedLabel || q == InLabel || q == AtNewline
    requires Accepting(Run(q, d))
    ensures '@' !in d
    decreases |d|
  {
    if d != [] {
      if d[0] == '@' {
        FailStays(d[1..]);
      } else {
        if Step(q, d[0]) == Fail {
          FailStays(d[1..]);
        }
        NoAtInDomain(Step(q, d[0]), d[1..]);
      }
    }
  }

  /** A domain holds no '@'. */
  lemma DomainHasNoAt(d: string)
    requires DomainShape(d)
    ensures '@' !in d
  {
    DomainRun([], d);
    NoAtInDomain(NeedLabel, d);
  }

  /** An '@' that no other '@' precedes or follows is the only one. */
  lemma OnlyAt(email: string, k: nat)
    requires k < |email| && email[k] == '@' && '@' !in email[k + 1..]
    requires forall j :: 0 <= j < k ==> email[j] != '@'
    ensures forall i :: 0 <= i < |email| && email[i] == '@' ==> i == k
  {
    var d := email[k + 1..];
    forall i | k < i < |email|
      ensures email[i] != '@'
    {
      assert email[i] == d[i - k - 1];
    }
  }

  /** An address of the described shape has exactly one '@', and it is not the first character. */
  lemma ShapeOneAt(email: string)
    requires EmailShape(email)
    ensures '@' in email && IndexOf(email, '@') > 0
    ensures forall i :: 0 <= i < |email| && email[i] == '@' ==> i == IndexOf(email, '@')
  {
    var k := IndexOf(email, '@');
    DomainHasNoAt(email[k + 1..]);
    OnlyAt(email, k);
  }

  /**
    `valid_email`: the verdict of the matcher for the pattern, which reads the
    text left to right and lets `$` accept one final newline. It accepts
    exactly the addresses of the described shape.
   */
  function ValidEmail(email: string): (ok: bool)
    ensures ok <==> EmailShape(email)
  {
    ValidEmailIff(email);
    Matches(email)
  }

  /** An accepted address has exactly one '@', and it is not the first character. */
  lemma ValidEmailOneAt(email: string)
    requires ValidEmail(email)
    ensures '@' in email && IndexOf(email, '@') > 0
    ensures forall i :: 0 <= i < |email| && email[i] == '@' ==> i == IndexOf(email, '@')
  {
    ValidEmailIff(email);
    ShapeOneAt(email);
  }

  /** Python's `$` lets one final newline through, but not two. */
  lemma TrailingNewline()
    ensures ValidEmail("a@b.c\n")
    ensures !ValidEmail("a@b.c\n\n")
  {
  }

  /** A dot must separate two non-empty labels. */
  lemma DoubledDot()
    ensures ValidEmail("a@b.c")
    ensures !ValidEmail("a@b..c")
  {
  }

  // ---------------------------------------------------------------------
  // The session username
  // ---------------------------------------------------------------------

  /**
    The sign-in and sign-up loops: copy letters until the first '@'. The
    username is the longest prefix of the address that holds no '@', which
    is the whole address when it has none.
   */
  method Username(email: string) returns (username: string)
    ensures |username| <= |email| && username == email[..|username|]
    ensures '@' !in username
    ensures |username| < |email| ==> email[|username|] == '@'
  {
    username := "";
    for i := 0 to |email|
      invariant username == email[..i]
      invariant '@' !in username
    {
      if email[i] != '@' {
        assert email[..i + 1] == email[..i] + [email[i]];
        username := username + [email[i]];
      } else {
        break;
      }
    }
  }

  // ---------------------------------------------------------------------
  // generate_random_password
  // ---------------------------------------------------------------------

  /** The 62-entry table the temporary password is drawn from. */
  const Alphanums: string := "ABCDEFGHIJKLMNOPQRSTUVWXYZabcdefghijklmnopqrstuvwxyz1234567890"

  /** The number of characters in a temporary password. */
  const PasswordLength: nat := 8

  lemma AlphanumsSize()
    ensures |Alphanums| == 62
  {
  }

  /**
    `generate_random_password` with the eight `random.randint(0, 61)` draws
    given: each character is the table entry at its draw.
   */
  method GenerateRandomPassword(draws: seq<int>) returns (tempPassword: string)
    requires |draws| == PasswordLength
    requires forall i :: 0 <= i < |draws| ==> 0 <= draws[i] <= 61
    ensures |tempPassword| == PasswordLength
    ensures forall i :: 0 <= i < PasswordLength ==> tempPassword[i] == Alphanums[draws[i]]
    ensures forall i :: 0 <= i < PasswordLength ==> tempPassword[i] in Alphanums
  {
    AlphanumsSize();
    tempPassword := "";
    var count := 0;
    while count < 8
      invariant 0 <= count <= 8
      invariant |tempPassword| == count
      invariant forall i :: 0 <= i < count ==> tempPassword[i] == Alphanums[draws[i]]
    {
      var choice := draws[count];
      tempPassword := tempPassword + [Alphanums[choice]];
      count := count + 1;
    }
  }

  /**
    Every eight-character text over the table is a possible temporary
    password: drawing each character's position in the table produces it.
   */
  lemma EveryPasswordReachable(password: string)
    requires |password| == PasswordLength
    requires forall i :: 0 <= i < |password| ==> password[i] in Alphanums
    ensures var draws := seq(PasswordLength, i requires 0 <= i < PasswordLength => IndexOf(Alphanums, password[i]));
      && (forall i :: 0 <= i < |draws| ==> 0 <= draws[i] <= 61)
      && (forall i :: 0 <= i < |draws| ==> Alphanums[draws[i]] == password[i])
  {
    AlphanumsSize();
  }

  // ---------------------------------------------------------------------
  // changepassword
  // ---------------------------------------------------------------------

  /** The account page after a password change: one message or one error. */
  datatype AccountPage = AccountPage(message: Option<string>, error: Option<string>)

  /** A user's stored password hash and what the page shows. */
  datatype ChangeOutcome = ChangeOutcome(page: AccountPage, storedHash: string)

  const CurrentIncorrect: string := "Current password incorrect."
  const NoMatch: string := "New passwords do not match."
  const PasswordUpdated: string := "Your password has successfully been updated."

  /**
    `changepassword` for a signed-in user whose stored hash is `storedHash`.
    `check` and `hash` stand for the password library's check and hash.
    The current password is checked first, then the confirmation; the stored
    hash changes only when both pass, and then to the hash of the new password.
   */
  function ChangePassword(check: (string, string) -> bool, hash: string -> string, storedHash: string,
                          current: string, newPassword: string, confirm: string): (r: ChangeOutcome)
    ensures r.page.message.Some? <==> r.page.error.None?
    ensures !check(storedHash, current) ==> r == ChangeOutcome(AccountPage(None, Some(CurrentIncorrect)), storedHash)
    ensures check(storedHash, current) && newPassword != confirm ==> r == ChangeOutcome(AccountPage(None, Some(NoMatch)), storedHash)
    ensures r.page.message.Some? <==> check(storedHash, current) && newPassword == confirm
    ensures r.page.message.Some? ==> r.page.message == Some(PasswordUpdated) && r.storedHash == hash(newPassword)
    ensures r.page.error.Some? ==> r.storedHash == storedHash
  {
    if !check(storedHash, current) then ChangeOutcome(AccountPage(None, Some(CurrentIncorrect)), storedHash)
    else if newPassword != confirm then ChangeOutcome(AccountPage(None, Some(NoMatch)), storedHash)
    else ChangeOutcome(AccountPage(Some(PasswordUpdated), None), hash(newPassword))
  }
}
