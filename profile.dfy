/** The profile helpers of the front end (Public/script.js): the avatar initials,
    the comma-separated skill lists of the profile form, the profile-name fallback
    and the registration check. The browser's storage is a value: the stored user
    record, absent when there is none or when it does not parse. */
module Profile {
  import opened Text

  datatype Option<T> = None | Some(value: T)

  /** The outcome of a JavaScript expression that may throw a TypeError. */
  datatype Evaluation<T> = Returns(value: T) | Throws

  /** `user.profile`: saved by the profile form. */
  datatype ProfileRecord = ProfileRecord(name: Option<string>, place: string, skills: seq<string>, needs: seq<string>)

  /** The user record kept under the `swaplearn_user` key; a field the record lacks is None. */
  datatype Account = Account(name: Option<string>, email: Option<string>, password: Option<string>,
                             profile: Option<ProfileRecord>)

  /** The raw values of the profile form's four inputs. */
  datatype ProfileForm = ProfileForm(name: string, place: string, skills: string, needs: string)

  function Min(a: int, b: int): int
  {
    if a <= b then a else b
  }

  // ---------------------------------------------------------------------------
  // Initials
  // ---------------------------------------------------------------------------

  /** None of the pieces is empty. */
  predicate WordsNonEmpty(words: seq<string>)
  {
    forall k :: 0 <= k < |words| ==> words[k] != []
  }

  /** `parts.map(p => p[0].toUpperCase())` on pieces that are all non-empty. */
  function Capitals(parts: seq<string>): seq<char>
    requires WordsNonEmpty(parts)
  {
    seq(|parts|, k requires 0 <= k < |parts| => ToUpper(parts[k][0]))
  }

  /** `getInitials(name)` on the dashboard: "U" for a missing or empty name, otherwise
      the capitals of the first two pieces of the trimmed name split at whitespace.
      A name made only of whitespace splits into one empty piece, whose `p[0]` is
      undefined, so the call throws. */
  function GetInitials(name: Option<string>): (r: Evaluation<string>)
    ensures name == None || name == Some([]) ==> r == Returns("U")
    ensures r.Returns? ==> |r.value| <= 2
  {
    if name == None || name.value == [] then Returns("U")
    else
      var parts := SplitOnSpaces(Trim(name.value));
      if exists k :: 0 <= k < |parts| && parts[k] == [] then Throws
      else Returns(Capitals(parts)[..Min(2, |parts|)])
  }

  /** Reference definition: the capitals of the first two words, in order. */
  function Initials(words: seq<string>): string
    requires WordsNonEmpty(words)
  {
    if words == [] then []
    else if |words| == 1 then [ToUpper(words[0][0])]
    else [ToUpper(words[0][0]), ToUpper(words[1][0])]
  }

  /** `p[0]?.toUpperCase()` joined into a string: an empty piece contributes nothing. */
  function OptionalCapital(p: string): string
  {
    if p == [] then [] else [ToUpper(p[0])]
  }

  /** The initials chosen by `updateNavAvatar`: from the stored name if it is
      non-empty, else the capital of the stored email's first character, else "U".
      No stored record (or one that does not parse) gives "U". */
  function NavInitials(stored: Option<Account>): (r: string)
    ensures stored == None ==> r == "U"
  {
    if stored == None then "U"
    else
      var u := stored.value;
      if u.name.Some? && u.name.value != [] then
        var parts := SplitOnSpaces(Trim(u.name.value));
        JoinWith(seq(|parts|, k requires 0 <= k < |parts| => OptionalCapital(parts[k]))[..Min(2, |parts|)], [])
      else if u.email.Some? && u.email.value != [] then [ToUpper(u.email.value[0])]
      else "U"
  }

  /** The first two capitals of non-empty pieces, computed either way, agree with the
      reference definition. */
  lemma CapitalsAreInitials(words: seq<string>)
    requires WordsNonEmpty(words)
    ensures Capitals(words)[..Min(2, |words|)] == Initials(words)
    ensures JoinWith(seq(|words|, k requires 0 <= k < |words| => OptionalCapital(words[k]))[..Min(2, |words|)], [])
            == Initials(words)
  {
  }

  /** getInitials on a name with a non-whitespace character: the capitals of its
      first two words, hence one or two characters. */
  lemma GetInitialsWords(name: string)
    requires !AllSpace(name)
    ensures WordsNonEmpty(Words(name))
    ensures GetInitials(Some(name)) == Returns(Initials(Words(name)))
    ensures 1 <= |Initials(Words(name))| <= 2
  {
    SplitTrimmedIsWords(name);
    WordsShape(name);
    CapitalsAreInitials(Words(name));
  }

  /** getInitials on a name of whitespace only throws. */
  lemma GetInitialsBlank(name: string)
    requires name != [] && AllSpace(name)
    ensures GetInitials(Some(name)) == Throws
  {
    TrimSpec(name);
    assert SplitOnSpaces(Trim(name)) == [[]];
    assert SplitOnSpaces(Trim(name))[0] == [];
  }

  /** Only the first two words count: "Ada King Lovelace" gives "AK". */
  lemma GetInitialsTwoWords(first: string, c: char, second: string, rest: string)
    requires first != [] && NoSpace(first) && second != [] && NoSpace(second) && IsSpace(c)
    requires rest == [] || IsSpace(rest[0])
    ensures GetInitials(Some(first + [c] + second + rest)) == Returns([ToUpper(first[0]), ToUpper(second[0])])
  {
    var name := first + [c] + second + rest;
    LeadingTwoWords(first, c, second, rest);
    assert name[0] == first[0];
    GetInitialsWords(name);
  }

  /** The words of `first c second rest` start with first and second. */
  lemma LeadingTwoWords(first: string, c: char, second: string, rest: string)
    requires first != [] && NoSpace(first) && second != [] && NoSpace(second) && IsSpace(c)
    requires rest == [] || IsSpace(rest[0])
    ensures var w := Words(first + [c] + second + rest); |w| >= 2 && w[0] == first && w[1] == second
  {
    assert first + [c] + second + rest == first + [c] + (second + rest);
    WordsCons(first, c, second + rest);
    LeadingWord(second, rest);
  }

  /** The words of `w rest` start with w when rest is empty or starts with whitespace. */
  lemma LeadingWord(w: string, rest: string)
    requires w != [] && NoSpace(w)
    requires rest == [] || IsSpace(rest[0])
    ensures |Words(w + rest)| >= 1 && Words(w + rest)[0] == w
  {
    if rest == [] {
      assert w + rest == w;
      WordsOfWord(w);
    } else {
      assert w + rest == w + [rest[0]] + rest[1..];
      WordsCons(w, rest[0], rest[1..]);
    }
  }

  /** The navigation avatar gives the stored name precedence: with a name holding a
      non-whitespace character it shows that name's initials, whatever the email. */
  lemma NavInitialsName(u: Account)
    requires u.name.Some? && !AllSpace(u.name.value)
    ensures WordsNonEmpty(Words(u.name.value))
    ensures NavInitials(Some(u)) == Initials(Words(u.name.value))
    ensures GetInitials(u.name) == Returns(NavInitials(Some(u)))
  {
    var name := u.name.value;
    SplitTrimmedIsWords(name);
    WordsShape(name);
    CapitalsAreInitials(Words(name));
    GetInitialsWords(name);
  }

  /** A stored name of whitespace only gives empty initials in the navigation
      (`p[0]?.` swallows the missing character), where getInitials throws. */
  lemma NavInitialsBlankName(u: Account)
    requires u.name.Some? && u.name.value != [] && AllSpace(u.name.value)
    ensures NavInitials(Some(u)) == []
  {
    TrimSpec(u.name.value);
    var parts := SplitOnSpaces([]);
    assert parts == [[]];
    var opt := seq(|parts|, k requires 0 <= k < |parts| => OptionalCapital(parts[k]));
    assert opt[..1] == [[]];
  }

  /** Without a usable name the navigation falls back to the email's first
      character, and to "U" when there is no email either. */
  lemma NavInitialsFallback(u: Account)
    requires u.name == None || u.name == Some([])
    ensures u.email.Some? && u.email.value != [] ==> NavInitials(Some(u)) == [ToUpper(u.email.value[0])]
    ensures u.email == None || u.email == Some([]) ==> NavInitials(Some(u)) == "U"
  {
  }

  // ---------------------------------------------------------------------------
  // Comma-separated lists
  // ---------------------------------------------------------------------------

  /** `xs.map(x => x.trim())`. */
  function TrimEach(xs: seq<string>): (r: seq<string>)
    ensures |r| == |xs|
    ensures forall k :: 0 <= k < |r| ==> r[k] == Trim(xs[k])
  {
    if xs == [] then [] else [Trim(xs[0])] + TrimEach(xs[1..])
  }

  /** `xs.filter(Boolean)` on strings: the non-empty ones, in order. */
  function NonEmptyOnly(xs: seq<string>): (r: seq<string>)
    ensures forall x :: x in r <==> x in xs && x != []
  {
    if xs == [] then [] else (if xs[0] == [] then [] else [xs[0]]) + NonEmptyOnly(xs[1..])
  }

  /** An entry of a parsed list: non-empty, trimmed, and without a comma. */
  predicate IsEntry(x: string)
  {
    x != [] && IsTrimmed(x) && ',' !in x
  }

  /** `value.split(",").map(x => x.trim()).filter(Boolean)`: the skills or needs typed
      into the profile form. */
  function ParseList(s: string): (r: seq<string>)
    ensures forall k :: 0 <= k < |r| ==> IsEntry(r[k])
  {
    var pieces := SplitOn(s, ',');
    EntriesOfPieces(pieces);
    NonEmptyOnly(TrimEach(pieces))
  }

  /** `xs.join(", ")`: a saved list as it is written back into the edit form. */
  function FormatList(xs: seq<string>): string
  {
    JoinWith(xs, ", ")
  }

  lemma {:induction false} EntriesOfPieces(pieces: seq<string>)
    requires forall k :: 0 <= k < |pieces| ==> ',' !in pieces[k]
    ensures forall k :: 0 <= k < |NonEmptyOnly(TrimEach(pieces))| ==> IsEntry(NonEmptyOnly(TrimEach(pieces))[k])
  {
    if pieces != [] {
      EntriesOfPieces(pieces[1..]);
      TrimKeepsCharacters(pieces[0]);
      assert TrimEach(pieces)[1..] == TrimEach(pieces[1..]);
    }
  }

  lemma TrimKeepsCharacters(s: string)
    ensures forall c :: c in Trim(s) ==> c in s
  {
    TrimStartSuffix(s);
    var t := TrimStart(s);
    TrimEndPrefix(t);
    forall c | c in Trim(s) ensures c in s {
      var i :| 0 <= i < |Trim(s)| && Trim(s)[i] == c;
      assert Trim(s)[i] == t[i];
      assert t[i] == s[|s| - |t| + i];
    }
  }

  lemma {:induction false} TrimEachAppend(xs: seq<string>, ys: seq<string>)
    ensures TrimEach(xs + ys) == TrimEach(xs) + TrimEach(ys)
  {
    if xs == [] {
      assert xs + ys == ys;
    } else {
      assert (xs + ys)[1..] == xs[1..] + ys;
      TrimEachAppend(xs[1..], ys);
    }
  }

  lemma {:induction false} NonEmptyOnlyAppend(xs: seq<string>, ys: seq<string>)
    ensures NonEmptyOnly(xs + ys) == NonEmptyOnly(xs) + NonEmptyOnly(ys)
  {
    if xs == [] {
      assert xs + ys == ys;
    } else {
      assert (xs + ys)[1..] == xs[1..] + ys;
      NonEmptyOnlyAppend(xs[1..], ys);
    }
  }

  /** Parsing around a comma parses both sides: the entries keep their order. */
  lemma ParseListAround(a: string, b: string)
    ensures ParseList(a + [','] + b) == ParseList(a) + ParseList(b)
  {
    SplitOnAround(a, ',', b);
    TrimEachAppend(SplitOn(a, ','), SplitOn(b, ','));
    NonEmptyOnlyAppend(TrimEach(SplitOn(a, ',')), TrimEach(SplitOn(b, ',')));
  }

  /** A piece without a comma is one entry, trimmed, or none if it is blank. */
  lemma ParseListPiece(x: string)
    requires ',' !in x
    ensures ParseList(x) == if Trim(x) == [] then [] else [Trim(x)]
  {
    SplitOnNone(x, ',');
    assert TrimEach([x]) == [Trim(x)];
    assert NonEmptyOnly([Trim(x)]) == (if Trim(x) == [] then [] else [Trim(x)]) + NonEmptyOnly([]);
  }

  /** Whitespace after a comma is not part of the next entry. */
  lemma ParseListLeadingSpace(s: string)
    ensures ParseList([' '] + s) == ParseList(s)
  {
  }

  /** The edit form round trip: parsing the ", "-joined list gives back the list,
      for entries that are non-empty, trimmed and comma-free (as every parsed list's
      are). */
  lemma {:induction false} ParseFormat(xs: seq<string>)
    requires forall k :: 0 <= k < |xs| ==> IsEntry(xs[k])
    ensures ParseList(FormatList(xs)) == xs
  {
    if xs == [] {
      assert FormatList(xs) == [];
      assert SplitOn([], ',') == [[]];
      assert TrimEach([[]]) == [Trim([])];
    } else {
      var x := xs[0];
      TrimSpec(x);
      ParseListPiece(x);
      if |xs| == 1 {
        assert FormatList(xs) == x;
      } else {
        var rest := FormatList(xs[1..]);
        assert FormatList(xs) == x + [','] + ([' '] + rest);
        ParseListAround(x, [' '] + rest);
        ParseListLeadingSpace(rest);
        ParseFormat(xs[1..]);
        assert xs == [x] + xs[1..];
      }
    }
  }

  /** Saving a parsed list and parsing it again changes nothing. */
  lemma ParseListIdempotent(s: string)
    ensures ParseList(FormatList(ParseList(s))) == ParseList(s)
  {
    ParseFormat(ParseList(s));
  }

  // ---------------------------------------------------------------------------
  // The profile form
  // ---------------------------------------------------------------------------

  /** The saved profile's name: the trimmed form name if that is non-empty, else the
      account's own name. */
  function ProfileName(formName: string, accountName: Option<string>): (r: Option<string>)
    ensures !AllSpace(formName) ==> r == Some(Trim(formName)) && IsTrimmed(r.value) && r.value != []
    ensures AllSpace(formName) ==> r == accountName
  {
    TrimSpec(formName);
    if Trim(formName) != [] then Some(Trim(formName)) else accountName
  }

  /** Submitting the profile form: the stored record (or an empty one) gets a new
      profile; its name, email and password are kept. */
  function SubmitProfile(stored: Option<Account>, form: ProfileForm): (r: Account)
    ensures var base := if stored.Some? then stored.value else Account(None, None, None, None);
            r.name == base.name && r.email == base.email && r.password == base.password
    ensures r.profile.Some?
    ensures r.profile.value.name == ProfileName(form.name, r.name)
    ensures r.profile.value.place == Trim(form.place)
    ensures r.profile.value.skills == ParseList(form.skills) && r.profile.value.needs == ParseList(form.needs)
  {
    var base := if stored.Some? then stored.value else Account(None, None, None, None);
    base.(profile := Some(ProfileRecord(ProfileName(form.name, base.name), Trim(form.place),
                                        ParseList(form.skills), ParseList(form.needs))))
  }

  /** The edit form prefilled from a saved profile (blank when there is none). */
  function EditForm(profile: Option<ProfileRecord>): ProfileForm
  {
    match profile
    case None => ProfileForm([], [], [], [])
    case Some(p) => ProfileForm(if p.name.Some? then p.name.value else [], p.place,
                                FormatList(p.skills), FormatList(p.needs))
  }

  /** Opening the edit form on a saved profile and submitting it unchanged saves the
      same record again, provided the account's name is trimmed (as registration
      leaves it). */
  lemma ResubmitUnchanged(stored: Option<Account>, form: ProfileForm)
    requires stored.Some? && stored.value.name.Some? ==> IsTrimmed(stored.value.name.value)
    ensures var saved := SubmitProfile(stored, form);
            SubmitProfile(Some(saved), EditForm(saved.profile)) == saved
  {
    var saved := SubmitProfile(stored, form);
    var p := saved.profile.value;
    var again := SubmitProfile(Some(saved), EditForm(saved.profile));
    ParseListIdempotent(form.skills);
    ParseListIdempotent(form.needs);
    TrimSpec(Trim(form.place));
    TrimSpec(form.name);
    if p.name.Some? {
      TrimSpec(p.name.value);
    } else {
      TrimSpec([]);
    }
    assert again.profile.value == p;
  }

  // ---------------------------------------------------------------------------
  // Registration
  // ---------------------------------------------------------------------------

  const IncompleteAlert: string := "Please complete all fields."

  /** What the registration form does: an alert and nothing stored, or the new
      record stored. */
  datatype RegisterOutcome = RegisterOutcome(alert: Option<string>, stored: Option<Account>)

  /** Submitting the registration form. Name and email are trimmed before the
      presence check; the password is checked and kept as typed. */
  function Register(stored: Option<Account>, name: string, email: string, password: string): (r: RegisterOutcome)
    ensures r.alert.Some? <==> AllSpace(name) || AllSpace(email) || password == []
    ensures r.alert.Some? ==> r.alert.value == IncompleteAlert && r.stored == stored
    ensures r.alert.None? ==> r.stored == Some(Account(Some(Trim(name)), Some(Trim(email)), Some(password), None))
  {
    TrimSpec(name);
    TrimSpec(email);
    var n, e := Trim(name), Trim(email);
    if n == [] || e == [] || password == [] then RegisterOutcome(Some(IncompleteAlert), stored)
    else RegisterOutcome(None, Some(Account(Some(n), Some(e), Some(password), None)))
  }

  /** After a successful registration the navigation shows the initials of the
      registered name, the same ones the dashboard's getInitials computes. */
  lemma RegisterThenInitials(stored: Option<Account>, name: string, email: string, password: string)
    requires Register(stored, name, email, password).alert.None?
    ensures WordsNonEmpty(Words(name))
    ensures var account := Register(stored, name, email, password).stored.value;
            NavInitials(Some(account)) == Initials(Words(name)) &&
            GetInitials(account.name) == Returns(Initials(Words(name)))
  {
    var account := Register(stored, name, email, password).stored.value;
    TrimSpec(name);
    TrimSpec(Trim(name));
    WordsTrim(name);
    WordsShape(name);
    NavInitialsName(account);
  }
}
