/**
 * Finding the user a login text refers to: the text is read as a phone
 * number (after phone normalisation) and, when it contains '@', as an
 * e-mail address compared without regard to case; the first user row
 * matching one of the resulting conditions is the user.
 */
module Login {
  import opened Wrappers
  import opened Text
  import opened Phone

  /** A user row joined with its role. */
  datatype UserRow = UserRow(
    id: int,
    fullName: string,
    passwordHash: Option<string>,
    email: Option<string>,
    phone: Option<string>,
    roleCode: string,
    roleName: string)

  /** One condition of the lookup's WHERE clause. */
  datatype Clause =
    | PhoneIs(phone: string)      // the stored phone equals the value
    | EmailIs(email: string)      // the stored e-mail equals the value, ignoring case

  /** The stripped login text. */
  function LoginText(login: Option<string>): string {
    Strip(login.GetOr(""))
  }

  /** Whether the login text reads as a (non-empty) phone number. */
  predicate HasPhone(login: Option<string>) {
    var phone := PhoneNormalized(Some(LoginText(login)));
    phone.Some? && phone.value != ""
  }

  /** The lookup conditions for a login text, or `None` when there is nothing to look up. */
  function LookupClauses(login: Option<string>): (r: Option<seq<Clause>>)
    ensures r.Some? ==> LoginText(login) != "" && 1 <= |r.value| <= 2
  {
    var text := LoginText(login);
    if text == "" then None
    else
      var phoneClause := if HasPhone(login) then [PhoneIs(PhoneNormalized(Some(text)).value)] else [];
      var emailClause := if '@' in text then [EmailIs(text)] else [];
      if phoneClause + emailClause == [] then None else Some(phoneClause + emailClause)
  }

  /** There is nothing to look up exactly when the text is blank or is neither a phone number nor an e-mail. */
  lemma LookupClausesNone(login: Option<string>)
    ensures LookupClauses(login).None? <==> LoginText(login) == "" || (!HasPhone(login) && '@' !in LoginText(login))
  {
  }

  /** A login text containing '@' is never read as a phone number. */
  lemma AtSignNoPhone(login: Option<string>)
    requires '@' in LoginText(login)
    ensures !HasPhone(login)
  {
    var text := LoginText(login);
    StripIdempotent(login.GetOr(""));
    assert Strip(text) == text;
    AtSignIsNoPhone(text);
  }

  /**
   * Which condition is produced: a phone condition exactly when the
   * stripped text normalises to a non-empty phone number, an e-mail
   * condition exactly when it contains '@', and never both.
   */
  lemma LookupClausesShape(login: Option<string>)
    ensures LookupClauses(login).Some? ==> |LookupClauses(login).value| == 1
    ensures LookupClauses(login).Some? ==>
            var c := LookupClauses(login).value[0];
            && (c.PhoneIs? <==> HasPhone(login))
            && (c.PhoneIs? ==> c.phone == PhoneNormalized(Some(LoginText(login))).value && IsPhoneNumber(c.phone))
            && (c.EmailIs? <==> '@' in LoginText(login))
            && (c.EmailIs? ==> c.email == LoginText(login))
  {
    var text := LoginText(login);
    if text != "" && '@' in text {
      EmailLookup(login);
    } else if text != "" && HasPhone(login) {
      PhoneLookup(login);
    }
  }

  /** A text with '@' is looked up as an e-mail address only. */
  lemma EmailLookup(login: Option<string>)
    requires '@' in LoginText(login)
    ensures !HasPhone(login) && LookupClauses(login) == Some([EmailIs(LoginText(login))])
  {
    var text := LoginText(login);
    AtSignNoPhone(login);
    assert [] + [EmailIs(text)] == [EmailIs(text)];
  }

  /** A text without '@' that reads as a phone number is looked up as that number only. */
  lemma PhoneLookup(login: Option<string>)
    requires LoginText(login) != "" && '@' !in LoginText(login) && HasPhone(login)
    ensures var phone := PhoneNormalized(Some(LoginText(login))).value;
            IsPhoneNumber(phone) && LookupClauses(login) == Some([PhoneIs(phone)])
  {
    var text := LoginText(login);
    var phone := PhoneNormalized(Some(text)).value;
    PhoneResultShape(Some(text));
    assert [PhoneIs(phone)] + [] == [PhoneIs(phone)];
  }

  /** A text containing '@' is never a phone number. */
  lemma AtSignIsNoPhone(s: string)
    requires '@' in Strip(s)
    ensures PhoneNormalized(Some(s)).None?
  {
    var text := Strip(s);
    assert Some(s).GetOr("") == s;
    assert '@' !in Separators;
    WithoutKeeps(text, Separators, '@');
    var d := Without(text, Separators);
    var k :| 0 <= k < |d| && d[k] == '@';
    NotPhoneNumber(d, k);
  }

  predicate Matches(u: UserRow, c: Clause) {
    match c
    case PhoneIs(p) => u.phone == Some(p)
    case EmailIs(e) => u.email.Some? && Lower(u.email.value) == Lower(e)
  }

  predicate MatchesAny(u: UserRow, cs: seq<Clause>) {
    exists c :: c in cs && Matches(u, c)
  }

  /** The first stored row that meets any of the conditions; the lookup takes one row at most. */
  function FirstMatch(users: seq<UserRow>, cs: seq<Clause>): (r: Option<UserRow>)
    ensures r.Some? ==> r.value in users && MatchesAny(r.value, cs)
    ensures r.Some? ==> exists k :: 0 <= k < |users| && users[k] == r.value
                          && forall j :: 0 <= j < k ==> !MatchesAny(users[j], cs)
    ensures r.None? <==> forall u :: u in users ==> !MatchesAny(u, cs)
  {
    if users == [] then None
    else if MatchesAny(users[0], cs) then Some(users[0])
    else
      var r := FirstMatch(users[1..], cs);
      assert forall u :: u in users ==> u == users[0] || u in users[1..];
      if r.Some? then
        var k :| 0 <= k < |users| - 1 && users[1..][k] == r.value
                 && forall j :: 0 <= j < k ==> !MatchesAny(users[1..][j], cs);
        assert users[k + 1] == r.value;
        r
      else r
  }

  /**
   * The user a login text refers to, if any; `users` are the rows in the
   * order the store visits them, and `accepted` says whether the store
   * ran the query.
   */
  function FindUser(users: seq<UserRow>, login: Option<string>, accepted: bool): (r: Option<UserRow>)
    ensures LookupClauses(login).None? || !accepted ==> r.None?
    ensures r.Some? ==> r.value in users && MatchesAny(r.value, LookupClauses(login).value)
    ensures LookupClauses(login).Some? && accepted && r.None? ==>
              forall u :: u in users ==> !MatchesAny(u, LookupClauses(login).value)
  {
    match LookupClauses(login)
    case None => None
    case Some(cs) => if accepted then FirstMatch(users, cs) else None
  }
}
