/**
 * Role canonicalisation when a session is set up: the role text of the
 * logged-in user, stripped and case-folded, is looked up in a synonym
 * table (English and Russian spellings).
 */
module Roles {
  import opened Wrappers
  import opened Text

  datatype Role = Client | Salon | Admin

  /** The synonym table, keyed by case-folded text. */
  const RoleAliases: map<string, Role> := map[
    "client" := Client,
    "клиент" := Client,
    "salon" := Salon,
    "салон" := Salon,
    "admin" := Admin,
    "админ" := Admin,
    "администратор" := Admin
  ]

  /** The table key of each role (the name the role configuration is indexed by). */
  function RoleName(r: Role): string {
    match r
    case Client => "client"
    case Salon => "salon"
    case Admin => "admin"
  }

  /** The lookup key: `(role or "").strip().casefold()`. */
  function RoleKey(role: Option<string>): string {
    Lower(Strip(role.GetOr("")))
  }

  /**
   * `(role or "").strip().casefold()` looked up in the table; an unknown
   * or missing role gives no canonical role.
   */
  function CanonicalRole(role: Option<string>): (r: Option<Role>)
    ensures r.Some? <==> RoleKey(role) in RoleAliases
    ensures r.Some? ==> r.value == RoleAliases[RoleKey(role)]
  {
    var key := RoleKey(role);
    if key in RoleAliases then Some(RoleAliases[key]) else None
  }

  /** Each canonical role name is recognised as itself. */
  lemma RoleNameRoundTrip(r: Role)
    ensures CanonicalRole(Some(RoleName(r))) == Some(r)
  {
    PlainTextIsOwnKey(RoleName(r));
    RoleNameInTable(r);
    KnownKey(RoleName(r), r);
  }

  /** A text that is its own key and is in the table maps to the table's role. */
  lemma KnownKey(n: string, r: Role)
    requires RoleKey(Some(n)) == n && n in RoleAliases && RoleAliases[n] == r
    ensures CanonicalRole(Some(n)) == Some(r)
  {
  }

  lemma RoleNameInTable(r: Role)
    ensures RoleName(r) in RoleAliases && RoleAliases[RoleName(r)] == r
  {
    match r
    case Client => assert RoleName(r) == "client";
    case Salon => assert RoleName(r) == "salon";
    case Admin => assert RoleName(r) == "admin";
  }

  /** Case and surrounding whitespace are ignored. */
  lemma CanonicalRoleIgnoresCase(s: string)
    ensures CanonicalRole(Some(Lower(s))) == CanonicalRole(Some(s))
  {
    StripLower(s);
    LowerIdempotent(Strip(s));
  }

  /** A missing or blank role is never recognised. */
  lemma BlankRoleUnknown(role: Option<string>)
    requires role.Some? ==> forall i :: 0 <= i < |role.value| ==> IsSpace(role.value[i])
    ensures CanonicalRole(role).None?
  {
    StripBlank(role.GetOr(""));
    assert RoleKey(role) == "";
  }

  /** A text with nothing to strip or lower is its own key. */
  lemma PlainTextIsOwnKey(n: string)
    requires n != [] && forall i :: 0 <= i < |n| ==> 'a' <= n[i] <= 'z' || '\U{430}' <= n[i] <= '\U{44F}'
    ensures RoleKey(Some(n)) == n
  {
    StripUnchanged(n);
    LowerOfLowercase(n);
  }

  /**
   * Every spelling in the table, English or Russian, is recognised as the
   * role the table gives it.
   */
  lemma TableSpellingsRecognised()
    ensures forall k :: k in RoleAliases ==> CanonicalRole(Some(k)) == Some(RoleAliases[k])
  {
    forall k | k in RoleAliases ensures CanonicalRole(Some(k)) == Some(RoleAliases[k]) {
      PlainTextIsOwnKey(k);
    }
  }
}
