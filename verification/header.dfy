/**
 * The homepage header's session-dependent parts: the role it shows, read from
 * the `userRole` key of localStorage when the header mounts and again on every
 * storage event; the badge and the login/logout button chosen from that role;
 * the logout handler; the language code on the language button; and the test
 * that highlights the navigation link of the current route.
 */
module HomepageHeader {
  import opened Wrappers
  import Storage
  import Login

  const RoleKey: string := "userRole"
  const GuestRole: string := "guest"
  const StudentRole: string := "students"
  const DefaultLanguage: string := "en"

  /** localStorage.getItem("userRole") || "guest" on a snapshot of the store. */
  function RoleFrom(items: map<string, string>): (role: string)
    ensures role != ""
    ensures RoleKey in items && items[RoleKey] != "" ==> role == items[RoleKey]
    ensures RoleKey !in items || items[RoleKey] == "" ==> role == GuestRole
  {
    var stored := Storage.Lookup(items, RoleKey);
    if Storage.Truthy(stored) then stored.value else GuestRole
  }

  /** Only the userRole key decides the role: writing or removing any other key leaves it as it was. */
  lemma RoleIgnoresOtherKeys(items: map<string, string>, key: string, value: string)
    requires key != RoleKey
    ensures RoleFrom(items[key := value]) == RoleFrom(items)
    ensures RoleFrom(items - {key}) == RoleFrom(items)
  {
    assert Storage.Lookup(items[key := value], RoleKey) == Storage.Lookup(items, RoleKey);
    assert Storage.Lookup(items - {key}, RoleKey) == Storage.Lookup(items, RoleKey);
  }

  /**
   * The login page stores the signed-in user under authUser, a key the header
   * never reads: a login, by password or by Google, does not change the role
   * the header derives.
   */
  lemma LoginKeepsRole(items: map<string, string>, text: string)
    ensures RoleFrom(items[Login.AuthUserKey := text]) == RoleFrom(items)
  {
    RoleIgnoresOtherKeys(items, Login.AuthUserKey, text);
  }

  /** Once the userRole key is gone the header shows a guest. */
  lemma RoleWithoutKey(items: map<string, string>)
    ensures RoleFrom(items - {RoleKey}) == GuestRole
  {
  }

  // ---------------- badge and session button ----------------

  datatype Badge = StudentBadge | GuestBadge

  /** The badge is the student one for the exact role "students" and the guest one for every other role. */
  function BadgeFor(role: string): (b: Badge)
    ensures b == StudentBadge <==> role == StudentRole
  {
    if role == StudentRole then StudentBadge else GuestBadge
  }

  /** The badge text: the translation when it is non-empty, the English word otherwise. */
  function BadgeLabel(role: string, t: string -> string): (text: string)
    ensures text != ""
    ensures BadgeFor(role) == StudentBadge && t("role_student") != "" ==> text == t("role_student")
    ensures BadgeFor(role) == GuestBadge && t("role_guest") != "" ==> text == t("role_guest")
    ensures BadgeFor(role) == StudentBadge && t("role_student") == "" ==> text == "Student"
    ensures BadgeFor(role) == GuestBadge && t("role_guest") == "" ==> text == "Guest"
  {
    match BadgeFor(role)
    case StudentBadge => if t("role_student") != "" then t("role_student") else "Student"
    case GuestBadge => if t("role_guest") != "" then t("role_guest") else "Guest"
  }

  datatype SessionButton = LogoutButton | LoginLink

  /** The header offers logout for the role "students" and a link to /login otherwise. */
  function ButtonFor(role: string): (b: SessionButton)
    ensures b == LogoutButton <==> role == StudentRole
  {
    if role == StudentRole then LogoutButton else LoginLink
  }

  /** Logout is offered exactly when the student badge is shown. */
  lemma LogoutGoesWithStudentBadge(role: string)
    ensures ButtonFor(role) == LogoutButton <==> BadgeFor(role) == StudentBadge
  {
  }

  // ---------------- language code and active link ----------------

  function UpperAscii(c: char): (u: char)
    ensures 'a' <= c <= 'z' ==> u as int == c as int - 32
    ensures !('a' <= c <= 'z') ==> u == c
  {
    if 'a' <= c <= 'z' then (c as int - 32) as char else c
  }

  /** String.prototype.toUpperCase, for the letters a to z. */
  function UpperCase(s: string): (r: string)
    ensures |r| == |s|
    ensures forall i :: 0 <= i < |s| ==> r[i] == UpperAscii(s[i])
  {
    if s == [] then [] else [UpperAscii(s[0])] + UpperCase(s[1..])
  }

  /** (lang || "en").toUpperCase().slice(0, 2). */
  function LanguageCode(lang: Option<string>): (code: string)
    ensures 1 <= |code| <= 2
    ensures var source := if Storage.Truthy(lang) then lang.value else DefaultLanguage;
      && |code| == (if |source| < 2 then |source| else 2)
      && forall i :: 0 <= i < |code| ==> code[i] == UpperAscii(source[i])
  {
    var source := if Storage.Truthy(lang) then lang.value else DefaultLanguage;
    var upper := UpperCase(source);
    if |upper| < 2 then upper else upper[..2]
  }

  /** Without a language the code is EN, and each of the three offered languages shows its own code. */
  lemma LanguageCodes()
    ensures LanguageCode(None) == "EN" && LanguageCode(Some("")) == "EN"
    ensures LanguageCode(Some("en")) == "EN"
    ensures LanguageCode(Some("vi")) == "VI"
    ensures LanguageCode(Some("ja")) == "JA"
  {
  }

  /** location.pathname === path: the same characters in the same places, so a sub-route does not count. */
  function IsActive(pathname: string, path: string): (active: bool)
    ensures active <==> |pathname| == |path| && forall i :: 0 <= i < |path| ==> pathname[i] == path[i]
    ensures |pathname| != |path| ==> !active
  {
    pathname == path
  }

  /** The routes of the navigation links, home first. */
  const NavigationPaths: seq<string> := ["/", "/knowledge", "/qa", "/ragdocs", "/ojt", "/dashboard", "/admin", "/company"]

  /** The navigation routes are distinct, so at most one link is highlighted at a time. */
  lemma AtMostOneActive(pathname: string, i: nat, j: nat)
    requires i < |NavigationPaths| && j < |NavigationPaths|
    requires IsActive(pathname, NavigationPaths[i]) && IsActive(pathname, NavigationPaths[j])
    ensures i == j
  {
    assert NavigationPaths[i] == NavigationPaths[j];
  }

  // ---------------- the header component ----------------

  class Header {
    const store: Storage.LocalStorage
    var role: string

    /** The role shown agrees with the store. */
    predicate InSync()
      reads this, store
    {
      role == RoleFrom(store.items)
    }

    /** useState(localStorage.getItem("userRole") || "guest"). */
    constructor (store: Storage.LocalStorage)
      ensures this.store == store && role == RoleFrom(store.items)
      ensures InSync()
    {
      this.store := store;
      var stored := store.GetItem(RoleKey);
      role := if Storage.Truthy(stored) then stored.value else GuestRole;
    }

    /** The storage listener: re-derive the role with the mount-time rule. */
    method HandleStorage()
      modifies this
      ensures role == RoleFrom(store.items)
      ensures InSync()
    {
      var stored := store.GetItem(RoleKey);
      role := if Storage.Truthy(stored) then stored.value else GuestRole;
    }

    /** The logout button: remove userRole, then show a guest. */
    method Logout()
      modifies this, store
      ensures store.items == old(store.items) - {RoleKey}
      ensures forall k :: k != RoleKey ==> Storage.Lookup(store.items, k) == Storage.Lookup(old(store.items), k)
      ensures role == GuestRole
      ensures InSync()
    {
      store.RemoveItem(RoleKey);
      role := GuestRole;
    }
  }
}
