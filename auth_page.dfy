/**
 * The module-level state of the authentication script: the browser's
 * `localStorage` (a string-to-string store), the current language and the
 * page's text direction, with the token, user-data and language operations
 * that read and write them.
 */
module Auth {
  import opened Wrappers
  import opened Localization

  const TokenKey := "access_token"
  const UsernameKey := "username"
  const LanguageKey := "language"

  datatype Direction = Ltr | Rtl

  /** What `getUserData()` returns: each field is `null` when nothing is stored under its key. */
  datatype UserData = UserData(username: Option<string>, language: Option<string>)

  /** The fields of a login or registration response that `setUserData` stores. */
  datatype Profile = Profile(username: string, language: string)

  /** `localStorage.getItem('language') || 'en'`: a stored, non-empty language, else English. */
  function InitialLanguage(storage: map<string, string>): (lang: string)
    ensures lang != ""
    ensures LanguageKey in storage && storage[LanguageKey] != "" ==> lang == storage[LanguageKey]
    ensures !(LanguageKey in storage && storage[LanguageKey] != "") ==> lang == "en"
  {
    if LanguageKey in storage && storage[LanguageKey] != "" then storage[LanguageKey] else "en"
  }

  /** The direction `setLanguage` gives the page: right-to-left for Persian only. */
  function DirectionFor(lang: string): (d: Direction)
    ensures d == Rtl <==> lang == "fa"
  {
    if lang == "fa" then Rtl else Ltr
  }

  class Page {
    var storage: map<string, string>
    var currentLanguage: string
    var dir: Direction

    /**
     * The script being loaded over whatever the store already holds. The
     * direction is the document's default until `setLanguage` first runs.
     */
    constructor (initialStorage: map<string, string>)
      ensures storage == initialStorage
      ensures currentLanguage == InitialLanguage(initialStorage)
      ensures dir == Ltr
    {
      storage := initialStorage;
      currentLanguage := InitialLanguage(initialStorage);
      dir := Ltr;
    }

    /** `getToken()`: the stored token, `None` when there is none. */
    function GetToken(): (token: Option<string>)
      reads this
      ensures token.Some? <==> TokenKey in storage
      ensures token.Some? ==> token.value == storage[TokenKey]
    {
      if TokenKey in storage then Some(storage[TokenKey]) else None
    }

    /** `isAuthenticated()`, i.e. `!!getToken()`: a token is stored and it is not the empty string. */
    function IsAuthenticated(): (authenticated: bool)
      reads this
      ensures authenticated <==> TokenKey in storage && storage[TokenKey] != ""
    {
      GetToken().Some? && GetToken().value != ""
    }

    /** `getUserData()`: the stored username and language, each possibly absent. */
    function GetUserData(): (data: UserData)
      reads this
      ensures data.username.Some? <==> UsernameKey in storage
      ensures data.username.Some? ==> data.username.value == storage[UsernameKey]
      ensures data.language.Some? <==> LanguageKey in storage
      ensures data.language.Some? ==> data.language.value == storage[LanguageKey]
    {
      UserData(if UsernameKey in storage then Some(storage[UsernameKey]) else None,
               if LanguageKey in storage then Some(storage[LanguageKey]) else None)
    }

    /** `setToken(token)`: the token is stored; the user counts as authenticated iff it is non-empty. */
    method SetToken(token: string)
      modifies this
      ensures storage == old(storage)[TokenKey := token]
      ensures currentLanguage == old(currentLanguage) && dir == old(dir)
      ensures GetToken() == Some(token)
      ensures IsAuthenticated() <==> token != ""
      ensures GetUserData() == old(GetUserData())
    {
      storage := storage[TokenKey := token];
    }

    /** `removeToken()`: the token is gone and the user no longer counts as authenticated. */
    method RemoveToken()
      modifies this
      ensures storage == old(storage) - {TokenKey}
      ensures currentLanguage == old(currentLanguage) && dir == old(dir)
      ensures GetToken() == None && !IsAuthenticated()
      ensures GetUserData() == old(GetUserData())
    {
      storage := storage - {TokenKey};
    }

    /** `setUserData(data)`: a later `getUserData()` returns the same username and language. */
    method SetUserData(data: Profile)
      modifies this
      ensures storage == old(storage)[UsernameKey := data.username][LanguageKey := data.language]
      ensures currentLanguage == old(currentLanguage) && dir == old(dir)
      ensures GetUserData() == UserData(Some(data.username), Some(data.language))
      ensures GetToken() == old(GetToken())
    {
      storage := storage[UsernameKey := data.username];
      storage := storage[LanguageKey := data.language];
    }

    /**
     * `logout()`, without the redirect: token and username are removed, the
     * language preference stays, and the user is no longer authenticated.
     */
    method Logout()
      modifies this
      ensures storage == old(storage) - {TokenKey, UsernameKey}
      ensures !IsAuthenticated() && GetUserData() == UserData(None, old(GetUserData()).language)
      ensures currentLanguage == old(currentLanguage) && dir == old(dir)
    {
      RemoveToken();
      storage := storage - {UsernameKey};
    }

    /**
     * `setLanguage(lang)`: the language becomes current and is stored, the
     * direction follows it, then the page text is refreshed (which throws,
     * leaving the elements as they were, when `lang` has no table).
     */
    method SetLanguage(lang: string, elements: array<Element>) returns (ok: bool)
      modifies this, elements
      ensures currentLanguage == lang && storage == old(storage)[LanguageKey := lang]
      ensures dir == DirectionFor(lang)
      ensures GetUserData().language == Some(lang) && GetToken() == old(GetToken())
      ensures ok <==> forall i :: 0 <= i < elements.Length ==> RefreshElement(old(elements[i]), lang).Some?
      ensures ok ==> forall i :: 0 <= i < elements.Length ==> elements[i] == RefreshElement(old(elements[i]), lang).value
      ensures !ok ==> elements[..] == old(elements[..])
    {
      currentLanguage := lang;
      storage := storage[LanguageKey := lang];
      dir := if lang == "fa" then Rtl else Ltr;
      ok := UpdatePageText(elements, lang);
    }
  }

  /**
   * A session from a blank store: a login stores token and profile, the
   * user is authenticated and the profile reads back; logging out ends the
   * session but keeps the language, which is also what the next page load
   * starts with.
   */
  method LoginLogoutScenario() returns (before: bool, during: bool, profile: UserData, after: bool, nextLanguage: string)
    ensures !before && during && !after
    ensures profile == UserData(Some("sara"), Some("fa"))
    ensures nextLanguage == "fa"
  {
    var page := new Page(map[]);
    before := page.IsAuthenticated();
    page.SetToken("token-1");
    page.SetUserData(Profile("sara", "fa"));
    during := page.IsAuthenticated();
    profile := page.GetUserData();
    page.Logout();
    after := page.IsAuthenticated();
    var reloaded := new Page(page.storage);
    nextLanguage := reloaded.currentLanguage;
  }
}
