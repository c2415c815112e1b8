/**
 * The two-language string table of the client, the lookup `t(key)` and the
 * page refresh that writes looked-up strings into annotated elements.
 */
module Localization {
  import opened Wrappers

  const English: map<string, string> := map[
    "login" := "Login",
    "register" := "Sign Up",
    "username" := "Username",
    "email" := "Email",
    "password" := "Password",
    "loginButton" := "Login",
    "registerButton" := "Create Account",
    "loginSubtitle" := "Welcome back! Please login to your account",
    "registerSubtitle" := "Create a new account to get started",
    "noAccount" := "Don't have an account?",
    "haveAccount" := "Already have an account?",
    "loginHere" := "Login here",
    "registerHere" := "Register here",
    "usernamePlaceholder" := "Enter your username",
    "emailPlaceholder" := "Enter your email",
    "passwordPlaceholder" := "Enter your password",
    "dashboard" := "Dashboard",
    "welcome" := "Welcome",
    "logout" := "Logout",
    "settings" := "Settings",
    "language" := "Language"
  ]

  const Farsi: map<string, string> := map[
    "login" := "ورود",
    "register" := "ثبت نام",
    "username" := "نام کاربری",
    "email" := "ایمیل",
    "password" := "رمز عبور",
    "loginButton" := "ورود",
    "registerButton" := "ایجاد حساب کاربری",
    "loginSubtitle" := "خوش آمدید! لطفا وارد حساب خود شوید",
    "registerSubtitle" := "برای شروع یک حساب کاربری جدید ایجاد کنید",
    "noAccount" := "حساب کاربری ندارید؟",
    "haveAccount" := "قبلا ثبت نام کرده‌اید؟",
    "loginHere" := "اینجا وارد شوید",
    "registerHere" := "اینجا ثبت نام کنید",
    "usernamePlaceholder" := "نام کاربری خود را وارد کنید",
    "emailPlaceholder" := "ایمیل خود را وارد کنید",
    "passwordPlaceholder" := "رمز عبور خود را وارد کنید",
    "dashboard" := "پنل کاربری",
    "welcome" := "خوش آمدید",
    "logout" := "خروج",
    "settings" := "تنظیمات",
    "language" := "زبان"
  ]

  predicate Supported(lang: string) {
    lang == "en" || lang == "fa"
  }

  /** `translations[lang]`: a table for the two supported languages, nothing for any other. */
  function Table(lang: string): Option<map<string, string>> {
    if lang == "en" then Some(English) else if lang == "fa" then Some(Farsi) else None
  }

  /**
   * `t(key)` while the current language is `lang`: the table's string when
   * present and non-empty, otherwise the key itself. `None` stands for the
   * TypeError thrown when `lang` has no table (`translations[lang]` is
   * undefined and cannot be indexed).
   */
  function Translate(lang: string, key: string): (r: Option<string>)
    ensures r.Some? <==> Supported(lang)
    ensures r.Some? && key != "" ==> r.value != ""
  {
    match Table(lang)
    case None => None
    case Some(table) => if key in table && table[key] != "" then Some(table[key]) else Some(key)
  }

  /** The two tables define the same keys. */
  lemma TableKeysAgree()
    ensures English.Keys == Farsi.Keys
  {
  }

  lemma EnglishValuesProper()
    ensures forall k :: k in English ==> English[k] != "" && English[k] != k
  {
  }

  lemma FarsiValuesProper()
    ensures forall k :: k in Farsi ==> Farsi[k] != "" && Farsi[k] != k
  {
  }

  /** No table entry is empty and none is its own key. */
  lemma TableValuesProper()
    ensures forall k :: k in English ==> English[k] != "" && English[k] != k
    ensures forall k :: k in Farsi ==> Farsi[k] != "" && Farsi[k] != k
  {
    EnglishValuesProper();
    FarsiValuesProper();
  }

  /**
   * The lookup in full: it answers exactly for the two supported languages;
   * a key of the tables gives that language's string, any other key gives
   * itself back, in both languages alike; a non-empty key never gives an
   * empty string.
   */
  lemma TranslateSpec(lang: string, key: string)
    ensures Translate(lang, key).Some? <==> Supported(lang)
    ensures Supported(lang) && key in English ==> Translate(lang, key) == Some(Table(lang).value[key])
    ensures Supported(lang) ==> (Translate(lang, key) == Some(key) <==> key !in English)
    ensures Supported(lang) && key != "" ==> Translate(lang, key).value != ""
  {
    TableKeysAgree();
    TableValuesProper();
  }

  /** An element of the page, with its `data-i18n` key when it has one. */
  datatype Element = Element(
    tagName: string,
    i18nKey: Option<string>,
    hasPlaceholder: bool,
    placeholder: string,
    textContent: string)

  /**
   * What `updatePageText` does to one element: an annotated `INPUT` with a
   * placeholder attribute gets the looked-up string as its placeholder, any
   * other annotated element as its text. `None` when the lookup throws.
   */
  function RefreshElement(e: Element, lang: string): (r: Option<Element>)
    ensures r.None? ==> e.i18nKey.Some?
    ensures r.Some? ==> r.value.tagName == e.tagName && r.value.i18nKey == e.i18nKey
  {
    match e.i18nKey
    case None => Some(e)
    case Some(key) =>
      match Translate(lang, key)
      case None => None
      case Some(text) =>
        if e.tagName == "INPUT" && e.hasPlaceholder then Some(e.(placeholder := text))
        else Some(e.(textContent := text))
  }

  /**
   * Each annotated element changes in exactly one of its two text fields,
   * the placeholder for a placeholder-bearing input and the text otherwise;
   * elements without a key are left alone; the refresh fails exactly on an
   * annotated element while the language has no table.
   */
  lemma RefreshElementChoice(e: Element, lang: string)
    ensures RefreshElement(e, lang).None? <==> e.i18nKey.Some? && !Supported(lang)
    ensures e.i18nKey.None? ==> RefreshElement(e, lang) == Some(e)
    ensures e.i18nKey.Some? && Supported(lang) ==>
      var r := RefreshElement(e, lang).value;
      var text := Translate(lang, e.i18nKey.value).value;
      && r.tagName == e.tagName && r.i18nKey == e.i18nKey && r.hasPlaceholder == e.hasPlaceholder
      && (if e.tagName == "INPUT" && e.hasPlaceholder
          then r.placeholder == text && r.textContent == e.textContent
          else r.textContent == text && r.placeholder == e.placeholder)
  {
    if e.i18nKey.Some? {
      TranslateSpec(lang, e.i18nKey.value);
    }
  }

  /**
   * `updatePageText()` over the page's elements, in document order. It
   * completes exactly when no element needs a lookup that throws; then
   * every element is refreshed. When it throws it does so at the first
   * annotated element, before any element has changed.
   */
  method UpdatePageText(elements: array<Element>, lang: string) returns (ok: bool)
    modifies elements
    ensures ok <==> forall i :: 0 <= i < elements.Length ==> RefreshElement(old(elements[i]), lang).Some?
    ensures ok ==> forall i :: 0 <= i < elements.Length ==> elements[i] == RefreshElement(old(elements[i]), lang).value
    ensures !ok ==> elements[..] == old(elements[..])
  {
    var i := 0;
    while i < elements.Length
      invariant 0 <= i <= elements.Length
      invariant forall k :: 0 <= k < i ==> RefreshElement(old(elements[k]), lang).Some?
      invariant forall k :: 0 <= k < i ==> elements[k] == RefreshElement(old(elements[k]), lang).value
      invariant forall k :: i <= k < elements.Length ==> elements[k] == old(elements[k])
      invariant !Supported(lang) ==> forall k :: 0 <= k < i ==> elements[k] == old(elements[k])
    {
      var e := elements[i];
      if e.i18nKey.Some? {
        var text := Translate(lang, e.i18nKey.value);
        if text.None? {
          assert !Supported(lang);
          assert elements[..] == old(elements[..]);
          return false;
        }
        if e.tagName == "INPUT" && e.hasPlaceholder {
          elements[i] := e.(placeholder := text.value);
        } else {
          elements[i] := e.(textContent := text.value);
        }
      }
      i := i + 1;
    }
    return true;
  }
}
