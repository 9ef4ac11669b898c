# Client-side login and session logic of the OJT portal

This project models the part of the portal's React front end that signs a user
in and carries the session across components:

- **The login page** (`Login.js`):
  - `loginApi` turns the backend's answer, or the error it threw, into a success or failure outcome;
  - `handleSubmit` stores the signed-in user under the `authUser` key of localStorage (the role defaults to `"students"`), shows a welcome notice and schedules the move to `/`;
  - `loadConfig` picks up `/app-config.json`;
  - the mount effect reads a Google OAuth report carried after the first `?` of the URL fragment;
  - `handleGoogleLogin` builds the Google authorization request.
- **The homepage header** (`Header.jsx`):
  - reads the role from the `userRole` key, on mount and on every storage event;
  - picks the badge and the login or logout button;
  - logout removes the key;
  - also covers the language code on the language button and the active-link test.
- **The shared HTTP client** (`httpClient.js`): the request interceptor attaches `Authorization: Bearer <token>` when localStorage holds a non-empty `token`, and its error handler rejects with the same error.

The supporting modules model the platform functions the code relies on, each as the standard defines it:

- **Utf8**: UTF-8 encoding, and decoding with replacement (section 3.9 of the Unicode Standard, table 3-7).
- **UriComponent**: `encodeURIComponent` and `decodeURIComponent`, the latter partial because it throws a URIError on a malformed escape (ECMAScript, section 19.2.6).
- **FormUrlencoded**: the `application/x-www-form-urlencoded` parser of section 5.1 of the WHATWG URL Standard, plus `URLSearchParams.get`.
- **JsonText**: `JSON.stringify` of the stored user record, and a reader that proves the text determines the record.
- **Storage**: a `LocalStorage` class over a `map<string, string>`.

The router is a `HashRouter` (`src/App.js:1`), so the route lives in `location.hash` and a replace-navigation to `/login` leaves the fragment `#/login`.

Network answers, the random OAuth `state`, the build-time environment and the i18n lookup `t` are all parameters of the model.

## Model

| member | source | states |
|---|---|---|
| Login.LoginApi | src/component/login/Login.js:19-39 | success exactly when the backend sent `response.data.data`, carrying its `message` and that data as the user; without data the failure text is "Login failed: no user data."; a thrown error gives the backend's non-empty `response.data.message`, else "Login failed." |
| Login.StoredUser | src/component/login/Login.js:55-59 | the stored record copies name and email from the backend user; its role is the backend's when non-empty, `"students"` otherwise, so never empty |
| Login.SubmitStoresBackendUser | src/component/login/Login.js:55-61 | reading back the text a successful submit stores gives the backend's name and email and the defaulted role |
| Login.LoginPage.BeginSubmit | src/component/login/Login.js:44-46 | before the await: error and notice are cleared and loading is set; the fragment, config, crash flag and navigations are untouched |
| Login.LoginPage.SettleSubmit | src/component/login/Login.js:48-71 | after the await: loading ends. On success `authUser` is set to the serialised record and no other key changes, the notice is the welcome with the user's name, one delayed navigation to `/` after 1200 ms is recorded, and the error keeps whatever it held. On failure the store and the notice are untouched and the error is the outcome's message |
| Login.LoginPage.HandleSubmit | src/component/login/Login.js:42-72 | the whole handler when nothing else runs during the await: on success `authUser` is set to the serialised record and no other key changes; error is empty; the notice is the welcome with the user's name; one delayed navigation to `/` after 1200 ms is recorded. On failure: the store is untouched, error is the outcome's message, notice is empty, no navigation. Loading ends false either way |
| Login.WelcomeNotice | src/component/login/Login.js:64 | the notice is the greeting prefix, then the user's name (`undefined` when the backend sent none), then `!` |
| Login.LoginPage.constructor | src/component/login/Login.js:8-13 | the page starts with empty error and notice, not loading, no config, no crash and no navigation |
| Login.FetchedConfig | src/component/login/Login.js:78-85 | a config exists exactly when the fetch answered with `ok` and a body that parses; a falsy body gives the empty config, an object body gives itself |
| Login.LoginPage.LoadConfig | src/component/login/Login.js:75-89 | `appConfig` becomes the fetched config only when there is one and the page was not unmounted; otherwise it and all other state stay as they were |
| Login.FirstTruthy | src/component/login/Login.js:123-124 | `a \|\| b \|\| fallback`: the first non-empty of the two, else the fallback |
| Login.ResolveClientId | src/component/login/Login.js:123 | the environment's client id when set, else the remote config's when that is set; empty exactly when neither is set |
| Login.ResolveRedirectUri | src/component/login/Login.js:124 | the environment's redirect URI, else the config's, else `https://localhost:7031/auth/google/callback`; never empty |
| Login.GoogleRedirect | src/component/login/Login.js:122-147 | refuses with "Missing Google Client ID." exactly when the resolved client id is empty; otherwise the authorization URL built from the resolved client id and redirect URI |
| Login.AuthorizationParameters | src/component/login/Login.js:135-143 | eight parameters, one per intended pair in order, each beginning with that pair's name and `=` |
| Login.AuthorizationUrl | src/component/login/Login.js:146 | the URL starts with the Google endpoint, its first `?` follows the endpoint, and the rest is the `&`-join of the parameters |
| Login.ScopeIsEncoded | src/component/login/Login.js:132 | `encodeURIComponent("openid email profile")` is `openid%20email%20profile` |
| Login.ParametersAreSeparate | src/component/login/Login.js:135-144 | every one of the eight parameters is non-empty and holds no `&`, so the `&`-join keeps them apart |
| Login.ParametersDecode | src/component/login/Login.js:135-143 | each written parameter decodes, as a form-urlencoded name=value sequence, to the intended name and unencoded value at the same position |
| Login.AuthorizationRequestParameters | src/component/login/Login.js:132-146 | the URL is the Google endpoint, then its first `?`, then a query that parses into exactly client_id, redirect_uri, response_type=code, scope="openid email profile", access_type=offline, include_granted_scopes=true, prompt=consent, state, in that order; the client id, redirect URI and state come back unchanged |
| Login.LoginPage.HandleGoogleLogin | src/component/login/Login.js:122-147 | with no client id the error is "Missing Google Client ID." and no navigation is recorded; otherwise one assignment of the authorization URL to `window.location.href` is recorded and the error is untouched |
| Login.FragmentParams | src/component/login/Login.js:93-97 | there are parameters exactly when the fragment holds a `?`; they are the `URLSearchParams` reading of the text after the first one, which has no `?` before it |
| Login.Classify | src/component/login/Login.js:99-115 | not a callback exactly when `oauth` is not `google`; success exactly when also `status` is `success`; a failure with a non-empty `message` carries that message through `decodeURIComponent`, one without it carries `t("login_google_failed")`; a throw happens only for a present message that `decodeURIComponent` rejects |
| Login.LoginPage.ApplyCallback | src/component/login/Login.js:103-117 | for a report that is not a callback nothing changes; a success writes the Google placeholder under `authUser` and `t("login_google_success")` as the notice; a failure sets the error to the report's message; both then leave the fragment `#/login` with one replace recorded; an undecodable message sets the crash flag and nothing else |
| Login.InterpretFragment | src/component/login/Login.js:92-119 | a fragment without `?` is not a callback; otherwise the branch is decided by the parameters after the first `?` |
| Login.EncodedPairsParse | src/component/login/Login.js:97 | the `&`-join of encoded pairs never starts with `?` and parses back into the same pairs |
| Login.FragmentParamsReadBack | src/component/login/Login.js:93-97 | for a route without `?`, the interpreter recovers exactly the parameter list written after it |
| Login.SuccessReported | src/component/login/Login.js:99-103 | `oauth=google` with `status=success` is a success, whatever else the fragment carries |
| Login.OtherFragmentsIgnored | src/component/login/Login.js:99 | without `oauth=google` the fragment is not a callback |
| Login.FailureMessageDecoded | src/component/login/Login.js:111-113 | a failure whose message, once decoded, holds no `%` surfaces that message unchanged |
| Login.FailureMessageDecodedTwice | src/component/login/Login.js:101-112 | the message is decoded twice: one that arrives encoded twice surfaces as the original text, whatever it holds |
| Login.FailureMessageWithStrayPercent | src/component/login/Login.js:112 | a message that, after the first decoding, holds a `%` not followed by two hex digits, anywhere in it, makes the effect throw |
| Login.LoginRouteIsNotACallback | src/component/login/Login.js:117 | the fragment `#/login` left by the replace-navigation is not a callback |
| Login.GoogleUserSerialized | src/component/login/Login.js:105-108 | the text stored on a Google success is `JSON.stringify({fullname: "Google User", role: "students"})`, and it reads back as that record |
| Login.LoginPage.ParseOAuthCallback | src/component/login/Login.js:92-119 | not a callback: nothing changes. Success: `authUser` is set to the Google placeholder text and no other key changes; notice is `t("login_google_success")`; the fragment becomes `#/login` with one replace recorded. Failure: the store is untouched; error is the decoded message or the generic text; same navigation. The crash flag keeps its earlier value on every branch that does not throw. A throwing decode: the effect stops with nothing written but the crash flag. After any branch that does not throw, running the interpreter again finds no callback |
| HomepageHeader.RoleFrom | src/component/homepage/Header.jsx:10 | the role is the stored `userRole` when non-empty, `"guest"` otherwise; never empty |
| HomepageHeader.RoleIgnoresOtherKeys | src/component/homepage/Header.jsx:10-18 | writing or removing any key other than `userRole` leaves the derived role unchanged |
| HomepageHeader.LoginKeepsRole | src/component/homepage/Header.jsx:10 | the login page's write of `authUser` does not change the role the header derives |
| HomepageHeader.RoleWithoutKey | src/component/homepage/Header.jsx:126 | once `userRole` is removed the derived role is `"guest"` |
| HomepageHeader.Header.constructor | src/component/homepage/Header.jsx:10 | the initial role is derived from the store |
| HomepageHeader.Header.HandleStorage | src/component/homepage/Header.jsx:16-18 | a storage event re-derives the role from the store with the mount-time rule, so events over an unchanged store give the same role |
| HomepageHeader.BadgeFor | src/component/homepage/Header.jsx:118 | the student badge exactly for the role `"students"`; every other role, `"student"` included, gets the guest badge |
| HomepageHeader.BadgeLabel | src/component/homepage/Header.jsx:118 | the badge text is the non-empty translation of `role_student` or `role_guest`, else "Student" or "Guest"; never empty |
| HomepageHeader.ButtonFor | src/component/homepage/Header.jsx:122-138 | logout is offered exactly for the role `"students"`, a link to `/login` otherwise |
| HomepageHeader.LogoutGoesWithStudentBadge | src/component/homepage/Header.jsx:118-122 | the logout button appears exactly when the student badge does |
| HomepageHeader.Header.Logout | src/component/homepage/Header.jsx:125-128 | `userRole` is removed, every other key keeps its value, the role becomes `"guest"` and agrees with the store |
| HomepageHeader.UpperCase | src/component/homepage/Header.jsx:12 | same length, each letter a-z upper-cased and every other character kept |
| HomepageHeader.LanguageCode | src/component/homepage/Header.jsx:12 | the first two characters, upper-cased, of the language, or of `"en"` when the language is missing or empty; one or two characters long |
| HomepageHeader.LanguageCodes | src/component/homepage/Header.jsx:12 | no language gives EN; en, vi and ja give EN, VI and JA |
| HomepageHeader.IsActive | src/component/homepage/Header.jsx:24 | a link is active exactly when the pathname has the same characters as its path, so a sub-route or a prefix is not active |
| HomepageHeader.AtMostOneActive | src/component/homepage/Header.jsx:24-65 | the eight navigation routes are distinct, so at most one link is active for a pathname |
| HttpClient.WithBearer | src/component/API/httpClient.js:10-11 | with a non-empty token, `Authorization` is "Bearer " followed by the token; without one the headers are unchanged; every other header keeps its value either way |
| HttpClient.BearerIdempotent | src/component/API/httpClient.js:11 | running the interceptor twice with the same token equals running it once |
| HttpClient.BearerCarriesToken | src/component/API/httpClient.js:11 | the token is recovered from the header by stripping the "Bearer " prefix |
| HttpClient.BearerInjective | src/component/API/httpClient.js:11 | two non-empty tokens that produce the same headers are the same token |
| HttpClient.OnRequest | src/component/API/httpClient.js:9-13 | the same config object is returned; its headers become `WithBearer` of the old headers and the stored token; url, method and data are unchanged; the store is not written |
| HttpClient.OnRequestError | src/component/API/httpClient.js:14 | the chain is rejected with the very error it received |
| Storage.Lookup | src/component/homepage/Header.jsx:10 | `getItem`: a value exactly for a stored key, and then the stored value |
| Storage.LocalStorage.GetItem | src/component/API/httpClient.js:10 | `getItem` returns the stored value for a stored key and nothing otherwise, and does not write |
| Storage.LocalStorage.SetItem | src/component/login/Login.js:61 | the key is set to the value, every other key unchanged |
| Storage.LocalStorage.RemoveItem | src/component/homepage/Header.jsx:126 | the key is removed, every other key unchanged |
| FormUrlencoded.Get | src/component/login/Login.js:99-101 | `URLSearchParams.get` is absent exactly when no pair has the name; otherwise it is the value of the first pair with the name |
| FormUrlencoded.DecodeEncodedComponent | src/component/login/Login.js:97 | form-urlencoded decoding undoes `encodeURIComponent` |
| FormUrlencoded.ParseJoin | src/component/login/Login.js:97 | parsing an `&`-join of non-empty parts without `&` decodes each part in order |
| UriComponent.DecodeEncode | src/component/login/Login.js:112 | `decodeURIComponent(encodeURIComponent(s))` is `s` for every string of scalar values |
| UriComponent.DecodeWithoutPercent | src/component/login/Login.js:112 | text without `%` decodes to itself |
| UriComponent.StrayPercentThrows | src/component/login/Login.js:112 | a `%` not followed by two hex digits makes `decodeURIComponent` throw, wherever it stands and whatever comes before it |
| Utf8.DecodeLenientEncode | src/component/login/Login.js:97 | decoding with replacement undoes encoding |
| JsonText.SerializeRoundTrip | src/component/login/Login.js:61 | reading back the `JSON.stringify` text of a user record gives the record |
| JsonText.SerializeInjective | src/component/login/Login.js:61 | two records with the same stored text are the same record |
| Text.SplitJoin | src/component/login/Login.js:97 | splitting on `&` undoes a join of one or more parts when no part contains `&` |
| Text.JoinSplit | src/component/login/Login.js:97 | joining the split parts gives back the text |

## Left out

- `userApi.login` (`src/component/API/UserAPI.js`) and the axios instance with its base URL are not part of this model. The settled login call is an input (`LoginResponse`), and `response?.data?.data` counts as present when it is any object.
- The `fetch('/app-config.json')` call is an input (`ConfigFetch`). The `cancelled` flag set on unmount is an input of `LoadConfig`. A body that is JSON but neither falsy nor an object is not distinguished.
- `setTimeout(() => navigate('/'), 1200)`, `navigate` and the assignment to `window.location.href` are recorded in `navigations` and not carried out.
- `Math.random().toString(36).slice(2)` is an input (the `state` parameter of `HandleGoogleLogin`).
- The i18n lookup `t` is a parameter: a function from key to text.
- `console.error` in the failure branch has no visible effect and is left out.
- `e.preventDefault()`, the email and password fields with their `onChange` handlers, the rendering of the `loading` spinner, the language menu's open flag and all JSX rendering are left out. Only the state the logic reads and writes is modelled.
- A URIError that escapes the callback effect is modelled as the `crashed` flag with nothing else changed. React's handling of the error is not modelled.
- JavaScript strings are UTF-16. The model's characters are Unicode scalar values, so lone surrogates (which make `encodeURIComponent` throw) cannot occur in it.
- Text.SplitJoin: holds for a join of one or more parts only. The join of no parts is the empty text, and `split` of the empty text gives one empty part, not none.
- HomepageHeader.UpperCase: only the letters a-z are upper-cased. `toUpperCase` on other scripts and special casings (such as ß to SS) is not modelled.
- HomepageHeader.LanguageCode: it inherits the ASCII-only upper-casing of `UpperCase`.
- The `storage` event reaches a page only for writes made by other pages of the origin. The model exposes `HandleStorage` as a method the environment may call at any time.
- axios merges header names case-insensitively. `WithBearer` treats `Authorization` as an exact key.
- `JSON.stringify` is modelled for records whose fields are strings or missing. A Google success stores such a record; a form login stores whatever the backend sent.
- Backend user fields (`fullname`, `email`, `role`) are assumed to be strings or undefined. A null or non-string name or email is not representable in `BackendUser`: the code would store `"email":null` and greet a null name as `null!`, neither of which the model produces.
- Interleavings during the `await` of `handleSubmit` are not constrained: `SettleSubmit` may follow `BeginSubmit` after any other handler has run. Unmounting the login page is not modelled; in the code the store write and the delayed navigation still happen after an unmount.
- `Login.js` handles only the OAuth report carried in the fragment; it has no query-string token return, and its role default is `"students"`.
- The fragment report's `role` parameter is ignored by the code: a Google success always stores the role `"students"`. The model follows the code.
- Nothing in the core writes `userRole` or `token`, and the login page writes `authUser`, which the header never reads. The model keeps these keys apart as the code does.
- The profile avatar link, the remaining files of the application (admin, staff and company pages, the routing table apart from its use of `HashRouter`) are not part of this model.
