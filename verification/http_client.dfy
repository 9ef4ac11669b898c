/**
 * The request interceptor of the shared axios instance: before each request
 * it reads the `token` key of localStorage and, when that is a non-empty
 * string, sets the Authorization header to a bearer credential (section 2.1
 * of RFC 6750). A failure raised before the request is passed on unchanged.
 */
module HttpClient {
  import opened Wrappers
  import Storage

  const TokenKey: string := "token"
  const AuthorizationHeader: string := "Authorization"
  const BearerPrefix: string := "Bearer "

  /** The request config axios hands to the interceptor; it is changed in place and returned. */
  class RequestConfig {
    var url: string
    var httpMethod: string
    var headers: map<string, string>
    var data: Option<string>

    constructor (url: string, httpMethod: string, headers: map<string, string>, data: Option<string>)
      ensures this.url == url && this.httpMethod == httpMethod && this.headers == headers && this.data == data
    {
      this.url := url;
      this.httpMethod := httpMethod;
      this.headers := headers;
      this.data := data;
    }
  }

  /** The headers after the interceptor, given what getItem("token") returned. */
  function WithBearer(headers: map<string, string>, token: Option<string>): (r: map<string, string>)
    ensures Storage.Truthy(token) ==> AuthorizationHeader in r && r[AuthorizationHeader] == BearerPrefix + token.value
    ensures !Storage.Truthy(token) ==> r == headers
    ensures forall k :: k != AuthorizationHeader ==> Storage.Lookup(r, k) == Storage.Lookup(headers, k)
  {
    if Storage.Truthy(token) then headers[AuthorizationHeader := BearerPrefix + token.value] else headers
  }

  /** Running the interceptor twice with the same token is the same as running it once. */
  lemma BearerIdempotent(headers: map<string, string>, token: Option<string>)
    ensures WithBearer(WithBearer(headers, token), token) == WithBearer(headers, token)
  {
  }

  /** The token can be read back from the header: strip the "Bearer " prefix. */
  lemma BearerCarriesToken(headers: map<string, string>, token: Option<string>)
    requires Storage.Truthy(token)
    ensures var value := WithBearer(headers, token)[AuthorizationHeader];
      && |value| > |BearerPrefix|
      && value[..|BearerPrefix|] == BearerPrefix
      && value[|BearerPrefix|..] == token.value
  {
    var value := WithBearer(headers, token)[AuthorizationHeader];
    assert value == BearerPrefix + token.value;
  }

  /** The header set depends on the stored token only: two tokens that set the same header are the same token. */
  lemma BearerInjective(headers: map<string, string>, t1: Option<string>, t2: Option<string>)
    requires Storage.Truthy(t1) && Storage.Truthy(t2)
    requires WithBearer(headers, t1) == WithBearer(headers, t2)
    ensures t1 == t2
  {
    BearerCarriesToken(headers, t1);
    BearerCarriesToken(headers, t2);
  }

  /** The request interceptor: reads the store, sets the header in place, returns the same config. */
  method OnRequest(config: RequestConfig, store: Storage.LocalStorage) returns (r: RequestConfig)
    modifies config
    ensures r == config
    ensures config.headers == WithBearer(old(config.headers), Storage.Lookup(store.items, TokenKey))
    ensures config.url == old(config.url) && config.httpMethod == old(config.httpMethod) && config.data == old(config.data)
    ensures unchanged(store)
  {
    var token := store.GetItem(TokenKey);
    if Storage.Truthy(token) {
      config.headers := config.headers[AuthorizationHeader := BearerPrefix + token.value];
    }
    r := config;
  }

  /** How a step of the request chain settles. */
  datatype Settlement<T, E> = Fulfilled(value: T) | Rejected(reason: E)

  /** The request-error handler, Promise.reject(error): the chain stays rejected with the same reason. */
  function OnRequestError<T, E>(error: E): (r: Settlement<T, E>)
    ensures r.Rejected? && r.reason == error
  {
    Rejected(error)
  }
}
