/**
 * The category lister: a POST handler that authenticates against the provider,
 * fetches the live-TV categories, drops the ones without a usable name and
 * returns the rest sorted by name, together with the provider's server_info.
 */
module GetCategories {
  import opened Wrappers
  import opened Text
  import opened Http
  import opened Xtream

  const AuthFailedMessage := "Failed to authenticate with Xtream server"
  const InvalidCredentialsMessage := "Invalid credentials or authentication failed"
  const CategoriesFailedMessage := "Failed to fetch categories"

  /** The JSON body of the request; a field that is absent is None. */
  datatype CategoriesRequest = CategoriesRequest(url: Option<string>, username: Option<string>, password: Option<string>)

  /** The JSON body of a successful answer; `serverInfo` is None when the provider sent none. */
  datatype Listing = Listing(success: bool, categories: seq<Category>, serverInfo: Option<ServerInfo>)

  predicate MissingAny(req: CategoriesRequest) {
    Missing(req.url) || Missing(req.username) || Missing(req.password)
  }

  // ---------------------------------------------------------------------------
  // URL cleaning

  /** `url.replace(/\/$/, '')`: the pattern is anchored at the end, so at most one `/` goes. */
  function StripTrailingSlash(s: string): (r: string)
    ensures |s| > 0 && s[|s| - 1] == '/' ==> s == r + "/"
    ensures |s| == 0 || s[|s| - 1] != '/' ==> r == s
  {
    if |s| > 0 && s[|s| - 1] == '/' then s[..|s| - 1] else s
  }

  /** Only one slash is removed: a URL ending in two keeps the first of them. */
  lemma StripOneSlashOnly(s: string)
    ensures StripTrailingSlash(s + "//") == s + "/"
  {
    assert (s + "//")[..|s| + 1] == s + "/";
  }

  /** Cleaning twice differs from cleaning once exactly when the URL ends in two slashes. */
  lemma StripNotIdempotent(s: string)
    ensures StripTrailingSlash(StripTrailingSlash(s)) == StripTrailingSlash(s)
      <==> !(|s| >= 2 && s[|s| - 1] == '/' && s[|s| - 2] == '/')
  {
    if |s| >= 1 && s[|s| - 1] == '/' {
      var r := StripTrailingSlash(s);
      assert s == r + "/";
      assert |r| >= 1 ==> r[|r| - 1] == s[|s| - 2];
    }
  }

  /** The credentials the provider is called with: the cleaned URL and the two names as given. */
  function CleanCredentials(req: CategoriesRequest): Credentials
    requires !MissingAny(req)
  {
    Credentials(StripTrailingSlash(req.url.value), req.username.value, req.password.value)
  }

  // ---------------------------------------------------------------------------
  // Authentication

  /** The provider accepted the credentials: `user_info` is present and its `auth` is the number 1. */
  predicate Accepted(auth: AuthResponse) {
    auth.userInfo.Some? && auth.userInfo.value.auth == Some(1)
  }

  // ---------------------------------------------------------------------------
  // Name filter

  /** `cat.category_name && cat.category_name.trim() !== ''`. */
  predicate HasName(c: Category) {
    c.categoryName != "" && Trim(c.categoryName) != ""
  }

  /** A category is kept exactly when its name has a character that is not whitespace. */
  lemma HasNameMeaning(c: Category)
    ensures HasName(c) <==> exists i :: 0 <= i < |c.categoryName| && !IsWhitespace(c.categoryName[i])
  {
    TrimEmptyIffBlank(c.categoryName);
  }

  /** The categories with a usable name, in input order, each as often as it occurs. */
  function NamedOnly(cs: seq<Category>): (r: seq<Category>)
    ensures forall c :: c in r <==> c in cs && HasName(c)
    ensures forall c :: multiset(r)[c] == if HasName(c) then multiset(cs)[c] else 0
  {
    if cs == [] then []
    else
      assert cs == [cs[0]] + cs[1..];
      if HasName(cs[0]) then [cs[0]] + NamedOnly(cs[1..]) else NamedOnly(cs[1..])
  }

  // ---------------------------------------------------------------------------
  // Sort by name

  /**
   * `le(a, b)` stands for `a.localeCompare(b) <= 0`. The locale's order is not
   * modelled; the properties of the sort hold for any total preorder.
   */
  ghost predicate Total(le: (string, string) -> bool) {
    forall a, b :: le(a, b) || le(b, a)
  }

  ghost predicate Transitive(le: (string, string) -> bool) {
    forall a, b, c :: le(a, b) && le(b, c) ==> le(a, c)
  }

  ghost predicate TotalPreorder(le: (string, string) -> bool) {
    Total(le) && Transitive(le)
  }

  /** Each category sorts no later than the next one. */
  predicate SortedByName(cs: seq<Category>, le: (string, string) -> bool) {
    forall i :: 0 < i < |cs| ==> le(cs[i - 1].categoryName, cs[i].categoryName)
  }

  /** Puts `c` in front of the first category it sorts no later than. */
  function Insert(c: Category, cs: seq<Category>, le: (string, string) -> bool): (r: seq<Category>)
    ensures multiset(r) == multiset(cs) + multiset{c}
    ensures |r| == |cs| + 1 && (r[0] == c || (cs != [] && r[0] == cs[0]))
  {
    if cs == [] then [c]
    else if le(c.categoryName, cs[0].categoryName) then [c] + cs
    else
      assert cs == [cs[0]] + cs[1..];
      [cs[0]] + Insert(c, cs[1..], le)
  }

  /** The comparator-driven sort of the filtered list (an insertion sort stands for the engine's). */
  function SortByName(cs: seq<Category>, le: (string, string) -> bool): (r: seq<Category>)
    ensures multiset(r) == multiset(cs)
  {
    if cs == [] then []
    else
      assert cs == [cs[0]] + cs[1..];
      Insert(cs[0], SortByName(cs[1..], le), le)
  }

  lemma {:induction false} InsertSorted(c: Category, cs: seq<Category>, le: (string, string) -> bool)
    requires Total(le)
    requires SortedByName(cs, le)
    ensures SortedByName(Insert(c, cs, le), le)
  {
    if cs != [] && !le(c.categoryName, cs[0].categoryName) {
      var rest := Insert(c, cs[1..], le);
      InsertSorted(c, cs[1..], le);
      var r := [cs[0]] + rest;
      assert le(cs[0].categoryName, rest[0].categoryName) by {
        if rest[0] != c {
          assert rest[0] == cs[1];
        }
      }
      forall i | 0 < i < |r|
        ensures le(r[i - 1].categoryName, r[i].categoryName)
      {
        if i > 1 {
          assert r[i - 1] == rest[i - 2] && r[i] == rest[i - 1];
        }
      }
    }
  }

  lemma {:induction false} SortByNameSorted(cs: seq<Category>, le: (string, string) -> bool)
    requires Total(le)
    ensures SortedByName(SortByName(cs, le), le)
  {
    if cs != [] {
      SortByNameSorted(cs[1..], le);
      InsertSorted(cs[0], SortByName(cs[1..], le), le);
    }
  }

  /** Under a transitive comparator, sorted neighbours make every earlier category sort no later. */
  lemma {:induction false} SortedPairwise(cs: seq<Category>, le: (string, string) -> bool)
    requires Transitive(le)
    requires SortedByName(cs, le)
    ensures forall i, j :: 0 <= i < j < |cs| ==> le(cs[i].categoryName, cs[j].categoryName)
  {
    if |cs| > 1 {
      var tail := cs[1..];
      assert SortedByName(tail, le) by {
        forall i | 0 < i < |tail| ensures le(tail[i - 1].categoryName, tail[i].categoryName) {
          assert tail[i - 1] == cs[i] && tail[i] == cs[i + 1];
        }
      }
      SortedPairwise(tail, le);
      forall i, j | 0 <= i < j < |cs|
        ensures le(cs[i].categoryName, cs[j].categoryName)
      {
        if i == 0 && j > 1 {
          assert le(cs[1].categoryName, cs[j].categoryName) by {
            assert cs[1] == tail[0] && cs[j] == tail[j - 1];
          }
        } else if i > 0 {
          assert cs[i] == tail[i - 1] && cs[j] == tail[j - 1];
        }
      }
    }
  }

  // ---------------------------------------------------------------------------
  // The handler

  /**
   * Answers one category request. The two replies are what the authentication
   * and the categories requests would return, consulted only if those requests
   * are made; `le` stands for `localeCompare`.
   */
  function HandleCategories(
    verb: string,
    req: CategoriesRequest,
    authReply: Reply<AuthResponse>,
    categoriesReply: Reply<seq<Category>>,
    le: (string, string) -> bool): (ex: Exchange<Listing>)
    ensures ex.fetched == [] <==> verb != "POST" || MissingAny(req)
    ensures |ex.fetched| <= 2
    ensures verb == "POST" && !MissingAny(req) && !authReply.Received? ==>
      ex == Exchange([ApiUrl(CleanCredentials(req))], ServerError(FailureMessage(authReply, AuthFailedMessage)))
    ensures verb == "POST" && !MissingAny(req) && authReply.Received? && Accepted(authReply.body) && !categoriesReply.Received? ==>
      ex == Exchange([ApiUrl(CleanCredentials(req)), CategoriesUrl(CleanCredentials(req))],
        ServerError(FailureMessage(categoriesReply, CategoriesFailedMessage)))
    ensures verb == "POST" && !MissingAny(req) && authReply.Received? && Accepted(authReply.body) && categoriesReply.Received? ==>
      ex.response.Success?
    ensures ex.response.Success? ==>
      && authReply.Received? && Accepted(authReply.body)
      && categoriesReply.Received?
      && ex.response.body.success
      && ex.response.body.serverInfo == authReply.body.serverInfo
  {
    if verb != "POST" then Exchange([], MethodNotAllowed)
    else if MissingAny(req) then Exchange([], MissingParameters)
    else
      var cred := CleanCredentials(req);
      if !authReply.Received? then
        Exchange([ApiUrl(cred)], ServerError(FailureMessage(authReply, AuthFailedMessage)))
      else if !Accepted(authReply.body) then
        Exchange([ApiUrl(cred)], ServerError(InvalidCredentialsMessage))
      else if !categoriesReply.Received? then
        Exchange([ApiUrl(cred), CategoriesUrl(cred)], ServerError(FailureMessage(categoriesReply, CategoriesFailedMessage)))
      else
        var listed := SortByName(NamedOnly(categoriesReply.body), le);
        Exchange([ApiUrl(cred), CategoriesUrl(cred)], Success(Listing(true, listed, authReply.body.serverInfo)))
  }

  /** The method is checked first, the parameters second, and neither failure reaches the provider. */
  lemma GuardsBeforeFetch(
    verb: string, req: CategoriesRequest, authReply: Reply<AuthResponse>,
    categoriesReply: Reply<seq<Category>>, le: (string, string) -> bool)
    ensures var ex := HandleCategories(verb, req, authReply, categoriesReply, le);
      && (verb != "POST" ==>
            && ex == Exchange([], MethodNotAllowed) && ex.response.Status() == 405
            && ex.response.ErrorMessage() == MethodNotAllowedMessage)
      && (verb == "POST" && MissingAny(req) ==>
            && ex == Exchange([], MissingParameters) && ex.response.Status() == 400
            && ex.response.ErrorMessage() == MissingParametersMessage)
  {
  }

  /**
   * The categories are requested only after an accepted authentication; a reply
   * without `user_info`, or with `auth` other than 1, ends in a 500 with the
   * invalid-credentials message after the single authentication request.
   */
  lemma AuthGate(
    verb: string, req: CategoriesRequest, authReply: Reply<AuthResponse>,
    categoriesReply: Reply<seq<Category>>, le: (string, string) -> bool)
    requires verb == "POST" && !MissingAny(req)
    ensures var ex := HandleCategories(verb, req, authReply, categoriesReply, le);
      && (ex.fetched == [ApiUrl(CleanCredentials(req))]
          <==> !authReply.Received? || !Accepted(authReply.body))
      && (authReply.Received? && !Accepted(authReply.body) ==>
            ex.response == ServerError(InvalidCredentialsMessage))
      && (authReply.Received? && Accepted(authReply.body) ==>
            ex.fetched == [ApiUrl(CleanCredentials(req)), CategoriesUrl(CleanCredentials(req))])
  {
    var cred := CleanCredentials(req);
    assert |CategoriesUrl(cred)| > |ApiUrl(cred)|;
  }

  /**
   * A successful answer lists exactly the input categories that have a usable
   * name, as a permutation of the filtered list, sorted by name.
   */
  lemma ListingContents(
    verb: string, req: CategoriesRequest, authReply: Reply<AuthResponse>,
    categoriesReply: Reply<seq<Category>>, le: (string, string) -> bool)
    requires TotalPreorder(le)
    ensures var ex := HandleCategories(verb, req, authReply, categoriesReply, le);
      ex.response.Success? ==>
        var out := ex.response.body.categories;
        && (forall c :: c in out <==> c in categoriesReply.body && HasName(c))
        && multiset(out) == multiset(NamedOnly(categoriesReply.body))
        && forall i, j :: 0 <= i < j < |out| ==> le(out[i].categoryName, out[j].categoryName)
  {
    if categoriesReply.Received? {
      var filtered := NamedOnly(categoriesReply.body);
      SortByNameSorted(filtered, le);
      var out := SortByName(filtered, le);
      SortedPairwise(out, le);
      forall c ensures c in out <==> c in filtered {
        assert c in out <==> c in multiset(out);
      }
    }
  }
}
