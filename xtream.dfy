/** The records the Xtream-Codes provider API returns, and the URLs the handlers request from it. */
module Xtream {
  import opened Wrappers

  /** A live-TV category; a missing `category_name` or `category_id` is represented by "". */
  datatype Category = Category(categoryId: string, categoryName: string, parentId: int)

  /**
   * A live channel. Text fields the provider leaves out are represented by "",
   * which is how every `x || ''` and `x || fallback` in the handlers treats them.
   * A missing or null `category_id` is represented by "" as well, although
   * `includes` and `Map.get` would tell it apart from "".
   */
  datatype Channel = Channel(
    num: int,
    name: string,
    streamType: string,
    streamId: int,
    streamIcon: string,
    epgChannelId: string,
    added: string,
    categoryId: string,
    customSid: string,
    tvArchive: int,
    directSource: string,
    tvArchiveDuration: int)

  /** The part of `user_info` the handlers consult: `auth`, None when missing or not a number. */
  datatype UserInfo = UserInfo(auth: Option<int>)

  datatype ServerInfo = ServerInfo(
    url: string,
    port: string,
    httpsPort: string,
    serverProtocol: string,
    rtmpPort: string,
    timezone: string,
    timestampNow: int)

  /** The body of the authentication call to the base endpoint. */
  datatype AuthResponse = AuthResponse(userInfo: Option<UserInfo>, serverInfo: Option<ServerInfo>)

  /** Where and as whom the provider is called. */
  datatype Credentials = Credentials(url: string, username: string, password: string)

  /** The base endpoint with the credentials as query parameters (the authentication call). */
  function ApiUrl(c: Credentials): string {
    c.url + "/player_api.php?username=" + c.username + "&password=" + c.password
  }

  function CategoriesUrl(c: Credentials): string {
    ApiUrl(c) + "&action=get_live_categories"
  }

  function StreamsUrl(c: Credentials): string {
    ApiUrl(c) + "&action=get_live_streams"
  }
}
