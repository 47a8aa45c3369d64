# scooby-live-sony: the playlist and category endpoints, modelled in Dafny

scooby-live-sony is a small Next.js web application in front of an Xtream-Codes
IPTV provider. This project models its two API handlers:

- **`GET /api/serve-m3u`** takes the provider URL, user name, password and an optional
  category filter from the query string. It fetches the provider's live categories and
  live streams. It then writes an extended-M3U playlist: the `#EXTM3U` header, then for
  each retained stream an `#EXTINF:-1` line with `tvg-id`, `tvg-name`, `tvg-logo` and
  `group-title` attributes and the sanitised title, followed by the stream's direct URL.
  The header and entry tags are those of sections 4.3.1.1 and 4.3.2.1 of RFC 8216.
- **`POST /api/get-categories`** takes the same credentials from the JSON body and strips
  one trailing `/` from the URL. It authenticates against the provider and accepts only
  `user_info.auth === 1`. It then fetches the live categories, drops those with a missing
  or blank name, and returns the rest sorted by name together with the provider's
  `server_info`.

Files:

| file | contents |
|---|---|
| `wrappers.dfy` | `Option` |
| `http.dfy` | the handler outcomes: 405, 400, 500 with a message, or 200 with a body. An `Exchange` pairs the outcome with the list of provider URLs the handler requested, in order, so "before any fetch" and "the categories are not fetched" are statable. `Reply` is what one `fetch` plus `.json()` gives back: thrown, not ok, or a body. |
| `xtream.dfy` | the provider's records (category, channel, authentication response, server info) and the `player_api.php` URLs |
| `text.dfy` | JavaScript `trim` with the ECMAScript whitespace set, the decimal rendering of an integral number in a template literal, and splitting text into lines so the playlist can be read back |
| `serve_m3u.dfy` | the playlist handler. It is a method in the handler's own step-by-step form: the category map is filled by a loop and the document is accumulated by a loop. Both loops are proved against the functions `CategoryMap` and `PlaylistText`, and the properties are lemmas about those functions. |
| `get_categories.dfy` | the category handler as a function. The filter and sort are specification functions with lemmas. `localeCompare` is a comparator parameter `le`, where `le(a, b)` means `a.localeCompare(b) <= 0`. |

Upstream calls and library calls are parameters:

- Each provider reply is a `Reply` argument. It is consulted only if the handler gets as far as that request.
- `decodeURIComponent` applied to `url` is a function argument. `None` stands for the URIError it throws.
- The category filter arrives already URI-decoded and JSON-parsed. It is `None` when it is absent, empty or does not parse.

A text field the provider leaves out is represented by `""`. That is how every `x || ''`
and `x || fallback` in the handlers treats it. A missing or null `category_id` is
represented by `""` too, which the handlers do not always treat alike (see "## Left out").

## Model

| member | source | states |
|---|---|---|
| ServeM3u.Serve | pages/api/serve-m3u.ts:28-118 | Checks in source order. A method other than GET gives 405 "Method not allowed" and a missing or empty `url`, `u` or `p` gives 400 "Missing required parameters"; neither requests anything. A malformed `url` gives 500 "URI malformed" with no request. A failed categories request gives 500 after that one request, with the thrown message or "Failed to fetch categories". A failed streams request gives 500 after both requests, with the thrown message or "Failed to fetch streams". Otherwise the answer is 200 with the playlist of the retained streams. |
| ServeM3u.CategoryMap | pages/api/serve-m3u.ts:63-67 | The category map's keys are exactly the ids of the fetched categories. |
| ServeM3u.BuildCategoryMap | pages/api/serve-m3u.ts:63-67 | The `forEach`/`set` loop leaves exactly `CategoryMap` of the categories. |
| ServeM3u.CategoryMapLastWins | pages/api/serve-m3u.ts:65-67 | An id that occurs several times maps to the name of its last occurrence. |
| ServeM3u.KeptFrom | pages/api/serve-m3u.ts:81 | `filter(stream => categories.includes(stream.category_id))` from a position on; it is never longer than what it filters. |
| ServeM3u.FilterIds | pages/api/serve-m3u.ts:44-52 | Definition: the filter list, or the empty list when the filter is absent, empty or does not parse (the `let categories = []` default). |
| ServeM3u.KeptFromMembers | pages/api/serve-m3u.ts:80-81 | `filter` keeps a stream exactly when it is in the input and its category id is listed. |
| ServeM3u.KeptPositionsIncrease | pages/api/serve-m3u.ts:80-81 | The positions of the kept streams strictly increase. |
| ServeM3u.KeptPositionsListed | pages/api/serve-m3u.ts:80-81 | A position is among the kept positions exactly when the stream there has a listed category id. |
| ServeM3u.KeptExactly | pages/api/serve-m3u.ts:80-81 | The kept streams are, one for one, the streams at the kept positions. |
| ServeM3u.Retained | pages/api/serve-m3u.ts:80-82 | An absent, unparsable or empty filter keeps every stream in provider order. A non-empty filter keeps exactly the streams whose category id it lists. |
| ServeM3u.RetainedOrder | pages/api/serve-m3u.ts:80-82 | With a non-empty filter, the retained list is the order-preserving subsequence of the listed streams. Its positions strictly increase and cover every listed stream and no other. |
| ServeM3u.ReplaceForbidden | pages/api/serve-m3u.ts:94-95 | The `replace(/[,\n\r]/g, ' ')` result has the same length and no comma, newline or carriage return, and a name without those characters is left unchanged. |
| ServeM3u.Sanitize | pages/api/serve-m3u.ts:94-95 | A sanitised name has no comma, newline or carriage return, no whitespace at either end, and is no longer than the input. |
| ServeM3u.SanitizeFixedPoint | pages/api/serve-m3u.ts:93-95 | Sanitising writes a name unchanged exactly when it has no comma, newline or carriage return and no whitespace at either end: only the problematic characters are removed. |
| ServeM3u.SanitizeIdempotent | pages/api/serve-m3u.ts:94-95 | Sanitising a sanitised name changes nothing. |
| ServeM3u.DisplayName | pages/api/serve-m3u.ts:89 | `stream.name \|\| \`Channel ${stream_id}\``: a non-empty name is used as it is, and the result is never empty. |
| ServeM3u.GroupName | pages/api/serve-m3u.ts:88 | `categoryMap.get(id) \|\| 'Unknown'`: a mapped non-empty name is used as it is, and the result is never empty. |
| ServeM3u.UnknownGroupSanitized | pages/api/serve-m3u.ts:88-95 | The fallback group `Unknown` is written unchanged by sanitising. |
| ServeM3u.BlankNameSanitizesToEmpty | pages/api/serve-m3u.ts:89-94 | A whitespace-only stream name is not replaced by the `Channel <id>` label. It sanitises to "". |
| ServeM3u.NamelessChannelLabel | pages/api/serve-m3u.ts:89-94 | A stream with an empty name is titled `Channel <stream_id>` for every id, and sanitising leaves that label unchanged. |
| ServeM3u.UnmappedGroupUnknown | pages/api/serve-m3u.ts:88-95 | A stream whose category id is unmapped, or maps to "", is grouped under `Unknown`. |
| ServeM3u.FallbackExample | pages/api/serve-m3u.ts:88-95 | A stream with an empty name, id 42 and an unmapped category gets title `Channel 42` and group `Unknown`. |
| ServeM3u.StreamUrl | pages/api/serve-m3u.ts:101 | The playback URL `<decodedUrl>/live/<user>/<pass>/<stream_id>.ts` starts with the decoded base URL as given (no slash is stripped here) and ends in `.ts`. |
| ServeM3u.FieldsOf | pages/api/serve-m3u.ts:88-101 | Per stream, the EPG id and logo are written as given, and the title and group are sanitised names with no comma, newline or carriage return. |
| ServeM3u.ExtinfAttributes | pages/api/serve-m3u.ts:98 | Definition: `#EXTINF:-1` with the `tvg-id`, `tvg-name`, `tvg-logo` and `group-title` attributes in that order, values in double quotes. |
| ServeM3u.ExtinfLine | pages/api/serve-m3u.ts:98 | Definition: the attributes, a comma and the sanitised title; ExtinfTitle and ExtinfLineSafe state its properties. |
| ServeM3u.AllFields | pages/api/serve-m3u.ts:87-101 | The per-stream values of every retained stream, one for each; AllFieldsAt gives entry k. |
| ServeM3u.AllFieldsAt | pages/api/serve-m3u.ts:87-101 | The k-th entry's values (epg id, title, logo, group, URL) are computed from the k-th retained stream. |
| ServeM3u.MetadataLine | pages/api/serve-m3u.ts:98 | Definition: the `#EXTINF` line and its newline, the text of the first `+=`; ExtinfLineSafe and EntrySplit state its properties. |
| ServeM3u.UrlLine | pages/api/serve-m3u.ts:102 | Definition: the stream URL and its newline, the text of the second `+=`. |
| ServeM3u.Entry | pages/api/serve-m3u.ts:98-102 | Definition: one stream's two lines; EntrySplit states that it reads back as exactly those two lines. |
| ServeM3u.Entries | pages/api/serve-m3u.ts:97-102 | The entries text ends with a newline, and it is empty exactly when there are no streams. |
| ServeM3u.EntriesSnoc | pages/api/serve-m3u.ts:87-102 | One more stream appends exactly its two lines to the entries text. |
| ServeM3u.PlaylistText | pages/api/serve-m3u.ts:85-103 | The document always starts with `#EXTM3U\n`. It is exactly that header when no stream is retained. |
| ServeM3u.RenderPlaylist | pages/api/serve-m3u.ts:85-103 | The `+=` loop produces exactly `PlaylistText`: the header, then the metadata and URL lines of each stream in order. |
| ServeM3u.RenderStep | pages/api/serve-m3u.ts:97-102 | One iteration's two appends turn the entries of the first i streams into the entries of the first i+1. |
| ServeM3u.DocumentLines | pages/api/serve-m3u.ts:85-103 | The document has 1 + 2n lines. |
| ServeM3u.DocumentLinesHead | pages/api/serve-m3u.ts:85 | The first line is the header. |
| ServeM3u.DocumentLinesAt | pages/api/serve-m3u.ts:97-102 | Line 1+2k is stream k's metadata line and line 2+2k is its URL. |
| ServeM3u.FieldsOfLineSafe | pages/api/serve-m3u.ts:88-101 | When the credentials, epg id and logo have no newline, none of the written values has one. The title and group are newline-free by sanitising, and the id is digits. |
| ServeM3u.AllFieldsLineSafe | pages/api/serve-m3u.ts:87-101 | The same holds for every retained stream. |
| ServeM3u.ExtinfLineSafe | pages/api/serve-m3u.ts:98 | A metadata line built from newline-free values has no newline. |
| ServeM3u.EntrySplit | pages/api/serve-m3u.ts:97-102 | One stream's text reads back as exactly two lines: its metadata line and its URL. |
| ServeM3u.DocumentSplit | pages/api/serve-m3u.ts:85-103 | The whole document reads back as the header line followed by two lines per stream. |
| ServeM3u.PlaylistLines | pages/api/serve-m3u.ts:85-103 | With newline-free unsanitised fields, the document is 1 + 2n lines. Line 0 is `#EXTM3U`. Line 1+2k is the `#EXTINF` line of retained stream k. Line 2+2k is `<url>/live/<user>/<pass>/<stream_id>.ts`. |
| ServeM3u.ExtinfTitle | pages/api/serve-m3u.ts:98 | A player that takes the title after the last comma of the `#EXTINF` line reads exactly the sanitised channel name. |
| Text.TrimStart | pages/api/serve-m3u.ts:94 | Definition: drops leading ECMAScript whitespace; TrimStartSuffix states its properties. |
| Text.TrimEnd | pages/api/serve-m3u.ts:94 | Definition: drops trailing ECMAScript whitespace; TrimEndPrefix states its properties. |
| Text.Trim | pages/api/get-categories.ts:77 | Definition of `.trim()` as both of the above; TrimSlice, TrimEmptyIffBlank and TrimFixedPoint state its properties. |
| Text.TrimStartSuffix | pages/api/serve-m3u.ts:94 | Removing leading whitespace leaves a suffix, removes only whitespace, and stops at a non-whitespace character. |
| Text.TrimEndPrefix | pages/api/serve-m3u.ts:94 | Removing trailing whitespace leaves a prefix, removes only whitespace, and stops at a non-whitespace character. |
| Text.TrimSlice | pages/api/serve-m3u.ts:94 | `trim()` is the slice between the first and the last non-whitespace character. Only whitespace lies outside it. |
| Text.TrimEmptyIffBlank | pages/api/get-categories.ts:77 | `trim()` gives "" exactly when the string is all whitespace. |
| Text.TrimFixedPoint | pages/api/serve-m3u.ts:94 | `trim()` leaves a string unchanged exactly when neither end is whitespace. |
| Text.NatDigits | pages/api/serve-m3u.ts:89 | A non-negative id renders as at least one decimal digit. |
| Text.NatDigitsNoLeadingZero | pages/api/serve-m3u.ts:89 | Only 0 renders with a leading zero. |
| Text.NatDigitsRoundTrip | pages/api/serve-m3u.ts:89 | Reading the digits back gives the number. |
| Text.Decimal | pages/api/serve-m3u.ts:101 | A safe integer id (magnitude at most 2^53) renders as a non-empty numeral: digits, with a minus sign only in front. |
| Text.DecimalRoundTrip | pages/api/serve-m3u.ts:101 | For the safe-integer ids it models, the rendering reads back as the number: a minus sign and the digits of the magnitude for negatives. |
| Xtream.ApiUrl | pages/api/get-categories.ts:52 | Definition: `<url>/player_api.php?username=<user>&password=<pass>`, the authentication request. |
| Xtream.CategoriesUrl | pages/api/get-categories.ts:66 | Definition: the base request with `&action=get_live_categories` (also serve-m3u.ts line 55). |
| Xtream.StreamsUrl | pages/api/serve-m3u.ts:70 | Definition: the base request with `&action=get_live_streams`. |
| Http.Missing | pages/api/serve-m3u.ts:34 | Definition: JavaScript `!x` on a parameter, absent or ""; used by both handlers' 400 check (also get-categories.ts line 43). |
| Http.FailureMessage | pages/api/serve-m3u.ts:113-118 | Definition: the `error.message` the catch block sends, the thrown message or the handler's own not-ok message (also get-categories.ts lines 86-91). |
| GetCategories.MissingAny | pages/api/get-categories.ts:43 | Definition: `!url \|\| !username \|\| !password`; GuardsBeforeFetch states that it gives 400 before any request. |
| GetCategories.StripTrailingSlash | pages/api/get-categories.ts:49 | A URL ending in `/` loses exactly that one `/`. Any other URL is unchanged. |
| GetCategories.StripOneSlashOnly | pages/api/get-categories.ts:49 | `a//` becomes `a/`: only one slash is removed. |
| GetCategories.StripNotIdempotent | pages/api/get-categories.ts:49 | Cleaning twice equals cleaning once exactly when the URL does not end in two slashes. |
| GetCategories.CleanCredentials | pages/api/get-categories.ts:49-52 | Definition: the cleaned URL with the user name and password as given, for the provider calls. |
| GetCategories.Accepted | pages/api/get-categories.ts:61 | Definition: `user_info` present and `auth === 1`; AuthGate states what follows from it. |
| GetCategories.HasName | pages/api/get-categories.ts:77 | Definition: `category_name && category_name.trim() !== ''`; HasNameMeaning states what it means. |
| GetCategories.HasNameMeaning | pages/api/get-categories.ts:77 | A category passes the name filter exactly when its name has a non-whitespace character. |
| GetCategories.NamedOnly | pages/api/get-categories.ts:76-77 | The filter is sound and complete. Every kept category has a usable name. Every input category with one is kept, as often as it occurs. |
| GetCategories.Insert | pages/api/get-categories.ts:78 | Inserting adds exactly that one category. |
| GetCategories.SortByName | pages/api/get-categories.ts:78 | The sorted list is a permutation of the filtered list. |
| GetCategories.InsertSorted | pages/api/get-categories.ts:78 | Under a total comparator, inserting into a sorted list keeps it sorted. |
| GetCategories.SortByNameSorted | pages/api/get-categories.ts:78 | Under a total comparator, each category sorts no later than the next. |
| GetCategories.SortedPairwise | pages/api/get-categories.ts:78 | Under a transitive comparator, every earlier category sorts no later than every later one. |
| GetCategories.HandleCategories | pages/api/get-categories.ts:37-91 | Nothing is requested exactly when the method is not POST or a parameter is missing. At most two requests are made. A failed authentication request gives 500 after that one request, with the thrown message or "Failed to authenticate with Xtream server". After an accepted authentication, a failed categories request gives 500 after both requests, with the thrown message or "Failed to fetch categories". An accepted authentication followed by a received category list gives 200, and a 200 needs an accepted authentication and a received category list, and carries `success: true` and the authentication response's `server_info` unchanged. |
| GetCategories.GuardsBeforeFetch | pages/api/get-categories.ts:37-45 | A method other than POST gives 405 "Method not allowed". A missing or empty `url`, `username` or `password` gives 400 "Missing required parameters". Neither makes a request. |
| GetCategories.AuthGate | pages/api/get-categories.ts:51-68 | Only the authentication request is made exactly when its reply fails or is not accepted. A reply without `user_info`, or with `auth` other than 1, gives 500 "Invalid credentials or authentication failed" and the categories are not fetched. After an accepted authentication the categories URL is requested second. |
| GetCategories.ListingContents | pages/api/get-categories.ts:76-84 | A 200 lists exactly the input categories with a usable name. The list is a permutation of the filtered list and is sorted by name under any total preorder. |

## Left out

- `fetch`, `res.status/json/send/setHeader` and the Next.js request object are I/O. Provider replies are parameters, and the response is a value.
- `decodeURIComponent` and `JSON.parse` are library calls. The first is a function parameter; the second's result is the pre-parsed filter.
- A filter that parses to something other than an array of strings is not modelled. For example, a JSON string would make `includes` a substring test.
- Array-valued query parameters are not modelled. The source takes the first element; the model has one optional string per parameter.
- Non-string request-body values in get-categories are not modelled. For example, a numeric `url` makes `replace` throw.
- Category names of a non-string type are not modelled. `trim` would throw on them.
- The fallback messages for a thrown value that is not an `Error` ("Failed to serve M3U playlist", "Failed to fetch categories") are not modelled: every failure in the model carries a message.
- `Date.now()` in the attachment file name, the Content-Type and Cache-Control headers, and the `console` logs have no behaviour to verify.
- The locale order of `localeCompare` is an abstract comparator. The properties hold for any total preorder.
- GetCategories.SortByName: an insertion sort stands for the engine's sort. It inserts each category before the first one it sorts no later than, so it is stable, as ECMAScript 2019 and later require of `Array.prototype.sort`. No lemma states stability; the result is claimed only to be sorted and a permutation.
- Text.Decimal: only integral `stream_id` values that are safe integers (magnitude at most 2^53) are modelled. A fractional or non-numeric id would render differently in the template literal. A larger integral id is rendered here with its exact digits, whereas JavaScript writes the shortest round-tripping digits padded with zeros below 10^21 (2^60 becomes `1152921504606847000`) and exponent notation (`1e+21`) from 10^21 on; the `Channel <id>` label and the stream URL differ for such ids, and DecimalRoundTrip says nothing about the program there.
- A missing or null `category_id` on a stream or a category is represented by "". The source does not always treat it like "": with the filter `[""]`, `includes` drops a stream with no `category_id` that the model keeps (serve-m3u.ts line 81), and `Map.get(null)` misses a category stored under an absent id that the model finds (line 88).
- ServeM3u.PlaylistLines: assumes the unsanitised fields (`epg_channel_id`, `stream_icon`, and the decoded url, user and password) contain no newline. The source does not check this, and a newline there adds lines.
- Double quotes in names and URLs are written into the attributes unescaped, as the source does. The model states nothing about attribute parsing.
