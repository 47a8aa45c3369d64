/**
 * The playlist endpoint (GET): fetches the provider's categories and live streams,
 * keeps the streams of the requested categories and writes them out as an
 * extended-M3U document (the `#EXTM3U` header and `#EXTINF` entry tags of
 * sections 4.3.1.1 and 4.3.2.1 of RFC 8216; the `tvg-*` and `group-title`
 * attributes are an IPTV convention outside that RFC).
 */
module ServeM3u {
  import opened Wrappers
  import opened Text
  import opened Http
  import opened Xtream

  const Header := "#EXTM3U"
  const UnknownGroup := "Unknown"
  const ChannelLabelPrefix := "Channel "
  /** The message of the URIError that decoding a malformed `url` throws. */
  const UriMalformedMessage := "URI malformed"
  const CategoriesFailedMessage := "Failed to fetch categories"
  const StreamsFailedMessage := "Failed to fetch streams"

  /**
   * The query string. `cats` is the category filter after URI decoding and JSON
   * parsing: None when it is absent, empty or does not parse (a failed parse is
   * only logged).
   */
  datatype PlaylistQuery = PlaylistQuery(
    url: Option<string>,
    u: Option<string>,
    p: Option<string>,
    cats: Option<seq<string>>)

  // ---------------------------------------------------------------------------
  // Category id -> category name

  /** The map that `set`ting each category's id to its name, in provider order, leaves behind. */
  function CategoryMap(cats: seq<Category>): (m: map<string, string>)
    ensures m.Keys == set c | c in cats :: c.categoryId
  {
    if cats == [] then map[]
    else
      var last := cats[|cats| - 1];
      CategoryMap(cats[..|cats| - 1])[last.categoryId := last.categoryName]
  }

  /** A duplicated id maps to the name of the last category that carries it. */
  lemma {:induction false} CategoryMapLastWins(cats: seq<Category>, i: nat)
    requires i < |cats|
    requires forall j :: i < j < |cats| ==> cats[j].categoryId != cats[i].categoryId
    ensures cats[i].categoryId in CategoryMap(cats)
    ensures CategoryMap(cats)[cats[i].categoryId] == cats[i].categoryName
  {
    if i < |cats| - 1 {
      CategoryMapLastWins(cats[..|cats| - 1], i);
    }
  }

  /** Fills the category map one `set` per category. */
  method BuildCategoryMap(cats: seq<Category>) returns (m: map<string, string>)
    ensures m == CategoryMap(cats)
  {
    m := map[];
    for i := 0 to |cats|
      invariant m == CategoryMap(cats[..i])
    {
      assert cats[..i + 1][..i] == cats[..i];
      m := m[cats[i].categoryId := cats[i].categoryName];
    }
    assert cats[..|cats|] == cats;
  }

  // ---------------------------------------------------------------------------
  // Stream filter

  /** The streams from index `from` on whose category id is listed in `ids`, in order. */
  function KeptFrom(streams: seq<Channel>, ids: seq<string>, from: nat): (r: seq<Channel>)
    requires from <= |streams|
    ensures |r| <= |streams| - from
    decreases |streams| - from
  {
    if from == |streams| then []
    else
      var rest := KeptFrom(streams, ids, from + 1);
      if streams[from].categoryId in ids then [streams[from]] + rest else rest
  }

  /** A stream is kept exactly when it occurs from index `from` on with a listed category id. */
  lemma {:induction false} KeptFromMembers(streams: seq<Channel>, ids: seq<string>, from: nat)
    requires from <= |streams|
    ensures forall c :: c in KeptFrom(streams, ids, from) <==> c in streams[from..] && c.categoryId in ids
    decreases |streams| - from
  {
    if from < |streams| {
      KeptFromMembers(streams, ids, from + 1);
      assert streams[from..] == [streams[from]] + streams[from + 1..];
    }
  }

  /** The positions of the streams from index `from` on whose category id is listed, in stream order. */
  ghost function KeptPositions(streams: seq<Channel>, ids: seq<string>, from: nat): (pos: seq<nat>)
    requires from <= |streams|
    ensures forall k :: 0 <= k < |pos| ==> from <= pos[k] < |streams|
    decreases |streams| - from
  {
    if from == |streams| then []
    else
      var rest := KeptPositions(streams, ids, from + 1);
      if streams[from].categoryId in ids then [from] + rest else rest
  }

  /** The positions strictly increase. */
  lemma {:induction false} KeptPositionsIncrease(streams: seq<Channel>, ids: seq<string>, from: nat)
    requires from <= |streams|
    ensures forall k, l :: 0 <= k < l < |KeptPositions(streams, ids, from)| ==>
      KeptPositions(streams, ids, from)[k] < KeptPositions(streams, ids, from)[l]
    decreases |streams| - from
  {
    if from < |streams| {
      KeptPositionsIncrease(streams, ids, from + 1);
      var pos, later := KeptPositions(streams, ids, from), KeptPositions(streams, ids, from + 1);
      if streams[from].categoryId in ids {
        assert pos == [from] + later;
        forall k, l | 0 <= k < l < |pos| ensures pos[k] < pos[l] {
          assert pos[l] == later[l - 1] && from + 1 <= later[l - 1];
          if k > 0 {
            assert pos[k] == later[k - 1];
          }
        }
      }
    }
  }

  /** A position is listed exactly when the stream there has a listed category id. */
  lemma {:induction false} KeptPositionsListed(streams: seq<Channel>, ids: seq<string>, from: nat)
    requires from <= |streams|
    ensures forall i :: from <= i < |streams| ==> (i in KeptPositions(streams, ids, from) <==> streams[i].categoryId in ids)
    decreases |streams| - from
  {
    if from < |streams| {
      KeptPositionsListed(streams, ids, from + 1);
    }
  }

  /**
   * The kept streams are the streams at KeptPositions, one for one: an
   * order-preserving subsequence that leaves out exactly the unlisted streams.
   */
  lemma {:induction false} KeptExactly(streams: seq<Channel>, ids: seq<string>, from: nat)
    requires from <= |streams|
    ensures |KeptPositions(streams, ids, from)| == |KeptFrom(streams, ids, from)|
    ensures forall k :: 0 <= k < |KeptPositions(streams, ids, from)| ==>
      KeptFrom(streams, ids, from)[k] == streams[KeptPositions(streams, ids, from)[k]]
    decreases |streams| - from
  {
    if from < |streams| {
      KeptExactly(streams, ids, from + 1);
      var r, pos := KeptFrom(streams, ids, from), KeptPositions(streams, ids, from);
      var rest, later := KeptFrom(streams, ids, from + 1), KeptPositions(streams, ids, from + 1);
      if streams[from].categoryId in ids {
        assert r == [streams[from]] + rest && pos == [from] + later;
        forall k | 1 <= k < |pos| ensures r[k] == streams[pos[k]] {
          assert r[k] == rest[k - 1] && pos[k] == later[k - 1];
        }
      }
    }
  }

  /** The filter's category ids: an absent or unparsable filter is the empty list. */
  function FilterIds(cats: Option<seq<string>>): seq<string> {
    if cats.Some? then cats.value else []
  }

  /** The streams that go into the playlist: all of them unless the filter lists some ids. */
  function Retained(ids: seq<string>, streams: seq<Channel>): (r: seq<Channel>)
    ensures |ids| == 0 ==> r == streams
    ensures |ids| > 0 ==> forall c :: c in r <==> c in streams && c.categoryId in ids
  {
    KeptFromMembers(streams, ids, 0);
    assert streams[0..] == streams;
    if |ids| > 0 then KeptFrom(streams, ids, 0) else streams
  }

  /** With a non-empty filter, the retained streams are the matching streams in provider order. */
  lemma RetainedOrder(ids: seq<string>, streams: seq<Channel>)
    requires |ids| > 0
    ensures var r, pos := Retained(ids, streams), KeptPositions(streams, ids, 0);
      && |pos| == |r|
      && (forall k :: 0 <= k < |pos| ==> pos[k] < |streams| && r[k] == streams[pos[k]])
      && (forall k, l :: 0 <= k < l < |pos| ==> pos[k] < pos[l])
      && (forall i :: 0 <= i < |streams| ==> (i in pos <==> streams[i].categoryId in ids))
  {
    KeptExactly(streams, ids, 0);
    KeptPositionsIncrease(streams, ids, 0);
    KeptPositionsListed(streams, ids, 0);
    assert streams[0..] == streams;
  }

  // ---------------------------------------------------------------------------
  // Names

  /** The channel's name, or `Channel <stream_id>` when the name is empty. */
  function DisplayName(c: Channel): (r: string)
    ensures r != ""
    ensures c.name != "" ==> r == c.name
  {
    if c.name != "" then c.name else ChannelLabelPrefix + Decimal(c.streamId)
  }

  /** The mapped category name, or `Unknown` when the id is unmapped or maps to "". */
  function GroupName(groups: map<string, string>, id: string): (r: string)
    ensures r != ""
    ensures id in groups && groups[id] != "" ==> r == groups[id]
  {
    if id in groups && groups[id] != "" then groups[id] else UnknownGroup
  }

  /** The characters that would break an `#EXTINF` line. */
  predicate IsForbidden(ch: char) {
    ch == ',' || ch == '\n' || ch == '\r'
  }

  predicate NoForbidden(s: string) {
    forall i :: 0 <= i < |s| ==> !IsForbidden(s[i])
  }

  /** `s.replace(/[,\n\r]/g, ' ')`: every forbidden character becomes a space, the rest stays. */
  function ReplaceForbidden(s: string): (r: string)
    ensures |r| == |s| && NoForbidden(r)
    ensures NoForbidden(s) ==> r == s
  {
    seq(|s|, i requires 0 <= i < |s| => if IsForbidden(s[i]) then ' ' else s[i])
  }

  /** Each comma, newline and carriage return becomes a space, then both ends are trimmed. */
  function Sanitize(s: string): (r: string)
    ensures NoForbidden(r)
    ensures r == [] || (!IsWhitespace(r[0]) && !IsWhitespace(r[|r| - 1]))
    ensures |r| <= |s|
  {
    var t := ReplaceForbidden(s);
    TrimSlice(t);
    Trim(t)
  }

  /** Sanitising an already sanitised name changes nothing. */
  lemma SanitizeIdempotent(s: string)
    ensures Sanitize(Sanitize(s)) == Sanitize(s)
  {
    var r := Sanitize(s);
    assert ReplaceForbidden(r) == r;
    TrimFixedPoint(r);
  }

  /**
   * Sanitising only removes what would break the line: a name with no forbidden
   * character and no whitespace at either end is written exactly as it is.
   */
  lemma SanitizeFixedPoint(s: string)
    ensures Sanitize(s) == s <==> NoForbidden(s) && (s == [] || (!IsWhitespace(s[0]) && !IsWhitespace(s[|s| - 1])))
  {
    if NoForbidden(s) {
      TrimFixedPoint(s);
    }
  }

  /** A whitespace-only name is kept (it is not empty) and sanitises to the empty string. */
  lemma BlankNameSanitizesToEmpty(c: Channel)
    requires c.name != []
    requires forall i :: 0 <= i < |c.name| ==> IsWhitespace(c.name[i])
    ensures DisplayName(c) == c.name
    ensures Sanitize(DisplayName(c)) == ""
  {
    var t := ReplaceForbidden(c.name);
    assert AllWhitespace(t);
    TrimEmptyIffBlank(t);
  }

  /** The fallback group name is written as it is: sanitising leaves `Unknown` alone. */
  lemma UnknownGroupSanitized()
    ensures Sanitize(UnknownGroup) == UnknownGroup
  {
    assert ReplaceForbidden(UnknownGroup) == UnknownGroup;
    TrimFixedPoint(UnknownGroup);
  }

  /** A nameless stream is titled `Channel <stream_id>`, which sanitising leaves as it is. */
  lemma NamelessChannelLabel(c: Channel)
    requires c.name == ""
    ensures Sanitize(DisplayName(c)) == ChannelLabelPrefix + Decimal(c.streamId)
  {
    var d := Decimal(c.streamId);
    var l := ChannelLabelPrefix + d;
    assert ReplaceForbidden(l) == l by {
      forall i | 0 <= i < |l| ensures !IsForbidden(l[i]) {
        if i >= |ChannelLabelPrefix| { assert l[i] == d[i - |ChannelLabelPrefix|]; }
      }
    }
    assert l[|l| - 1] == d[|d| - 1];
    TrimFixedPoint(l);
  }

  /** A stream whose category id is unmapped, or maps to "", is grouped under `Unknown`. */
  lemma UnmappedGroupUnknown(groups: map<string, string>, id: string)
    requires id !in groups || groups[id] == ""
    ensures Sanitize(GroupName(groups, id)) == UnknownGroup
  {
    UnknownGroupSanitized();
  }

  /** A nameless stream in an unmapped category: `{name: "", stream_id: 42, category_id: "7"}`. */
  lemma FallbackExample(c: Channel, groups: map<string, string>)
    requires c.name == "" && c.streamId == 42 && c.categoryId == "7"
    requires "7" !in groups
    ensures Sanitize(DisplayName(c)) == "Channel 42"
    ensures Sanitize(GroupName(groups, c.categoryId)) == "Unknown"
  {
    NamelessChannelLabel(c);
    assert Decimal(42) == "42";
    UnmappedGroupUnknown(groups, c.categoryId);
  }

  // ---------------------------------------------------------------------------
  // Serialisation

  /** The values written for one channel: what the handler computes per stream before appending. */
  datatype EntryFields = EntryFields(epgId: string, name: string, logo: string, group: string, url: string)

  /** The direct playback URL of one channel. */
  function StreamUrl(cred: Credentials, c: Channel): (r: string)
    ensures |r| > |cred.url| + 3 && r[..|cred.url|] == cred.url && r[|r| - 3..] == ".ts"
  {
    cred.url + "/live/" + cred.username + "/" + cred.password + "/" + Decimal(c.streamId) + ".ts"
  }

  /**
   * The values written for one stream: the EPG id and logo as given, the
   * sanitised display and group names, and the playback URL.
   */
  function FieldsOf(c: Channel, groups: map<string, string>, cred: Credentials): (f: EntryFields)
    ensures f.epgId == c.epgChannelId && f.logo == c.streamIcon
    ensures NoForbidden(f.name) && NoForbidden(f.group)
  {
    EntryFields(c.epgChannelId, Sanitize(DisplayName(c)), c.streamIcon, Sanitize(GroupName(groups, c.categoryId)), StreamUrl(cred, c))
  }

  /** The fields of every stream, in stream order. */
  function AllFields(streams: seq<Channel>, groups: map<string, string>, cred: Credentials): (fs: seq<EntryFields>)
    ensures |fs| == |streams|
  {
    if streams == [] then []
    else
      var last := streams[|streams| - 1];
      AllFields(streams[..|streams| - 1], groups, cred) + [FieldsOf(last, groups, cred)]
  }

  lemma {:induction false} AllFieldsAt(streams: seq<Channel>, groups: map<string, string>, cred: Credentials, k: nat)
    requires k < |streams|
    ensures AllFields(streams, groups, cred)[k] == FieldsOf(streams[k], groups, cred)
  {
    if k < |streams| - 1 {
      AllFieldsAt(streams[..|streams| - 1], groups, cred, k);
    }
  }

  lemma AllFieldsSnoc(streams: seq<Channel>, groups: map<string, string>, cred: Credentials, i: nat)
    requires i < |streams|
    ensures AllFields(streams[..i + 1], groups, cred) == AllFields(streams[..i], groups, cred) + [FieldsOf(streams[i], groups, cred)]
  {
    assert streams[..i + 1][..i] == streams[..i];
  }

  /** `#EXTINF:-1` and the four attributes of one channel. */
  function ExtinfAttributes(f: EntryFields): string {
    "#EXTINF:-1 tvg-id=\"" + f.epgId + "\" tvg-name=\"" + f.name
      + "\" tvg-logo=\"" + f.logo + "\" group-title=\"" + f.group + "\""
  }

  /** The metadata line of one channel, without its newline: the attributes, a comma, the title. */
  function ExtinfLine(f: EntryFields): string {
    ExtinfAttributes(f) + "," + f.name
  }

  /** The metadata line with its newline, as appended to the document. */
  function MetadataLine(f: EntryFields): string {
    ExtinfLine(f) + "\n"
  }

  /** The stream URL with its newline, as appended to the document. */
  function UrlLine(f: EntryFields): string {
    f.url + "\n"
  }

  /** The two lines one channel contributes. */
  function Entry(f: EntryFields): string {
    MetadataLine(f) + UrlLine(f)
  }

  function Entries(fs: seq<EntryFields>): (r: string)
    ensures Terminated(r)
    ensures r == [] <==> fs == []
  {
    if fs == [] then "" else Entries(fs[..|fs| - 1]) + Entry(fs[|fs| - 1])
  }

  lemma EntriesSnoc(fs: seq<EntryFields>, f: EntryFields)
    ensures Entries(fs + [f]) == Entries(fs) + Entry(f)
  {
    assert (fs + [f])[..|fs|] == fs;
  }

  /** The whole document: the header line, then the entries in stream order. */
  function PlaylistText(streams: seq<Channel>, groups: map<string, string>, cred: Credentials): (doc: string)
    ensures |doc| > |Header| && doc[..|Header| + 1] == Header + "\n"
    ensures doc == Header + "\n" <==> streams == []
  {
    Header + "\n" + Entries(AllFields(streams, groups, cred))
  }

  /** Accumulates the document with `+=`, header first, then two lines per stream. */
  method RenderPlaylist(streams: seq<Channel>, groups: map<string, string>, cred: Credentials)
    returns (content: string)
    ensures content == PlaylistText(streams, groups, cred)
  {
    content := Header + "\n";
    for i := 0 to |streams|
      invariant content == Header + "\n" + Entries(AllFields(streams[..i], groups, cred))
    {
      var f := FieldsOf(streams[i], groups, cred);
      RenderStep(streams, groups, cred, i);
      ConcatAssociates4(Header + "\n", Entries(AllFields(streams[..i], groups, cred)), MetadataLine(f), UrlLine(f));
      content := content + MetadataLine(f);
      content := content + UrlLine(f);
    }
    assert streams[..|streams|] == streams;
  }

  /** One channel's two lines extend the entries of the streams before it to the entries including it. */
  lemma RenderStep(streams: seq<Channel>, groups: map<string, string>, cred: Credentials, i: nat)
    requires i < |streams|
    ensures var f := FieldsOf(streams[i], groups, cred);
      Entries(AllFields(streams[..i + 1], groups, cred))
      == Entries(AllFields(streams[..i], groups, cred)) + MetadataLine(f) + UrlLine(f)
  {
    var f := FieldsOf(streams[i], groups, cred);
    var done := AllFields(streams[..i], groups, cred);
    AllFieldsSnoc(streams, groups, cred, i);
    EntriesSnoc(done, f);
    ConcatAssociates(Entries(done), MetadataLine(f), UrlLine(f));
  }

  /** The lines of the document: the header, then a metadata line and a URL line per channel. */
  function DocumentLines(fs: seq<EntryFields>): (lines: seq<string>)
    ensures |lines| == 1 + 2 * |fs|
  {
    if fs == [] then [Header]
    else DocumentLines(fs[..|fs| - 1]) + [ExtinfLine(fs[|fs| - 1]), fs[|fs| - 1].url]
  }

  lemma {:induction false} DocumentLinesHead(fs: seq<EntryFields>)
    ensures DocumentLines(fs)[0] == Header
  {
    if fs != [] {
      DocumentLinesHead(fs[..|fs| - 1]);
    }
  }

  lemma {:induction false} DocumentLinesAt(fs: seq<EntryFields>, k: nat)
    requires k < |fs|
    ensures DocumentLines(fs)[1 + 2 * k] == ExtinfLine(fs[k])
    ensures DocumentLines(fs)[2 + 2 * k] == fs[k].url
  {
    if k < |fs| - 1 {
      DocumentLinesAt(fs[..|fs| - 1], k);
    }
  }

  /** The fields written into the document unsanitised contain no newline. */
  predicate LineSafe(streams: seq<Channel>, cred: Credentials) {
    && '\n' !in cred.url && '\n' !in cred.username && '\n' !in cred.password
    && forall c :: c in streams ==> '\n' !in c.epgChannelId && '\n' !in c.streamIcon
  }

  predicate FieldsLineSafe(f: EntryFields) {
    '\n' !in f.epgId && '\n' !in f.name && '\n' !in f.logo && '\n' !in f.group && '\n' !in f.url
  }

  lemma FieldsOfLineSafe(c: Channel, groups: map<string, string>, cred: Credentials)
    requires '\n' !in cred.url && '\n' !in cred.username && '\n' !in cred.password
    requires '\n' !in c.epgChannelId && '\n' !in c.streamIcon
    ensures FieldsLineSafe(FieldsOf(c, groups, cred))
  {
    var f := FieldsOf(c, groups, cred);
    assert '\n' !in f.name && '\n' !in f.group by {
      assert NoForbidden(f.name) && NoForbidden(f.group);
    }
    var digits := Decimal(c.streamId);
    assert '\n' !in digits by {
      assert IsNumeral(digits);
    }
  }

  lemma AllFieldsLineSafe(streams: seq<Channel>, groups: map<string, string>, cred: Credentials)
    requires LineSafe(streams, cred)
    ensures forall k :: 0 <= k < |streams| ==> FieldsLineSafe(AllFields(streams, groups, cred)[k])
  {
    forall k | 0 <= k < |streams| ensures FieldsLineSafe(AllFields(streams, groups, cred)[k]) {
      assert streams[k] in streams;
      AllFieldsAt(streams, groups, cred, k);
      FieldsOfLineSafe(streams[k], groups, cred);
    }
  }

  lemma ExtinfLineSafe(f: EntryFields)
    requires FieldsLineSafe(f)
    ensures '\n' !in ExtinfLine(f)
  {
  }

  lemma EntrySplit(f: EntryFields)
    requires FieldsLineSafe(f)
    ensures SplitLines(Entry(f)) == [ExtinfLine(f), f.url]
  {
    var ext := ExtinfLine(f);
    ExtinfLineSafe(f);
    SplitLinesCons(ext, f.url + "\n");
    SplitLinesCons(f.url, "");
    assert f.url + "\n" + "" == f.url + "\n";
    ConcatAssociates(ext + "\n", f.url, "\n");
  }

  lemma {:induction false} DocumentSplit(fs: seq<EntryFields>)
    requires forall k :: 0 <= k < |fs| ==> FieldsLineSafe(fs[k])
    ensures SplitLines(Header + "\n" + Entries(fs)) == DocumentLines(fs)
  {
    if fs == [] {
      SplitLinesCons(Header, "");
    } else {
      var prefix, last := fs[..|fs| - 1], fs[|fs| - 1];
      DocumentSplit(prefix);
      EntrySplit(last);
      var done := Header + "\n" + Entries(prefix);
      assert Terminated(done) by {
        assert done[|done| - 1] == '\n';
      }
      SplitLinesAppend(done, Entry(last));
      ConcatAssociates(Header + "\n", Entries(prefix), Entry(last));
    }
  }

  /**
   * Read back line by line, the document is the header followed by one metadata
   * line and one URL line per retained stream, in order: 1 + 2n lines.
   */
  lemma PlaylistLines(streams: seq<Channel>, groups: map<string, string>, cred: Credentials)
    requires LineSafe(streams, cred)
    ensures var lines := SplitLines(PlaylistText(streams, groups, cred));
      && |lines| == 1 + 2 * |streams|
      && lines[0] == Header
      && forall k :: 0 <= k < |streams| ==>
           lines[1 + 2 * k] == ExtinfLine(FieldsOf(streams[k], groups, cred))
           && lines[2 + 2 * k] == StreamUrl(cred, streams[k])
  {
    var fs := AllFields(streams, groups, cred);
    AllFieldsLineSafe(streams, groups, cred);
    DocumentSplit(fs);
    DocumentLinesHead(fs);
    forall k | 0 <= k < |streams|
      ensures DocumentLines(fs)[1 + 2 * k] == ExtinfLine(FieldsOf(streams[k], groups, cred))
      ensures DocumentLines(fs)[2 + 2 * k] == StreamUrl(cred, streams[k])
    {
      DocumentLinesAt(fs, k);
      AllFieldsAt(streams, groups, cred, k);
    }
  }

  /** The text after the last comma of a line (all of it when there is none). */
  function AfterLastComma(s: string): string {
    if s == [] then []
    else if s[|s| - 1] == ',' then []
    else AfterLastComma(s[..|s| - 1]) + [s[|s| - 1]]
  }

  lemma {:induction false} AfterLastCommaOf(p: string, t: string)
    requires ',' !in t
    ensures AfterLastComma(p + "," + t) == t
  {
    if t != [] {
      var t' := t[..|t| - 1];
      assert (p + "," + t)[..|p + "," + t| - 1] == p + "," + t';
      AfterLastCommaOf(p, t');
    } else {
      assert p + "," + t == p + ",";
    }
  }

  /** A player that takes the title after the last comma reads exactly the sanitised channel name. */
  lemma ExtinfTitle(c: Channel, groups: map<string, string>, cred: Credentials)
    ensures AfterLastComma(ExtinfLine(FieldsOf(c, groups, cred))) == Sanitize(DisplayName(c))
  {
    var f := FieldsOf(c, groups, cred);
    assert NoForbidden(f.name);
    AfterLastCommaOf(ExtinfAttributes(f), f.name);
  }

  // ---------------------------------------------------------------------------
  // The handler

  /**
   * Answers one playlist request. `decodeUri` stands for `decodeURIComponent`
   * (None when it throws); the two replies are what the categories and the
   * streams requests would return, consulted only if those requests are made.
   */
  method Serve(
    verb: string,
    q: PlaylistQuery,
    decodeUri: string -> Option<string>,
    categoriesReply: Reply<seq<Category>>,
    streamsReply: Reply<seq<Channel>>)
    returns (ex: Exchange<string>)
    ensures verb != "GET" ==>
      ex == Exchange([], MethodNotAllowed) && ex.response.ErrorMessage() == MethodNotAllowedMessage
    ensures verb == "GET" && (Missing(q.url) || Missing(q.u) || Missing(q.p)) ==>
      ex == Exchange([], MissingParameters) && ex.response.ErrorMessage() == MissingParametersMessage
    ensures verb == "GET" && !Missing(q.url) && !Missing(q.u) && !Missing(q.p) ==>
      match decodeUri(q.url.value)
      case None => ex == Exchange([], ServerError(UriMalformedMessage))
      case Some(base) =>
        var cred := Credentials(base, q.u.value, q.p.value);
        if !categoriesReply.Received? then
          ex == Exchange([CategoriesUrl(cred)], ServerError(FailureMessage(categoriesReply, CategoriesFailedMessage)))
        else if !streamsReply.Received? then
          ex == Exchange([CategoriesUrl(cred), StreamsUrl(cred)], ServerError(FailureMessage(streamsReply, StreamsFailedMessage)))
        else
          ex == Exchange([CategoriesUrl(cred), StreamsUrl(cred)],
            Success(PlaylistText(Retained(FilterIds(q.cats), streamsReply.body), CategoryMap(categoriesReply.body), cred)))
  {
    if verb != "GET" {
      return Exchange([], MethodNotAllowed);
    }
    if Missing(q.url) || Missing(q.u) || Missing(q.p) {
      return Exchange([], MissingParameters);
    }
    var decoded := decodeUri(q.url.value);
    if decoded.None? {
      return Exchange([], ServerError(UriMalformedMessage));
    }
    var cred := Credentials(decoded.value, q.u.value, q.p.value);

    var ids: seq<string> := [];
    if q.cats.Some? {
      ids := q.cats.value;
    }

    var fetched := [CategoriesUrl(cred)];
    if !categoriesReply.Received? {
      return Exchange(fetched, ServerError(FailureMessage(categoriesReply, CategoriesFailedMessage)));
    }
    var groups := BuildCategoryMap(categoriesReply.body);

    fetched := fetched + [StreamsUrl(cred)];
    if !streamsReply.Received? {
      return Exchange(fetched, ServerError(FailureMessage(streamsReply, StreamsFailedMessage)));
    }

    var streams := Retained(ids, streamsReply.body);
    var content := RenderPlaylist(streams, groups, cred);
    return Exchange(fetched, Success(content));
  }
}
